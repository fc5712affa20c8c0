/**
  TcpSocket::Send (pwl-fwupdate/fastboot/socket.cpp): the scatter-gather form, and the
  single-buffer form, which differs in not advancing its pointer.

  The kernel is a script of return values: -1 is an error, k >= 0 takes at most k of the
  bytes offered.  A script that has run out answers with errors.
 */
module TcpSend {
  import opened CText

  /** The bytes handed to the network, and the function's result. */
  datatype Sent = Sent(bytes: string, ok: bool)

  function Taken(script: seq<int>, offered: nat): (n: int)
    ensures -1 <= n <= offered
  {
    if script == [] || script[0] < 0 then -1 else if script[0] < offered then script[0] else offered
  }

  /** What is left of the buffers once the first `n` bytes are gone. */
  function Skip(buffers: seq<string>, n: nat): (rest: seq<string>)
    requires n <= |Join(buffers)|
    ensures |rest| <= |buffers|
  {
    if n == 0 then buffers
    else if |buffers[0]| > n then [buffers[0][n..]] + buffers[1..]
    else Skip(buffers[1..], n - |buffers[0]|)
  }

  lemma {:induction false} SkipKeepsRest(buffers: seq<string>, n: nat)
    requires n <= |Join(buffers)|
    ensures Join(Skip(buffers, n)) == Join(buffers)[n..]
  {
    if n > 0 {
      var first, tail := buffers[0], Join(buffers[1..]);
      if |first| > n {
        assert Skip(buffers, n)[1..] == buffers[1..];
        assert (first + tail)[n..] == first[n..] + tail;
      } else {
        SkipKeepsRest(buffers[1..], n - |first|);
        assert (first + tail)[n..] == tail[n - |first|..];
      }
    }
  }

  function SendAll(buffers: seq<string>, script: seq<int>): (r: Sent)
    decreases |script|
  {
    if buffers == [] then Sent("", true)
    else
      var whole := Join(buffers);
      var n := Taken(script, |whole|);
      if n < 0 then Sent("", false)
      else
        var r := SendAll(Skip(buffers, n), script[1..]);
        Sent(whole[..n] + r.bytes, r.ok)
  }

  /** The vector send, as it runs: shorten or step over buffers, then erase those that are done. */
  method SendVector(buffers: seq<string>, script: seq<int>) returns (r: Sent)
    ensures r == SendAll(buffers, script)
  {
    var bufs, bytes := buffers, "";
    var k: nat := 0;
    ghost var all := SendAll(buffers, script);
    assert script[0..] == script && "" + all.bytes == all.bytes;
    while bufs != []
      invariant k <= |script|
      invariant all == Sent(bytes + SendAll(bufs, script[k..]).bytes, SendAll(bufs, script[k..]).ok)
      decreases |script| - k
    {
      var whole := Join(bufs);
      var sent := Taken(script[k..], |whole|);
      if sent == -1 {
        assert bytes + "" == bytes;
        return Sent(bytes, false);
      }
      ghost var rest := SendAll(Skip(bufs, sent), script[k + 1..]);
      assert script[k..][1..] == script[k + 1..];
      assert bytes + (whole[..sent] + rest.bytes) == bytes + whole[..sent] + rest.bytes;
      bytes := bytes + whole[..sent];
      bufs := Advance(bufs, sent);
      k := k + 1;
    }
    assert bytes + "" == bytes;
    r := Sent(bytes, true);
  }

  /** The inner loop and the erase; the iterator never passes the end. */
  method Advance(buffers: seq<string>, sent: nat) returns (rest: seq<string>)
    requires sent <= |Join(buffers)|
    ensures rest == Skip(buffers, sent)
  {
    var bufs, iter, left := buffers, 0, sent;
    assert bufs[0..] == bufs;
    while left > 0
      invariant 0 <= iter <= |bufs| && 0 <= left && bufs == buffers
      invariant left <= |Join(bufs[iter..])| && Skip(buffers, sent) == Skip(bufs[iter..], left)
      decreases |bufs| - iter
    {
      assert iter < |bufs|;
      assert bufs[iter..][1..] == bufs[iter + 1..];
      if |bufs[iter]| > left {
        bufs := bufs[iter := bufs[iter][left..]];
        assert bufs[iter..] == [bufs[iter]] + buffers[iter + 1..];
        break;
      }
      left := left - |bufs[iter]|;
      iter := iter + 1;
    }
    rest := bufs[iter..];
  }

  /** Bytes sent followed by bytes left is always the original; success means all of it was sent. */
  lemma {:induction false} SendsInOrder(buffers: seq<string>, script: seq<int>)
    ensures var r := SendAll(buffers, script);
            r.bytes <= Join(buffers) && (r.ok ==> r.bytes == Join(buffers))
    decreases |script|
  {
    if buffers != [] {
      var whole := Join(buffers);
      var n := Taken(script, |whole|);
      if n >= 0 {
        SkipKeepsRest(buffers, n);
        SendsInOrder(Skip(buffers, n), script[1..]);
        assert whole == whole[..n] + whole[n..];
      }
    }
  }

  /** A call that takes nothing is simply made again ... */
  lemma ZeroRetried(buffers: seq<string>, script: seq<int>)
    ensures SendAll(buffers, [0] + script) == SendAll(buffers, script)
  {
    assert ([0] + script)[1..] == script;
    var r := SendAll(buffers, script);
    assert Join(buffers)[..0] + r.bytes == r.bytes;
  }

  /** ... and one that takes `k` bytes has sent just these when the next one fails. */
  lemma OneCall(buffers: seq<string>, k: nat, error: int, more: seq<int>)
    requires k < |Join(buffers)| && error < 0
    ensures SendAll(buffers, [k, error] + more) == Sent(Join(buffers)[..k], false)
  {
    var script, rest := [k, error] + more, Skip(buffers, k);
    SkipKeepsRest(buffers, k);
    assert rest != [] by {
      assert |Join(rest)| > 0;
    }
    assert script[1..][0] == error;
    assert SendAll(rest, script[1..]) == Sent("", false);
    assert Join(buffers)[..k] + "" == Join(buffers)[..k];
  }

  predicate LastFull(buffers: seq<string>) {
    buffers == [] || buffers[|buffers| - 1] != ""
  }

  lemma {:induction false} SkipLastFull(buffers: seq<string>, n: nat)
    requires n <= |Join(buffers)|
    ensures LastFull(buffers) ==> LastFull(Skip(buffers, n))
    ensures !LastFull(buffers) ==> Skip(buffers, n) != [] && !LastFull(Skip(buffers, n))
  {
    if n > 0 {
      if |buffers[0]| <= n {
        SkipLastFull(buffers[1..], n - |buffers[0]|);
        if |buffers| == 1 {
          assert Join(buffers[1..]) == "";
        }
      }
    }
  }

  /** If the kernel makes progress often enough, the send succeeds. */
  lemma {:induction false} ProgressSucceeds(buffers: seq<string>, script: seq<int>)
    requires LastFull(buffers) && |script| >= |Join(buffers)|
    requires forall i :: 0 <= i < |script| ==> script[i] >= 1
    ensures SendAll(buffers, script).ok
    decreases |script|
  {
    if buffers != [] {
      LastFullHasBytes(buffers);
      var n := Taken(script, |Join(buffers)|);
      SkipKeepsRest(buffers, n);
      SkipLastFull(buffers, n);
      ProgressSucceeds(Skip(buffers, n), script[1..]);
    }
  }

  lemma {:induction false} LastFullHasBytes(buffers: seq<string>)
    requires buffers != [] && LastFull(buffers)
    ensures Join(buffers) != ""
  {
    if |buffers| > 1 {
      LastFullHasBytes(buffers[1..]);
    }
  }

  lemma {:induction false} TrailingEmptyNeverSucceeds(buffers: seq<string>, script: seq<int>)
    requires !LastFull(buffers)
    ensures !SendAll(buffers, script).ok
    decreases |script|
  {
    var n := Taken(script, |Join(buffers)|);
    if n >= 0 {
      SkipLastFull(buffers, n);
      TrailingEmptyNeverSucceeds(Skip(buffers, n), script[1..]);
    }
  }

  /** A send of these buffers can succeed at all exactly when the last of them is not empty. */
  lemma CanSucceedExactly(buffers: seq<string>)
    ensures (exists script :: SendAll(buffers, script).ok) <==> LastFull(buffers)
  {
    if LastFull(buffers) {
      var script := seq(|Join(buffers)|, i => 1);
      ProgressSucceeds(buffers, script);
    } else {
      forall script
        ensures !SendAll(buffers, script).ok
      {
        TrailingEmptyNeverSucceeds(buffers, script);
      }
    }
  }

  // ----- The single-buffer form -----

  /** Each call offers `length` bytes from the start of `data` again. */
  function SendOne(data: string, length: nat, script: seq<int>): (r: Sent)
    requires length <= |data|
    decreases |script|
  {
    if length == 0 then Sent("", true)
    else
      var n := Taken(script, length);
      if n < 0 then Sent("", false)
      else
        var r := SendOne(data, length - n, script[1..]);
        Sent(data[..n] + r.bytes, r.ok)
  }

  ghost predicate SingleSoFar(data: string, script: seq<int>, length: nat, k: nat, bytes: string) {
    && k <= |script| && length <= |data|
    && var rest := SendOne(data, length, script[k..]);
       SendOne(data, |data|, script) == Sent(bytes + rest.bytes, rest.ok)
  }

  lemma SingleStep(data: string, script: seq<int>, length: nat, k: nat, bytes: string)
    requires SingleSoFar(data, script, length, k, bytes) && length > 0
    ensures var n := Taken(script[k..], length);
            if n < 0 then SendOne(data, |data|, script) == Sent(bytes, false)
            else SingleSoFar(data, script, length - n, k + 1, bytes + data[..n])
  {
    var n := Taken(script[k..], length);
    if n < 0 {
      Assoc(bytes, "", "");
    } else {
      assert script[k..][1..] == script[k + 1..];
      Assoc(bytes, data[..n], SendOne(data, length - n, script[k + 1..]).bytes);
    }
  }

  method SendSingle(data: string, script: seq<int>) returns (r: Sent)
    ensures r == SendOne(data, |data|, script)
  {
    var length: nat := |data|;
    var k: nat := 0;
    var bytes := "";
    assert script[0..] == script;
    Assoc("", SendOne(data, |data|, script).bytes, "");
    while length > 0
      invariant SingleSoFar(data, script, length, k, bytes)
      decreases |script| - k
    {
      var sent := Taken(script[k..], length);
      SingleStep(data, script, length, k, bytes);
      if sent == -1 {
        return Sent(bytes, false);
      }
      bytes := bytes + data[..sent];
      length := length - sent;
      k := k + 1;
    }
    Assoc(bytes, "", "");
    r := Sent(bytes, true);
  }

  /** How much the first call that takes anything takes. */
  function FirstTaken(script: seq<int>, offered: nat): int {
    var n := Taken(script, offered);
    if n == 0 && offered > 0 then FirstTaken(script[1..], offered) else n
  }

  lemma {:induction false} FirstThenRest(data: string, script: seq<int>) returns (rest: seq<int>)
    requires data != "" && FirstTaken(script, |data|) > 0
    ensures var n := FirstTaken(script, |data|);
            n <= |data| &&
            SendOne(data, |data|, script) ==
            Sent(data[..n] + SendOne(data, |data| - n, rest).bytes, SendOne(data, |data| - n, rest).ok)
    decreases |script|
  {
    var n := Taken(script, |data|);
    rest := script[1..];
    if n == 0 {
      var more := SendOne(data, |data|, rest).bytes;
      assert data[..0] + more == more;
      rest := FirstThenRest(data, rest);
    }
  }

  lemma {:induction false} SuccessTakes(data: string, length: nat, script: seq<int>)
    requires 0 < length <= |data| && SendOne(data, length, script).ok
    ensures FirstTaken(script, length) > 0
    ensures SendOne(data, length, script).bytes != "" && SendOne(data, length, script).bytes[0] == data[0]
    decreases |script|
  {
    var n := Taken(script, length);
    if n == 0 {
      SuccessTakes(data, length, script[1..]);
      var more := SendOne(data, length, script[1..]).bytes;
      assert data[..0] + more == more;
    }
  }

  function Marked(n: nat): string {
    seq(n, i => if i == 0 then 'a' else 'b')
  }

  /**
    The single-buffer send is right for every content of length `n`, under a script with which
    it reports success, exactly when its first productive call takes all `n` bytes at once.
   */
  lemma SingleSendExact(n: nat, script: seq<int>)
    requires n > 0
    ensures (forall data: string :: |data| == n && SendOne(data, n, script).ok ==> SendOne(data, n, script).bytes == data) <==>
            (SendOne(Marked(n), n, script).ok ==> FirstTaken(script, n) == n)
  {
    if SendOne(Marked(n), n, script).ok && FirstTaken(script, n) != n {
      var data := Marked(n);
      SuccessTakes(data, n, script);
      var rest := FirstThenRest(data, script);
      var k := FirstTaken(script, n);
      SuccessTakes(data, n - k, rest);
      assert SendOne(data, n, script).bytes[k] == 'a' && data[k] == 'b';
    } else {
      forall data: string | |data| == n && SendOne(data, n, script).ok
        ensures SendOne(data, n, script).bytes == data
      {
        SameOutcome(data, Marked(n), n, script);
        SuccessTakes(data, n, script);
        var rest := FirstThenRest(data, script);
        assert data[..n] + "" == data;
      }
    }
  }

  /** Success does not depend on the content. */
  lemma {:induction false} SameOutcome(a: string, b: string, length: nat, script: seq<int>)
    requires length <= |a| && length <= |b|
    ensures SendOne(a, length, script).ok == SendOne(b, length, script).ok
    decreases |script|
  {
    if length > 0 {
      var n := Taken(script, length);
      if n >= 0 {
        SameOutcome(a, b, length - n, script[1..]);
      }
    }
  }
}
