/**
  LinuxUsbTransport (pwl-fwupdate/fastboot/usb_linux.cpp): bulk transfers of at
  most 16 KiB over a device handle.

  The kernel and the device are an arbitrary script: bulk-out ioctl number k returns
  `acks[k]`, bulk-in ioctl number k returns `replies[k]`; past its end a script answers
  with errors.  `trace` is what a bus analyser would record.
 */
module UsbTransport {
  import opened CText

  const MAX_USBFS_BULK_SIZE: nat := 16 * 1024
  const MAX_RETRIES: nat := 5

  datatype Reply = Fault | Packet(data: string)

  /** A submitted bulk-out transfer with the ioctl's result, a received packet, or a failed bulk-in. */
  datatype Event = Out(data: string, ack: int) | In(data: string) | InFault

  datatype Link = Link(epIn: int, epOut: int, desc: int,
                       acks: seq<int>, outs: nat, replies: seq<Reply>, ins: nat,
                       trace: seq<Event>)

  // ----- Writing -----

  /** How a buffer is cut up.  An empty buffer is one empty transfer. */
  function Chunks(data: string): (cs: seq<string>)
    ensures |cs| >= 1
    decreases |data|
  {
    if |data| <= MAX_USBFS_BULK_SIZE then [data]
    else [data[..MAX_USBFS_BULK_SIZE]] + Chunks(data[MAX_USBFS_BULK_SIZE..])
  }

  function Ack(acks: seq<int>, k: nat): int {
    if k < |acks| then acks[k] else -1
  }

  /** The first `n` transfers of `chunks`, as ioctls `k`, `k + 1`, ... answer them. */
  function Submitted(acks: seq<int>, k: nat, chunks: seq<string>, n: nat): (ev: seq<Event>)
    requires n <= |chunks|
    ensures |ev| == n
    ensures forall i :: 0 <= i < n ==> ev[i] == Out(chunks[i], Ack(acks, k + i))
  {
    if n == 0 then [] else Submitted(acks, k, chunks, n - 1) + [Out(chunks[n - 1], Ack(acks, k + n - 1))]
  }

  /** How many transfers, from number `j` on, are taken in full before one is not. */
  function Taken(acks: seq<int>, k: nat, chunks: seq<string>, j: nat := 0): (n: nat)
    requires j <= |chunks|
    ensures j <= n <= |chunks|
    ensures forall i :: j <= i < n ==> Ack(acks, k + i) == |chunks[i]|
    ensures n < |chunks| ==> Ack(acks, k + n) != |chunks[n]|
    decreases |chunks| - j
  {
    if j < |chunks| && Ack(acks, k + j) == |chunks[j]| then Taken(acks, k, chunks, j + 1) else j
  }

  /** The transfers that writing `chunks` submits: the last one may be the one that fails. */
  function Transfers(acks: seq<int>, k: nat, chunks: seq<string>): seq<Event> {
    var taken := Taken(acks, k, chunks);
    Submitted(acks, k, chunks, if taken < |chunks| then taken + 1 else taken)
  }

  function Write(l: Link, data: string): (r: (Link, int)) {
    if l.epOut == 0 || l.desc == -1 then (l, -1)
    else
      var ev := Transfers(l.acks, l.outs, Chunks(data));
      (l.(outs := l.outs + |ev|, trace := l.trace + ev),
       if Taken(l.acks, l.outs, Chunks(data)) == |Chunks(data)| then U32(|data|) else -1)
  }

  // ----- Reading -----

  /** The ioctl result for a buffer of `xfer` bytes; a packet that does not fit is an error. */
  function Incoming(replies: seq<Reply>, k: nat, xfer: nat): Option<string> {
    if k < |replies| && replies[k].Packet? && |replies[k].data| <= xfer then Some(replies[k].data) else None
  }

  /** How many of the ioctls `k`, `k + 1`, ... fail before one succeeds or the retries are used up. */
  function Faults(replies: seq<Reply>, k: nat, xfer: nat, retry: nat := 0): (n: nat)
    requires retry <= MAX_RETRIES + 1
    ensures retry <= n <= MAX_RETRIES + 1
    ensures forall i :: k + retry <= i < k + n ==> Incoming(replies, i, xfer).None?
    ensures n <= MAX_RETRIES ==> Incoming(replies, k + n, xfer).Some?
    decreases MAX_RETRIES + 1 - retry
  {
    if retry <= MAX_RETRIES && Incoming(replies, k + retry, xfer).None? then Faults(replies, k, xfer, retry + 1)
    else retry
  }

  function FaultRun(n: nat): (ev: seq<Event>)
    ensures |ev| == n && forall i :: 0 <= i < n ==> ev[i] == InFault
  {
    if n == 0 then [] else FaultRun(n - 1) + [InFault]
  }

  function AfterFaults(l: Link, n: nat): Link {
    l.(ins := l.ins + n, trace := l.trace + FaultRun(n))
  }

  /** One bulk-in transfer of at most `xfer` bytes, retried on error. */
  function Pull(l: Link, xfer: nat): (r: (Link, Option<string>))
    ensures r.1.Some? ==> |r.1.value| <= xfer && r.0.ins <= |r.0.replies|
    ensures r.0.ins > l.ins
  {
    var n := Faults(l.replies, l.ins, xfer);
    var m := AfterFaults(l, n);
    if n > MAX_RETRIES then (m, None)
    else
      var data := Incoming(l.replies, l.ins + n, xfer).value;
      (m.(ins := m.ins + 1, trace := m.trace + [In(data)]), Some(data))
  }

  function Prepend(got: string, r: (Link, Option<string>)): (Link, Option<string>) {
    (r.0, if r.1.None? then None else Some(got + r.1.value))
  }

  /** Packets are appended until `len` bytes are there or one came short. */
  function Read(l: Link, len: nat): (r: (Link, Option<string>))
    ensures r.0 == l.(ins := r.0.ins, trace := r.0.trace)
    ensures l.trace <= r.0.trace && l.ins <= r.0.ins
    ensures r.1.Some? ==> |r.1.value| <= len
    ensures r.1.Some? && len > 0 ==> l.ins < r.0.ins <= |l.replies|
    decreases len
  {
    if l.epIn == 0 || l.desc == -1 then (l, None)
    else if len == 0 then (l, Some(""))
    else
      var xfer := if len > MAX_USBFS_BULK_SIZE then MAX_USBFS_BULK_SIZE else len;
      var (m, p) := Pull(l, xfer);
      if p.None? || |p.value| < xfer then (m, p) else Prepend(p.value, Read(m, len - xfer))
  }

  function Close(l: Link): Link {
    l.(desc := -1)
  }

  // ----- What is on the wire -----

  /** The transfers of `chunks`, all of them taken in full by the kernel. */
  function Delivered(chunks: seq<string>): (ev: seq<Event>)
    ensures |ev| == |chunks|
    ensures forall i :: 0 <= i < |ev| ==> ev[i] == Out(chunks[i], |chunks[i]|)
  {
    seq(|chunks|, i requires 0 <= i < |chunks| => Out(chunks[i], |chunks[i]|))
  }

  function Payload(ev: seq<Event>): string {
    if ev == [] then "" else (if ev[0].Out? then ev[0].data else "") + Payload(ev[1..])
  }

  lemma {:induction false} ChunksCover(data: string)
    ensures Join(Chunks(data)) == data
    ensures forall i :: 0 <= i < |Chunks(data)| ==> |Chunks(data)[i]| <= 16384
    ensures forall i :: 0 <= i < |Chunks(data)| - 1 ==> |Chunks(data)[i]| == 16384
    ensures data != "" ==> forall i :: 0 <= i < |Chunks(data)| ==> Chunks(data)[i] != ""
    decreases |data|
  {
    if |data| <= MAX_USBFS_BULK_SIZE {
      assert Join([data]) == data + Join([]);
    } else {
      ChunksCover(data[MAX_USBFS_BULK_SIZE..]);
      assert Chunks(data)[1..] == Chunks(data[MAX_USBFS_BULK_SIZE..]);
    }
  }

  lemma {:induction false} DeliveredPayload(chunks: seq<string>)
    ensures Payload(Delivered(chunks)) == Join(chunks)
  {
    if chunks != [] {
      assert Delivered(chunks)[1..] == Delivered(chunks[1..]);
      DeliveredPayload(chunks[1..]);
    }
  }

  /** A split at a multiple of 16 KiB leaves no mark in the transfers. */
  lemma {:induction false} ChunksSplit(a: string, b: string)
    requires a != "" && b != "" && |a| % MAX_USBFS_BULK_SIZE == 0
    ensures Chunks(a + b) == Chunks(a) + Chunks(b)
    decreases |a|
  {
    var m := MAX_USBFS_BULK_SIZE;
    if |a| == m {
      assert (a + b)[..m] == a && (a + b)[m..] == b;
    } else {
      assert (a + b)[..m] == a[..m] && (a + b)[m..] == a[m..] + b;
      ChunksSplit(a[m..], b);
      assert [a[..m]] + (Chunks(a[m..]) + Chunks(b)) == ([a[..m]] + Chunks(a[m..])) + Chunks(b);
    }
  }

  /** Transfers before number `k` were taken in full, number `k` was not, and none follows. */
  ghost predicate StoppedAt(ev: seq<Event>, chunks: seq<string>, k: int) {
    0 <= k < |chunks| && |ev| == k + 1 && ev[..k] == Delivered(chunks)[..k] &&
    ev[k].Out? && ev[k].data == chunks[k] && ev[k].ack != |chunks[k]|
  }

  /**
    The transfers of a write are all those of the buffer exactly when the kernel took every
    one in full; if not, they stop at the first it did not take.
   */
  lemma TransfersTaken(acks: seq<int>, k: nat, chunks: seq<string>)
    ensures var taken := Taken(acks, k, chunks);
            if taken == |chunks| then Transfers(acks, k, chunks) == Delivered(chunks)
            else StoppedAt(Transfers(acks, k, chunks), chunks, taken)
    ensures Transfers(acks, k, chunks) == Delivered(chunks) <==> Taken(acks, k, chunks) == |chunks|
  {
    var taken := Taken(acks, k, chunks);
    if taken < |chunks| {
      assert Transfers(acks, k, chunks)[taken] != Delivered(chunks)[taken];
    }
  }

  /** On an open handle, Write reports success exactly when all of `data` went over the bus. */
  lemma WriteDelivers(l: Link, data: string)
    requires |data| < TWO_32 && l.epOut != 0 && l.desc != -1
    ensures var ev := Transfers(l.acks, l.outs, Chunks(data));
            var (m, n) := Write(l, data);
            && m == l.(outs := l.outs + |ev|, trace := l.trace + ev)
            && n == (if ev == Delivered(Chunks(data)) then |data| else -1)
  {
    TransfersTaken(l.acks, l.outs, Chunks(data));
  }

  /** The transfers of a buffer carry it whole and in order, 16 KiB at a time. */
  lemma DeliveredCarries(data: string)
    ensures Payload(Delivered(Chunks(data))) == data
    ensures forall i :: 0 <= i < |Delivered(Chunks(data))| ==>
              |Delivered(Chunks(data))[i].data| <= MAX_USBFS_BULK_SIZE
  {
    ChunksCover(data);
    DeliveredPayload(Chunks(data));
  }

  lemma ReadOnePacket(l: Link, len: nat)
    requires 0 < len <= MAX_USBFS_BULK_SIZE && l.epIn != 0 && l.desc != -1
    ensures Read(l, len) == Pull(l, len)
  {
    var (m, p) := Pull(l, len);
    if p.Some? && |p.value| == len {
      assert Read(l, len) == Prepend(p.value, Read(m, 0));
      assert p.value + "" == p.value;
    }
  }

  /** Reply number `n` from now on is a packet that fits. */
  predicate Fitting(l: Link, len: nat, n: nat) {
    l.ins + n < |l.replies| && l.replies[l.ins + n].Packet? && |l.replies[l.ins + n].data| <= len
  }

  /** It is the first such, and at most five came before. */
  ghost predicate FirstFitting(l: Link, len: nat, n: nat) {
    n <= 5 && Fitting(l, len, n) && forall i: nat :: i < n ==> !Fitting(l, len, i)
  }

  /** A read that fits one transfer yields the first usable packet of the next six replies, or fails after all six. */
  lemma FirstPacketRead(l: Link, len: nat, r: (Link, Option<string>))
    requires 0 < len <= MAX_USBFS_BULK_SIZE && l.epIn != 0 && l.desc != -1 && r == Read(l, len)
    ensures forall n: nat :: FirstFitting(l, len, n) ==> r.1 == Some(l.replies[l.ins + n].data) && r.0.ins == l.ins + n + 1
    ensures (forall n: nat :: !FirstFitting(l, len, n)) ==> r.1 == None && r.0.ins == l.ins + 6
  {
    ReadOnePacket(l, len);
    var n := Faults(l.replies, l.ins, len);
    forall i: nat | i < n
      ensures !Fitting(l, len, i)
    {
      assert Incoming(l.replies, l.ins + i, len).None?;
    }
    assert n <= 5 ==> FirstFitting(l, len, n);
  }

  // ----- The object -----

  class Transport {
    var link: Link

    constructor (l: Link)
      ensures link == l
    {
      link := l;
    }

    /** One bulk-out ioctl. */
    method BulkOut(data: string) returns (n: int)
      modifies this
      ensures n == Ack(old(link).acks, old(link).outs)
      ensures link == old(link).(outs := old(link).outs + 1, trace := old(link).trace + [Out(data, n)])
    {
      n := Ack(link.acks, link.outs);
      link := link.(outs := link.outs + 1, trace := link.trace + [Out(data, n)]);
    }

    /** One bulk-in ioctl into a buffer of `xfer` bytes. */
    method BulkIn(xfer: nat) returns (p: Option<string>)
      modifies this
      ensures p == Incoming(old(link).replies, old(link).ins, xfer)
      ensures link == old(link).(ins := old(link).ins + 1,
                                 trace := old(link).trace + [if p.None? then InFault else In(p.value)])
    {
      p := Incoming(link.replies, link.ins, xfer);
      link := link.(ins := link.ins + 1, trace := link.trace + [if p.None? then InFault else In(p.value)]);
    }

    method WriteData(data: string) returns (n: int)
      modifies this
      ensures (link, n) == Write(old(link), data)
    {
      if link.epOut == 0 || link.desc == -1 {
        return -1;
      }
      var at, count, going := 0, 0, true;
      ghost var l, chunks, j := link, Chunks(data), 0;
      assert data[0..] == data && chunks[0..] == chunks && Outs(l, data, 0, l);
      while going
        invariant 0 <= at <= |data| && count == at && 0 <= j <= |chunks|
        invariant if going then chunks[j..] == Chunks(data[at..]) && Outs(l, data, j, link)
                  else at == |data| && Write(l, data) == (link, U32(|data|))
        decreases |data| - at, going
      {
        var left := |data| - at;
        var xfer := if left > MAX_USBFS_BULK_SIZE then MAX_USBFS_BULK_SIZE else left;
        NextChunk(data, at, chunks, j);
        ghost var before := link;
        n := BulkOut(data[at..at + xfer]);
        OneMoreOut(l, data, j, before, n, link);
        if n != xfer {
          return -1;
        }
        count := count + xfer;
        at := at + xfer;
        j := j + 1;
        going := at < |data|;
      }
      n := U32(count);
    }

    method ReadData(len: nat) returns (r: Option<string>)
      modifies this
      ensures (link, r) == Read(old(link), len)
    {
      if link.epIn == 0 || link.desc == -1 {
        return None;
      }
      var left: nat, got := len, "";
      ghost var all := Read(link, len);
      NothingIn(link, len, all);
      while left > 0
        invariant Ins(all, got, link, left)
        decreases left
      {
        var xfer := if left > MAX_USBFS_BULK_SIZE then MAX_USBFS_BULK_SIZE else left;
        ghost var before := link;
        var p := PullData(xfer);
        ghost var got', left' := OneMoreIn(all, got, before, left, xfer, p, link);
        if p.None? {
          return None;
        }
        left := left - |p.value|;
        got := got + p.value;
        assert got == got' && left == left';
        if |p.value| < xfer {
          return Some(got);
        }
      }
      AllIn(all, got, link);
      r := Some(got);
    }

    /** The retry loop around one bulk-in ioctl. */
    method PullData(xfer: nat) returns (p: Option<string>)
      modifies this
      ensures (link, p) == Pull(old(link), xfer)
    {
      var retry := 0;
      p := None;
      ghost var l := link;
      assert Tried(l, xfer, 0, l);
      while p.None?
        invariant 0 <= retry <= MAX_RETRIES
        invariant if p.None? then Tried(l, xfer, retry, link) else (link, p) == Pull(l, xfer)
        decreases if p.None? then MAX_RETRIES - retry + 1 else 0
      {
        ghost var before := link;
        p := BulkIn(xfer);
        OneMoreTry(l, xfer, retry, before, p, link);
        if p.None? {
          if retry + 1 > MAX_RETRIES {
            return;
          }
          retry := retry + 1;
        }
      }
    }

    method CloseHandle()
      modifies this
      ensures link == Close(old(link))
    {
      link := link.(desc := -1);
    }
  }

  // ----- Loop steps -----

  /** `m` is `l` after the first `j` transfers of `data`, all taken in full. */
  ghost predicate Outs(l: Link, data: string, j: nat, m: Link) {
    var chunks := Chunks(data);
    && j <= |chunks| && Taken(l.acks, l.outs, chunks) == Taken(l.acks, l.outs, chunks, j)
    && m == l.(outs := l.outs + j, trace := l.trace + Submitted(l.acks, l.outs, chunks, j))
  }

  lemma OneMoreOut(l: Link, data: string, j: nat, m: Link, n: int, m': Link)
    requires l.epOut != 0 && l.desc != -1 && Outs(l, data, j, m) && j < |Chunks(data)|
    requires n == Ack(l.acks, l.outs + j)
    requires m' == m.(outs := m.outs + 1, trace := m.trace + [Out(Chunks(data)[j], n)])
    ensures n == |Chunks(data)[j]| ==> Outs(l, data, j + 1, m')
    ensures n != |Chunks(data)[j]| ==> Write(l, data) == (m', -1)
    ensures n == |Chunks(data)[j]| && j + 1 == |Chunks(data)| ==> Write(l, data) == (m', U32(|data|))
  {
    var ev := Submitted(l.acks, l.outs, Chunks(data), j);
    assert Submitted(l.acks, l.outs, Chunks(data), j + 1) == ev + [Out(Chunks(data)[j], n)];
    assert l.trace + (ev + [Out(Chunks(data)[j], n)]) == m'.trace;
  }

  /** `m` is `l` after `retry` failed attempts at one transfer. */
  ghost predicate Tried(l: Link, xfer: nat, retry: nat, m: Link) {
    && retry <= MAX_RETRIES && m == AfterFaults(l, retry)
    && Faults(l.replies, l.ins, xfer) == Faults(l.replies, l.ins, xfer, retry)
  }

  lemma OneMoreTry(l: Link, xfer: nat, retry: nat, m: Link, p: Option<string>, m': Link)
    requires Tried(l, xfer, retry, m) && p == Incoming(m.replies, m.ins, xfer)
    requires m' == m.(ins := m.ins + 1, trace := m.trace + [if p.None? then InFault else In(p.value)])
    ensures p.Some? ==> Pull(l, xfer) == (m', p)
    ensures p.None? && retry < MAX_RETRIES ==> Tried(l, xfer, retry + 1, m')
    ensures p.None? && retry == MAX_RETRIES ==> Pull(l, xfer) == (m', None)
  {
    FaultsStep(l.replies, l.ins, xfer, retry, p);
    if p.None? {
      OneMoreFault(l, retry, m, m');
    }
  }

  lemma FaultsStep(replies: seq<Reply>, k: nat, xfer: nat, retry: nat, p: Option<string>)
    requires retry <= MAX_RETRIES && p == Incoming(replies, k + retry, xfer)
    ensures Faults(replies, k, xfer, retry) == if p.None? then Faults(replies, k, xfer, retry + 1) else retry
    ensures Faults(replies, k, xfer, MAX_RETRIES + 1) == MAX_RETRIES + 1
  {
  }

  lemma OneMoreFault(l: Link, retry: nat, m: Link, m': Link)
    requires m == AfterFaults(l, retry) && m' == m.(ins := m.ins + 1, trace := m.trace + [InFault])
    ensures m' == AfterFaults(l, retry + 1)
  {
    assert l.trace + (FaultRun(retry) + [InFault]) == l.trace + FaultRun(retry) + [InFault];
  }

  /** A read that will end as `all` has got this far: `got` is in the buffer and `left` more fit. */
  ghost predicate Ins(all: (Link, Option<string>), got: string, m: Link, left: nat) {
    m.epIn != 0 && m.desc != -1 && all == Prepend(got, Read(m, left))
  }

  lemma NothingIn(l: Link, len: nat, all: (Link, Option<string>))
    requires l.epIn != 0 && l.desc != -1 && all == Read(l, len)
    ensures Ins(all, "", l, len)
  {
    PrependTwice("", "", all);
  }

  lemma AllIn(all: (Link, Option<string>), got: string, m: Link)
    requires Ins(all, got, m, 0)
    ensures all == (m, Some(got))
  {
    assert got + "" == got;
  }

  lemma ReadOnce(m: Link, left: nat, xfer: nat, rest: nat, m': Link, p: Option<string>)
    requires 0 < left && xfer == (if left > MAX_USBFS_BULK_SIZE then MAX_USBFS_BULK_SIZE else left) && rest == left - xfer
    requires m.epIn != 0 && m.desc != -1 && (m', p) == Pull(m, xfer)
    ensures m'.epIn == m.epIn && m'.desc == m.desc
    ensures Read(m, left) ==
            if p.None? then (m', None) else if |p.value| < xfer then (m', p) else Prepend(p.value, Read(m', rest))
  {
  }

  lemma OneMoreIn(all: (Link, Option<string>), got: string, m: Link, left: nat, xfer: nat, p: Option<string>, m': Link)
    returns (got': string, left': nat)
    requires 0 < left && xfer == (if left > MAX_USBFS_BULK_SIZE then MAX_USBFS_BULK_SIZE else left)
    requires Ins(all, got, m, left) && (m', p) == Pull(m, xfer)
    ensures p.None? ==> all == (m', None)
    ensures p.Some? ==> |p.value| <= xfer <= left && got' == got + p.value && left' == left - |p.value|
    ensures p.Some? && |p.value| < xfer ==> all == (m', Some(got'))
    ensures p.Some? && |p.value| == xfer ==> Ins(all, got', m', left')
  {
    got', left' := got, left;
    if p.Some? {
      got', left' := got + p.value, left - |p.value|;
    }
    if p.Some? && |p.value| == xfer {
      ReadOnce(m, left, xfer, left', m', p);
      PrependTwice(got, p.value, Read(m', left'));
    } else {
      ReadOnce(m, left, xfer, left - xfer, m', p);
    }
  }

  lemma PrependTwice(a: string, b: string, r: (Link, Option<string>))
    ensures Prepend(a, Prepend(b, r)) == Prepend(a + b, r)
    ensures Prepend("", r) == r
  {
    assert r.1.Some? ==> a + (b + r.1.value) == a + b + r.1.value && "" + r.1.value == r.1.value;
  }

  lemma NextChunk(data: string, at: nat, chunks: seq<string>, j: nat)
    requires at <= |data| && j <= |chunks| && chunks[j..] == Chunks(data[at..])
    ensures j < |chunks|
    ensures var left := |data| - at;
            var xfer := if left > MAX_USBFS_BULK_SIZE then MAX_USBFS_BULK_SIZE else left;
            && chunks[j] == data[at..at + xfer] && |chunks[j]| == xfer
            && (xfer == left ==> j + 1 == |chunks|)
            && (xfer < left ==> chunks[j + 1..] == Chunks(data[at + xfer..]))
  {
    var left := |data| - at;
    var xfer := if left > MAX_USBFS_BULK_SIZE then MAX_USBFS_BULK_SIZE else left;
    assert chunks[j..][0] == chunks[j];
    assert data[at..][..xfer] == data[at..at + xfer];
    if xfer < left {
      assert data[at..][xfer..] == data[at + xfer..];
      assert chunks[j + 1..] == chunks[j..][1..];
    }
  }
}
