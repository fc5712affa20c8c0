/**
  A device that takes every transfer and acknowledges everything, written out as a script:
  for every partition and image there is a session in which flashing succeeds.
 */
module GoodDevice {
  import opened CText
  import opened UsbTransport
  import opened FastbootProtocol
  import opened FastbootWire
  import opened FastbootEngine
  import opened EngineWire

  function Lens(chunks: seq<string>): (r: seq<int>)
    ensures |r| == |chunks| && forall i :: 0 <= i < |r| ==> r[i] == |chunks[i]|
  {
    seq(|chunks|, i requires 0 <= i < |chunks| => |chunks[i]|)
  }

  /** The handle is open, and its scripts have just these entries left. */
  predicate Left(l: Link, acks: seq<int>, replies: seq<Reply>) {
    && l.epIn != 0 && l.epOut != 0 && l.desc != -1
    && l.outs <= |l.acks| && l.acks[l.outs..] == acks
    && l.ins <= |l.replies| && l.replies[l.ins..] == replies
  }

  lemma TakenAll(all: seq<int>, k: nat, chunks: seq<string>, rest: seq<int>)
    requires k <= |all| && all[k..] == Lens(chunks) + rest
    ensures Taken(all, k, chunks) == |chunks| && k + |chunks| <= |all| && all[k + |chunks|..] == rest
  {
    var left := Lens(chunks) + rest;
    assert forall i :: 0 <= i < |chunks| ==> left[i] == |chunks[i]|;
    assert forall i :: 0 <= i < |left| ==> left[i] == Ack(all, k + i);
    assert all[k + |chunks|..] == left[|chunks|..];
  }

  lemma WriteAll(l: Link, data: string) returns (m: Link)
    requires |data| < TWO_32 && l.epOut != 0 && l.desc != -1 && Taken(l.acks, l.outs, Chunks(data)) == |Chunks(data)|
    ensures Write(l, data) == (m, |data|) && m == l.(outs := l.outs + |Chunks(data)|, trace := m.trace)
  {
    WriteDelivers(l, data);
    TransfersTaken(l.acks, l.outs, Chunks(data));
    m := Write(l, data).0;
  }

  /** One turn of the scripts for a write. */
  lemma FullWrite(l: Link, data: string, acks: seq<int>, replies: seq<Reply>) returns (m: Link)
    requires |data| < TWO_32 && Left(l, Lens(Chunks(data)) + acks, replies)
    ensures Write(l, data) == (m, |data|) && Left(m, acks, replies)
  {
    TakenAll(l.acks, l.outs, Chunks(data), acks);
    m := WriteAll(l, data);
  }

  lemma NextPacket(l: Link, s: string, acks: seq<int>, replies: seq<Reply>)
    requires |s| <= STATUS_SIZE && Left(l, acks, [Packet(s)] + replies)
    ensures Read(l, STATUS_SIZE).1 == Some(s) && Left(Read(l, STATUS_SIZE).0, acks, replies)
  {
    ReadOnePacket(l, STATUS_SIZE);
    assert l.replies[l.ins] == l.replies[l.ins..][0] == Packet(s);
    assert Faults(l.replies, l.ins, STATUS_SIZE) == 0;
    assert l.replies[l.ins + 1..] == l.replies[l.ins..][1..];
  }

  /** The device says `infos`, then `status`, and then goes on. */
  function Says(infos: seq<string>, status: string, more: seq<Reply>): seq<Reply> {
    if infos == [] then [Packet(status)] + more else [Packet(infos[0])] + Says(infos[1..], status, more)
  }

  predicate AllInfos(infos: seq<string>) {
    forall i :: 0 <= i < |infos| ==> IsInfo(infos[i]) && |infos[i]| <= 64
  }

  predicate IsStatus(s: string) {
    !IsInfo(s) && |s| <= 64
  }

  lemma {:induction false} HearAll(l: Link, infos: seq<string>, status: string, acks: seq<int>, replies: seq<Reply>)
    requires AllInfos(infos) && IsStatus(status) && Left(l, acks, Says(infos, status, replies))
    ensures Listen(l).infos == infos && Listen(l).status == Some(status) && Left(Listen(l).link, acks, replies)
    decreases |infos|
  {
    if infos == [] {
      NextPacket(l, status, acks, replies);
    } else {
      NextPacket(l, infos[0], acks, Says(infos[1..], status, replies));
      var m := Read(l, STATUS_SIZE).0;
      HearAll(m, infos[1..], status, acks, replies);
      assert [infos[0]] + infos[1..] == infos;
    }
  }

  /** The answer to a command, or to the data. */
  lemma Answered(h: Host, size: nat, infos: seq<string>, status: string, acks: seq<int>, replies: seq<Reply>)
    requires AllInfos(infos) && IsStatus(status) && !Judge(Some(status), size).close
    requires Left(h.link, acks, Says(infos, status, replies))
    ensures var o := CheckResponse(h, size);
            && o.rc == Judge(Some(status), size).rc && o.resp == Judge(Some(status), size).resp
            && o.h.msgs == h.msgs + InfoTexts(infos) && Left(o.h.link, acks, replies)
  {
    HearAll(h.link, infos, status, acks, replies);
  }

  lemma Obeyed(h: Host, cmd: string, size: nat, infos: seq<string>, status: string, acks: seq<int>, replies: seq<Reply>)
    requires |cmd| <= MAX_COMMAND && AllInfos(infos) && IsStatus(status) && !Judge(Some(status), size).close
    requires Left(h.link, [|cmd|] + acks, Says(infos, status, replies))
    ensures var o := CommandStart(h, cmd, size);
            && o.rc == Judge(Some(status), size).rc && o.resp == Judge(Some(status), size).resp
            && o.h.msgs == h.msgs + InfoTexts(infos) && Left(o.h.link, acks, replies)
  {
    assert Lens(Chunks(cmd)) == [|cmd|];
    var m := FullWrite(h.link, cmd, acks, Says(infos, status, replies));
    Answered(h.(link := m), size, infos, status, acks, replies);
  }

  // ----- The data phase -----

  /** What the kernel answers to the windows of a data phase, and then on. */
  function WindowAcks(file: string, offset: nat, remaining: nat, more: seq<int>): seq<int>
    requires offset + remaining <= |file|
    decreases remaining
  {
    if remaining == 0 then more
    else
      var len := Window(remaining);
      Lens(Chunks(Piece(file, offset, len))) + WindowAcks(file, offset + len, remaining - len, more)
  }

  /** `win` acknowledges those windows and then has `more` left. */
  predicate Acked(file: string, offset: nat, remaining: nat, win: seq<int>, more: seq<int>)
    requires offset + remaining <= |file|
    decreases remaining
  {
    if remaining == 0 then win == more
    else
      var len := Window(remaining);
      var first := Lens(Chunks(Piece(file, offset, len)));
      |first| <= |win| && win[..|first|] == first && Acked(file, offset + len, remaining - len, win[|first|..], more)
  }

  lemma Halves<T>(a: seq<T>, b: seq<T>)
    ensures (a + b)[..|a|] == a && (a + b)[|a|..] == b
  {
  }

  lemma {:induction false} WindowsAcked(file: string, offset: nat, remaining: nat, more: seq<int>)
    requires offset + remaining <= |file|
    ensures Acked(file, offset, remaining, WindowAcks(file, offset, remaining, more), more)
    decreases remaining
  {
    if remaining > 0 {
      var len := Window(remaining);
      var first := Lens(Chunks(Piece(file, offset, len)));
      var rest := WindowAcks(file, offset + len, remaining - len, more);
      WindowsAcked(file, offset + len, remaining - len, more);
      Halves(first, rest);
    }
  }

  lemma OneSent(h: Host, slice: string, acks: seq<int>, replies: seq<Reply>) returns (w: Outcome)
    requires |slice| < TWO_32 && Left(h.link, Lens(Chunks(slice)) + acks, replies)
    ensures CommandWriteData(h, slice) == w && w.rc >= 0 && w.h.msgs == h.msgs && Left(w.h.link, acks, replies)
  {
    var m := FullWrite(h.link, slice, acks, replies);
    w := Outcome(h.(link := m), |slice|, "");
  }

  /** The data phase that stands at `h` will end as `all`, and `win` acknowledges what is left of it. */
  predicate Phase(all: Outcome, h: Host, src: Source, offset: nat, remaining: nat, k: nat,
                  win: seq<int>, acks: seq<int>, replies: seq<Reply>) {
    && offset + remaining <= |src.file| && src.maps == [] && all == SendSlices(h, src, offset, remaining, k)
    && Acked(src.file, offset, remaining, win, acks) && Left(h.link, win, replies)
  }

  lemma {:induction false} AllSent(all: Outcome, h: Host, src: Source, offset: nat, remaining: nat, k: nat,
                                   win: seq<int>, acks: seq<int>, replies: seq<Reply>)
    requires Phase(all, h, src, offset, remaining, k, win, acks, replies)
    ensures all.rc == 0 && all.h.msgs == h.msgs && Left(all.h.link, acks, replies)
    decreases remaining
  {
    if remaining == 0 {
      PhaseOver(all, h, src, offset, k, win, acks, replies);
    } else {
      var m, at, left, rest := OneWindow(all, h, src, offset, remaining, k, win, acks, replies);
      AllSent(all, m, src, at, left, k + 1, rest, acks, replies);
    }
  }

  lemma PhaseOver(all: Outcome, h: Host, src: Source, offset: nat, k: nat, win: seq<int>, acks: seq<int>, replies: seq<Reply>)
    requires Phase(all, h, src, offset, 0, k, win, acks, replies)
    ensures all == Outcome(h, 0, "") && Left(h.link, acks, replies)
  {
  }

  lemma NextAcked(file: string, offset: nat, remaining: nat, win: seq<int>, acks: seq<int>, at: nat, left: nat)
    returns (rest: seq<int>)
    requires 0 < remaining && offset + remaining <= |file| && Acked(file, offset, remaining, win, acks)
    requires at == offset + Window(remaining) && left == remaining - Window(remaining)
    ensures win == Lens(Chunks(Piece(file, offset, Window(remaining)))) + rest && Acked(file, at, left, rest, acks)
  {
    rest := win[|Chunks(Piece(file, offset, Window(remaining)))|..];
  }

  lemma OneWindow(all: Outcome, h: Host, src: Source, offset: nat, remaining: nat, k: nat,
                  win: seq<int>, acks: seq<int>, replies: seq<Reply>) returns (m: Host, at: nat, left: nat, rest: seq<int>)
    requires 0 < remaining && Phase(all, h, src, offset, remaining, k, win, acks, replies)
    ensures left < remaining && m.msgs == h.msgs && Phase(all, m, src, at, left, k + 1, rest, acks, replies)
  {
    at, left := offset + Window(remaining), remaining - Window(remaining);
    rest := NextAcked(src.file, offset, remaining, win, acks, at, left);
    var w := OneSent(h, Piece(src.file, offset, Window(remaining)), rest, replies);
    SlicesStep(h, src, offset, remaining, k, w, at, left);
    m := w.h;
  }

  // ----- A download -----

  /** The device's answer to the announcement of `size` bytes. */
  function ReadyFor(size: nat): string {
    if size == 0 then "OKAY" else "DATA" + HexPad(size, 8)
  }

  lemma OkayAccepted()
    ensures IsStatus("OKAY") && forall size: nat :: Judge(Some("OKAY"), size) == Verdict(0, "", None, false)
  {
    assert "OKAY"[..4] == "OKAY" && "OKAY"[4..] == "" && CStr("") == "";
  }

  lemma DataText(hex: string)
    requires '\0' !in hex
    ensures var s := "DATA" + hex; IsData(s) && !IsInfo(s) && !IsOkay(s) && !IsFail(s) && Body(s) == hex
  {
    var s := "DATA" + hex;
    assert s[..4] == "DATA" && s[4..] == hex;
    CStrPlain(hex, "");
    Assoc(hex, "", "");
  }

  lemma HexPlain(size: nat)
    ensures '\0' !in HexPad(size, 8)
  {
    assert forall c <- HexPad(size, 8) :: HexValue(c) != -1;
  }

  lemma DataBody(size: nat, s: string, hex: string)
    requires size < TWO_32 && Body(s) == hex && StrToL16(hex) == size
    ensures DataSize(s) == size
  {
  }

  lemma ReadyAccepted(size: nat)
    requires size < TWO_32
    ensures IsStatus(ReadyFor(size))
    ensures var v := Judge(Some(ReadyFor(size)), size); v.rc == size && !v.close
  {
    if size > 0 {
      HexPlain(size);
      DataText(HexPad(size, 8));
      Hex8RoundTrip(size);
      DataBody(size, ReadyFor(size), HexPad(size, 8));
    } else {
      OkayAccepted();
    }
  }

  function DownloadAcks(image: string, size: nat, more: seq<int>): seq<int>
    requires size <= |image|
  {
    [17] + WindowAcks(image, 0, size, more)
  }

  function DownloadReplies(size: nat, more: seq<Reply>): seq<Reply> {
    Says([], ReadyFor(size), Says([], "OKAY", more))
  }

  lemma DownloadSucceeds(h: Host, src: Source, size: nat, acks: seq<int>, replies: seq<Reply>)
    requires src.page > 0 && src.maps == [] && size <= |src.file| && size < TWO_32
    requires Left(h.link, DownloadAcks(src.file, size, acks), DownloadReplies(size, replies))
    ensures var o := DownloadFd(h, src, size); o.rc == 0 && o.h.msgs == h.msgs && Left(o.h.link, acks, replies)
  {
    var h0 := h.(err := DownloadCommand(size));
    var cmd := DownloadCommand(size);
    ReadyAccepted(size);
    Obeyed(h0, cmd, size, [], ReadyFor(size), WindowAcks(src.file, 0, size, acks), Says([], "OKAY", replies));
    var a := CommandStart(h0, cmd, size);
    MappingInvisible(a.h, src, 0, size, 0);
    WindowsAcked(src.file, 0, size, acks);
    var w := SendWindows(a.h, src, 0, size, 0);
    AllSent(w, a.h, src, 0, size, 0, WindowAcks(src.file, 0, size, acks), acks, Says([], "OKAY", replies));
    OkayAccepted();
    Answered(w.h, 0, [], "OKAY", acks, replies);
    Assoc(h.msgs, [], []);
    DownloadSteps(h, src, size, a, w, CommandEnd(w.h));
  }

  lemma DownloadSteps(h: Host, src: Source, size: nat, a: Outcome, w: Outcome, e: Outcome)
    requires src.page > 0 && size <= |src.file|
    requires a == CommandStart(h.(err := DownloadCommand(size)), DownloadCommand(size), size) && a.rc >= 0
    requires w == SendWindows(a.h, src, 0, size, 0) && w.rc >= 0 && e == CommandEnd(w.h) && e.rc >= 0
    ensures DownloadFd(h, src, size).rc == 0 && DownloadFd(h, src, size).h == e.h
  {
  }

  // ----- A whole session -----

  function SlotQuery(partition: string): string {
    "getvar:has-slot:" + partition
  }

  predicate Asks(partition: string) {
    |SlotQuery(partition)| <= MAX_COMMAND
  }

  /** A device with no slots that says `infos` while it flashes. */
  function FlashAcks(partition: string, image: string): seq<int> {
    var rest := DownloadAcks(image, Truncated(image), [|FlashCommand(partition)|] + []);
    if Asks(partition) then [|SlotQuery(partition)|] + rest else rest
  }

  function FlashReplies(partition: string, image: string, infos: seq<string>): seq<Reply> {
    var rest := DownloadReplies(Truncated(image), Says(infos, "OKAY", []));
    if Asks(partition) then Says([], "FAIL", rest) else rest
  }

  function Script(partition: string, image: string, infos: seq<string>): Link {
    Link(1, 1, 3, FlashAcks(partition, image), 0, FlashReplies(partition, image, infos), 0, [])
  }

  const PLENTY: Memory := Memory(4096, [])

  lemma NoSlots(h: Host, partition: string, acks: seq<int>, replies: seq<Reply>)
    requires if Asks(partition) then Left(h.link, [|SlotQuery(partition)|] + acks, Says([], "FAIL", replies))
             else Left(h.link, acks, replies)
    ensures var (m, name) := Resolve(h, partition);
            name == Some(partition) && m.msgs == h.msgs && Left(m.link, acks, replies)
  {
    assert "getvar:" + ("has-slot:" + partition) == SlotQuery(partition);
    if Asks(partition) {
      assert "FAIL"[..4] == "FAIL";
      Obeyed(h, SlotQuery(partition), 0, [], "FAIL", acks, replies);
      Assoc(h.msgs, [], []);
    }
  }

  lemma DownloadRuns(h: Host, src: Source, a: Action, acks: seq<int>, replies: seq<Reply>) returns (m: Host)
    requires src.page > 0 && src.maps == [] && a == OpDownloadFd(src, Truncated(src.file), CbDefault)
    requires Left(h.link, DownloadAcks(src.file, Truncated(src.file), acks), DownloadReplies(Truncated(src.file), replies))
    ensures RunAction(h, a) == (m, 0) && m.msgs == h.msgs + [OKAY_TEXT] && Left(m.link, acks, replies)
  {
    DownloadSucceeds(h, src, Truncated(src.file), acks, replies);
    m := RunAction(h, a).0;
  }

  lemma FlashRuns(h: Host, partition: string, infos: seq<string>, a: Action) returns (m: Host)
    requires |partition| <= 58 && AllInfos(infos)
    requires Left(h.link, [|FlashCommand(partition)|] + [], Says(infos, "OKAY", []))
    requires a == OpCommand(FlashCommand(partition), CbDefault)
    ensures RunAction(h, a) == (m, 0) && m.msgs == h.msgs + InfoTexts(infos) + [OKAY_TEXT]
  {
    OkayAccepted();
    Obeyed(h, FlashCommand(partition), 0, infos, "OKAY", [], []);
    m := RunAction(h, a).0;
  }

  lemma ExecuteBoth(h: Host, m: Host, n: Host, queue: seq<Action>)
    requires |queue| == 2 && SoundQueue(queue) && RunAction(h, queue[0]) == (m, 0) && RunAction(m, queue[1]) == (n, 0)
    ensures Execute(h, queue) == (n, 0)
  {
    ExecuteLast(m, queue);
  }

  lemma MainEnds(h: Host, m: Host, n: Host, partition: string, image: string)
    requires Resolve(h, partition) == (m, Some(partition))
    requires Execute(m, FlashActions(partition, Source(image, PLENTY.page, PLENTY.maps))) == (n, 0)
    ensures FastbootMain(h, PLENTY, Flash(partition, Some(image))) == Ended(n.(link := Close(n.link)), 0)
  {
  }

  lemma PairSucceeds(h: Host, partition: string, src: Source, infos: seq<string>, queue: seq<Action>) returns (n: Host)
    requires src.page > 0 && src.maps == [] && |partition| <= 58 && AllInfos(infos)
    requires Left(h.link, DownloadAcks(src.file, Truncated(src.file), [|FlashCommand(partition)|] + []),
                  DownloadReplies(Truncated(src.file), Says(infos, "OKAY", [])))
    requires queue == FlashActions(partition, src)
    ensures Execute(h, queue) == (n, 0) && n.msgs == h.msgs + [OKAY_TEXT] + InfoTexts(infos) + [OKAY_TEXT]
  {
    var m := DownloadRuns(h, src, queue[0], [|FlashCommand(partition)|] + [], Says(infos, "OKAY", []));
    n := FlashRuns(m, partition, infos, queue[1]);
    ExecuteBoth(h, m, n, queue);
  }

  /**
    For every partition whose flash command fits a packet, every image and every few words of
    the device there is a session that ends well and logs just those words and two OKAYs.
   */
  lemma SessionSucceeds(partition: string, image: string, infos: seq<string>)
    requires |partition| <= 58 && AllInfos(infos)
    ensures var e := FastbootMain(Host(Script(partition, image, infos), [], ""), PLENTY, Flash(partition, Some(image)));
            e.Ended? && e.status == 0 && e.h.msgs == [OKAY_TEXT] + InfoTexts(infos) + [OKAY_TEXT]
  {
    var h := Host(Script(partition, image, infos), [], "");
    var acks := DownloadAcks(image, Truncated(image), [|FlashCommand(partition)|] + []);
    var replies := DownloadReplies(Truncated(image), Says(infos, "OKAY", []));
    assert h.link.acks[0..] == h.link.acks && h.link.replies[0..] == h.link.replies;
    NoSlots(h, partition, acks, replies);
    var m := Resolve(h, partition).0;
    var src := Source(image, PLENTY.page, PLENTY.maps);
    var n := PairSucceeds(m, partition, src, infos, FlashActions(partition, src));
    assert [] + [OKAY_TEXT] == [OKAY_TEXT];
    MainEnds(h, m, n, partition, image);
  }
}
