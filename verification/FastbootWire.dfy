/**
  What the fastboot routines put on the bus, and what their return codes say about it.
  The lemmas hand back the events of each phase, so that callers can put runs together.
 */
module FastbootWire {
  import opened CText
  import opened UsbTransport
  import opened FastbootProtocol

  predicate Readable(l: Link) {
    l.epIn != 0 && l.desc != -1
  }

  predicate Writable(l: Link) {
    l.epOut != 0 && l.desc != -1
  }

  /** What the host put on the bus, transfer by transfer. */
  function OutData(ev: seq<Event>): seq<string> {
    if ev == [] then [] else (if ev[0].Out? then [ev[0].data] else []) + OutData(ev[1..])
  }

  /** The packets received, in order. */
  function Packets(ev: seq<Event>): seq<string> {
    if ev == [] then [] else (if ev[0].In? then [ev[0].data] else []) + Packets(ev[1..])
  }

  /** Only the device speaks: the INFO packets `infos`, then `status` or a read that failed. */
  ghost predicate Spoken(ev: seq<Event>, infos: seq<string>, status: Option<string>) {
    && (forall i :: 0 <= i < |ev| ==> !ev[i].Out?)
    && (forall i :: 0 <= i < |infos| ==> IsInfo(infos[i]))
    && Packets(ev) == infos + (if status.Some? then [status.value] else [])
    && (status.Some? ==> ev != [] && ev[|ev| - 1] == In(status.value) && !IsInfo(status.value))
    && (status.None? ==> ev == [] || ev[|ev| - 1] == InFault)
  }

  /** A status that lets a command of data size `size` go on. */
  predicate Accepts(s: string, size: nat) {
    IsOkay(s) || (IsData(s) && size > 0 && DataSize(s) <= size)
  }

  predicate EndsOkay(ev: seq<Event>) {
    ev != [] && ev[|ev| - 1].In? && IsOkay(ev[|ev| - 1].data)
  }

  /** The pieces in which an image goes out; none at all when it is empty. */
  function Pieces(image: string): seq<string> {
    if image == "" then [] else Chunks(image)
  }

  function DataPhase(image: string): seq<Event> {
    Delivered(Pieces(image))
  }

  /** A command that was delivered and answered with an accepting status. */
  ghost predicate Commanded(ev: seq<Event>, cmd: string, size: nat, infos: seq<string>, status: string) {
    exists said :: CommandedBy(ev, cmd, size, said, infos, status)
  }

  ghost predicate CommandedBy(ev: seq<Event>, cmd: string, size: nat, said: seq<Event>, infos: seq<string>, status: string) {
    ev == Delivered([cmd]) + said && Spoken(said, infos, Some(status)) && Accepts(status, size)
  }

  /** The word `download:` and then `size` in eight hexadecimal digits. */
  predicate Announces(cmd: string, size: nat) {
    && |cmd| == 17 && cmd[..9] == "download:" && StrToL16(cmd[9..]) == size
    && forall i :: 9 <= i < 17 ==> HexValue(cmd[i]) != -1
  }

  /** A whole download of `image`: announced, accepted, delivered to the last byte, and acknowledged. */
  ghost predicate Downloaded(ev: seq<Event>, image: string, infos: seq<string>) {
    exists cmd, a, b, i1, i2, s1, s2 :: DownloadedBy(ev, image, infos, cmd, a, b, i1, i2, s1, s2)
  }

  ghost predicate DownloadedBy(ev: seq<Event>, image: string, infos: seq<string>, cmd: string,
                               a: seq<Event>, b: seq<Event>, i1: seq<string>, i2: seq<string>, s1: string, s2: string) {
    && ev == a + DataPhase(image) + b && infos == i1 + i2
    && Announces(cmd, |image|) && Commanded(a, cmd, |image|, i1, s1)
    && Spoken(b, i2, Some(s2)) && IsOkay(s2)
  }

  /** A download, as far as it came: the announcement of `image`, then its pieces. */
  predicate Sends(outs: seq<string>, image: string) {
    |outs| > 0 && Announces(outs[0], |image|) && outs[1..] <= Pieces(image)
  }

  // ----- Algebra of events -----

  lemma {:induction false} PayloadAppend(a: seq<Event>, b: seq<Event>)
    ensures Payload(a + b) == Payload(a) + Payload(b)
  {
    if a == [] {
      assert a + b == b;
    } else {
      assert (a + b)[1..] == a[1..] + b;
      PayloadAppend(a[1..], b);
    }
  }

  lemma {:induction false} PacketsAppend(a: seq<Event>, b: seq<Event>)
    ensures Packets(a + b) == Packets(a) + Packets(b)
  {
    if a == [] {
      assert a + b == b;
    } else {
      assert (a + b)[1..] == a[1..] + b;
      PacketsAppend(a[1..], b);
    }
  }

  lemma {:induction false} OutDataAppend(a: seq<Event>, b: seq<Event>)
    ensures OutData(a + b) == OutData(a) + OutData(b)
  {
    if a == [] {
      assert a + b == b;
    } else {
      assert (a + b)[1..] == a[1..] + b;
      OutDataAppend(a[1..], b);
    }
  }

  lemma {:induction false} SilentPayload(ev: seq<Event>)
    requires forall i :: 0 <= i < |ev| ==> !ev[i].Out?
    ensures Payload(ev) == "" && OutData(ev) == []
  {
    if ev != [] {
      SilentPayload(ev[1..]);
    }
  }

  /** Where nothing but transfers is on the bus. */
  lemma {:induction false} OnlyOuts(ev: seq<Event>, chunks: seq<string>)
    requires |ev| <= |chunks| && forall i :: 0 <= i < |ev| ==> ev[i].Out? && ev[i].data == chunks[i]
    ensures OutData(ev) == chunks[..|ev|]
  {
    if ev != [] {
      OnlyOuts(ev[1..], chunks[1..]);
      assert chunks[..|ev|] == [chunks[0]] + chunks[1..][..|ev| - 1];
    }
  }

  lemma DeliveredOuts(chunks: seq<string>)
    ensures OutData(Delivered(chunks)) == chunks
  {
    OnlyOuts(Delivered(chunks), chunks);
    assert chunks[..|chunks|] == chunks;
  }

  /** A write that stops early has sent the first of its pieces. */
  lemma TransfersOuts(acks: seq<int>, k: nat, chunks: seq<string>)
    ensures OutData(Transfers(acks, k, chunks)) <= chunks
  {
    OnlyOuts(Transfers(acks, k, chunks), chunks);
  }

  lemma {:induction false} FaultPackets(n: nat)
    ensures Packets(FaultRun(n)) == []
  {
    if n > 0 {
      FaultPackets(n - 1);
      PacketsAppend(FaultRun(n - 1), [InFault]);
    }
  }

  // ----- check_response -----

  lemma ReadTrace(l: Link, m: Link, p: Option<string>) returns (ev: seq<Event>)
    requires (m, p) == Read(l, STATUS_SIZE)
    ensures m.trace == l.trace + ev
    ensures forall i :: 0 <= i < |ev| ==> !ev[i].Out?
    ensures Packets(ev) == if p.Some? then [p.value] else []
    ensures if p.Some? then ev != [] && ev[|ev| - 1] == In(p.value)
            else ev == [] || ev[|ev| - 1] == InFault
    ensures Readable(l) ==> ev != []
  {
    ev := [];
    if l.epIn != 0 && l.desc != -1 {
      ReadOnePacket(l, STATUS_SIZE);
      var n := Faults(l.replies, l.ins, STATUS_SIZE);
      FaultPackets(n);
      ev := FaultRun(n);
      if p.Some? {
        PacketsAppend(ev, [In(p.value)]);
        ev := ev + [In(p.value)];
      }
    }
  }

  lemma SilentJoin(first: seq<Event>, rest: seq<Event>)
    requires (forall i :: 0 <= i < |first| ==> !first[i].Out?) && forall i :: 0 <= i < |rest| ==> !rest[i].Out?
    ensures forall i :: 0 <= i < |first + rest| ==> !(first + rest)[i].Out?
    ensures rest != [] ==> (first + rest)[|first + rest| - 1] == rest[|rest| - 1]
  {
  }

  lemma SpokenAfterInfo(first: seq<Event>, info: string, rest: seq<Event>, infos: seq<string>, status: Option<string>)
    requires forall i :: 0 <= i < |first| ==> !first[i].Out?
    requires Packets(first) == [info] && IsInfo(info) && Spoken(rest, infos, status)
    requires first[|first| - 1] == In(info) && (status.None? ==> rest != [])
    ensures Spoken(first + rest, [info] + infos, status)
  {
    SilentJoin(first, rest);
    PacketsAppend(first, rest);
    Assoc([info], infos, if status.Some? then [status.value] else []);
  }

  /** The verdict packet is the first that is not an INFO, and every packet before it was one. */
  lemma {:induction false} ListenTrace(l: Link) returns (ev: seq<Event>)
    ensures var d := Listen(l); d.link.trace == l.trace + ev && Spoken(ev, d.infos, d.status)
    ensures Readable(l) ==> ev != []
    decreases |l.replies| - l.ins
  {
    var d := Listen(l);
    var (m, p) := Read(l, STATUS_SIZE);
    var first := ReadTrace(l, m, p);
    if p.Some? && IsInfo(p.value) {
      var rest := ListenTrace(m);
      ev := first + rest;
      Assoc(l.trace, first, rest);
      SpokenAfterInfo(first, p.value, rest, Listen(m).infos, Listen(m).status);
    } else {
      ev := first;
    }
  }

  /**
    check_response: the code, the reply text and the closing of the transport are those of
    the first packet that is not an INFO; the INFO texts before it are logged in order.
   */
  lemma ResponseFixedByFirstStatus(h: Host, size: nat) returns (ev: seq<Event>, infos: seq<string>, status: Option<string>)
    ensures Spoken(ev, infos, status)
    ensures var o := CheckResponse(h, size);
            var v := Judge(status, size);
            && o.h.link.trace == h.link.trace + ev
            && o.h.msgs == h.msgs + InfoTexts(infos)
            && o.rc == v.rc && o.resp == v.resp
            && o.h.link.desc == (if v.close then -1 else h.link.desc)
            && (o.rc >= 0 <==> status.Some? && Accepts(status.value, size))
            && (size == 0 && o.rc >= 0 ==> IsOkay(status.value))
            && (o.rc < 0 ==> !EndsOkay(ev))
            && (o.rc >= 0 ==> Readable(o.h.link))
            && (Readable(h.link) ==> ev != [])
            && o.h.link.epOut == h.link.epOut && (o.rc < 0 ==> o.resp == "")
    ensures status.Some? ==> |status.value| <= 64
    ensures forall i :: 0 <= i < |infos| ==> InfoTexts(infos)[i] == "(bootloader) " + CStr(infos[i][4..]) + "\n"
  {
    var d := Listen(h.link);
    infos, status := d.infos, d.status;
    ev := ListenTrace(h.link);
  }

  /**
    On an open handle check_response closes it in exactly four ways: a failed read, a short
    packet, a DATA of more than was announced, an unknown status; FAIL is the one error that
    leaves it open.
   */
  lemma ClosedExactlyOnBadStatus(h: Host, size: nat) returns (ev: seq<Event>, infos: seq<string>, status: Option<string>)
    requires h.link.desc != -1
    ensures Spoken(ev, infos, status) && CheckResponse(h, size).h.link.trace == h.link.trace + ev
    ensures CheckResponse(h, size).h.link.desc == -1 <==>
            || status.None?
            || |status.value| < 4
            || (IsData(status.value) && size > 0 && DataSize(status.value) > size)
            || !(IsOkay(status.value) || IsFail(status.value) || (IsData(status.value) && size > 0))
    ensures CheckResponse(h, size).rc < 0 && CheckResponse(h, size).h.link.desc != -1 <==> status.Some? && IsFail(status.value)
  {
    ev, infos, status := ResponseFixedByFirstStatus(h, size);
  }

  /** What is kept as the error text of a status that is not accepted; a refusal keeps the device's own words. */
  function Reason(status: Option<string>, size: nat): string {
    if status.None? then "status read failed"
    else if |status.value| < 4 then "status malformed"
    else if status.value[..4] == "FAIL" then (if |status.value| > 4 then "remote: " + CStr(status.value[4..]) else "remote failure")
    else if status.value[..4] == "DATA" && size > 0 then "data size too large"
    else "unknown status code"
  }

  lemma JudgeReason(status: Option<string>, size: nat)
    requires status.Some? ==> !IsInfo(status.value)
    ensures Judge(status, size).err == if Judge(status, size).rc < 0 then Some(Reason(status, size)) else None
  {
  }

  /** The last of the device's words, if there are any. */
  function LastWords(infos: seq<string>, default: string): string
    requires forall i :: 0 <= i < |infos| ==> IsInfo(infos[i])
  {
    if |infos| == 0 then default
    else
      assert IsInfo(infos[|infos| - 1]);
      "(bootloader) " + CStr(infos[|infos| - 1][4..]) + "\n"
  }

  lemma WordsKept(infos: seq<string>, default: string)
    requires forall i :: 0 <= i < |infos| ==> IsInfo(infos[i])
    ensures LastOr(InfoTexts(infos), default) == LastWords(infos, default)
  {
  }

  /** After a status the error text is the reason why it is not accepted, and otherwise the last of the device's words. */
  lemma ReasonKept(h: Host, size: nat) returns (ev: seq<Event>, infos: seq<string>, status: Option<string>)
    ensures Spoken(ev, infos, status) && CheckResponse(h, size).h.link.trace == h.link.trace + ev
    ensures CheckResponse(h, size).h.err ==
            if CheckResponse(h, size).rc < 0 then Reason(status, size) else LastWords(infos, h.err)
    ensures CheckResponse(h, size).rc == Judge(status, size).rc
  {
    var d := Listen(h.link);
    infos, status := d.infos, d.status;
    ev := ListenTrace(h.link);
    JudgeReason(status, size);
    WordsKept(infos, h.err);
  }

  // ----- Commands -----

  lemma {:induction false} SmallWrite(l: Link, cmd: string) returns (ev: seq<Event>)
    requires |cmd| <= MAX_COMMAND
    ensures var (m, n) := Write(l, cmd);
            && m.trace == l.trace + ev && m.epOut == l.epOut && (n == |cmd| || n == -1)
            && (n == |cmd| ==> Writable(l) && ev == Delivered([cmd]))
    ensures forall i :: 0 <= i < |ev| ==> ev[i].Out? && ev[i].data == cmd
    ensures |ev| == if Writable(l) then 1 else 0
  {
    if l.epOut == 0 || l.desc == -1 {
      ev := [];
    } else {
      assert Chunks(cmd) == [cmd];
      ev := Transfers(l.acks, l.outs, [cmd]);
      WriteDelivers(l, cmd);
    }
  }

  lemma AnsweredLast(trace: seq<Event>, sent: seq<Event>, said: seq<Event>)
    requires forall i :: 0 <= i < |sent| ==> sent[i].Out?
    ensures trace + sent + said == trace + (sent + said)
    ensures EndsOkay(sent + said) <==> EndsOkay(said)
    ensures (forall i :: 0 <= i < |said| ==> !said[i].Out?) ==> OutData(sent + said) == OutData(sent)
  {
    if forall i :: 0 <= i < |said| ==> !said[i].Out? {
      OutDataAppend(sent, said);
      SilentPayload(said);
      Assoc(OutData(sent), [], []);
    }
    if said == [] {
      assert sent + said == sent;
    } else {
      assert (sent + said)[|sent + said| - 1] == said[|said| - 1];
    }
  }

  /** A command on the bus: if it is short enough and the endpoint is open, it is the first event and the only transfer. */
  predicate CommandOn(h: Host, cmd: string, ev: seq<Event>) {
    if |cmd| <= 64 && Writable(h.link) then OutData(ev) == [cmd] && ev[0].Out? else ev == []
  }

  lemma OneOut(cmd: string, ev: seq<Event>)
    requires |ev| <= 1 && forall i :: 0 <= i < |ev| ==> ev[i].Out? && ev[i].data == cmd
    ensures OutData(ev) == if |ev| == 1 then [cmd] else []
  {
    OnlyOuts(ev, [cmd]);
  }

  /** The command could not be written. */
  predicate Unwritten(o: Outcome) {
    o.rc == -1 && o.resp == "" && o.h.link.desc == -1 && o.h.err == "command write failed"
  }

  lemma CommandTrace(h: Host, cmd: string, size: nat)
    returns (ev: seq<Event>, said: seq<Event>, infos: seq<string>, status: string)
    ensures var o := CommandStart(h, cmd, size);
            && o.h.link.trace == h.link.trace + ev
            && o.h.msgs == h.msgs + InfoTexts(infos)
            && (o.rc >= 0 ==> CommandedBy(ev, cmd, size, said, infos, status))
            && (o.rc >= 0 && size == 0 ==> IsOkay(status) && o.resp == Body(status))
            && (o.rc < 0 ==> !EndsOkay(ev))
            && (o.rc >= 0 ==> Readable(o.h.link))
            && (o.rc >= 0 ==> Writable(o.h.link))
            && (|cmd| > 64 ==> ev == [] && o.rc == -1 && o.h.link == h.link)
    ensures CommandOn(h, cmd, ev)
    ensures var o := CommandStart(h, cmd, size);
            && (|cmd| > 64 ==> o.h.err == "command too large")
            && (|cmd| <= 64 && (ev == [] || ev[0] != Out(cmd, |cmd|)) ==> Unwritten(o))
  {
    ev, said, infos, status := [], [], [], "";
    if |cmd| <= MAX_COMMAND {
      var sent := SmallWrite(h.link, cmd);
      OneOut(cmd, sent);
      var (l, n) := Write(h.link, cmd);
      if n != |cmd| {
        ev := sent;
      } else {
        var s: Option<string>;
        said, infos, s := ResponseFixedByFirstStatus(h.(link := l), size);
        ev := sent + said;
        status := if s.Some? then s.value else "";
        AnsweredLast(h.link.trace, sent, said);
      }
    }
  }

  // ----- The data phase -----

  /** mmap is asked for whole pages, and what it is asked for holds exactly the slice wanted. */
  lemma MapCoversSlice(file: string, offset: nat, len: nat, page: nat)
    requires page > 0 && offset + len <= |file|
    ensures var m := CreateFileMap(offset, len, page);
            m.base == page * (offset / page) && m.base <= offset && m.base + m.length == offset + len &&
            Mapped(file, m) == Piece(file, offset, len)
  {
  }

  lemma BigWrite(l: Link, data: string) returns (ev: seq<Event>)
    requires |data| <= MAX_MAP_SIZE
    ensures var (m, n) := Write(l, data);
            && m.trace == l.trace + ev && (n == |data| || n == -1)
            && (n == |data| ==> ev == Delivered(Chunks(data)))
            && (n == -1 ==> ev == [] || ev[|ev| - 1].Out?)
            && m.epOut == l.epOut
    ensures OutData(ev) <= Chunks(data)
  {
    if l.epOut == 0 || l.desc == -1 {
      ev := [];
    } else {
      ev := Transfers(l.acks, l.outs, Chunks(data));
      WriteDelivers(l, data);
      TransfersOuts(l.acks, l.outs, Chunks(data));
    }
  }

  /** 512 MiB windows are a whole number of transfers, so they leave no mark on the bus. */
  lemma DataPhaseSplit(a: string, b: string)
    requires |a| % MAX_USBFS_BULK_SIZE == 0 || b == ""
    ensures Pieces(a + b) == Pieces(a) + Pieces(b)
    ensures DataPhase(a + b) == DataPhase(a) + DataPhase(b)
  {
    if a == "" {
      assert a + b == b;
    } else if b == "" {
      assert a + b == a;
    } else {
      ChunksSplit(a, b);
    }
    DeliveredAppend(Pieces(a), Pieces(b));
  }

  function Piece(file: string, offset: nat, len: nat): string
    requires offset + len <= |file|
  {
    file[offset..offset + len]
  }

  lemma DeliveredAppend(a: seq<string>, b: seq<string>)
    ensures Delivered(a + b) == Delivered(a) + Delivered(b)
  {
  }

  lemma WindowThenRest(file: string, offset: nat, len: nat, remaining: nat, first: seq<Event>, rest: seq<Event>)
    requires 0 < len == Window(remaining) && offset + remaining <= |file|
    requires first == Delivered(Chunks(Piece(file, offset, len)))
    ensures rest == DataPhase(Piece(file, offset + len, remaining - len)) ==>
              first + rest == DataPhase(Piece(file, offset, remaining))
    ensures |Payload(first + rest)| == len + |Payload(rest)|
    ensures rest != [] ==> (first + rest)[|first + rest| - 1] == rest[|rest| - 1]
  {
    DeliveredCarries(Piece(file, offset, len));
    PayloadAppend(first, rest);
    FirstPieces(file, offset, len, remaining);
    DeliveredAppend(Chunks(Piece(file, offset, len)), Pieces(Piece(file, offset + len, remaining - len)));
  }

  /** The pieces of a window and those of the rest are the first of what is to be sent. */
  lemma PiecesThenRest(file: string, offset: nat, len: nat, remaining: nat, first: seq<Event>, rest: seq<Event>)
    requires 0 < len == Window(remaining) && offset + remaining <= |file|
    requires first == Delivered(Chunks(Piece(file, offset, len)))
    requires OutData(rest) <= Pieces(Piece(file, offset + len, remaining - len))
    ensures OutData(first + rest) <= Pieces(Piece(file, offset, remaining))
  {
    FirstPieces(file, offset, len, remaining);
    DeliveredOuts(Chunks(Piece(file, offset, len)));
    OutDataAppend(first, rest);
  }

  lemma FirstPieces(file: string, offset: nat, len: nat, remaining: nat)
    requires 0 < len == Window(remaining) && offset + remaining <= |file|
    ensures Pieces(Piece(file, offset, remaining)) ==
            Chunks(Piece(file, offset, len)) + Pieces(Piece(file, offset + len, remaining - len))
  {
    assert Piece(file, offset, remaining) == Piece(file, offset, len) + Piece(file, offset + len, remaining - len);
    DataPhaseSplit(Piece(file, offset, len), Piece(file, offset + len, remaining - len));
  }

  /** The data phase without the mapping: each piece of the file is written as it is. */
  function SendSlices(h: Host, src: Source, offset: nat, remaining: nat, k: nat): (o: Outcome)
    requires offset + remaining <= |src.file|
    decreases remaining
  {
    if remaining == 0 then Outcome(h, 0, "")
    else if !MapOk(src, k) then Outcome(h, -1, "")
    else
      var len := Window(remaining);
      var w := CommandWriteData(h, Piece(src.file, offset, len));
      if w.rc < 0 then w else SendSlices(w.h, src, offset + len, remaining - len, k + 1)
  }

  lemma WindowMapped(file: string, offset: nat, len: nat, page: nat)
    requires page > 0 && offset + len <= |file|
    ensures Mapped(file, CreateFileMap(offset, len, page)) == Piece(file, offset, len)
  {
    MapCoversSlice(file, offset, len, page);
  }

  lemma SlicesStep(h: Host, src: Source, offset: nat, remaining: nat, k: nat, w: Outcome, at: nat, left: nat)
    requires 0 < remaining && offset + remaining <= |src.file| && MapOk(src, k)
    requires at == offset + Window(remaining) && left == remaining - Window(remaining)
    requires w == CommandWriteData(h, Piece(src.file, offset, Window(remaining)))
    ensures SendSlices(h, src, offset, remaining, k) == if w.rc < 0 then w else SendSlices(w.h, src, at, left, k + 1)
  {
  }

  lemma WindowsStep(h: Host, src: Source, offset: nat, remaining: nat, k: nat, w: Outcome, at: nat, left: nat)
    requires src.page > 0 && 0 < remaining && offset + remaining <= |src.file| && MapOk(src, k)
    requires at == offset + Window(remaining) && left == remaining - Window(remaining)
    requires w == CommandWriteData(h, Mapped(src.file, CreateFileMap(offset, Window(remaining), src.page)))
    ensures SendWindows(h, src, offset, remaining, k) == if w.rc < 0 then w else SendWindows(w.h, src, at, left, k + 1)
  {
  }

  /** The first piece, with and without the mapping, and what comes after it. */
  lemma FirstWindow(h: Host, src: Source, offset: nat, remaining: nat, k: nat) returns (w: Outcome, at: nat, left: nat)
    requires src.page > 0 && offset + remaining <= |src.file| && remaining > 0 && MapOk(src, k)
    ensures left == remaining - Window(remaining) && at == offset + Window(remaining)
    ensures w == CommandWriteData(h, Piece(src.file, offset, Window(remaining)))
    ensures SendWindows(h, src, offset, remaining, k) == if w.rc < 0 then w else SendWindows(w.h, src, at, left, k + 1)
    ensures SendSlices(h, src, offset, remaining, k) == if w.rc < 0 then w else SendSlices(w.h, src, at, left, k + 1)
  {
    var len := Window(remaining);
    WindowMapped(src.file, offset, len, src.page);
    w, at, left := CommandWriteData(h, Piece(src.file, offset, len)), offset + len, remaining - len;
    WindowsStep(h, src, offset, remaining, k, w, at, left);
    SlicesStep(h, src, offset, remaining, k, w, at, left);
  }

  lemma {:induction false} MappingInvisible(h: Host, src: Source, offset: nat, remaining: nat, k: nat)
    requires src.page > 0 && offset + remaining <= |src.file|
    ensures SendWindows(h, src, offset, remaining, k) == SendSlices(h, src, offset, remaining, k)
    decreases remaining
  {
    if remaining > 0 && MapOk(src, k) {
      var w, at, left := FirstWindow(h, src, offset, remaining, k);
      if w.rc >= 0 {
        MappingInvisible(w.h, src, at, left, k + 1);
      }
    }
  }

  lemma OneSlice(h: Host, slice: string) returns (ev: seq<Event>)
    requires |slice| <= MAX_MAP_SIZE
    ensures var w := CommandWriteData(h, slice);
            && w.h.link.trace == h.link.trace + ev && w.h.msgs == h.msgs && w.h.link.epOut == h.link.epOut
            && (w.rc >= 0 ==> ev == Delivered(Chunks(slice)) && w.h.link.epIn == h.link.epIn && w.h.link.desc == h.link.desc)
            && (w.rc < 0 ==> w.rc == -1 && (ev == [] || ev[|ev| - 1].Out?))
            && (w.rc < 0 ==> w.h.link.desc == -1 && w.h.err == "data write failure")
    ensures OutData(ev) <= Chunks(slice)
  {
    ev := BigWrite(h.link, slice);
  }

  /** What a data phase that ended with `rc` left on the bus. */
  ghost predicate Streamed(h: Host, o: Outcome, ev: seq<Event>, data: string) {
    && o.h.link.trace == h.link.trace + ev && o.h.msgs == h.msgs && o.h.link.epOut == h.link.epOut
    && OutData(ev) <= Pieces(data) && (o.rc >= 0 ==> ev == DataPhase(data))
    && (o.rc >= 0 && Readable(h.link) ==> Readable(o.h.link))
    && (o.rc < 0 ==> |Payload(ev)| < |data| || (ev != [] && ev[|ev| - 1].Out?))
  }

  /** One piece of `remaining` bytes has been sent, `first`; `left` bytes from `at` on are still to go. */
  ghost predicate FirstSent(h: Host, m: Host, file: string, offset: nat, remaining: nat, at: nat, left: nat, first: seq<Event>) {
    && 0 < remaining && offset + remaining <= |file|
    && at == offset + Window(remaining) && left == remaining - Window(remaining)
    && first == Delivered(Chunks(Piece(file, offset, Window(remaining))))
    && m.link.trace == h.link.trace + first && m.msgs == h.msgs && m.link.epOut == h.link.epOut
    && (Readable(h.link) ==> Readable(m.link))
  }

  lemma StreamedMore(h: Host, m: Host, o: Outcome, file: string, offset: nat, remaining: nat, at: nat, left: nat,
                     first: seq<Event>, rest: seq<Event>)
    requires FirstSent(h, m, file, offset, remaining, at, left, first) && Streamed(m, o, rest, Piece(file, at, left))
    ensures Streamed(h, o, first + rest, Piece(file, offset, remaining))
  {
    Assoc(h.link.trace, first, rest);
    WindowThenRest(file, offset, Window(remaining), remaining, first, rest);
    PiecesThenRest(file, offset, Window(remaining), remaining, first, rest);
  }

  lemma StreamedCut(h: Host, o: Outcome, first: seq<Event>, data: string)
    requires o.h.link.trace == h.link.trace + first && o.h.msgs == h.msgs && o.h.link.epOut == h.link.epOut
    requires o.rc < 0 && data != "" && (first == [] || first[|first| - 1].Out?) && OutData(first) <= Pieces(data)
    ensures Streamed(h, o, first, data)
  {
  }

  /** What is left of a data phase whose outcome will be `all`. */
  ghost predicate Slicing(all: Outcome, h: Host, src: Source, offset: nat, remaining: nat, k: nat) {
    offset + remaining <= |src.file| && all == SendSlices(h, src, offset, remaining, k)
  }

  lemma SliceStep(all: Outcome, h: Host, src: Source, offset: nat, remaining: nat, k: nat)
    returns (first: seq<Event>, m: Host, at: nat, left: nat)
    requires Slicing(all, h, src, offset, remaining, k) && remaining > 0 && MapOk(src, k)
    ensures left < remaining && at + left <= |src.file|
    ensures || Streamed(h, all, first, Piece(src.file, offset, remaining))
            || (Slicing(all, m, src, at, left, k + 1) && FirstSent(h, m, src.file, offset, remaining, at, left, first))
  {
    var slice := Piece(src.file, offset, Window(remaining));
    first := OneSlice(h, slice);
    var w := CommandWriteData(h, slice);
    m, at, left := w.h, offset + Window(remaining), remaining - Window(remaining);
    if w.rc < 0 {
      FirstPieces(src.file, offset, Window(remaining), remaining);
      StreamedCut(h, w, first, Piece(src.file, offset, remaining));
    }
  }

  lemma {:induction false} SendSlicesTrace(all: Outcome, h: Host, src: Source, offset: nat, remaining: nat, k: nat)
    returns (ev: seq<Event>)
    requires Slicing(all, h, src, offset, remaining, k)
    ensures Streamed(h, all, ev, Piece(src.file, offset, remaining))
    decreases remaining
  {
    ev := [];
    if remaining == 0 || !MapOk(src, k) {
      Assoc(h.link.trace, [], []);
    } else {
      var first, m, at, left := SliceStep(all, h, src, offset, remaining, k);
      ev := first;
      if !Streamed(h, all, first, Piece(src.file, offset, remaining)) {
        var rest := SendSlicesTrace(all, m, src, at, left, k + 1);
        ev := first + rest;
        StreamedMore(h, m, all, src.file, offset, remaining, at, left, first, rest);
      }
    }
  }

  // ----- Downloads -----

  /** The size of `image` was announced, all of it went out, nothing else did, and the last word was OKAY. */
  predicate Complete(ev: seq<Event>, image: string) {
    var sent := Payload(ev);
    |sent| >= 17 && Announces(sent[..17], |image|) && sent[17..] == image && EndsOkay(ev)
  }

  lemma CommandAnnounces(size: nat)
    requires size < TWO_32
    ensures Announces(DownloadCommand(size), size)
  {
    var cmd := DownloadCommand(size);
    assert cmd[..9] == "download:" && cmd[9..] == HexPad(size, 8);
    Hex8RoundTrip(size);
    assert forall i :: 9 <= i < 17 ==> cmd[i] == HexPad(size, 8)[i - 9];
  }

  lemma DeliveredOne(cmd: string)
    ensures Payload(Delivered([cmd])) == cmd
  {
    DeliveredPayload([cmd]);
    assert Join([cmd]) == cmd;
  }

  lemma DownloadedIsComplete(ev: seq<Event>, image: string, infos: seq<string>, cmd: string, a: seq<Event>, b: seq<Event>,
                             i1: seq<string>, i2: seq<string>, s1: string, s2: string)
    requires DownloadedBy(ev, image, infos, cmd, a, b, i1, i2, s1, s2)
    ensures Complete(ev, image)
  {
    var said :| CommandedBy(a, cmd, |image|, said, i1, s1);
    SilentPayload(said);
    DeliveredOne(cmd);
    PayloadAppend(Delivered([cmd]), said);
    assert Payload(a) == cmd;
    if image != "" {
      DeliveredCarries(image);
    }
    SilentPayload(b);
    PayloadAppend(a, DataPhase(image));
    PayloadAppend(a + DataPhase(image), b);
    Assoc(cmd + image, [], []);
    assert (cmd + image)[..17] == cmd && (cmd + image)[17..] == image;
    assert ev[|ev| - 1] == b[|b| - 1];
  }

  /** A download that stopped before its closing status sent too little, or ended on a transfer. */
  lemma NotComplete(a: seq<Event>, d: seq<Event>, image: string)
    requires |Payload(a)| == 17
    requires |Payload(d)| < |image| || (d != [] && d[|d| - 1].Out?)
    ensures !Complete(a + d, image)
  {
    PayloadAppend(a, d);
    if d != [] {
      assert (a + d)[|a + d| - 1] == d[|d| - 1];
    }
  }

  lemma NotOkayAtEnd(a: seq<Event>, b: seq<Event>)
    requires b != [] && !EndsOkay(b)
    ensures !EndsOkay(a + b)
  {
    assert (a + b)[|a + b| - 1] == b[|b| - 1];
  }

  lemma CommandedPayload(ev: seq<Event>, cmd: string, size: nat, said: seq<Event>, infos: seq<string>, status: string)
    requires CommandedBy(ev, cmd, size, said, infos, status)
    ensures Payload(ev) == cmd
  {
    SilentPayload(said);
    DeliveredOne(cmd);
    PayloadAppend(Delivered([cmd]), said);
  }

  /**
    fb_download_data_fd: success is reported exactly when the whole download went over the
    bus and its last packet was an OKAY; and then the bus shows the command, an accepting
    status, the image in 16 KiB transfers, and the OKAY, with nothing in between.
   */
  lemma DownloadTrace(h: Host, src: Source, size: nat) returns (ev: seq<Event>, infos: seq<string>)
    requires src.page > 0 && size <= |src.file| && size < TWO_32
    ensures var o := DownloadFd(h, src, size);
            && o.h.link.trace == h.link.trace + ev && o.h.msgs == h.msgs + InfoTexts(infos)
            && (o.rc == 0 ==> Downloaded(ev, src.file[..size], infos) && Readable(o.h.link) && Writable(o.h.link))
            && (o.rc == 0 <==> Complete(ev, src.file[..size]))
    ensures if Writable(h.link) then Sends(OutData(ev), src.file[..size]) && ev[0].Out? else ev == []
  {
    var image := src.file[..size];
    var cmd := DownloadCommand(size);
    CommandAnnounces(size);
    var h0 := h.(err := cmd);
    var start, said, i1, s1 := CommandTrace(h0, cmd, size);
    var a := CommandStart(h0, cmd, size);
    ev, infos := start, i1;
    if a.rc >= 0 {
      CommandedPayload(start, cmd, size, said, i1, s1);
      var data, end, i2, s2 := DataAndEnd(a.h, src, size);
      Assoc(h.link.trace, start, data + end);
      ev, infos := start + (data + end), i1 + i2;
      OutDataAppend(start, data + end);
      InfoTextsAppend(i1, i2);
      Assoc(h.msgs, InfoTexts(i1), InfoTexts(i2));
      if SendFdRest(a.h, src, size).rc < 0 {
        if end == [] {
          assert data + end == data;
          NotComplete(start, data, image);
        } else {
          Assoc(start, data, end);
          NotOkayAtEnd(start + data, end);
        }
      } else {
        Assoc(start, data, end);
        assert Commanded(start, cmd, size, i1, s1);
        assert DownloadedBy(ev, image, infos, cmd, start, end, i1, i2, s1, s2);
        DownloadedIsComplete(ev, image, infos, cmd, start, end, i1, i2, s1, s2);
      }
    }
  }

  /** _command_send_fd after its first status. */
  function SendFdRest(h: Host, src: Source, size: nat): Outcome
    requires src.page > 0 && size <= |src.file|
  {
    var w := SendWindows(h, src, 0, size, 0);
    if w.rc < 0 then w else CommandEnd(w.h)
  }

  lemma DataAndEnd(h: Host, src: Source, size: nat)
    returns (data: seq<Event>, end: seq<Event>, infos: seq<string>, status: string)
    requires src.page > 0 && size <= |src.file| && Readable(h.link)
    ensures var o := SendFdRest(h, src, size);
            && o.h.link.trace == h.link.trace + (data + end) && o.h.msgs == h.msgs + InfoTexts(infos)
            && (o.rc >= 0 ==> data == DataPhase(src.file[..size]) && Spoken(end, infos, Some(status)) && IsOkay(status))
            && (o.rc >= 0 ==> Readable(o.h.link) && o.h.link.epOut == h.link.epOut)
            && (o.rc < 0 && end == [] ==> |Payload(data)| < size || (data != [] && data[|data| - 1].Out?))
            && (o.rc < 0 && end != [] ==> !EndsOkay(end))
    ensures OutData(data + end) <= Pieces(src.file[..size])
  {
    MappingInvisible(h, src, 0, size, 0);
    assert Piece(src.file, 0, size) == src.file[..size];
    end, infos, status := [], [], "";
    var w := SendSlices(h, src, 0, size, 0);
    data := SendSlicesTrace(w, h, src, 0, size, 0);
    if w.rc < 0 {
      Assoc(data, [], []);
      Assoc(h.msgs, [], []);
    } else {
      var s: Option<string>;
      end, infos, s := ResponseFixedByFirstStatus(w.h, 0);
      status := if s.Some? then s.value else "";
      Assoc(h.link.trace, data, end);
      AnsweredLast(h.link.trace, data, end);
    }
  }
}
