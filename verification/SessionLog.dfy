/**
  How full the 16-entry log of a session gets: one entry for every INFO packet of the device and
  one for every action that reports, so that a flash can be told at most fourteen things.
 */
module SessionLog {
  import opened CText
  import opened UsbTransport
  import opened FastbootProtocol
  import opened FastbootWire
  import opened FastbootEngine
  import opened FastbootDriver
  import opened EngineWire
  import opened FlashLayout
  import opened FlashProcess

  /** The INFO packets among `packets`. */
  function Infos(packets: seq<string>): nat {
    if packets == [] then 0 else (if IsInfo(packets[0]) then 1 else 0) + Infos(packets[1..])
  }

  /** The messages in which post_process_fastboot looks for a declaration. */
  function Declarations(msgs: seq<string>): (n: nat)
    ensures n <= |msgs|
  {
    if msgs == [] then 0
    else (if Contains(msgs[0], "(bootloader)") && !Failed(msgs[0]) then 1 else 0) + Declarations(msgs[1..])
  }

  lemma {:induction false} InfosAppend(a: seq<string>, b: seq<string>)
    ensures Infos(a + b) == Infos(a) + Infos(b)
  {
    if a == [] {
      assert a + b == b;
    } else {
      assert (a + b)[1..] == a[1..] + b;
      InfosAppend(a[1..], b);
    }
  }

  lemma {:induction false} DeclarationsAppend(a: seq<string>, b: seq<string>)
    ensures Declarations(a + b) == Declarations(a) + Declarations(b)
  {
    if a == [] {
      assert a + b == b;
    } else {
      assert (a + b)[1..] == a[1..] + b;
      DeclarationsAppend(a[1..], b);
    }
  }

  lemma {:induction false} AllAreInfos(infos: seq<string>)
    requires forall i :: 0 <= i < |infos| ==> IsInfo(infos[i])
    ensures Infos(infos) == |infos|
  {
    if infos != [] {
      AllAreInfos(infos[1..]);
    }
  }

  lemma {:induction false} NoPackets(ev: seq<Event>)
    requires forall i :: 0 <= i < |ev| ==> ev[i].Out?
    ensures Packets(ev) == []
  {
    if ev != [] {
      NoPackets(ev[1..]);
    }
  }

  /** The log has `k` entries more than INFO packets came in, and only those may declare something. */
  ghost predicate Balanced(h: Host, k: nat) {
    && |h.msgs| == Infos(Packets(h.link.trace)) + k
    && Declarations(h.msgs) <= Infos(Packets(h.link.trace))
  }

  /** `infos` were heard and logged on the way from `h` to `m`. */
  lemma BalancedOn(h: Host, m: Host, ev: seq<Event>, infos: seq<string>, tail: seq<string>, k: nat)
    requires Balanced(h, k) && m.link.trace == h.link.trace + ev && m.msgs == h.msgs + InfoTexts(infos)
    requires Packets(ev) == infos + tail && Infos(tail) == 0 && forall i :: 0 <= i < |infos| ==> IsInfo(infos[i])
    ensures Balanced(m, k)
  {
    PacketsAppend(h.link.trace, ev);
    InfosAppend(Packets(h.link.trace), Packets(ev));
    InfosAppend(infos, tail);
    AllAreInfos(infos);
    DeclarationsAppend(h.msgs, InfoTexts(infos));
  }

  lemma BalancedAnswer(h: Host, size: nat, k: nat)
    requires Balanced(h, k)
    ensures Balanced(CheckResponse(h, size).h, k)
  {
    var ev, infos, status := ResponseFixedByFirstStatus(h, size);
    var tail := if status.Some? then [status.value] else [];
    assert Infos(tail) == 0;
    BalancedOn(h, CheckResponse(h, size).h, ev, infos, tail, k);
  }

  /** Transfers out change nothing. */
  lemma WriteSilent(l: Link, data: string)
    ensures Packets(Write(l, data).0.trace) == Packets(l.trace)
  {
    if l.epOut != 0 && l.desc != -1 {
      var ev := Transfers(l.acks, l.outs, Chunks(data));
      NoPackets(ev);
      PacketsAppend(l.trace, ev);
      Assoc(Packets(l.trace), [], []);
    }
  }

  lemma {:induction false} SlicesSilent(h: Host, src: Source, offset: nat, remaining: nat, k: nat)
    requires offset + remaining <= |src.file|
    ensures var m := SendSlices(h, src, offset, remaining, k).h;
            m.msgs == h.msgs && Packets(m.link.trace) == Packets(h.link.trace)
    decreases remaining
  {
    if remaining > 0 && MapOk(src, k) {
      var at, left := offset + Window(remaining), remaining - Window(remaining);
      var slice := Piece(src.file, offset, Window(remaining));
      var w := CommandWriteData(h, slice);
      WriteSilent(h.link, slice);
      SlicesStep(h, src, offset, remaining, k, w, at, left);
      if w.rc >= 0 {
        SlicesSilent(w.h, src, at, left, k + 1);
      }
    }
  }

  lemma BalancedStart(h: Host, cmd: string, size: nat, k: nat)
    requires Balanced(h, k)
    ensures Balanced(CommandStart(h, cmd, size).h, k)
  {
    if |cmd| <= MAX_COMMAND {
      WriteSilent(h.link, cmd);
      var (l, n) := Write(h.link, cmd);
      if n == |cmd| {
        BalancedAnswer(h.(link := l), size, k);
      }
    }
  }

  lemma BalancedDownload(h: Host, src: Source, size: nat, k: nat)
    requires src.page > 0 && size <= |src.file| && Balanced(h, k)
    ensures Balanced(DownloadFd(h, src, size).h, k)
  {
    var h0 := h.(err := DownloadCommand(size));
    BalancedStart(h0, DownloadCommand(size), size, k);
    var a := CommandStart(h0, DownloadCommand(size), size);
    if a.rc >= 0 {
      MappingInvisible(a.h, src, 0, size, 0);
      SlicesSilent(a.h, src, 0, size, 0);
      var w := SendWindows(a.h, src, 0, size, 0);
      if w.rc >= 0 {
        BalancedAnswer(w.h, 0, k);
      }
    }
  }

  lemma OkayDeclaresNothing()
    ensures !Contains(OKAY_TEXT, "(bootloader)")
  {
    NotInside(OKAY_TEXT, "(bootloader)", 0);
  }

  /** A report, good or bad, is one entry more, and declares nothing. */
  lemma BalancedReport(h: Host, status: int, k: nat)
    requires Balanced(h, k)
    ensures Balanced(Report(h, CbDefault, status).0, k + 1)
  {
    var text := if status != 0 then FailedText(h.err) else OKAY_TEXT;
    OkayDeclaresNothing();
    FailedTextFails(h.err);
    DeclarationsAppend(h.msgs, [text]);
    assert Declarations([text]) == 0;
  }

  lemma BalancedVar(h: Host, key: string, k: nat)
    requires Balanced(h, k)
    ensures Balanced(GetVar(h, key).0, k)
  {
    BalancedStart(h, "getvar:" + key, 0, k);
  }

  lemma BalancedResolve(h: Host, part: string, k: nat)
    requires Balanced(h, k)
    ensures Balanced(Resolve(h, part).0, k)
  {
    BalancedVar(h, "has-slot:" + part, k);
    var (m, v) := GetVar(h, "has-slot:" + part);
    if v == Some("yes") {
      BalancedVar(m, "current-slot", k);
    }
  }

  /** A flash: the download reports, and if it was acknowledged so does the flash command. */
  lemma BalancedPair(h: Host, partition: string, src: Source, k: nat)
    requires src.page > 0 && Balanced(h, k)
    ensures Balanced(Execute(h, FlashActions(partition, src)).0,
                     k + if DownloadFd(h, src, Truncated(src.file)).rc == 0 then 2 else 1)
  {
    var queue, o := FlashActions(partition, src), DownloadFd(h, src, Truncated(src.file));
    BalancedDownload(h, src, Truncated(src.file), k);
    BalancedReport(o.h, o.rc, k);
    if o.rc == 0 {
      var m := RunAction(h, queue[0]).0;
      ExecuteLast(m, queue);
      BalancedStart(m, FlashCommand(partition), 0, k + 1);
      var c := Command(m, FlashCommand(partition));
      BalancedReport(c.h, c.rc, k + 1);
    }
  }

  lemma BalancedCommand(h: Host, cmd: string, k: nat)
    requires Balanced(h, k)
    ensures Balanced(Execute(h, [OpCommand(cmd, CbDefault)]).0, k + 1)
  {
    BalancedStart(h, cmd, 0, k);
    var c := Command(h, cmd);
    BalancedReport(c.h, c.rc, k);
    assert [OpCommand(cmd, CbDefault)][1..] == [];
  }

  lemma BalancedReboot(h: Host, queue: seq<Action>, k: nat)
    requires Balanced(h, k) && queue == [OpCommand("reboot", CbDoNothing), OpWaitForDisconnect]
    ensures Balanced(Execute(h, queue).0, k)
  {
    BalancedStart(h, "reboot", 0, k);
    var m := RunAction(h, queue[0]).0;
    assert queue[1..] == [OpWaitForDisconnect] && queue[1..][1..] == [];
    assert Execute(m, queue[1..]) == (m, 0);
  }

  // ----- The log of a whole session -----

  function Start(s: Session): Host {
    Host(s.link, [], "")
  }

  /** The device has slots for the partition, and does not say which is the current one. */
  predicate SlotUntold(h: Host, partition: string) {
    var (m, v) := GetVar(h, "has-slot:" + partition);
    v == Some("yes") && CurrentSlot(m).1 == ""
  }

  /** How many of the session's actions report: a flash whose download failed ends with the report of that. */
  function Reports(s: Session, req: Request): nat
    requires Usable(s)
  {
    match req
    case Reboot => 0
    case Oem(_, _) => 1
    case Flashing(_, _) => 1
    case Flash(partition, image) =>
      var src := Source(image.Or(""), s.mem.page, s.mem.maps);
      if DownloadFd(Resolve(Start(s), partition).0, src, Truncated(src.file)).rc == 0 then 2 else 1
  }

  /** The session in which fastboot_main dies before it does anything: no image, or no slot to flash it to. */
  predicate Dies(s: Session, req: Request) {
    req.Flash? && (req.image.None? || SlotUntold(Start(s), req.partition))
  }

  /** Every INFO packet of the session and every report is one entry of the log. */
  lemma LogFills(s: Session, req: Request)
    requires Usable(s)
    ensures var e := FastbootMain(Start(s), s.mem, req);
            && (e.Died? <==> Dies(s, req))
            && (e.Ended? ==> Balanced(e.h, Reports(s, req)))
  {
    var h := Start(s);
    match req
    case Reboot => BalancedReboot(h, Fill(h, s.mem, req).1.value, 0);
    case Oem(arg, value) => BalancedCommand(h, OemText("oem", arg, value), 0);
    case Flashing(arg, value) => BalancedCommand(h, OemText("flashing", arg, value), 0);
    case Flash(partition, image) =>
      BalancedResolve(h, partition, 0);
      var (m, name) := Resolve(h, partition);
      if name.Some? && image.Some? {
        BalancedPair(m, name.value, Source(image.value, s.mem.page, s.mem.maps), 0);
      }
  }

  /** The INFO packets that came in during the session. */
  function InfosIn(s: Session, req: Request): nat
    requires Usable(s)
  {
    Infos(Packets(FastbootMain(Start(s), s.mem, req).h.link.trace))
  }

  /** The session from which the process does not come back. */
  predicate Gone(s: Session, req: Request)
    requires Usable(s)
  {
    Dies(s, req) || InfosIn(s, req) + Reports(s, req) > FB_MAX_INFO_COUNT
  }

  /**
    A session leaves nothing behind, and ends the process, exactly when fastboot_main dies in it
    or its INFO packets and reports are more than the log's sixteen entries.
   */
  lemma GoneExactly(s: Session, req: Request)
    requires Usable(s)
    ensures SessionRecord(s, req).None? <==> Gone(s, req)
  {
    LogFills(s, req);
  }

  // ----- The same on the bus -----

  /** A slot is untold exactly when has-slot is answered with "yes" and current-slot with nothing or not at all. */
  lemma SlotOnBus(h: Host, partition: string) returns (a: seq<Event>, b: seq<Event>)
    ensures Resolve(h, partition).0.link.trace == h.link.trace + (a + b) && Asked(a, b, partition)
    ensures SlotUntold(h, partition) <==> Answer(a) == Some("yes") && Answer(b).Or("") == ""
    ensures SlotUntold(h, partition) <==> Resolve(h, partition).1.None?
  {
    var texts;
    a, b, texts := ResolveTrace(h, partition);
  }

  lemma ReportsOfFlash(s: Session, partition: string, image: string, m: Host, src: Source)
    requires Usable(s) && m == Resolve(Start(s), partition).0 && src == Source(image, s.mem.page, s.mem.maps)
    ensures Reports(s, Flash(partition, Some(image))) == if DownloadFd(m, src, Truncated(src.file)).rc == 0 then 2 else 1
  {
  }

  /** What the session of a flash comes to once its name is known. */
  lemma EndedAs(s: Session, partition: string, image: string, m: Host, name: string, src: Source, e: Ending)
    requires Usable(s) && Resolve(Start(s), partition) == (m, Some(name)) && src == Source(image, s.mem.page, s.mem.maps)
    requires e == FastbootMain(Start(s), s.mem, Flash(partition, Some(image)))
    ensures e.Ended? && e.h.link.trace == Execute(m, FlashActions(name, src)).0.link.trace
  {
  }

  lemma UnnamedDies(s: Session, partition: string, image: string, e: Ending)
    requires Usable(s) && Resolve(Start(s), partition).1.None?
    requires e == FastbootMain(Start(s), s.mem, Flash(partition, Some(image)))
    ensures e.Died?
  {
  }

  /** A flash that is not lost to `die` reports twice exactly when the bus shows its complete download. */
  lemma ReportsOnBus(s: Session, partition: string, image: string, e: Ending)
    returns (pre: seq<Event>, d: seq<Event>, f: seq<Event>)
    requires Usable(s) && e == FastbootMain(Start(s), s.mem, Flash(partition, Some(image)))
    ensures e.Ended? ==> e.h.link.trace == pre + (d + f) &&
                         Reports(s, Flash(partition, Some(image))) == if Complete(d, Sent(image)) then 2 else 1
  {
    d, f := [], [];
    var a, b, texts := ResolveTrace(Start(s), partition);
    pre := a + b;
    var (m, name) := Resolve(Start(s), partition);
    if name.Some? {
      var src := Source(image, s.mem.page, s.mem.maps);
      var n, status;
      n, status, d, f := FlashPair(m, name.value, src);
      ReportsOfFlash(s, partition, image, m, src);
      EndedAs(s, partition, image, m, name.value, src, e);
      assert [] + pre == pre;
    } else {
      UnnamedDies(s, partition, image, e);
    }
  }

  /** A flash that ends well reports twice, so it is lost exactly when the device says more than fourteen things. */
  lemma LogOfFlash(s: Session, partition: string, image: string)
    requires Usable(s)
    ensures var req := Flash(partition, Some(image));
            var e := FastbootMain(Start(s), s.mem, req);
            e.Ended? && e.status == 0 ==> Reports(s, req) == 2 && (SessionRecord(s, req).None? <==> InfosIn(s, req) > 14)
  {
    var req := Flash(partition, Some(image));
    GoneExactly(s, req);
    LogFills(s, req);
    var (m, name) := Resolve(Start(s), partition);
    if name.Some? {
      BothRan(m, name.value, Source(image, s.mem.page, s.mem.maps));
    }
  }

  lemma BothRan(h: Host, partition: string, src: Source)
    requires src.page > 0
    ensures Execute(h, FlashActions(partition, src)).1 == 0 ==> DownloadFd(h, src, Truncated(src.file)).rc == 0
  {
  }

  // ----- What a log can declare -----

  /** Each message adds at most one slice, and only if it may declare one. */
  lemma {:induction false} SlicesDeclared(r: Reader, msgs: seq<string>)
    requires Fits(r.layout)
    ensures var l := PostProcess(r, msgs, true).0.layout;
            |l.images| + |l.pri| <= |r.layout.images| + |r.layout.pri| + Declarations(msgs)
    decreases |msgs|
  {
    if msgs != [] && !Failed(msgs[0]) {
      SlicesDeclared(Absorb(r, msgs[0]), msgs[1..]);
    }
  }

  /** So a header session that leaves a record declares at most fifteen slices, and at most fourteen if it succeeded. */
  lemma SlicesOfHeader(s: Session, image: string, l: Layout)
    requires Usable(s) && Fits(l)
    ensures var r := SessionRecord(s, Flash("sop-hdr", Some(image)));
            r.Some? ==> |ReadInto(l, r.value).images| + |ReadInto(l, r.value).pri|
                        <= |l.images| + |l.pri| + if r.value.rtn == 1 then 14 else 15
  {
    var req := Flash("sop-hdr", Some(image));
    var r := SessionRecord(s, req);
    if r.Some? {
      LogFills(s, req);
      if r.value.rtn == 1 {
        LogOfFlash(s, "sop-hdr", image);
        RecordIsGenuine(s, req);
        SendCommandMeans(r.value);
      }
      SlicesDeclared(Reader(l, s.junk.0, s.junk.1), r.value.msgs);
    }
  }
}
