/** What running the action queue does on the bus and to the message log. */
module EngineWire {
  import opened CText
  import opened UsbTransport
  import opened FastbootProtocol
  import opened FastbootWire
  import opened FastbootEngine

  predicate Failed(msg: string) {
    Contains(msg, "FAILED")
  }

  predicate AnyFailed(msgs: seq<string>) {
    exists i :: 0 <= i < |msgs| && Failed(msgs[i])
  }

  lemma FailedTextFails(err: string)
    ensures Failed(FailedText(err))
  {
    ContainsAt(FailedText(err), "FAILED", 0);
  }

  lemma OkayTextPasses()
    ensures !Failed(OKAY_TEXT)
  {
    NotInside(OKAY_TEXT, "FAILED", 0);
  }

  // ----- One image -----

  /** The image as it is sent: a size is a 32-bit number. */
  function Sent(file: string): string {
    file[..|file| % 0x1_0000_0000]
  }

  /** A whole flash of `file`: the complete download, then the flash command and its OKAY. */
  ghost predicate Flashed(d: seq<Event>, f: seq<Event>, partition: string, file: string) {
    && (exists infos :: Downloaded(d, Sent(file), infos))
    && (exists said, infos, status ::
          CommandedBy(f, "flash:" + partition, 0, said, infos, status) && IsOkay(status))
  }

  /** Of a command that is the only transfer in `ev`, if anything is on the bus at all. */
  predicate Only(ev: seq<Event>, cmd: string) {
    ev == [] || (ev[0].Out? && OutData(ev) == [cmd])
  }

  /**
    `d` then `f` is what one download-and-flash pair left on the bus when it ended with `status`:
    the announcement of the image and its pieces, as far as that came; and then, exactly if that
    was the complete download and the command fits a packet, the flash command.
   */
  ghost predicate PairTrace(d: seq<Event>, f: seq<Event>, partition: string, file: string, status: int) {
    && (d == [] || (d[0].Out? && Sends(OutData(d), Sent(file))))
    && Only(f, "flash:" + partition)
    && (f != [] <==> Complete(d, Sent(file)) && |partition| <= 58)
    && (status == 0 ==> Flashed(d, f, partition, file))
    && (status != 0 ==> !(Complete(d, Sent(file)) && EndsOkay(f)))
  }

  lemma ExecuteLast(h: Host, queue: seq<Action>)
    requires |queue| == 2 && SoundQueue(queue)
    ensures Execute(h, queue[1..]) == RunAction(h, queue[1])
  {
    assert queue[1..] == [queue[1]] && queue[1..][1..] == [];
  }

  /** `d` is a whole download of `image`, or what there was of it. */
  ghost predicate DownloadOn(d: seq<Event>, image: string, status: int) {
    && (d == [] || (d[0].Out? && Sends(OutData(d), image)))
    && (status == 0 ==> exists infos :: Downloaded(d, image, infos))
    && (status == 0 <==> Complete(d, image))
  }

  lemma DownloadAction(h: Host, src: Source, size: nat, a: Action) returns (m: Host, status: int, d: seq<Event>)
    requires a == OpDownloadFd(src, size, CbDefault) && Sound(a) && size == Truncated(src.file)
    ensures RunAction(h, a) == (m, status) && m.link.trace == h.link.trace + d
    ensures DownloadOn(d, Sent(src.file), status) && (d != [] <==> Writable(h.link))
    ensures status == DownloadFd(h, src, size).rc && (status == 0 ==> Writable(m.link))
  {
    assert Sent(src.file) == src.file[..size];
    var infos;
    d, infos := DownloadTrace(h, src, size);
    m, status := RunAction(h, a).0, RunAction(h, a).1;
  }

  /** `f` is the command `cmd`, acknowledged if `status` is 0. */
  ghost predicate CommandDone(f: seq<Event>, cmd: string, status: int) {
    && Only(f, cmd) && (status != 0 ==> !EndsOkay(f))
    && (status == 0 ==> exists said, infos, s :: CommandedBy(f, cmd, 0, said, infos, s) && IsOkay(s))
  }

  lemma CommandAction(h: Host, cmd: string, a: Action) returns (m: Host, status: int, f: seq<Event>)
    requires a == OpCommand(cmd, CbDefault)
    ensures RunAction(h, a) == (m, status) && m.link.trace == h.link.trace + f
    ensures CommandDone(f, cmd, status) && (f != [] <==> Writable(h.link) && |cmd| <= 64)
  {
    var said, infos, s;
    f, said, infos, s := CommandTrace(h, cmd, 0);
    m, status := RunAction(h, a).0, RunAction(h, a).1;
  }

  lemma FlashPair(h: Host, partition: string, src: Source)
    returns (m: Host, status: int, d: seq<Event>, f: seq<Event>)
    requires src.page > 0
    ensures Execute(h, FlashActions(partition, src)) == (m, status)
    ensures m.link.trace == h.link.trace + (d + f) && PairTrace(d, f, partition, src.file, status)
    ensures DownloadFd(h, src, Truncated(src.file)).rc == 0 <==> Complete(d, Sent(src.file))
    ensures d != [] <==> Writable(h.link)
  {
    var queue := FlashActions(partition, src);
    m, status, d := DownloadAction(h, src, Truncated(src.file), queue[0]);
    f := [];
    if status != 0 {
      Assoc(h.link.trace, d, []);
      Assoc(d, [], []);
    } else {
      ExecuteLast(m, queue);
      var n, s;
      n, s, f := CommandAction(m, "flash:" + partition, queue[1]);
      Assoc(h.link.trace, d, f);
      PairDone(d, f, partition, src.file, s);
      m, status := n, s;
    }
  }

  lemma PairDone(d: seq<Event>, f: seq<Event>, partition: string, file: string, status: int)
    requires DownloadOn(d, Sent(file), 0) && CommandDone(f, "flash:" + partition, status)
    requires f != [] <==> |"flash:" + partition| <= 64
    ensures PairTrace(d, f, partition, file, status)
  {
  }

  // ----- Any queue of images -----

  datatype Job = Job(partition: string, src: Source)

  function QueueOf(jobs: seq<Job>): (q: seq<Action>)
    requires forall i :: 0 <= i < |jobs| ==> jobs[i].src.page > 0
    ensures SoundQueue(q)
  {
    if jobs == [] then [] else FlashActions(jobs[0].partition, jobs[0].src) + QueueOf(jobs[1..])
  }

  /**
    The bus shows the jobs in order: each but the last is a whole flash, a flash command never
    comes but directly after the OKAY of its own image's download, and nothing follows a failure.
   */
  ghost predicate RanInOrder(ev: seq<Event>, jobs: seq<Job>, status: int)
    decreases |jobs|
  {
    if jobs == [] then ev == [] && status == 0
    else exists d, f, rest, s :: RanFirst(ev, jobs[0], d, f, rest, s) &&
                                 if s != 0 then rest == [] && status == s else RanInOrder(rest, jobs[1..], status)
  }

  ghost predicate RanFirst(ev: seq<Event>, job: Job, d: seq<Event>, f: seq<Event>, rest: seq<Event>, s: int) {
    ev == d + f + rest && PairTrace(d, f, job.partition, job.src.file, s)
  }

  lemma RanMore(ev: seq<Event>, jobs: seq<Job>, d: seq<Event>, f: seq<Event>, rest: seq<Event>, s: int, status: int)
    requires jobs != [] && RanFirst(ev, jobs[0], d, f, rest, s)
    requires if s != 0 then rest == [] && status == s else RanInOrder(rest, jobs[1..], status)
    ensures RanInOrder(ev, jobs, status)
  {
  }

  lemma {:induction false} ExecuteAppend(h: Host, a: seq<Action>, b: seq<Action>, m: Host, s: int)
    requires SoundQueue(a) && SoundQueue(b) && Execute(h, a) == (m, s)
    ensures Execute(h, a + b) == if s != 0 then (m, s) else Execute(m, b)
    decreases |a|
  {
    if a == [] {
      assert a + b == b;
    } else {
      assert (a + b)[0] == a[0] && (a + b)[1..] == a[1..] + b;
      var first := RunAction(h, a[0]);
      if first.1 == 0 {
        ExecuteAppend(first.0, a[1..], b, m, s);
      }
    }
  }

  /** The queue of several jobs starts with the pair of the first. */
  lemma QueueSplit(jobs: seq<Job>, pair: seq<Action>)
    requires jobs != [] && forall i :: 0 <= i < |jobs| ==> jobs[i].src.page > 0
    requires pair == FlashActions(jobs[0].partition, jobs[0].src)
    ensures QueueOf(jobs) == pair + QueueOf(jobs[1..])
  {
  }

  lemma RunPairFirst(h: Host, jobs: seq<Job>, pair: seq<Action>, m: Host, s: int)
    requires jobs != [] && forall i :: 0 <= i < |jobs| ==> jobs[i].src.page > 0
    requires SoundQueue(pair) && QueueOf(jobs) == pair + QueueOf(jobs[1..]) && Execute(h, pair) == (m, s)
    ensures Execute(h, QueueOf(jobs)) == if s != 0 then (m, s) else Execute(m, QueueOf(jobs[1..]))
  {
    ExecuteAppend(h, pair, QueueOf(jobs[1..]), m, s);
  }

  lemma FirstJob(h: Host, jobs: seq<Job>) returns (m: Host, s: int, d: seq<Event>, f: seq<Event>)
    requires jobs != [] && forall i :: 0 <= i < |jobs| ==> jobs[i].src.page > 0
    ensures Execute(h, QueueOf(jobs)) == if s != 0 then (m, s) else Execute(m, QueueOf(jobs[1..]))
    ensures m.link.trace == h.link.trace + (d + f) && PairTrace(d, f, jobs[0].partition, jobs[0].src.file, s)
  {
    var pair := FlashActions(jobs[0].partition, jobs[0].src);
    m, s, d, f := FlashPair(h, jobs[0].partition, jobs[0].src);
    QueueSplit(jobs, pair);
    RunPairFirst(h, jobs, pair, m, s);
  }

  lemma {:induction false} QueueRunsInOrder(h: Host, jobs: seq<Job>) returns (ev: seq<Event>)
    requires forall i :: 0 <= i < |jobs| ==> jobs[i].src.page > 0
    ensures var (m, status) := Execute(h, QueueOf(jobs));
            m.link.trace == h.link.trace + ev && RanInOrder(ev, jobs, status)
    decreases |jobs|
  {
    ev := [];
    if jobs == [] {
      Assoc(h.link.trace, [], []);
    } else {
      var m, s, d, f := FirstJob(h, jobs);
      var rest: seq<Event> := [];
      if s == 0 {
        rest := QueueRunsInOrder(m, jobs[1..]);
      }
      Assoc(h.link.trace, d + f, rest);
      Assoc(d + f, [], []);
      ev := d + f + rest;
      RanMore(ev, jobs, d, f, rest, s, Execute(h, QueueOf(jobs)).1);
    }
  }

  // ----- The log tells the status -----

  /** Messages that carry the device's own words. */
  predicate FromDevice(msg: string) {
    At(msg, "(bootloader) ", 0)
  }

  /** What the log gained says how the run ended. */
  ghost predicate Tells(added: seq<string>, status: int) {
    && (status != 0 ==> AnyFailed(added))
    && (status == 0 ==> forall i :: 0 <= i < |added| && Failed(added[i]) ==> FromDevice(added[i]))
  }

  lemma DeviceTexts(infos: seq<string>)
    ensures forall i :: 0 <= i < |InfoTexts(infos)| ==> FromDevice(InfoTexts(infos)[i])
  {
    forall i | 0 <= i < |InfoTexts(infos)|
      ensures FromDevice(InfoTexts(infos)[i])
    {
      assert InfoText(infos[i])[..13] == "(bootloader) ";
    }
  }

  lemma ReportTells(h: Host, infos: seq<string>, func: Callback, rc: int) returns (added: seq<string>)
    requires rc == 0 || rc == -1
    ensures var (m, status) := Report(h.(msgs := h.msgs + InfoTexts(infos)), func, rc);
            m.msgs == h.msgs + added && Tells(added, status)
  {
    DeviceTexts(infos);
    OkayTextPasses();
    FailedTextFails(h.err);
    added := InfoTexts(infos);
    if func == CbDefault {
      var text := if rc != 0 then FailedText(h.err) else OKAY_TEXT;
      Assoc(h.msgs, added, [text]);
      added := added + [text];
      assert added[|added| - 1] == text;
    }
  }

  lemma ActionTells(h: Host, a: Action) returns (added: seq<string>)
    requires Sound(a)
    ensures var (m, status) := RunAction(h, a);
            m.msgs == h.msgs + added && Tells(added, status)
  {
    match a
    case OpWaitForDisconnect =>
      added := [];
      Assoc(h.msgs, [], []);
    case OpDownloadFd(src, size, func) =>
      var ev, infos := DownloadTrace(h, src, size);
      var o := DownloadFd(h, src, size);
      added := ReportTells(o.h.(msgs := h.msgs), infos, func, o.rc);
    case OpCommand(cmd, func) =>
      var ev, said, infos, status := CommandTrace(h, cmd, 0);
      var o := Command(h, cmd);
      added := ReportTells(o.h.(msgs := h.msgs), infos, func, o.rc);
  }

  /** The last word is a refusal with a reason. */
  predicate EndsFail(ev: seq<Event>) {
    ev != [] && ev[|ev| - 1].In? && |ev[|ev| - 1].data| > 4 && ev[|ev| - 1].data[..4] == "FAIL"
  }

  /** An acknowledged command leaves an OKAY as the last message of the log, and one that the device refuses the device's reason. */
  lemma AnswerLogged(h: Host, cmd: string, a: Action) returns (ev: seq<Event>)
    requires a == OpCommand(cmd, CbDefault)
    ensures var (m, status) := RunAction(h, a);
            && m.link.trace == h.link.trace + ev && |m.msgs| > 0
            && (status == 0 ==> "OKAY [" <= m.msgs[|m.msgs| - 1])
            && (EndsFail(ev) ==> status == -1 && m.msgs[|m.msgs| - 1] == "FAILED (remote: " + CStr(ev[|ev| - 1].data[4..]) + ")\n")
  {
    var o := Command(h, cmd);
    ev := Refused(h, cmd, o);
    if EndsFail(ev) {
      FailedRemote(CStr(ev[|ev| - 1].data[4..]));
    }
  }

  lemma FailedRemote(reason: string)
    ensures FailedText("remote: " + reason) == "FAILED (remote: " + reason + ")\n"
  {
    assert "FAILED (" + "remote: " == "FAILED (remote: ";
    Assoc("FAILED (", "remote: ", reason);
  }

  lemma Refused(h: Host, cmd: string, o: Outcome) returns (ev: seq<Event>)
    requires o == Command(h, cmd)
    ensures o.h.link.trace == h.link.trace + ev
    ensures EndsFail(ev) ==> o.rc == -1 && o.h.err == "remote: " + CStr(ev[|ev| - 1].data[4..])
  {
    ev := [];
    if |cmd| <= MAX_COMMAND {
      var sent := SmallWrite(h.link, cmd);
      var (l, n) := Write(h.link, cmd);
      ev := sent;
      if n == |cmd| {
        ev := AnsweredFail(h.(link := l), o, h.link.trace, sent);
      }
    }
  }

  lemma AnsweredFail(h: Host, o: Outcome, was: seq<Event>, sent: seq<Event>) returns (ev: seq<Event>)
    requires o == CheckResponse(h, 0) && h.link.trace == was + sent && forall i :: 0 <= i < |sent| ==> sent[i].Out?
    ensures o.h.link.trace == was + ev
    ensures EndsFail(ev) ==> o.rc == -1 && o.h.err == "remote: " + CStr(ev[|ev| - 1].data[4..])
  {
    var said, infos, status := ReasonKept(h, 0);
    ev := sent + said;
    Assoc(was, sent, said);
    if EndsFail(ev) {
      assert said != [] && ev[|ev| - 1] == said[|said| - 1];
    }
  }

  lemma TellsAppend(a: seq<string>, b: seq<string>, status: int)
    requires Tells(a, 0) && Tells(b, status)
    ensures Tells(a + b, status)
  {
    if status != 0 {
      var i :| 0 <= i < |b| && Failed(b[i]);
      assert (a + b)[|a| + i] == b[i];
    }
  }

  /**
    fb_execute_queue: a failed run always leaves a FAILED message, and after a good run the
    word can only come from the device itself.
   */
  lemma {:induction false} LogTellsStatus(h: Host, queue: seq<Action>) returns (added: seq<string>)
    requires SoundQueue(queue)
    ensures var (m, status) := Execute(h, queue);
            m.msgs == h.msgs + added && Tells(added, status)
    decreases |queue|
  {
    if queue == [] {
      added := [];
      Assoc(h.msgs, [], []);
    } else {
      var first := ActionTells(h, queue[0]);
      var (m, status) := RunAction(h, queue[0]);
      added := first;
      if status == 0 {
        var rest := LogTellsStatus(m, queue[1..]);
        Assoc(h.msgs, first, rest);
        TellsAppend(first, rest, Execute(m, queue[1..]).1);
        added := first + rest;
      }
    }
  }

  // ----- A whole session -----

  /** `m` is `h` after a stretch of events and of messages of the device's own. */
  ghost predicate Extends(h: Host, m: Host, ev: seq<Event>, texts: seq<string>) {
    && m.link.trace == h.link.trace + ev && m.msgs == h.msgs + texts
    && forall i :: 0 <= i < |texts| ==> FromDevice(texts[i])
  }

  lemma ExtendsTwice(h: Host, m: Host, m': Host, ev: seq<Event>, texts: seq<string>, ev': seq<Event>, texts': seq<string>)
    requires Extends(h, m, ev, texts) && Extends(m, m', ev', texts')
    ensures Extends(h, m', ev + ev', texts + texts')
  {
    Assoc(h.link.trace, ev, ev');
    Assoc(h.msgs, texts, texts');
  }

  /** What the device answered to a query: the text of an OKAY, if there was one. */
  function Answer(ev: seq<Event>): Option<string> {
    if EndsOkay(ev) then Some(Body(ev[|ev| - 1].data)) else None
  }

  lemma VarOnBus(h: Host, key: string) returns (ev: seq<Event>, texts: seq<string>)
    ensures Extends(h, GetVar(h, key).0, ev, texts) && GetVar(h, key).1 == Answer(ev)
    ensures CommandOn(h, "getvar:" + key, ev)
    ensures Answer(ev).Some? ==> Writable(GetVar(h, key).0.link)
  {
    var said, infos, status;
    ev, said, infos, status := CommandTrace(h, "getvar:" + key, 0);
    texts := InfoTexts(infos);
    DeviceTexts(infos);
    if GetVar(h, key).1.Some? {
      assert ev[|ev| - 1] == said[|said| - 1];
    }
  }

  /**
    The name to flash, by what the device said to has-slot and to current-slot: the partition
    itself unless it has slots, and otherwise that of its current slot, if that was told.
   */
  function NameToFlash(partition: string, has: Option<string>, current: Option<string>): Option<string> {
    if has != Some("yes") then Some(partition)
    else if current.None? || current.value == "" then None
    else if current.value == "_a" then Some(partition + "_a")
    else if current.value == "_b" then Some(partition + "_b")
    else Some(partition + "_" + current.value)
  }

  /** The two questions of do_for_partition on the bus, the second only if the first was answered with yes. */
  predicate Asked(a: seq<Event>, b: seq<Event>, partition: string) {
    && Only(a, "getvar:has-slot:" + partition) && Only(b, "getvar:current-slot")
    && (b != [] <==> Answer(a) == Some("yes"))
  }

  lemma Joined(part: string, slot: string, whole: string)
    requires "_" + slot == whole
    ensures part + "_" + slot == part + whole
  {
    Assoc(part, "_", slot);
  }

  /** The slot that is added to the name, by what the device said. */
  lemma SlotTold(m: Host, m': Host, current: Option<string>) returns (slot: string)
    requires (m', current) == GetVar(m, "current-slot")
    ensures CurrentSlot(m) == (m', slot)
    ensures slot == if current == Some("_a") then "a" else if current == Some("_b") then "b" else current.Or("")
  {
    slot := CurrentSlot(m).1;
  }

  lemma NameResolved(h: Host, part: string, m: Host, m': Host, current: Option<string>)
    requires GetVar(h, "has-slot:" + part) == (m, Some("yes")) && (m', current) == GetVar(m, "current-slot")
    ensures Resolve(h, part) == (m', NameToFlash(part, Some("yes"), current))
  {
    var slot := SlotTold(m, m', current);
    NameWithSlot(part, current, slot);
  }

  lemma NameWithSlot(part: string, current: Option<string>, slot: string)
    requires slot == if current == Some("_a") then "a" else if current == Some("_b") then "b" else current.Or("")
    ensures NameToFlash(part, Some("yes"), current) == if slot == "" then None else Some(part + "_" + slot)
  {
    assert "_" + "a" == "_a" && "_" + "b" == "_b";
    Joined(part, "a", "_a");
    Joined(part, "b", "_b");
  }

  lemma NameUnslotted(h: Host, part: string, m: Host, has: Option<string>)
    requires GetVar(h, "has-slot:" + part) == (m, has) && has != Some("yes")
    ensures Resolve(h, part) == (m, Some(part))
  {
  }

  lemma ResolveTrace(h: Host, part: string) returns (a: seq<Event>, b: seq<Event>, texts: seq<string>)
    ensures Extends(h, Resolve(h, part).0, a + b, texts)
    ensures Asked(a, b, part) && (a != [] <==> Writable(h.link) && |part| <= 48)
    ensures Resolve(h, part).1 == NameToFlash(part, Answer(a), Answer(b))
  {
    var m;
    m, a, texts := SlotsAsked(h, part);
    if Answer(a) == Some("yes") {
      var m', more;
      m', b, more := SlotAsked(m);
      NameResolved(h, part, m, m', Answer(b));
      ExtendsTwice(h, m, m', a, texts, b, more);
      texts := texts + more;
    } else {
      b := [];
      Assoc(a, [], []);
      NameUnslotted(h, part, m, Answer(a));
    }
  }

  lemma SlotsAsked(h: Host, part: string) returns (m: Host, a: seq<Event>, texts: seq<string>)
    ensures GetVar(h, "has-slot:" + part) == (m, Answer(a)) && Extends(h, m, a, texts)
    ensures Only(a, "getvar:has-slot:" + part) && (a != [] <==> Writable(h.link) && |part| <= 48)
    ensures Answer(a).Some? ==> Writable(m.link)
  {
    assert "getvar:" + ("has-slot:" + part) == "getvar:has-slot:" + part;
    a, texts := VarOnBus(h, "has-slot:" + part);
    m := GetVar(h, "has-slot:" + part).0;
  }

  lemma SlotAsked(h: Host) returns (m: Host, b: seq<Event>, texts: seq<string>)
    requires Writable(h.link)
    ensures GetVar(h, "current-slot") == (m, Answer(b)) && Extends(h, m, b, texts)
    ensures Only(b, "getvar:current-slot") && b != []
  {
    assert "getvar:" + "current-slot" == "getvar:current-slot";
    b, texts := VarOnBus(h, "current-slot");
    m := GetVar(h, "current-slot").0;
  }

  lemma AnyFailedSuffix(a: seq<string>, b: seq<string>)
    requires AnyFailed(b)
    ensures AnyFailed(a + b)
  {
    var i :| 0 <= i < |b| && Failed(b[i]);
    assert (a + b)[|a| + i] == b[i];
  }

  lemma PairLogged(h: Host, name: string, src: Source) returns (m: Host, status: int, d: seq<Event>, f: seq<Event>)
    requires src.page > 0
    ensures Execute(h, FlashActions(name, src)) == (m, status)
    ensures m.link.trace == h.link.trace + (d + f) && PairTrace(d, f, name, src.file, status)
    ensures !AnyFailed(m.msgs) ==> status == 0
  {
    m, status, d, f := FlashPair(h, name, src);
    var added := LogTellsStatus(h, FlashActions(name, src));
    if status != 0 {
      AnyFailedSuffix(h.msgs, added);
    }
  }

  /**
    fastboot_main flashing an image, whatever becomes of it: the questions, the download of the
    image, and the flash command for the name that the answers give.  It goes out only after that
    image's whole download was acknowledged, and a log free of FAILED means the image is on the
    device.  The process dies exactly when there is no image or no name.
   */
  lemma FlashSession(h: Host, mem: Memory, partition: string, image: Option<string>)
    returns (a: seq<Event>, b: seq<Event>, d: seq<Event>, f: seq<Event>)
    requires mem.page > 0
    ensures var e := FastbootMain(h, mem, Flash(partition, image));
            var name := NameToFlash(partition, Answer(a), Answer(b));
            && e.h.link.trace == h.link.trace + (a + b + (d + f))
            && Asked(a, b, partition) && (a != [] <==> Writable(h.link) && |partition| <= 48)
            && (e.Died? <==> name.None? || image.None?)
            && (e.Died? ==> d == f == [])
            && (e.Ended? ==> PairTrace(d, f, name.value, image.value, e.status) &&
                             (!AnyFailed(e.h.msgs) ==> e.status == 0 && Flashed(d, f, name.value, image.value)))
  {
    var m, status, texts;
    a, b, texts := ResolveTrace(h, partition);
    d, f := [], [];
    var (r, found) := Resolve(h, partition);
    if found.Some? && image.Some? {
      m, status, d, f := PairLogged(r, found.value, Source(image.value, mem.page, mem.maps));
      Assoc(h.link.trace, a + b, d + f);
    } else {
      Assoc(a + b, d, f);
      Assoc(a + b, [], []);
    }
  }

  /** So whatever a flash session puts on the bus is one of the two questions, of that image, or the flash command. */
  lemma EveryTransfer(a: seq<Event>, b: seq<Event>, d: seq<Event>, f: seq<Event>,
                      partition: string, name: string, file: string, status: int, sent: string)
    requires Asked(a, b, partition) && PairTrace(d, f, name, file, status) && sent in OutData(a + b + (d + f))
    ensures || sent == "getvar:has-slot:" + partition || sent == "getvar:current-slot"
            || Announces(sent, |Sent(file)|) || sent in Pieces(Sent(file)) || sent == "flash:" + name
  {
    OutDataAppend(a + b, d + f);
    OutDataAppend(a, b);
    OutDataAppend(d, f);
    if sent in OutData(d) && sent != OutData(d)[0] {
      assert sent in OutData(d)[1..];
    }
  }

  /** The command of a request that flashes nothing. */
  function Wording(req: Request): string
    requires !req.Flash?
  {
    match req
    case Reboot => "reboot"
    case Oem(arg, None) => "oem " + arg
    case Oem(arg, Some(value)) => "oem " + arg + " " + value
    case Flashing(arg, None) => "flashing " + arg
    case Flashing(arg, Some(value)) => "flashing " + arg + " " + value
  }

  /** Such a request puts just its command on the bus, and succeeds exactly when that is answered with OKAY; a reboot always does. */
  lemma CommandSession(h: Host, mem: Memory, req: Request) returns (ev: seq<Event>)
    requires mem.page > 0 && !req.Flash?
    ensures var e := FastbootMain(h, mem, req);
            && e.Ended? && e.h.link.trace == h.link.trace + ev && Only(ev, Wording(req))
            && (ev != [] <==> Writable(h.link) && |Wording(req)| <= 64)
            && (e.status == 0 <==> req.Reboot? || EndsOkay(ev))
  {
    var (m, queue) := Fill(h, mem, req);
    var said, infos, status;
    WordingQueued(h, mem, req, queue.value);
    ev, said, infos, status := CommandTrace(h, Wording(req), 0);
    if Command(h, Wording(req)).rc == 0 {
      assert ev[|ev| - 1] == said[|said| - 1];
    }
    RestOfQueue(RunAction(h, queue.value[0]).0, queue.value);
  }

  lemma WordingQueued(h: Host, mem: Memory, req: Request, queue: seq<Action>)
    requires mem.page > 0 && !req.Flash? && Fill(h, mem, req) == (h, Some(queue))
    ensures |queue| > 0 && queue[0] == OpCommand(Wording(req), if req.Reboot? then CbDoNothing else CbDefault)
    ensures queue[1..] == if req.Reboot? then [OpWaitForDisconnect] else []
  {
  }

  lemma RestOfQueue(h: Host, queue: seq<Action>)
    requires |queue| > 0 && (queue[1..] == [] || queue[1..] == [OpWaitForDisconnect])
    ensures Execute(h, queue[1..]) == (h, 0)
  {
    assert [OpWaitForDisconnect][1..] == [];
  }

  /** Whatever was asked for, a session that failed says so in its log. */
  lemma SessionTells(h: Host, mem: Memory, req: Request)
    requires mem.page > 0
    ensures var e := FastbootMain(h, mem, req);
            e.Ended? && e.status != 0 ==> AnyFailed(e.h.msgs)
  {
    var (m, queue) := Fill(h, mem, req);
    if queue.Some? {
      var added := LogTellsStatus(m, queue.value);
      var status := Execute(m, queue.value).1;
      if status != 0 {
        AnyFailedSuffix(m.msgs, added);
      }
    }
  }
}
