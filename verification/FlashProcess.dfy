/**
  The flashing stage of pwl-fwupdate/pwl_fwupdate.c: fastboot_send_command_v3,
  fastboot_flash_process_v2 and download_process, on values.  A journal records every fastboot
  session that came to an end.  The routines themselves are in FlashUpdater.
 */
module FlashProcess {
  import opened CText
  import opened UsbTransport
  import opened FastbootProtocol
  import opened FastbootEngine
  import opened FastbootDriver
  import opened EngineWire
  import opened FlashLayout

  // ----- Sessions -----

  /** One opening of the device: its behaviour, the host's memory, and what uninitialised locals hold. */
  datatype Session = Session(link: Link, mem: Memory, junk: (int, int))

  predicate Usable(s: Session) {
    s.mem.page > 0 && s.link.trace == []
  }

  /** A session on which no transfer succeeds. */
  const DEAD: Session := Session(Link(0, 0, -1, [], 0, [], 0, []), Memory(4096, []), (0, 0))

  datatype Record = Record(req: Request, rtn: int, session: Session, msgs: seq<string>, events: seq<Event>)

  /** The record is that of a session in which fastboot_main ran `req` to its end within the log's 16 entries. */
  ghost predicate Genuine(rec: Record) {
    && Usable(rec.session)
    && var e := FastbootMain(Host(rec.session.link, [], ""), rec.session.mem, rec.req);
       && e.Ended? && e.h.msgs == rec.msgs && e.h.link.trace == rec.events
       && |rec.msgs| <= FB_MAX_INFO_COUNT
       && rec.rtn == if AnyFailed(rec.msgs) then -1 else 1
  }

  /**
    What a session leaves behind: none when `die` ends the process or the log runs over, and
    otherwise a record whose code is that of fastboot_send_command_v3.
   */
  function SessionRecord(s: Session, req: Request): Option<Record> {
    if !Usable(s) then None
    else
      var e := FastbootMain(Host(s.link, [], ""), s.mem, req);
      if e.Died? || |e.h.msgs| > FB_MAX_INFO_COUNT then None
      else Some(Record(req, if AnyFailed(e.h.msgs) then -1 else 1, s, e.h.msgs, e.h.link.trace))
  }

  lemma RecordIsGenuine(s: Session, req: Request)
    ensures var r := SessionRecord(s, req); r.Some? ==> Genuine(r.value) && r.value.req == req && r.value.session == s
  {
  }

  /**
    On the bus the image was downloaded whole and flashed, both acknowledged, to the partition or
    to the slot of it that the device said is the current one, and nothing else was sent.
   */
  ghost predicate OnDevice(events: seq<Event>, partition: string, image: string) {
    exists a, b, d, f :: OnDeviceBy(events, partition, image, a, b, d, f)
  }

  ghost predicate OnDeviceBy(events: seq<Event>, partition: string, image: string,
                             a: seq<Event>, b: seq<Event>, d: seq<Event>, f: seq<Event>) {
    var name := NameToFlash(partition, Answer(a), Answer(b));
    events == a + b + (d + f) && Asked(a, b, partition) && name.Some? && Flashed(d, f, name.value, image)
  }

  /**
    fastboot_send_command_v3 returns 1 exactly when no message says FAILED, and a flash for
    which it returns 1 is on the device.
   */
  lemma SendCommandMeans(rec: Record)
    requires Genuine(rec)
    ensures rec.rtn == 1 <==> !AnyFailed(rec.msgs)
    ensures rec.rtn == 1 && rec.req.Flash? ==>
              rec.req.image.Some? && OnDevice(rec.events, rec.req.partition, rec.req.image.value)
    ensures var e := FastbootMain(Host(rec.session.link, [], ""), rec.session.mem, rec.req);
            e.status != 0 ==> rec.rtn == -1
  {
    var h, mem := Host(rec.session.link, [], ""), rec.session.mem;
    SessionTells(h, mem, rec.req);
    if rec.rtn == 1 && rec.req.Flash? {
      var a, b, d, f := FlashSession(h, mem, rec.req.partition, rec.req.image);
      assert [] + (a + b + (d + f)) == a + b + (d + f);
      assert OnDeviceBy(rec.events, rec.req.partition, rec.req.image.value, a, b, d, f);
    }
  }

  // ----- The world around the process -----

  /** The result of start_flash_image_file and the header file afterwards. */
  datatype Started = Started(rc: int, first: Option<string>)

  /**
    The image files; what session number k makes of a request; and what copy number k makes of
    the header file or of one of the two other temporary files.
   */
  datatype World = World(
    files: seq<Option<string>>,
    run: (nat, Request) -> Option<Record>,
    start: (nat, Option<string>, Option<string>) -> Started,
    copy: (nat, Option<string>, Slice, bool, Option<string>) -> Option<string>)

  function HeaderRequest(file: string): Request {
    Flash("sop-hdr", Some(if |file| < HEADER_BUF_SIZE then file else file[..HEADER_BUF_SIZE]))
  }

  ghost predicate Honest(w: World) {
    && (forall k, req :: w.run(k, req).Some? ==>
          w.run(k, req).value.req == req && (w.run(k, req).value.rtn == 1 || w.run(k, req).value.rtn == -1))
    && (forall k, file, was :: w.start(k, file, was).rc > 0 ==>
          file.Some? && Flash("sop-hdr", w.start(k, file, was).first) == HeaderRequest(file.value))
  }

  function SessionAt(sessions: seq<Session>, k: nat): Session {
    if k < |sessions| then sessions[k] else DEAD
  }

  /** Copies past the end of the list find room for `size` bytes. */
  function DiskAt(disks: seq<Disk>, k: nat, size: nat): Disk {
    if k < |disks| then disks[k] else Disk(true, size)
  }

  /** start_flash_image_file */
  function StartTemp(file: Option<string>, was: Option<string>, disk: Disk): Started {
    if file.None? then Started(-1, was)
    else if |file.value| < HEADER_BUF_SIZE then Started(-2, was)
    else if !disk.opens then Started(-3, was)
    else if disk.room < HEADER_BUF_SIZE then Started(-4, Some(file.value[..disk.room]))
    else Started(1, Some(file.value[..HEADER_BUF_SIZE]))
  }

  /** The header is the first 1024 bytes of an image file that has as many, if the disk takes them. */
  lemma HeaderExactly(file: Option<string>, was: Option<string>, disk: Disk)
    ensures var st := StartTemp(file, was, disk);
            && (st.rc == 1 <==> file.Some? && |file.value| >= 1024 && disk.opens && disk.room >= 1024)
            && (st.rc != 1 ==> st.rc < 0)
            && (st.rc == 1 ==> st.first == Some(file.value[..1024]) && HeaderRequest(file.value) == Flash("sop-hdr", Some(file.value[..1024])))
            && (st.rc != 1 && file.Some? && |file.value| >= 1024 && disk.opens ==> st.first == Some(file.value[..disk.room]))
            && (file.None? || |file.value| < 1024 || !disk.opens ==> st.first == was)
  {
  }

  /** The world of these sessions and disks, where `told` says what a session leaves behind. */
  function WorldOf(told: (Session, Request) -> Option<Record>,
                   files: seq<Option<string>>, sessions: seq<Session>, disks: seq<Disk>): World {
    World(files,
          (k: nat, req) => told(SessionAt(sessions, k), req),
          (k: nat, file, was) => StartTemp(file, was, DiskAt(disks, k, HEADER_BUF_SIZE)),
          (k: nat, file: Option<string>, s: Slice, append, temp) =>
            WriteTemp(file, s.offset, s.size, append, temp, DiskAt(disks, k, Wanted(s.size))).0)
  }

  /** Devices and disks as they are. */
  function RealWorld(files: seq<Option<string>>, sessions: seq<Session>, disks: seq<Disk>): World {
    WorldOf(SessionRecord, files, sessions, disks)
  }

  lemma RealIsHonest(files: seq<Option<string>>, sessions: seq<Session>, disks: seq<Disk>)
    ensures Honest(RealWorld(files, sessions, disks))
  {
    forall k: nat, req | SessionRecord(SessionAt(sessions, k), req).Some?
      ensures SessionRecord(SessionAt(sessions, k), req).value.req == req
    {
      RecordIsGenuine(SessionAt(sessions, k), req);
    }
  }

  /** Marks a session or copy that is taking place; it keeps the facts in Behaves from being used anywhere else. */
  predicate Number(k: nat) {
    k >= 0
  }

  /** The world is the one in which these sessions and disks are used one after the other. */
  ghost predicate Behaves(w: World, files: seq<Option<string>>, sessions: seq<Session>, disks: seq<Disk>) {
    && w.files == files
    && (forall k: nat, req {:trigger Number(k), w.run(k, req)} ::
          Number(k) ==> w.run(k, req) == SessionRecord(SessionAt(sessions, k), req))
    && (forall k: nat, file, was {:trigger Number(k), w.start(k, file, was)} ::
          Number(k) ==> w.start(k, file, was) == StartTemp(file, was, DiskAt(disks, k, HEADER_BUF_SIZE)))
    && (forall k: nat, file, s, append, temp {:trigger Number(k), w.copy(k, file, s, append, temp)} ::
          Number(k) ==> w.copy(k, file, s, append, temp) ==
                        WriteTemp(file, s.offset, s.size, append, temp, DiskAt(disks, k, Wanted(s.size))).0)
  }

  lemma RealBehaves(files: seq<Option<string>>, sessions: seq<Session>, disks: seq<Disk>)
    ensures Behaves(RealWorld(files, sessions, disks), files, sessions, disks)
  {
  }

  // ----- The process -----

  /** What a header session declared. */
  datatype Declared = Declared(msgs: seq<string>, junk: (int, int))

  /**
    Sessions and copies so far, the three temporary files, the tables, and the journal; and every
    request for which a session was opened, whether or not the process came back from it.
   */
  datatype Proc = Proc(sessionNo: nat, copyNo: nat, first: Option<string>, image: Option<string>, pri: Option<string>,
                       layout: Layout, alive: bool, journal: seq<Record>, declared: seq<Declared>, asked: seq<Request>)

  /** The tables after the messages of a header session were read into `l`. */
  function ReadInto(l: Layout, rec: Record): (r: Layout)
    requires Fits(l)
    ensures Fits(r) && |l.pri| <= |r.pri|
  {
    PostProcess(Reader(l, rec.session.junk.0, rec.session.junk.1), rec.msgs, true).0.layout
  }

  /** What becomes of the process once a session is over: the record is kept, and in a header session the layout read. */
  function Told(p: Proc, run: Option<Record>, header: bool): (r: (Proc, int))
    requires Fits(p.layout)
    ensures Fits(r.0.layout) && (!header ==> r.0.layout == p.layout)
  {
    var q := p.(sessionNo := p.sessionNo + 1);
    match run
    case None => (q.(alive := false), 0)
    case Some(rec) =>
      if header then
        (q.(journal := p.journal + [rec], layout := ReadInto(p.layout, rec),
            declared := p.declared + [Declared(rec.msgs, rec.session.junk)]), rec.rtn)
      else (q.(journal := p.journal + [rec]), rec.rtn)
  }

  /** fastboot_send_command_v3 */
  function Send(w: World, p: Proc, req: Request, header: bool): (r: (Proc, int))
    requires Fits(p.layout)
    ensures Fits(r.0.layout) && (!header ==> r.0.layout == p.layout)
  {
    Told(p.(asked := p.asked + [req]), w.run(p.sessionNo, req), header)
  }

  /** One turn of the image loop: the slice goes to the temporary file, and that to its partition. */
  function SendImage(w: World, p: Proc, i: nat, c: nat): (r: (Proc, int))
    requires Fits(p.layout) && i < |w.files| && c < |p.layout.images|
    ensures r.0.layout == p.layout
  {
    var s := p.layout.images[c];
    var image := w.copy(p.copyNo, w.files[i], s, false, p.image);
    Send(w, p.(copyNo := p.copyNo + 1, image := image), Flash(s.name, image), false)
  }

  /** The loop over the image table of file `i`, from entry `c` on. */
  function FlashImages(w: World, p: Proc, i: nat, c: nat): (r: (Proc, int))
    requires Fits(p.layout) && i < |w.files| && c <= |p.layout.images|
    ensures r.0.layout == p.layout
    decreases |p.layout.images| - c
  {
    if c == |p.layout.images| then (p, 1)
    else
      var (q, rtn) := SendImage(w, p, i, c);
      if !q.alive || rtn <= 0 then (q, rtn) else FlashImages(w, q, i, c + 1)
  }

  /** The carrier slices from entry `c` on go to the end of the carrier file. */
  function Gather(w: World, p: Proc, i: nat, c: nat): (q: Proc)
    requires Fits(p.layout) && i < |w.files|
    ensures Fits(q.layout)
    decreases |p.layout.pri| - c
  {
    if c >= |p.layout.pri| then p
    else Gather(w, p.(copyNo := p.copyNo + 1, pri := w.copy(p.copyNo, w.files[i], p.layout.pri[c], true, p.pri)), i, c + 1)
  }

  datatype Flow = Flow(p: Proc, rtn: int, early: bool)

  predicate GoesOn(f: Flow) {
    f.p.alive && !f.early && f.rtn > 0
  }

  /** File `i` once its header is flashed: its images, then its carrier slices. */
  function FlashSlices(w: World, p: Proc, i: nat, prev: nat): (f: Flow)
    requires Fits(p.layout) && i < |w.files|
    ensures Fits(f.p.layout)
  {
    var (q, rtn) := FlashImages(w, p, i, 0);
    Flow(if q.alive && rtn > 0 then Gather(w, q, i, prev) else q, rtn, false)
  }

  /** One round of the outer loop: header, images, carrier slices. */
  function FlashFile(w: World, p: Proc, i: nat): (f: Flow)
    requires Fits(p.layout) && i < |w.files|
    ensures Fits(f.p.layout)
  {
    var st := w.start(p.copyNo, w.files[i], p.first);
    var p1 := p.(copyNo := p.copyNo + 1, first := st.first, layout := Layout([], 0, 0, p.layout.pri));
    if st.rc <= 0 then Flow(p1, 0, true)
    else
      var (p2, rtn) := Send(w, p1, Flash("sop-hdr", p1.first), true);
      if !p2.alive || rtn <= 0 then Flow(p2, rtn, false) else FlashSlices(w, p2, i, |p.layout.pri|)
  }

  /** The flashing of one file, once its header has been cut out of it. */
  lemma FileSteps(w: World, p: Proc, i: nat, st: Started, p1: Proc)
    requires Fits(p.layout) && i < |w.files| && st == w.start(p.copyNo, w.files[i], p.first)
    requires p1 == p.(copyNo := p.copyNo + 1, first := st.first, layout := Layout([], 0, 0, p.layout.pri))
    ensures FlashFile(w, p, i) ==
            if st.rc <= 0 then Flow(p1, 0, true)
            else
              var (p2, rtn) := Send(w, p1, Flash("sop-hdr", p1.first), true);
              if !p2.alive || rtn <= 0 then Flow(p2, rtn, false) else FlashSlices(w, p2, i, |p.layout.pri|)
  {
  }

  /** The outer loop from file `i` on. */
  function FlashFiles(w: World, p: Proc, i: nat, rtn: int): (f: Flow)
    requires Fits(p.layout) && i <= |w.files|
    ensures Fits(f.p.layout)
    decreases |w.files| - i
  {
    if i == |w.files| then Flow(p, rtn, false)
    else
      var f := FlashFile(w, p, i);
      if GoesOn(f) then FlashFiles(w, f.p, i + 1, f.rtn) else f
  }

  /** After the last file: what was gathered for the carrier partition. */
  function FlashCarrier(w: World, p: Proc, rtn: int): (f: Flow)
    requires Fits(p.layout)
    ensures Fits(f.p.layout)
  {
    if p.layout.pri == [] then Flow(p, rtn, false)
    else
      var (q, rtn') := Send(w, p, Flash("capri_c", p.pri), false);
      Flow(q, rtn', false)
  }

  function Begun(p: Proc): (q: Proc)
    requires Fits(p.layout)
    ensures Fits(q.layout)
  {
    p.(layout := p.layout.(pri := []), declared := [])
  }

  function FlashFilesAndCarrier(w: World, p: Proc): (f: Flow)
    requires Fits(p.layout)
    ensures Fits(f.p.layout)
  {
    var f := FlashFiles(w, p, 0, 0);
    if GoesOn(f) then FlashCarrier(w, f.p, f.rtn) else f
  }

  /** The temporary files are removed, except by a process that is gone and by the early return. */
  function Cleaned(f: Flow): (g: Flow)
    requires Fits(f.p.layout)
    ensures Fits(g.p.layout)
  {
    if f.p.alive && !f.early then f.(p := f.p.(first := None, image := None, pri := None)) else f
  }

  /** fastboot_flash_process_v2 */
  function FlashAll(w: World, p: Proc): (f: Flow)
    requires Fits(p.layout)
    ensures Fits(f.p.layout)
  {
    Cleaned(FlashFilesAndCarrier(w, Begun(p)))
  }

  // ----- download_process -----

  /** Requests sent one after the other, each only if the one before succeeded. */
  function SendEach(w: World, p: Proc, reqs: seq<Request>, rtn: int): (r: (Proc, int))
    requires Fits(p.layout)
    ensures Fits(r.0.layout)
    decreases |reqs|
  {
    if reqs == [] || !p.alive || rtn <= 0 then (p, rtn)
    else
      var (q, rtn') := Send(w, p, reqs[0], false);
      SendEach(w, q, reqs[1..], rtn')
  }

  function UnlockRequests(key: Option<string>, pref: Option<string>): seq<Request> {
    [Flash("frp-unlock", key), Flashing("unlock", None)] + (if pref.Some? then [Oem("impref", pref)] else [])
  }

  const BOOT_FLAG: Request := Oem("boot-flag", Some("9"))

  function ClosingRequests(success: bool): seq<Request> {
    if success then [BOOT_FLAG, Reboot] else [Reboot]
  }

  /** The last commands: the boot flag if the flashing succeeded, and always the reboot. */
  function Finish(w: World, p: Proc, success: bool): (q: Proc)
    requires Fits(p.layout)
    ensures Fits(q.layout)
  {
    var q := if success then Send(w, p, BOOT_FLAG, false).0 else p;
    if q.alive then Send(w, q, Reboot, false).0 else q
  }

  const SWITCHING_TO_DOWNLOAD_MODE_FAILED: int := -3
  const FASTBOOT_COMMAND_FAILED: int := -4
  const FASTBOOT_FLASHING_FAILED: int := -6
  const MODEM_PORT_OPENING_FAILS_AFTER_FIRMWARE_DOWNLOAD: int := -8

  /**
    download_process from the moment it looks for the device in fastboot mode: `ready` says
    whether that shows up, `boots` whether the modem comes back after the last reboot.
   */
  function Download(w: World, p: Proc, ready: bool, key: Option<string>, pref: Option<string>, boots: bool): (r: (Proc, int))
    requires Fits(p.layout)
    ensures Fits(r.0.layout)
  {
    if !ready then (p, SWITCHING_TO_DOWNLOAD_MODE_FAILED)
    else
      var (u, rtn) := SendEach(w, p, UnlockRequests(key, pref), 1);
      if !u.alive then (u, 0)
      else if rtn <= 0 then (Finish(w, u, false), FASTBOOT_COMMAND_FAILED)
      else AfterUnlock(w, u, boots)
  }

  /** The stage from the moment the device is unlocked. */
  function AfterUnlock(w: World, u: Proc, boots: bool): (r: (Proc, int))
    requires Fits(u.layout)
    ensures Fits(r.0.layout)
  {
    var f := FlashAll(w, u);
    if !f.p.alive then (f.p, 0)
    else
      (Finish(w, f.p, f.rtn > 0),
       if f.rtn <= 0 then FASTBOOT_FLASHING_FAILED
       else if boots then 1 else MODEM_PORT_OPENING_FAILS_AFTER_FIRMWARE_DOWNLOAD)
  }

  // ----- Records -----

  function Reqs(recs: seq<Record>): (rs: seq<Request>)
    ensures |rs| == |recs|
    ensures forall i :: 0 <= i < |recs| ==> rs[i] == recs[i].req
  {
    seq(|recs|, i requires 0 <= i < |recs| => recs[i].req)
  }

  lemma ReqsAppend(a: seq<Record>, b: seq<Record>)
    ensures Reqs(a + b) == Reqs(a) + Reqs(b)
  {
  }

  lemma ReqsOfOne(recs: seq<Record>)
    requires |recs| == 1
    ensures Reqs(recs) == [recs[0].req]
  {
  }

  ghost predicate Ran(w: World, rec: Record) {
    exists k :: w.run(k, rec.req) == Some(rec)
  }

  /** The session took place and reported success. */
  ghost predicate Good(w: World, rec: Record) {
    Ran(w, rec) && rec.rtn == 1
  }

  ghost predicate AllGood(w: World, recs: seq<Record>) {
    forall i :: 0 <= i < |recs| ==> Good(w, recs[i])
  }

  predicate OnlyFlashes(recs: seq<Record>) {
    forall i :: 0 <= i < |recs| ==> recs[i].req.Flash?
  }

  /** In the world as it is, what ran is genuine. */
  lemma RanIsGenuine(files: seq<Option<string>>, sessions: seq<Session>, disks: seq<Disk>, rec: Record)
    requires Ran(RealWorld(files, sessions, disks), rec)
    ensures Genuine(rec)
  {
    var w := RealWorld(files, sessions, disks);
    var k :| w.run(k, rec.req) == Some(rec);
    RecordIsGenuine(SessionAt(sessions, k), rec.req);
  }

  /** What one command adds. */
  lemma SendAdds(w: World, p: Proc, req: Request, header: bool) returns (recs: seq<Record>)
    requires Honest(w) && Fits(p.layout) && p.alive
    ensures var (q, rtn) := Send(w, p, req, header);
            && q.journal == p.journal + recs
            && (!q.alive ==> recs == [] && q == p.(sessionNo := p.sessionNo + 1, alive := false, asked := p.asked + [req]))
            && (q.alive ==> |recs| == 1 && recs[0].req == req && Ran(w, recs[0]) && recs[0].rtn == rtn)
            && (q.alive ==> q.image == p.image && q.pri == p.pri && q.first == p.first && q.copyNo == p.copyNo)
            && (q.alive && rtn > 0 ==> AllGood(w, recs))
            && (!header ==> q.declared == p.declared && q.layout == p.layout)
            && (q.alive && header ==>
                  && q.declared == p.declared + [Declared(recs[0].msgs, recs[0].session.junk)]
                  && q.layout == ReadInto(p.layout, recs[0]))
  {
    var run := w.run(p.sessionNo, req);
    if run.None? {
      recs := [];
      Assoc(p.journal, [], []);
    } else {
      recs := [run.value];
      assert Ran(w, run.value);
    }
  }

  lemma GoodAppend(w: World, a: seq<Record>, b: seq<Record>)
    ensures AllGood(w, a) && AllGood(w, b) ==> AllGood(w, a + b)
    ensures OnlyFlashes(a) && OnlyFlashes(b) ==> OnlyFlashes(a + b)
  {
  }

  /** `recs` are the first of the requests in `plan`, and only the last of them can have failed. */
  ghost predicate Came(w: World, recs: seq<Record>, plan: seq<Request>) {
    && Reqs(recs) <= plan && (forall i :: 0 <= i < |recs| ==> Ran(w, recs[i]))
    && (forall i :: 0 <= i < |recs| - 1 ==> Good(w, recs[i]))
  }

  /** All of the plan, and none of it failed. */
  ghost predicate Through(w: World, recs: seq<Record>, plan: seq<Request>) {
    Reqs(recs) == plan && AllGood(w, recs)
  }

  lemma PrefixOn<T>(a: seq<T>, b: seq<T>, c: seq<T>)
    requires b <= c
    ensures a + b <= a + c && (a + b == a + c <==> b == c)
  {
    if a + b == a + c {
      assert |b| == |c|;
    }
  }

  lemma RanOn(w: World, a: seq<Record>, b: seq<Record>)
    requires AllGood(w, a) && forall i :: 0 <= i < |b| ==> Ran(w, b[i])
    requires forall i :: 0 <= i < |b| - 1 ==> Good(w, b[i])
    ensures forall i :: 0 <= i < |a + b| ==> Ran(w, (a + b)[i])
    ensures forall i :: 0 <= i < |a + b| - 1 ==> Good(w, (a + b)[i])
    ensures AllGood(w, a + b) <==> AllGood(w, b)
  {
    forall i | 0 <= i < |a + b|
      ensures Ran(w, (a + b)[i]) && (i < |a + b| - 1 ==> Good(w, (a + b)[i]))
    {
      assert (a + b)[i] == if i < |a| then a[i] else b[i - |a|];
    }
    forall i | 0 <= i < |b|
      ensures b[i] == (a + b)[|a| + i]
    {
    }
  }

  lemma CameOn(w: World, a: seq<Record>, pa: seq<Request>, b: seq<Record>, pb: seq<Request>)
    requires Through(w, a, pa) && Came(w, b, pb)
    ensures Came(w, a + b, pa + pb) && (Through(w, a + b, pa + pb) <==> Through(w, b, pb))
  {
    ReqsAppend(a, b);
    PrefixOn(pa, Reqs(b), pb);
    RanOn(w, a, b);
  }

  /** Nothing of a plan, or one step of it that failed. */
  lemma CameShort(w: World, recs: seq<Record>, plan: seq<Request>)
    requires plan != [] && |recs| <= 1
    requires recs != [] ==> recs[0].req == plan[0] && Ran(w, recs[0]) && recs[0].rtn != 1
    ensures Came(w, recs, plan) && !Through(w, recs, plan)
  {
  }

  // ----- What is flashed, as the copies are made -----

  /** The flashes of the image loop from entry `c` on: each sends the temporary file as the copy before it left it. */
  function MadeImages(w: World, i: nat, slices: seq<Slice>, c: nat, no: nat, image: Option<string>): seq<Request>
    requires i < |w.files| && c <= |slices|
    decreases |slices| - c
  {
    if c == |slices| then []
    else
      var temp := w.copy(no, w.files[i], slices[c], false, image);
      [Flash(slices[c].name, temp)] + MadeImages(w, i, slices, c + 1, no + 1, temp)
  }

  function ImageLeft(w: World, i: nat, slices: seq<Slice>, c: nat, no: nat, image: Option<string>): Option<string>
    requires i < |w.files| && c <= |slices|
    decreases |slices| - c
  {
    if c == |slices| then image
    else ImageLeft(w, i, slices, c + 1, no + 1, w.copy(no, w.files[i], slices[c], false, image))
  }

  function PriLeft(w: World, i: nat, slices: seq<Slice>, c: nat, no: nat, pri: Option<string>): Option<string>
    requires i < |w.files|
    decreases |slices| - c
  {
    if c >= |slices| then pri
    else PriLeft(w, i, slices, c + 1, no + 1, w.copy(no, w.files[i], slices[c], true, pri))
  }

  lemma ImageMade(w: World, p: Proc, i: nat, c: nat) returns (recs: seq<Record>, image: Option<string>, req: Request)
    requires Honest(w) && Fits(p.layout) && p.alive && i < |w.files| && c < |p.layout.images|
    ensures image == w.copy(p.copyNo, w.files[i], p.layout.images[c], false, p.image) && req == Flash(p.layout.images[c].name, image)
    ensures var (q, rtn) := SendImage(w, p, i, c);
            && q.journal == p.journal + recs && |recs| <= 1 && OnlyFlashes(recs)
            && q.declared == p.declared && q.pri == p.pri
            && (recs != [] ==> recs[0].req == req && Ran(w, recs[0]))
            && (if q.alive && rtn > 0 then Through(w, recs, [req]) else recs != [] ==> recs[0].rtn != 1)
            && (q.alive ==> q.image == image && q.copyNo == p.copyNo + 1)
  {
    var s := p.layout.images[c];
    image := w.copy(p.copyNo, w.files[i], s, false, p.image);
    req := Flash(s.name, image);
    recs := SendAdds(w, p.(copyNo := p.copyNo + 1, image := image), req, false);
    if |recs| == 1 {
      ReqsOfOne(recs);
    }
  }

  lemma {:induction false} ImagesMade(w: World, p: Proc, i: nat, c: nat) returns (recs: seq<Record>)
    requires Honest(w) && Fits(p.layout) && p.alive && i < |w.files| && c <= |p.layout.images|
    ensures var (q, rtn) := FlashImages(w, p, i, c);
            var plan := MadeImages(w, i, p.layout.images, c, p.copyNo, p.image);
            && q.journal == p.journal + recs && OnlyFlashes(recs) && Came(w, recs, plan)
            && q.layout == p.layout && q.declared == p.declared && q.pri == p.pri
            && (q.alive && rtn > 0 <==> Through(w, recs, plan))
            && (q.alive && rtn > 0 ==>
                  && q.image == ImageLeft(w, i, p.layout.images, c, p.copyNo, p.image)
                  && q.copyNo == p.copyNo + |p.layout.images| - c)
    decreases |p.layout.images| - c
  {
    recs := [];
    if c == |p.layout.images| {
      Assoc(p.journal, [], []);
    } else {
      var (q, rtn) := SendImage(w, p, i, c);
      var image, req;
      recs, image, req := ImageMade(w, p, i, c);
      var plan := MadeImages(w, i, p.layout.images, c + 1, p.copyNo + 1, image);
      if q.alive && rtn > 0 {
        var more := ImagesMade(w, q, i, c + 1);
        Assoc(p.journal, recs, more);
        GoodAppend(w, recs, more);
        CameOn(w, recs, [req], more, plan);
        recs := recs + more;
      } else {
        CameShort(w, recs, [req] + plan);
      }
    }
  }

  lemma {:induction false} GatherMade(w: World, p: Proc, i: nat, c: nat)
    requires Fits(p.layout) && i < |w.files|
    ensures Gather(w, p, i, c) == p.(pri := PriLeft(w, i, p.layout.pri, c, p.copyNo, p.pri),
                                     copyNo := p.copyNo + if c < |p.layout.pri| then |p.layout.pri| - c else 0)
    decreases |p.layout.pri| - c
  {
    if c < |p.layout.pri| {
      GatherMade(w, p.(copyNo := p.copyNo + 1, pri := w.copy(p.copyNo, w.files[i], p.layout.pri[c], true, p.pri)), i, c + 1);
    }
  }

  // ----- All files -----

  function HeaderLayout(pri: seq<Slice>, decl: Declared): (l: Layout)
    requires |pri| <= MAX_DOWNLOAD_PRI_IMAGES
    ensures Fits(l) && |pri| <= |l.pri|
  {
    PostProcess(Reader(Layout([], 0, 0, pri), decl.junk.0, decl.junk.1), decl.msgs, true).0.layout
  }

  /** The tables after the headers of the first `n` files. */
  function LayoutAfter(decl: seq<Declared>, n: nat): (l: Layout)
    requires n <= |decl|
    ensures Fits(l)
  {
    if n == 0 then Layout([], 0, 0, []) else HeaderLayout(LayoutAfter(decl, n - 1).pri, decl[n - 1])
  }

  /** How many carrier slices were in the table before header number `n` (counting from 1). */
  function OldPri(decl: seq<Declared>, n: nat): (k: nat)
    requires 0 < n <= |decl|
    ensures k <= |LayoutAfter(decl, n).pri|
  {
    |LayoutAfter(decl, n - 1).pri|
  }

  /** The copies made so far and the two temporary files that copies go to. */
  datatype Temps = Temps(no: nat, image: Option<string>, pri: Option<string>)

  function TempsOf(p: Proc): Temps {
    Temps(p.copyNo, p.image, p.pri)
  }

  /** The temporary files after file `i`, whose header gave `l`, with `prev` carrier slices from earlier files. */
  function FileTemps(w: World, i: nat, l: Layout, prev: nat, b: Temps): Temps
    requires i < |w.files| && prev <= |l.pri|
  {
    Temps(b.no + 1 + |l.images| + (|l.pri| - prev),
          ImageLeft(w, i, l.images, 0, b.no + 1, b.image),
          PriLeft(w, i, l.pri, prev, b.no + 1 + |l.images|, b.pri))
  }

  /** Its flashes: the header, then the images. */
  function FileFlashes(w: World, i: nat, l: Layout, b: Temps): seq<Request>
    requires i < |w.files|
  {
    [HeaderRequest(w.files[i].Or(""))] + MadeImages(w, i, l.images, 0, b.no + 1, b.image)
  }

  /** The temporary files after the first `n` files, from `t` on. */
  function TempsAfter(w: World, decl: seq<Declared>, n: nat, t: Temps): Temps
    requires n <= |decl| && n <= |w.files|
  {
    if n == 0 then t
    else FileTemps(w, n - 1, LayoutAfter(decl, n), OldPri(decl, n), TempsAfter(w, decl, n - 1, t))
  }

  function MadeRequests(w: World, decl: seq<Declared>, n: nat, t: Temps): seq<Request>
    requires n <= |decl| && n <= |w.files|
  {
    if n == 0 then []
    else MadeRequests(w, decl, n - 1, t) + FileFlashes(w, n - 1, LayoutAfter(decl, n), TempsAfter(w, decl, n - 1, t))
  }

  /** Everything to be flashed for the headers that have been read, whatever became of the copies. */
  function MadePlan(w: World, decl: seq<Declared>, t: Temps): seq<Request>
    requires |decl| <= |w.files|
  {
    var n := |decl|;
    MadeRequests(w, decl, n, t) +
    (if n < |w.files| || LayoutAfter(decl, n).pri == [] then [] else [Flash("capri_c", TempsAfter(w, decl, n, t).pri)])
  }

  lemma {:induction false} LayoutPrefix(a: seq<Declared>, b: seq<Declared>, n: nat)
    requires n <= |a| && n <= |b| && a[..n] == b[..n]
    ensures LayoutAfter(a, n) == LayoutAfter(b, n)
  {
    if n > 0 {
      assert a[..n - 1] == a[..n][..n - 1] && b[..n - 1] == b[..n][..n - 1];
      assert a[n - 1] == a[..n][n - 1] && b[n - 1] == b[..n][n - 1];
      LayoutPrefix(a, b, n - 1);
    }
  }

  lemma {:induction false} MadePrefix(w: World, a: seq<Declared>, b: seq<Declared>, n: nat, t: Temps)
    requires n <= |w.files| && n <= |a| && n <= |b| && a[..n] == b[..n]
    ensures MadeRequests(w, a, n, t) == MadeRequests(w, b, n, t) && TempsAfter(w, a, n, t) == TempsAfter(w, b, n, t)
  {
    if n > 0 {
      assert a[..n - 1] == a[..n][..n - 1] && b[..n - 1] == b[..n][..n - 1];
      MadePrefix(w, a, b, n - 1, t);
      LayoutPrefix(a, b, n);
      LayoutPrefix(a, b, n - 1);
    }
  }

  /** What one more header adds to the books. */
  lemma OneMoreHeader(w: World, a: seq<Declared>, d: Declared, t: Temps, n: nat)
    requires n == |a| < |w.files|
    ensures var b := a + [d];
            var l := HeaderLayout(LayoutAfter(a, n).pri, d);
            && LayoutAfter(b, n + 1) == l && OldPri(b, n + 1) == |LayoutAfter(a, n).pri|
            && TempsAfter(w, b, n + 1, t) == FileTemps(w, n, l, |LayoutAfter(a, n).pri|, TempsAfter(w, a, n, t))
            && MadeRequests(w, b, n + 1, t) == MadeRequests(w, a, n, t) + FileFlashes(w, n, l, TempsAfter(w, a, n, t))
  {
    var b := a + [d];
    assert a[..n] == a && b[..n] == a && b[n] == d;
    LayoutPrefix(a, b, n);
    MadePrefix(w, a, b, n, t);
  }

  /** A run that began with journal `was` and temporary files `t` has flashed `n` files, `recs`, and goes on. */
  ghost predicate Going(w: World, was: seq<Record>, t: Temps, p: Proc, n: nat, recs: seq<Record>) {
    && p.alive && Fits(p.layout) && n <= |w.files| && |p.declared| == n
    && p.layout.pri == LayoutAfter(p.declared, n).pri && TempsOf(p) == TempsAfter(w, p.declared, n, t)
    && p.journal == was + recs && OnlyFlashes(recs) && AllGood(w, recs)
    && Reqs(recs) == MadeRequests(w, p.declared, n, t)
  }

  lemma TempsGathered(w: World, q: Proc, i: nat, prev: nat, b: Temps)
    requires Fits(q.layout) && i < |w.files| && prev <= |q.layout.pri|
    requires q.copyNo == b.no + 1 + |q.layout.images| && q.pri == b.pri
    requires q.image == ImageLeft(w, i, q.layout.images, 0, b.no + 1, b.image)
    ensures var g := Gather(w, q, i, prev);
            && TempsOf(g) == FileTemps(w, i, q.layout, prev, b)
            && g.journal == q.journal && g.declared == q.declared && g.layout == q.layout && g.alive == q.alive
  {
    GatherMade(w, q, i, prev);
  }

  lemma SlicesMade(w: World, p: Proc, i: nat, prev: nat, b: Temps) returns (recs: seq<Record>)
    requires Honest(w) && Fits(p.layout) && p.alive && i < |w.files| && prev <= |p.layout.pri|
    requires TempsOf(p) == b.(no := b.no + 1)
    ensures SlicesCame(w, p, FlashSlices(w, p, i, prev), i, prev, b, recs)
  {
    recs := ImagesMade(w, p, i, 0);
    var (q, rtn) := FlashImages(w, p, i, 0);
    if q.alive && rtn > 0 {
      TempsGathered(w, q, i, prev, b);
    }
  }

  function DeclaredIn(rec: Record): Declared {
    Declared(rec.msgs, rec.session.junk)
  }

  /** The header of file `n` has been flashed and read: `q` is about to do the rest. */
  ghost predicate HeaderRead(w: World, p: Proc, q: Proc, n: nat, hdr: seq<Record>) {
    && n < |w.files| && |hdr| == 1 && hdr[0].req == HeaderRequest(w.files[n].Or("")) && AllGood(w, hdr)
    && q.alive && Fits(q.layout) && q.journal == p.journal + hdr && TempsOf(q) == TempsOf(p).(no := p.copyNo + 1)
    && q.declared == p.declared + [DeclaredIn(hdr[0])]
    && |p.layout.pri| <= MAX_DOWNLOAD_PRI_IMAGES && q.layout == HeaderLayout(p.layout.pri, DeclaredIn(hdr[0]))
  }

  /** The header of file `n` has been sent, and that failed; what the device declared all the same is on record. */
  ghost predicate HeaderFailed(w: World, p: Proc, q: Proc, n: nat, hdr: seq<Record>) {
    && n < |w.files| && |hdr| == 1 && hdr[0].req == HeaderRequest(w.files[n].Or("")) && Ran(w, hdr[0]) && hdr[0].rtn != 1
    && q.declared == p.declared + [DeclaredIn(hdr[0])]
    && |p.layout.pri| <= MAX_DOWNLOAD_PRI_IMAGES
  }

  lemma HeaderMade(w: World, p: Proc, n: nat, p1: Proc) returns (hdr: seq<Record>)
    requires Honest(w) && Fits(p.layout) && p.alive && n < |w.files| && w.start(p.copyNo, w.files[n], p.first).rc > 0
    requires p1 == p.(copyNo := p.copyNo + 1, first := w.start(p.copyNo, w.files[n], p.first).first, layout := Layout([], 0, 0, p.layout.pri))
    ensures var (q, rtn) := Send(w, p1, Flash("sop-hdr", p1.first), true);
            && q.journal == p.journal + hdr && OnlyFlashes(hdr)
            && (q.alive && rtn > 0 ==> HeaderRead(w, p, q, n, hdr))
            && (q.alive && rtn <= 0 ==> HeaderFailed(w, p, q, n, hdr))
            && (!q.alive ==> hdr == [] && q.declared == p.declared)
  {
    assert Flash("sop-hdr", p1.first) == HeaderRequest(w.files[n].Or(""));
    hdr := SendAdds(w, p1, Flash("sop-hdr", p1.first), true);
  }

  /** `recs` is what came of the flashes of the files whose headers have been read, in their order. */
  ghost predicate Sofar(w: World, decl: seq<Declared>, t: Temps, recs: seq<Record>) {
    |decl| <= |w.files| && OnlyFlashes(recs) && Came(w, recs, MadeRequests(w, decl, |decl|, t))
  }

  /** The flashes of `n` files went through. */
  ghost predicate Done(w: World, decl: seq<Declared>, n: nat, t: Temps, recs: seq<Record>) {
    |decl| == n <= |w.files| && Through(w, recs, MadeRequests(w, decl, n, t))
  }

  lemma OneMoreMade(w: World, a: seq<Declared>, d: Declared, t: Temps, n: nat, plan: seq<Request>)
    requires n == |a| < |w.files|
    requires plan == FileFlashes(w, n, HeaderLayout(LayoutAfter(a, n).pri, d), TempsAfter(w, a, n, t))
    ensures MadeRequests(w, a + [d], n + 1, t) == MadeRequests(w, a, n, t) + plan
  {
    OneMoreHeader(w, a, d, t, n);
  }

  lemma Same(w: World, decl: seq<Declared>, t: Temps, recs: seq<Record>, made: seq<Request>)
    requires |decl| <= |w.files| && made == MadeRequests(w, decl, |decl|, t)
    ensures Sofar(w, decl, t, recs) <==> OnlyFlashes(recs) && Came(w, recs, made)
    ensures Done(w, decl, |decl|, t, recs) <==> Through(w, recs, made)
  {
  }

  /** One more file, with records `more` for its header and images. */
  lemma OneMoreFile(w: World, a: seq<Declared>, d: Declared, t: Temps, n: nat, recs: seq<Record>, more: seq<Record>, plan: seq<Request>)
    requires n == |a| < |w.files| && Done(w, a, n, t, recs) && OnlyFlashes(recs) && OnlyFlashes(more) && Came(w, more, plan)
    requires plan == FileFlashes(w, n, HeaderLayout(LayoutAfter(a, n).pri, d), TempsAfter(w, a, n, t))
    ensures Sofar(w, a + [d], t, recs + more) && (Done(w, a + [d], n + 1, t, recs + more) <==> Through(w, more, plan))
  {
    var made := MadeRequests(w, a, n, t);
    OneMoreMade(w, a, d, t, n, plan);
    GoodAppend(w, recs, more);
    CameOn(w, recs, made, more, plan);
    Same(w, a + [d], t, recs + more, made + plan);
  }

  /** A run that goes on has done what it was to do so far. */
  lemma GoingDone(w: World, was: seq<Record>, t: Temps, p: Proc, n: nat, recs: seq<Record>)
    requires Going(w, was, t, p, n, recs)
    ensures Sofar(w, p.declared, t, recs) && Done(w, p.declared, n, t, recs)
  {
  }

  /** The books after one more file. */
  lemma OneMoreTemps(w: World, a: seq<Declared>, d: Declared, t: Temps, n: nat, l: Layout)
    requires n == |a| < |w.files| && l == HeaderLayout(LayoutAfter(a, n).pri, d)
    ensures LayoutAfter(a + [d], n + 1) == l
    ensures TempsAfter(w, a + [d], n + 1, t) == FileTemps(w, n, l, |LayoutAfter(a, n).pri|, TempsAfter(w, a, n, t))
  {
    OneMoreHeader(w, a, d, t, n);
  }

  lemma GoesFurther(w: World, was: seq<Record>, t: Temps, p: Proc, n: nat, recs: seq<Record>)
    requires p.alive && Fits(p.layout) && Done(w, p.declared, n, t, recs) && OnlyFlashes(recs) && p.journal == was + recs
    requires p.layout.pri == LayoutAfter(p.declared, n).pri && TempsOf(p) == TempsAfter(w, p.declared, n, t)
    ensures Going(w, was, t, p, n, recs)
  {
  }

  /** What `f`, the flashing of the slices of a file with layout `l` from `q` on, has come to. */
  ghost predicate SlicesCame(w: World, q: Proc, f: Flow, i: nat, prev: nat, b: Temps, more: seq<Record>)
    requires i < |w.files| && prev <= |q.layout.pri|
  {
    var plan := MadeImages(w, i, q.layout.images, 0, b.no + 1, b.image);
    && f.p.journal == q.journal + more && OnlyFlashes(more) && !f.early && Came(w, more, plan)
    && f.p.declared == q.declared && f.p.layout == q.layout
    && (GoesOn(f) <==> Through(w, more, plan))
    && (GoesOn(f) ==> TempsOf(f.p) == FileTemps(w, i, q.layout, prev, b))
  }

  lemma RestMade(w: World, was: seq<Record>, t: Temps, p: Proc, q: Proc, n: nat, recs: seq<Record>, hdr: seq<Record>)
    returns (recs': seq<Record>)
    requires Honest(w) && Going(w, was, t, p, n, recs) && HeaderRead(w, p, q, n, hdr)
    ensures var f := FlashSlices(w, q, n, |p.layout.pri|);
            && f.p.journal == was + recs' && !f.early && f.p.declared == q.declared && Sofar(w, q.declared, t, recs')
            && (GoesOn(f) <==> Done(w, q.declared, n + 1, t, recs'))
            && (GoesOn(f) ==> Going(w, was, t, f.p, n + 1, recs'))
  {
    var b := TempsOf(p);
    var more := SlicesMade(w, q, n, |p.layout.pri|, b);
    recs' := recs + (hdr + more);
    RestCame(w, was, t, p, q, FlashSlices(w, q, n, |p.layout.pri|), n, b, recs, hdr, more);
  }

  lemma RestCame(w: World, was: seq<Record>, t: Temps, p: Proc, q: Proc, f: Flow, n: nat, b: Temps,
                 recs: seq<Record>, hdr: seq<Record>, more: seq<Record>)
    requires Going(w, was, t, p, n, recs) && HeaderRead(w, p, q, n, hdr) && Fits(f.p.layout) && b == TempsOf(p)
    requires |p.layout.pri| <= |q.layout.pri| && SlicesCame(w, q, f, n, |p.layout.pri|, b, more)
    ensures f.p.journal == was + (recs + (hdr + more)) && Sofar(w, q.declared, t, recs + (hdr + more))
    ensures GoesOn(f) <==> Done(w, q.declared, n + 1, t, recs + (hdr + more))
    ensures GoesOn(f) ==> Going(w, was, t, f.p, n + 1, recs + (hdr + more))
  {
    RestJournal(was, recs, hdr, more);
    RestSent(w, was, t, p, q, n, b, recs, hdr, more, MadeImages(w, n, q.layout.images, 0, b.no + 1, b.image));
    if GoesOn(f) {
      RestGoing(w, was, t, p, q, f, n, recs, hdr, more);
    }
  }

  lemma RestSent(w: World, was: seq<Record>, t: Temps, p: Proc, q: Proc, n: nat, b: Temps,
                 recs: seq<Record>, hdr: seq<Record>, more: seq<Record>, images: seq<Request>)
    requires Going(w, was, t, p, n, recs) && HeaderRead(w, p, q, n, hdr) && OnlyFlashes(more) && b == TempsOf(p)
    requires images == MadeImages(w, n, q.layout.images, 0, b.no + 1, b.image) && Came(w, more, images)
    ensures Sofar(w, q.declared, t, recs + (hdr + more))
    ensures Done(w, q.declared, n + 1, t, recs + (hdr + more)) <==> Through(w, more, images)
  {
    GoingDone(w, was, t, p, n, recs);
    RestSofar(w, t, p.declared, DeclaredIn(hdr[0]), n, b, q.layout, recs, hdr, more, images);
  }

  lemma RestGoing(w: World, was: seq<Record>, t: Temps, p: Proc, q: Proc, f: Flow, n: nat,
                  recs: seq<Record>, hdr: seq<Record>, more: seq<Record>)
    requires Going(w, was, t, p, n, recs) && HeaderRead(w, p, q, n, hdr) && Fits(f.p.layout) && f.p.alive && OnlyFlashes(more)
    requires f.p.journal == was + (recs + (hdr + more)) && f.p.declared == q.declared && f.p.layout == q.layout
    requires |p.layout.pri| <= |q.layout.pri| && TempsOf(f.p) == FileTemps(w, n, q.layout, |p.layout.pri|, TempsOf(p))
    requires Done(w, q.declared, n + 1, t, recs + (hdr + more)) && Sofar(w, q.declared, t, recs + (hdr + more))
    ensures Going(w, was, t, f.p, n + 1, recs + (hdr + more))
  {
    OneMoreTemps(w, p.declared, DeclaredIn(hdr[0]), t, n, q.layout);
    GoesFurther(w, was, t, f.p, n + 1, recs + (hdr + more));
  }

  lemma RestJournal(was: seq<Record>, recs: seq<Record>, hdr: seq<Record>, more: seq<Record>)
    ensures was + recs + hdr + more == was + (recs + (hdr + more))
  {
  }

  lemma RestSofar(w: World, t: Temps, a: seq<Declared>, d: Declared, n: nat, b: Temps, l: Layout,
                  recs: seq<Record>, hdr: seq<Record>, more: seq<Record>, images: seq<Request>)
    requires n == |a| < |w.files| && Done(w, a, n, t, recs) && OnlyFlashes(recs) && OnlyFlashes(more)
    requires b == TempsAfter(w, a, n, t) && l == HeaderLayout(LayoutAfter(a, n).pri, d)
    requires |hdr| == 1 && hdr[0].req == HeaderRequest(w.files[n].Or("")) && AllGood(w, hdr)
    requires images == MadeImages(w, n, l.images, 0, b.no + 1, b.image) && Came(w, more, images)
    ensures Sofar(w, a + [d], t, recs + (hdr + more))
    ensures Done(w, a + [d], n + 1, t, recs + (hdr + more)) <==> Through(w, more, images)
  {
    var plan := HeaderThen(w, w.files[n].Or(""), hdr, more, images);
    FlashesAre(w, n, l, b, images, plan);
    OneMoreFile(w, a, d, t, n, recs, hdr + more, plan);
  }

  lemma FlashesAre(w: World, i: nat, l: Layout, b: Temps, images: seq<Request>, plan: seq<Request>)
    requires i < |w.files| && images == MadeImages(w, i, l.images, 0, b.no + 1, b.image)
    requires plan == [HeaderRequest(w.files[i].Or(""))] + images
    ensures plan == FileFlashes(w, i, l, b)
  {
  }

  lemma HeaderThen(w: World, file: string, hdr: seq<Record>, more: seq<Record>, images: seq<Request>) returns (plan: seq<Request>)
    requires |hdr| == 1 && hdr[0].req == HeaderRequest(file) && AllGood(w, hdr) && OnlyFlashes(more) && Came(w, more, images)
    ensures plan == [HeaderRequest(file)] + images && OnlyFlashes(hdr + more) && Came(w, hdr + more, plan)
    ensures Through(w, hdr + more, plan) <==> Through(w, more, images)
  {
    ReqsOfOne(hdr);
    CameOn(w, hdr, [HeaderRequest(file)], more, images);
    GoodAppend(w, hdr, more);
    plan := [HeaderRequest(file)] + images;
  }

  /** What `f`, the flashing of file `n`, has come to. */
  ghost predicate FileCame(w: World, was: seq<Record>, t: Temps, f: Flow, n: nat, recs: seq<Record>) {
    && f.p.journal == was + recs && Sofar(w, f.p.declared, t, recs) && n <= |f.p.declared| <= n + 1
    && (GoesOn(f) <==> Done(w, f.p.declared, n + 1, t, recs)) && (GoesOn(f) ==> Going(w, was, t, f.p, n + 1, recs))
  }

  /** One file; it ends the run early exactly when it cannot be started, and then nothing is flashed for it. */
  lemma FileMade(w: World, was: seq<Record>, t: Temps, p: Proc, n: nat, recs: seq<Record>) returns (recs': seq<Record>)
    requires Honest(w) && Going(w, was, t, p, n, recs) && n < |w.files|
    ensures var f := FlashFile(w, p, n);
            && FileCame(w, was, t, f, n, recs')
            && (f.early <==> w.start(p.copyNo, w.files[n], p.first).rc <= 0)
            && (f.early ==> recs' == recs && f.rtn == 0 && f.p.declared == p.declared && f.p.pri == p.pri && f.p.alive)
  {
    recs' := recs;
    GoingDone(w, was, t, p, n, recs);
    var st := w.start(p.copyNo, w.files[n], p.first);
    if st.rc > 0 {
      recs' := StartedMade(w, was, t, p, n, recs);
    }
  }

  lemma StartedMade(w: World, was: seq<Record>, t: Temps, p: Proc, n: nat, recs: seq<Record>) returns (recs': seq<Record>)
    requires Honest(w) && Going(w, was, t, p, n, recs) && n < |w.files| && w.start(p.copyNo, w.files[n], p.first).rc > 0
    ensures var f := FlashFile(w, p, n); !f.early && FileCame(w, was, t, f, n, recs')
  {
    var st := w.start(p.copyNo, w.files[n], p.first);
    var p1 := p.(copyNo := p.copyNo + 1, first := st.first, layout := Layout([], 0, 0, p.layout.pri));
    var hdr := HeaderMade(w, p, n, p1);
    var (q, rtn) := Send(w, p1, Flash("sop-hdr", p1.first), true);
    FileSteps(w, p, n, st, p1);
    if q.alive && rtn > 0 {
      recs' := RestMade(w, was, t, p, q, n, recs, hdr);
    } else {
      recs' := recs + hdr;
      HeaderStops(w, was, t, p, q, rtn, n, recs, hdr);
    }
  }

  lemma HeaderStops(w: World, was: seq<Record>, t: Temps, p: Proc, q: Proc, rtn: int, n: nat, recs: seq<Record>, hdr: seq<Record>)
    requires Going(w, was, t, p, n, recs) && n < |w.files| && Fits(q.layout) && q.journal == p.journal + hdr
    requires if q.alive then rtn <= 0 && OnlyFlashes(hdr) && HeaderFailed(w, p, q, n, hdr) else hdr == [] && q.declared == p.declared
    ensures FileCame(w, was, t, Flow(q, rtn, false), n, recs + hdr)
  {
    GoingDone(w, was, t, p, n, recs);
    Assoc(was, recs, hdr);
    if q.alive {
      HeaderShort(w, t, p, q, n, recs, hdr);
    } else {
      Assoc(recs, [], []);
    }
  }

  lemma HeaderShort(w: World, t: Temps, p: Proc, q: Proc, n: nat, recs: seq<Record>, hdr: seq<Record>)
    requires |p.declared| == n && Done(w, p.declared, n, t, recs) && OnlyFlashes(recs) && HeaderFailed(w, p, q, n, hdr)
    requires p.layout.pri == LayoutAfter(p.declared, n).pri
    ensures Sofar(w, q.declared, t, recs + hdr) && !Done(w, q.declared, n + 1, t, recs + hdr)
  {
    var d := DeclaredIn(hdr[0]);
    var plan := FileFlashes(w, n, HeaderLayout(p.layout.pri, d), TempsAfter(w, p.declared, n, t));
    CameShort(w, hdr, plan);
    OneMoreFile(w, p.declared, d, t, n, recs, hdr, plan);
  }

  /** What `f`, a run over all files, has come to; `some` says that there was a file to flash. */
  ghost predicate FilesCame(w: World, was: seq<Record>, t: Temps, f: Flow, some: bool, recs: seq<Record>) {
    && f.p.journal == was + recs && Sofar(w, f.p.declared, t, recs)
    && (GoesOn(f) <==> some && Done(w, f.p.declared, |w.files|, t, recs))
    && (GoesOn(f) ==> Going(w, was, t, f.p, |w.files|, recs))
    && (f.early ==> f.rtn == 0 && f.p.alive && StoppedEarly(w, was, t, f.p, recs))
  }

  /**
    The loop over the files: it comes to the end exactly when everything the headers declare has
    been flashed; or it stops at the first flash that fails, or returns early at file number `n`
    because that cannot be started; then `n` files are done.
   */
  lemma {:induction false} FilesMade(w: World, was: seq<Record>, t: Temps, p: Proc, i: nat, rtn: int, recs: seq<Record>)
    returns (recs': seq<Record>)
    requires Honest(w) && Going(w, was, t, p, i, recs)
    ensures FilesCame(w, was, t, FlashFiles(w, p, i, rtn), i < |w.files| || rtn > 0, recs')
    decreases |w.files| - i
  {
    if i == |w.files| {
      recs' := recs;
      GoingDone(w, was, t, p, i, recs);
    } else {
      recs' := FileMade(w, was, t, p, i, recs);
      var f := FlashFile(w, p, i);
      if GoesOn(f) {
        recs' := FilesMade(w, was, t, f.p, i + 1, f.rtn, recs');
      } else {
        FileStops(w, was, t, p, f, i, recs, recs');
      }
    }
  }

  lemma FileStops(w: World, was: seq<Record>, t: Temps, p: Proc, f: Flow, n: nat, recs: seq<Record>, recs': seq<Record>)
    requires Going(w, was, t, p, n, recs) && n < |w.files| && FileCame(w, was, t, f, n, recs') && !GoesOn(f)
    requires f.early ==> recs' == recs && f.rtn == 0 && f.p.declared == p.declared && f.p.pri == p.pri && f.p.alive
    requires f.early ==> w.start(p.copyNo, w.files[n], p.first).rc <= 0
    ensures FilesCame(w, was, t, f, true, recs')
  {
    NotAllDone(w, f.p.declared, n, t, recs');
    if f.early {
      StopsEarly(w, was, t, p, f.p, n, recs);
    }
  }

  lemma NotAllDone(w: World, decl: seq<Declared>, n: nat, t: Temps, recs: seq<Record>)
    requires n < |w.files| && n <= |decl| <= n + 1 && !Done(w, decl, n + 1, t, recs)
    ensures !Done(w, decl, |w.files|, t, recs)
  {
    if |decl| == |w.files| {
      SameNumber(w, decl, n + 1, |w.files|, t, recs);
    } else {
      DoneCounts(w, decl, |w.files|, t, recs);
    }
  }

  lemma SameNumber(w: World, decl: seq<Declared>, a: nat, b: nat, t: Temps, recs: seq<Record>)
    requires a == b && !Done(w, decl, a, t, recs)
    ensures !Done(w, decl, b, t, recs)
  {
  }

  lemma DoneCounts(w: World, decl: seq<Declared>, n: nat, t: Temps, recs: seq<Record>)
    requires |decl| != n
    ensures !Done(w, decl, n, t, recs)
  {
  }

  lemma StopsEarly(w: World, was: seq<Record>, t: Temps, p: Proc, q: Proc, n: nat, recs: seq<Record>)
    requires Going(w, was, t, p, n, recs) && n < |w.files| && w.start(p.copyNo, w.files[n], p.first).rc <= 0
    requires q.journal == was + recs && q.declared == p.declared && q.pri == p.pri
    ensures StoppedEarly(w, was, t, q, recs)
  {
  }

  /** The run ended at a file that could not be started: what it had flashed by then, and the carrier file it leaves. */
  ghost predicate StoppedEarly(w: World, was: seq<Record>, t: Temps, p: Proc, recs: seq<Record>) {
    var n := |p.declared|;
    && n < |w.files| && p.journal == was + recs && AllGood(w, recs)
    && (exists first :: w.start(TempsAfter(w, p.declared, n, t).no, w.files[n], first).rc <= 0)
    && Reqs(recs) == MadeRequests(w, p.declared, n, t) && p.pri == TempsAfter(w, p.declared, n, t).pri
  }

  /** The run is through: every file and the carrier file. */
  ghost predicate Achieved(w: World, decl: seq<Declared>, t: Temps, recs: seq<Record>) {
    |decl| == |w.files| && OnlyFlashes(recs) && AllGood(w, recs) && Reqs(recs) == MadePlan(w, decl, t)
  }

  /** A run that has not come to the end of the files, in terms of the whole plan. */
  lemma SofarPlan(w: World, decl: seq<Declared>, t: Temps, recs: seq<Record>)
    requires Sofar(w, decl, t, recs)
    ensures Came(w, recs, MadePlan(w, decl, t)) && (!Done(w, decl, |w.files|, t, recs) ==> !Achieved(w, decl, t, recs))
  {
    var made, plan := MadeRequests(w, decl, |decl|, t), MadePlan(w, decl, t);
    assert plan[..|made|] == made;
    assert |Reqs(recs)| <= |made|;
  }

  lemma CarrierMade(w: World, was: seq<Record>, t: Temps, p: Proc, rtn: int, recs: seq<Record>) returns (recs': seq<Record>)
    requires Honest(w) && Going(w, was, t, p, |w.files|, recs) && rtn > 0
    ensures var f := FlashCarrier(w, p, rtn);
            && f.p.journal == was + recs' && OnlyFlashes(recs') && !f.early && f.p.declared == p.declared
            && Came(w, recs', MadePlan(w, p.declared, t)) && (GoesOn(f) <==> Achieved(w, p.declared, t, recs'))
  {
    recs' := recs;
    var made := MadeRequests(w, p.declared, |w.files|, t);
    if p.layout.pri == [] {
      Assoc(made, [], []);
    } else {
      var req := Flash("capri_c", p.pri);
      var last := SendAdds(w, p, req, false);
      Assoc(was, recs, last);
      GoodAppend(w, recs, last);
      recs' := recs + last;
      if last != [] && last[0].rtn == 1 {
        ReqsOfOne(last);
      } else {
        CameShort(w, last, [req]);
      }
      CameOn(w, recs, made, last, [req]);
    }
  }

  /** What `f`, a run over all files and the carrier file, has come to. */
  ghost predicate AllCame(w: World, was: seq<Record>, t: Temps, f: Flow, recs: seq<Record>) {
    && f.p.journal == was + recs && OnlyFlashes(recs)
    && |f.p.declared| <= |w.files| && Came(w, recs, MadePlan(w, f.p.declared, t))
    && (GoesOn(f) <==> |w.files| > 0 && Achieved(w, f.p.declared, t, recs))
    && (f.early ==> f.p.alive && f.rtn == 0 && StoppedEarly(w, was, t, f.p, recs))
  }

  lemma FilesEnd(w: World, was: seq<Record>, t: Temps, f: Flow, recs: seq<Record>)
    requires FilesCame(w, was, t, f, |w.files| > 0, recs) && !GoesOn(f)
    ensures AllCame(w, was, t, f, recs)
  {
    SofarPlan(w, f.p.declared, t, recs);
  }

  /** A run that is about to begin. */
  lemma BegunGoing(w: World, was: seq<Record>, t: Temps, p: Proc, none: seq<Record>, n: nat)
    requires p.alive && Fits(p.layout) && p.declared == [] && p.layout.pri == [] && none == []
    requires p.journal == was && TempsOf(p) == t && n == 0
    ensures Going(w, was, t, p, n, none)
  {
    NoLayout(p.declared, n);
    NoTemps(w, p.declared, n, t);
    NoRequests(w, p.declared, n, t);
    NoReqs(none);
    Assoc(was, none, none);
  }

  lemma NoLayout(decl: seq<Declared>, n: nat)
    requires n == |decl| == 0
    ensures LayoutAfter(decl, n).pri == []
  {
  }

  lemma NoTemps(w: World, decl: seq<Declared>, n: nat, t: Temps)
    requires n == |decl| == 0
    ensures TempsAfter(w, decl, n, t) == t
  {
  }

  lemma NoRequests(w: World, decl: seq<Declared>, n: nat, t: Temps)
    requires n == |decl| == 0
    ensures MadeRequests(w, decl, n, t) == []
  {
  }

  lemma NoReqs(none: seq<Record>)
    requires none == []
    ensures Reqs(none) == []
  {
  }

  lemma FromStart(w: World, was: seq<Record>, t: Temps, b: Proc, i: nat, f: Flow, some: bool, none: seq<Record>) returns (recs: seq<Record>)
    requires Honest(w) && Going(w, was, t, b, i, none) && f == FlashFiles(w, b, i, i) && (some <==> i < |w.files| || i > 0)
    ensures FilesCame(w, was, t, f, some, recs)
  {
    recs := FilesMade(w, was, t, b, i, i, none);
    SameCase(w, was, t, f, i < |w.files| || i > 0, some, recs);
  }

  lemma SameCase(w: World, was: seq<Record>, t: Temps, f: Flow, some: bool, same: bool, recs: seq<Record>)
    requires FilesCame(w, was, t, f, some, recs) && some == same
    ensures FilesCame(w, was, t, f, same, recs)
  {
  }

  lemma AllMade(w: World, was: seq<Record>, t: Temps, f: Flow, g: Flow, recs: seq<Record>) returns (recs': seq<Record>)
    requires Honest(w) && FilesCame(w, was, t, f, |w.files| > 0, recs) && Fits(f.p.layout)
    requires g == if GoesOn(f) then FlashCarrier(w, f.p, f.rtn) else f
    ensures AllCame(w, was, t, g, recs')
  {
    if GoesOn(f) {
      recs' := CarrierEnd(w, was, t, f, recs);
    } else {
      FilesEnd(w, was, t, f, recs);
      recs' := recs;
    }
  }

  lemma CarrierEnd(w: World, was: seq<Record>, t: Temps, f: Flow, recs: seq<Record>) returns (recs': seq<Record>)
    requires Honest(w) && FilesCame(w, was, t, f, |w.files| > 0, recs) && GoesOn(f) && Fits(f.p.layout)
    ensures AllCame(w, was, t, FlashCarrier(w, f.p, f.rtn), recs')
  {
    recs' := CarrierMade(w, was, t, f.p, f.rtn, recs);
  }

  /**
    fastboot_flash_process_v2, for every world.  In every run the flashes are the first of the
    plan as its copies were made (for each file its header and the slices the device declared for
    it, in order, and last of all the carrier file) and only the last of them can have failed.
    The run returns success exactly when there is a file and all of the plan went through.  If it
    returns early, a file could not be started and the carrier file of the files before it is
    left behind.  Otherwise no temporary file is.
   */
  lemma FlashAllMade(w: World, p: Proc) returns (recs: seq<Record>)
    requires Honest(w) && Fits(p.layout) && p.alive
    ensures AllCame(w, p.journal, TempsOf(p), FlashAll(w, p), recs)
    ensures var f := FlashAll(w, p); f.p.alive && !f.early ==> f.p.first.None? && f.p.image.None? && f.p.pri.None?
  {
    var f, g := FlashParts(w, p);
    recs := FilesBegun(w, p.journal, TempsOf(p), Begun(p), f, [], 0, |w.files| > 0);
    recs := AllMade(w, p.journal, TempsOf(p), f, g, recs);
    CleanedSame(w, p.journal, TempsOf(p), g, recs);
  }

  lemma FilesBegun(w: World, was: seq<Record>, t: Temps, b: Proc, f: Flow, none: seq<Record>, n: nat, some: bool)
    returns (recs: seq<Record>)
    requires Honest(w) && b.alive && Fits(b.layout) && b.declared == [] && b.layout.pri == [] && none == [] && n == 0
    requires b.journal == was && TempsOf(b) == t && f == FlashFiles(w, b, n, n) && some == (|w.files| > 0)
    ensures FilesCame(w, was, t, f, some, recs)
  {
    SomeFiles(w, n, some);
    BegunGoing(w, was, t, b, none, n);
    recs := FromStart(w, was, t, b, n, f, some, none);
  }

  lemma SomeFiles(w: World, n: nat, some: bool)
    requires n == 0 && some == (|w.files| > 0)
    ensures some <==> n < |w.files| || n > 0
  {
  }

  lemma FlashParts(w: World, p: Proc) returns (f: Flow, g: Flow)
    requires Fits(p.layout)
    ensures f == FlashFiles(w, Begun(p), 0, 0) && Fits(f.p.layout)
    ensures g == (if GoesOn(f) then FlashCarrier(w, f.p, f.rtn) else f) && Fits(g.p.layout) && FlashAll(w, p) == Cleaned(g)
  {
    f := FlashFiles(w, Begun(p), 0, 0);
    g := if GoesOn(f) then FlashCarrier(w, f.p, f.rtn) else f;
  }

  lemma CleanedSame(w: World, was: seq<Record>, t: Temps, f: Flow, recs: seq<Record>)
    requires Fits(f.p.layout) && AllCame(w, was, t, f, recs)
    ensures AllCame(w, was, t, Cleaned(f), recs)
    ensures var g := Cleaned(f); g.p.alive && !g.early ==> g.p.first.None? && g.p.image.None? && g.p.pri.None?
  {
  }
}
