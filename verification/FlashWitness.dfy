/**
  Runs of fastboot_flash_process_v2, with devices and disks written out, in which what the
  conditions of FlashPlan exclude does happen: a slice that goes to the partition of another
  one, and a carrier file that still holds what an earlier run left in it.
 */
module FlashWitness {
  import opened CText
  import opened FastbootProtocol
  import opened FastbootEngine
  import opened FastbootDriver
  import opened EngineWire
  import opened FlashLayout
  import opened FlashProcess
  import opened FlashPlan
  import opened GoodDevice

  /** A device that says `infos` while it flashes `image`. */
  function GoodSession(partition: string, image: string, infos: seq<string>): Session {
    Session(Script(partition, image, infos), PLENTY, (0, 0))
  }

  /** Few enough words, and none of them FAILED. */
  predicate Tolerable(infos: seq<string>) {
    AllInfos(infos) && |infos| <= 14 && forall i :: 0 <= i < |infos| ==> !Failed(InfoText(infos[i]))
  }

  /** Such a session leaves a record of success: there is one for every partition and every image. */
  lemma GoodRecord(partition: string, image: string, infos: seq<string>) returns (rec: Record)
    requires |partition| <= 58 && Tolerable(infos)
    ensures SessionRecord(GoodSession(partition, image, infos), Flash(partition, Some(image))) == Some(rec)
    ensures rec.req == Flash(partition, Some(image)) && rec.rtn == 1 && rec.session.junk == (0, 0)
    ensures rec.msgs == [OKAY_TEXT] + InfoTexts(infos) + [OKAY_TEXT]
  {
    SessionSucceeds(partition, image, infos);
    NoneFails(infos);
    var s, req := GoodSession(partition, image, infos), Flash(partition, Some(image));
    rec := RecordFrom(s, req, FastbootMain(Host(s.link, [], ""), s.mem, req));
  }

  lemma NoneFails(infos: seq<string>)
    requires Tolerable(infos)
    ensures !AnyFailed([OKAY_TEXT] + InfoTexts(infos) + [OKAY_TEXT])
  {
    OkayTextPasses();
  }

  lemma RecordFrom(s: Session, req: Request, e: Ending) returns (rec: Record)
    requires Usable(s) && e == FastbootMain(Host(s.link, [], ""), s.mem, req)
    requires e.Ended? && |e.h.msgs| <= FB_MAX_INFO_COUNT && !AnyFailed(e.h.msgs)
    ensures SessionRecord(s, req) == Some(rec) && rec == Record(req, 1, s, e.h.msgs, e.h.link.trace)
  {
    rec := Record(req, 1, s, e.h.msgs, e.h.link.trace);
  }

  // ----- What a header session declares -----

  lemma OkayIgnored(r: Reader)
    requires Fits(r.layout)
    ensures Absorb(r, OKAY_TEXT) == r
  {
    NotInside(OKAY_TEXT, "(bootloader)", 0);
  }

  /** The layout after two OKAYs with declarations in between. */
  lemma ReadBetween(l: Layout, rec: Record, texts: seq<string>, r': Reader)
    requires Fits(l) && rec.session.junk == (0, 0) && rec.msgs == [OKAY_TEXT] + texts + [OKAY_TEXT]
    requires PostProcess(Reader(l, 0, 0), texts, true) == (r', 1)
    ensures ReadInto(l, rec) == r'.layout
  {
    OkayTextPasses();
    OkayIgnored(Reader(l, 0, 0));
    assert rec.msgs[1..] == texts + [OKAY_TEXT];
    PostProcessAppend(Reader(l, 0, 0), texts, [OKAY_TEXT], r');
    OkayIgnored(r');
    assert [OKAY_TEXT][1..] == [];
    assert PostProcess(r', [OKAY_TEXT], true) == (r', 1);
  }

  lemma {:induction false} PostProcessAppend(r: Reader, a: seq<string>, b: seq<string>, r': Reader)
    requires Fits(r.layout) && PostProcess(r, a, true) == (r', 1)
    ensures PostProcess(r, a + b, true) == PostProcess(r', b, true)
    decreases |a|
  {
    if a == [] {
      assert a + b == b;
    } else {
      assert (a + b)[1..] == a[1..] + b;
      PostProcessAppend(Absorb(r, a[0]), a[1..], b, r');
    }
  }

  /** The INFO packet that declares a slice. */
  function Info(name: string, offset: string, size: string): string {
    "INFO" + (name + [':'] + ("0x" + offset + [':'] + ("0x" + size)))
  }

  lemma InfoDeclares(name: string, o: string, n: string)
    requires '\0' !in name && '\0' !in o && '\0' !in n
    ensures IsInfo(Info(name, o, n)) && InfoText(Info(name, o, n)) == Declaration(name, o, n)
    ensures |Info(name, o, n)| == |name| + |o| + |n| + 10
  {
    InfoHas(name + [':'] + ("0x" + o + [':'] + ("0x" + n)));
  }

  lemma InfoHas(body: string)
    requires '\0' !in body
    ensures IsInfo("INFO" + body) && Body("INFO" + body) == body
  {
    assert ("INFO" + body)[..4] == "INFO" && ("INFO" + body)[4..] == body;
    CStrPlain(body, "");
    Assoc(body, "", "");
  }

  /** One harmless word. */
  predicate Harmless(info: string, text: string) {
    IsInfo(info) && |info| <= STATUS_SIZE && InfoText(info) == text && !Failed(text)
  }

  lemma DeclaresHarmlessly(name: string, o: string, n: string)
    requires '\0' !in name && '\0' !in o && '\0' !in n && 'L' !in name && 'L' !in o && 'L' !in n && |name| + |o| + |n| <= 40
    ensures Harmless(Info(name, o, n), Declaration(name, o, n))
  {
    InfoDeclares(name, o, n);
    NotFailed(name, o, n);
  }

  lemma OneTolerable(info: string, text: string)
    requires Harmless(info, text)
    ensures Tolerable([info]) && InfoTexts([info]) == [text] + []
  {
  }

  lemma TwoTolerable(a: string, s: string, b: string, t: string)
    requires Harmless(a, s) && Harmless(b, t)
    ensures Tolerable([a, b]) && InfoTexts([a, b]) == [s] + ([t] + [])
  {
    assert [a, b][1..] == [b];
    OneTolerable(b, t);
  }

  // ----- Small runs -----

  /** `p1` is about to send the header of file 0, and `q` has done so. */
  ghost predicate HeaderDone(w: World, p: Proc, p1: Proc, q: Proc) {
    && w.files != [] && Fits(p.layout) && Fits(p1.layout) && Fits(q.layout) && q.alive
    && w.start(p.copyNo, w.files[0], p.first) == Started(1, p1.first)
    && p1 == p.(copyNo := p.copyNo + 1, first := p1.first, layout := Layout([], 0, 0, p.layout.pri))
    && Send(w, p1, Flash("sop-hdr", p1.first), true) == (q, 1)
  }

  /** All that is left of file 0 is to be done from `q`. */
  ghost predicate HeaderSent(w: World, p: Proc, q: Proc) {
    && w.files != [] && Fits(p.layout) && Fits(q.layout) && q.alive
    && FlashFile(w, p, 0) == FlashSlices(w, q, 0, |p.layout.pri|)
  }

  lemma FirstFile(w: World, p: Proc, p1: Proc, q: Proc)
    requires HeaderDone(w, p, p1, q)
    ensures HeaderSent(w, p, q)
  {
  }

  lemma ToldHeader(p: Proc, rec: Record, l: Layout)
    requires Fits(p.layout) && ReadInto(p.layout, rec) == l && rec.rtn == 1
    ensures Told(p, Some(rec), true) ==
            (p.(sessionNo := p.sessionNo + 1, journal := p.journal + [rec], layout := l,
                declared := p.declared + [Declared(rec.msgs, rec.session.junk)]), 1)
  {
  }

  /** A command that is answered by `rec`. */
  lemma Answers(w: World, p: Proc, req: Request, rec: Record)
    requires Fits(p.layout) && w.run(p.sessionNo, req) == Some(rec)
    ensures Send(w, p, req, false) ==
            (p.(sessionNo := p.sessionNo + 1, journal := p.journal + [rec], asked := p.asked + [req]), rec.rtn)
  {
  }

  /** Two declared images, both flashed. */
  lemma TwoImages(w: World, p: Proc, i: nat, rec1: Record, rec2: Record, x: Option<string>, y: Option<string>) returns (q: Proc)
    requires i < |w.files| && p.alive && Fits(p.layout) && |p.layout.images| == 2 && rec1.rtn == 1 && rec2.rtn == 1
    requires w.copy(p.copyNo, w.files[i], p.layout.images[0], false, p.image) == x
    requires w.copy(p.copyNo + 1, w.files[i], p.layout.images[1], false, x) == y
    requires w.run(p.sessionNo, Flash(p.layout.images[0].name, x)) == Some(rec1)
    requires w.run(p.sessionNo + 1, Flash(p.layout.images[1].name, y)) == Some(rec2)
    ensures FlashImages(w, p, i, 0) == (q, 1) && q.alive && q.layout == p.layout && q.journal == p.journal + [rec1] + [rec2]
    ensures q.declared == p.declared
  {
    var req1, req2 := Flash(p.layout.images[0].name, x), Flash(p.layout.images[1].name, y);
    var a := p.(copyNo := p.copyNo + 1, image := x);
    Answers(w, a, req1, rec1);
    var b := a.(sessionNo := p.sessionNo + 1, journal := p.journal + [rec1], asked := p.asked + [req1]);
    var c := b.(copyNo := p.copyNo + 2, image := y);
    Answers(w, c, req2, rec2);
    q := c.(sessionNo := p.sessionNo + 2, journal := p.journal + [rec1] + [rec2], asked := p.asked + [req1] + [req2]);
    assert FlashImages(w, q, i, 2) == (q, 1);
    assert FlashImages(w, b, i, 1) == (q, 1);
  }

  /** A run over one file that declares no carrier slice. */
  lemma OneFile(w: World, p: Proc, b: Proc, q: Proc, q': Proc)
    requires |w.files| == 1 && Fits(p.layout) && b == Begun(p) && b.layout.pri == [] && HeaderSent(w, b, q)
    requires FlashImages(w, q, 0, 0) == (q', 1) && q'.alive && q'.layout == q.layout && q.layout.pri == []
    ensures var f := FlashAll(w, p); GoesOn(f) && f.p.journal == q'.journal && f.p.layout == q'.layout
  {
    assert FlashSlices(w, q, 0, 0) == Flow(q', 1, false);
    assert FlashFiles(w, q', 1, 1) == Flow(q', 1, false);
    assert FlashFiles(w, b, 0, 0) == Flow(q', 1, false);
  }

  // ----- A slice on the wrong partition -----

  predicate Startable(file: string) {
    |file| >= HEADER_BUF_SIZE
  }

  lemma FirstBytes(file: string)
    requires Startable(file)
    ensures SliceOf(file, 0, 1) == [file[0]] && SliceOf(file, 1, 1) == [file[1]]
  {
  }

  /** The disk takes the header and the first slice; then the temporary file cannot be opened. */
  const FULL_DISK: seq<Disk> := [Disk(true, HEADER_BUF_SIZE), Disk(true, 1), Disk(false, 0)]

  lemma WrongCopies(w: World, sessions: seq<Session>, file: string, was: Option<string>)
    requires Startable(file) && Behaves(w, [Some(file)], sessions, FULL_DISK)
    ensures var f, a := Some(file), Some([file[0]]);
            && w.files == [f] && w.start(0, f, was) == Started(1, Some(file[..HEADER_BUF_SIZE]))
            && w.copy(1, f, Slice("mcf_c", 0, 1), false, None) == a && w.copy(2, f, Slice("mcf_c", 1, 1), false, a) == a
  {
    assert Number(0) && Number(1) && Number(2);
    FirstBytes(file);
    var slice := From(file, 0, 1);
    assert "" + slice[..1] == slice;
  }

  /** Two declared images of which only the first could be copied. */
  lemma BothTheSame(w: World, p: Proc, b: Proc, q: Proc, file: string, rec1: Record, rec2: Record)
    requires w.files == [Some(file)] && Startable(file) && Fits(p.layout) && b == Begun(p) && b.layout.pri == []
    requires HeaderSent(w, b, q)
    requires q.layout.images == [Slice("mcf_c", 0, 1), Slice("mcf_c", 1, 1)] && q.layout.pri == []
    requires q.sessionNo == 1 && q.copyNo == 1 && q.image == None
    requires var f, a := Some(file), Some([file[0]]);
             && w.copy(1, f, Slice("mcf_c", 0, 1), false, None) == a && w.copy(2, f, Slice("mcf_c", 1, 1), false, a) == a
             && w.run(1, Flash("mcf_c", a)) == Some(rec1) && w.run(2, Flash("mcf_c", a)) == Some(rec2)
    requires rec1.rtn == 1 && rec2.rtn == 1
    ensures var f := FlashAll(w, p); GoesOn(f) && f.p.layout == q.layout && f.p.journal == q.journal + [rec1] + [rec2]
  {
    var q' := TwoImages(w, q, 0, rec1, rec2, Some([file[0]]), Some([file[0]]));
    OneFile(w, p, b, q, q');
  }

  // ----- The sessions -----

  /** A number in hexadecimal, as the device may write it. */
  predicate Writes(d: string, v: nat) {
    Hex(d) && ScanHex(d) == v && 'L' !in d && '\0' !in d && |d| <= 8
  }

  lemma NumbersAreWritten()
    ensures Writes("0", 0) && Writes("1", 1) && Writes("1000", 0x1000)
  {
    assert "0"[1..] == "" && "1"[1..] == "";
    assert "1000"[1..] == "000" && "000"[1..] == "00" && "00"[1..] == "0";
    assert ScanHex("0", 256) == 4096;
    assert ScanHex("00", 16) == 4096;
    assert ScanHex("000", 1) == 4096;
  }

  lemma NotFailed(name: string, o: string, n: string)
    requires 'L' !in name && 'L' !in o && 'L' !in n
    ensures !Failed(Declaration(name, o, n))
  {
    NotInside(Declaration(name, o, n), "FAILED", 3);
  }

  /** One more OEM image is read. */
  lemma OneDeclared(r: Reader, o: string, n: string, msg: string, more: seq<string>) returns (r': Reader)
    requires Fits(r.layout) && r.layout.oem < MAX_DOWNLOAD_OEM_IMAGES && msg == Declaration("mcf_c", o, n)
    requires Hex(o) && Hex(n) && ScanHex(o) < 0x8000_0000 && ScanHex(n) < 0x8000_0000 && 'L' !in o && 'L' !in n
    ensures Fits(r'.layout) && PostProcess(r, [msg] + more, true) == PostProcess(r', more, true)
    ensures r'.layout == r.layout.(images := r.layout.images + [Slice("mcf_c", ScanHex(o), ScanHex(n))], oem := r.layout.oem + 1)
  {
    NotFailed("mcf_c", o, n);
    OemDeclared(r, o, n);
    r' := Absorb(r, msg);
    assert ([msg] + more)[1..] == more;
  }

  lemma BothDeclared(r: Reader, o: string, n: string, a: string, b: string) returns (r': Reader)
    requires Fits(r.layout) && r.layout.oem < 99 && a == Declaration("mcf_c", o, n) && b == Declaration("mcf_c", n, n)
    requires Writes(o, 0) && Writes(n, 1)
    ensures PostProcess(r, [a] + ([b] + []), true) == (r', 1)
    ensures r'.layout.images == r.layout.images + [Slice("mcf_c", 0, 1)] + [Slice("mcf_c", 1, 1)] && r'.layout.pri == r.layout.pri
  {
    var r1 := OneDeclared(r, o, n, a, [b] + []);
    r' := OneDeclared(r1, n, n, b, []);
  }

  function BothInfos(o: string, n: string): seq<string> {
    [Info("mcf_c", o, n), Info("mcf_c", n, n)]
  }

  lemma BothTolerable(o: string, n: string)
    requires Writes(o, 0) && Writes(n, 1)
    ensures Tolerable(BothInfos(o, n))
    ensures InfoTexts(BothInfos(o, n)) == [Declaration("mcf_c", o, n)] + ([Declaration("mcf_c", n, n)] + [])
  {
    DeclaresHarmlessly("mcf_c", o, n);
    DeclaresHarmlessly("mcf_c", n, n);
    TwoTolerable(Info("mcf_c", o, n), Declaration("mcf_c", o, n), Info("mcf_c", n, n), Declaration("mcf_c", n, n));
  }

  lemma GoodRun(w: World, files: seq<Option<string>>, sessions: seq<Session>, disks: seq<Disk>,
                k: nat, partition: string, image: string, infos: seq<string>) returns (rec: Record)
    requires Behaves(w, files, sessions, disks) && k < |sessions| && sessions[k] == GoodSession(partition, image, infos)
    requires |partition| <= 58 && Tolerable(infos)
    ensures w.run(k, Flash(partition, Some(image))) == Some(rec) && rec.req == Flash(partition, Some(image)) && rec.rtn == 1
    ensures rec.session.junk == (0, 0) && rec.msgs == [OKAY_TEXT] + InfoTexts(infos) + [OKAY_TEXT]
  {
    assert Number(k);
    rec := GoodRecord(partition, image, infos);
  }

  /** What a header session makes of the process. */
  lemma HeaderTold(w: World, b: Proc, p1: Proc, rec: Record) returns (q: Proc)
    requires w.files != [] && Fits(b.layout) && Fits(p1.layout) && b.alive && w.start(b.copyNo, w.files[0], b.first) == Started(1, p1.first)
    requires p1 == b.(copyNo := b.copyNo + 1, first := p1.first, layout := Layout([], 0, 0, b.layout.pri))
    requires w.run(b.sessionNo, Flash("sop-hdr", p1.first)) == Some(rec) && rec.rtn == 1
    ensures HeaderDone(w, b, p1, q)
    ensures q == p1.(sessionNo := b.sessionNo + 1, layout := ReadInto(p1.layout, rec), journal := b.journal + [rec],
                     declared := b.declared + [Declared(rec.msgs, rec.session.junk)], asked := b.asked + [Flash("sop-hdr", p1.first)])
  {
    var sent := p1.(asked := b.asked + [Flash("sop-hdr", p1.first)]);
    ToldHeader(sent, rec, ReadInto(p1.layout, rec));
    q := Told(sent, Some(rec), true).0;
  }

  lemma BothRead(l: Layout, rec: Record, o: string, n: string)
    requires Fits(l) && l.oem < 99 && Writes(o, 0) && Writes(n, 1)
    requires rec.session.junk == (0, 0) && rec.msgs == [OKAY_TEXT] + InfoTexts(BothInfos(o, n)) + [OKAY_TEXT]
    ensures ReadInto(l, rec).images == l.images + [Slice("mcf_c", 0, 1)] + [Slice("mcf_c", 1, 1)] && ReadInto(l, rec).pri == l.pri
  {
    BothTolerable(o, n);
    var r' := BothDeclared(Reader(l, 0, 0), o, n, Declaration("mcf_c", o, n), Declaration("mcf_c", n, n));
    ReadBetween(l, rec, InfoTexts(BothInfos(o, n)), r');
  }

  /** A device that declares the first two bytes of a file, and takes the first of them twice. */
  function WrongSessions(file: string, o: string, n: string): seq<Session>
    requires Startable(file)
  {
    [GoodSession("sop-hdr", file[..HEADER_BUF_SIZE], BothInfos(o, n)),
     GoodSession("mcf_c", [file[0]], []), GoodSession("mcf_c", [file[0]], [])]
  }

  lemma WrongRuns(w: World, file: string, o: string, n: string) returns (rec0: Record, rec1: Record, rec2: Record)
    requires Startable(file) && Writes(o, 0) && Writes(n, 1) && Behaves(w, [Some(file)], WrongSessions(file, o, n), FULL_DISK)
    ensures w.run(0, Flash("sop-hdr", Some(file[..HEADER_BUF_SIZE]))) == Some(rec0) && rec0.req == HeaderRequest(file)
    ensures rec0.rtn == 1 && rec0.session.junk == (0, 0) && rec0.msgs == [OKAY_TEXT] + InfoTexts(BothInfos(o, n)) + [OKAY_TEXT]
    ensures w.run(1, Flash("mcf_c", Some([file[0]]))) == Some(rec1) && rec1.req == Flash("mcf_c", Some([file[0]])) && rec1.rtn == 1
    ensures w.run(2, Flash("mcf_c", Some([file[0]]))) == Some(rec2) && rec2.req == Flash("mcf_c", Some([file[0]])) && rec2.rtn == 1
  {
    BothTolerable(o, n);
    var ss := WrongSessions(file, o, n);
    rec0 := GoodRun(w, [Some(file)], ss, FULL_DISK, 0, "sop-hdr", file[..HEADER_BUF_SIZE], BothInfos(o, n));
    rec1 := GoodRun(w, [Some(file)], ss, FULL_DISK, 1, "mcf_c", [file[0]], []);
    rec2 := GoodRun(w, [Some(file)], ss, FULL_DISK, 2, "mcf_c", [file[0]], []);
  }

  lemma HeaderOfBoth(w: World, b: Proc, file: string, rec: Record, o: string, n: string) returns (q: Proc)
    requires Startable(file) && w.files == [Some(file)] && Fits(b.layout) && b.alive && Writes(o, 0) && Writes(n, 1)
    requires w.start(b.copyNo, Some(file), b.first) == Started(1, Some(file[..HEADER_BUF_SIZE]))
    requires w.run(b.sessionNo, Flash("sop-hdr", Some(file[..HEADER_BUF_SIZE]))) == Some(rec) && rec.rtn == 1
    requires rec.session.junk == (0, 0) && rec.msgs == [OKAY_TEXT] + InfoTexts(BothInfos(o, n)) + [OKAY_TEXT]
    ensures HeaderSent(w, b, q)
    ensures q.layout.images == [Slice("mcf_c", 0, 1), Slice("mcf_c", 1, 1)] && q.layout.pri == b.layout.pri
    ensures q.sessionNo == b.sessionNo + 1 && q.copyNo == b.copyNo + 1 && q.image == b.image && q.journal == b.journal + [rec]
  {
    var p1 := b.(copyNo := b.copyNo + 1, first := Some(file[..HEADER_BUF_SIZE]), layout := Layout([], 0, 0, b.layout.pri));
    q := HeaderTold(w, b, p1, rec);
    FirstFile(w, b, p1, q);
    BothRead(p1.layout, rec, o, n);
  }

  /** A process before its first session and copy; its tables may hold anything. */
  predicate Rested(p: Proc, pri: Option<string>) {
    p.sessionNo == 0 && p.copyNo == 0 && p.image.None? && p.pri == pri && p.alive && p.journal == [] && Fits(p.layout)
  }

  /**
    The device declares the first two bytes of the file as two images, but the temporary file of
    the second cannot be opened: the run succeeds all the same, and the partition of the second
    image receives the first.
   */
  lemma WrongSlice(w: World, p: Proc, file: string, o: string, n: string)
    requires Startable(file) && Writes(o, 0) && Writes(n, 1) && Behaves(w, [Some(file)], WrongSessions(file, o, n), FULL_DISK)
    requires Rested(p, None)
    ensures var f := FlashAll(w, p);
            && GoesOn(f) && f.p.layout.images == [Slice("mcf_c", 0, 1), Slice("mcf_c", 1, 1)]
            && Reqs(f.p.journal) == [HeaderRequest(file), Flash("mcf_c", Some([file[0]])), Flash("mcf_c", Some([file[0]]))]
            && ImageRequest(Some(file), f.p.layout.images[1]) == Flash("mcf_c", Some([file[1]]))
  {
    var rec0, rec1, rec2 := WrongRuns(w, file, o, n);
    WrongCopies(w, WrongSessions(file, o, n), file, p.first);
    WrongFlashes(w, p, file, o, n, rec0, rec1, rec2);
    FirstBytes(file);
    ReqsOfThree(rec0, rec1, rec2);
  }

  lemma ReqsOfThree(a: Record, b: Record, c: Record)
    ensures Reqs([] + [a] + [b] + [c]) == [a.req, b.req, c.req]
  {
  }

  lemma WrongFlashes(w: World, p: Proc, file: string, o: string, n: string, rec0: Record, rec1: Record, rec2: Record)
    requires Startable(file) && Writes(o, 0) && Writes(n, 1) && w.files == [Some(file)] && Rested(p, None)
    requires var f, a := Some(file), Some([file[0]]);
             && w.start(0, f, p.first) == Started(1, Some(file[..HEADER_BUF_SIZE]))
             && w.copy(1, f, Slice("mcf_c", 0, 1), false, None) == a && w.copy(2, f, Slice("mcf_c", 1, 1), false, a) == a
             && w.run(1, Flash("mcf_c", a)) == Some(rec1) && w.run(2, Flash("mcf_c", a)) == Some(rec2)
             && rec1.req == Flash("mcf_c", a) && rec2.req == Flash("mcf_c", a)
    requires w.run(0, Flash("sop-hdr", Some(file[..HEADER_BUF_SIZE]))) == Some(rec0) && rec0.req == HeaderRequest(file)
    requires rec0.session.junk == (0, 0) && rec0.msgs == [OKAY_TEXT] + InfoTexts(BothInfos(o, n)) + [OKAY_TEXT]
    requires rec0.rtn == 1 && rec1.rtn == 1 && rec2.rtn == 1
    ensures var f := FlashAll(w, p);
            && GoesOn(f) && f.p.layout.images == [Slice("mcf_c", 0, 1), Slice("mcf_c", 1, 1)]
            && f.p.journal == [] + [rec0] + [rec1] + [rec2]
  {
    var b := Begun(p);
    var q := HeaderOfBoth(w, b, file, rec0, o, n);
    BothTheSame(w, p, b, q, file, rec1, rec2);
  }

  // ----- A slice that runs past the end of its file -----

  predicate PastEnd(file: string, a: nat, b: nat) {
    a <= |file| < a + b && a < 0x8000_0000 && b < 0x8000_0000
  }

  lemma OneRead(l: Layout, rec: Record, o: string, n: string, a: nat, b: nat)
    requires Fits(l) && l.oem < MAX_DOWNLOAD_OEM_IMAGES && Writes(o, a) && Writes(n, b) && a < 0x8000_0000 && b < 0x8000_0000
    requires rec.session.junk == (0, 0) && rec.msgs == [OKAY_TEXT] + InfoTexts([Info("mcf_c", o, n)]) + [OKAY_TEXT]
    ensures ReadInto(l, rec).images == l.images + [Slice("mcf_c", a, b)] && ReadInto(l, rec).pri == l.pri
  {
    DeclaresHarmlessly("mcf_c", o, n);
    OneTolerable(Info("mcf_c", o, n), Declaration("mcf_c", o, n));
    var r' := OneDeclared(Reader(l, 0, 0), o, n, Declaration("mcf_c", o, n), []);
    ReadBetween(l, rec, InfoTexts([Info("mcf_c", o, n)]), r');
  }

  /** A device that declares that slice, and takes what there is of it. */
  function CutSessions(file: string, o: string, n: string, a: nat): seq<Session>
    requires Startable(file) && a <= |file|
  {
    [GoodSession("sop-hdr", file[..HEADER_BUF_SIZE], [Info("mcf_c", o, n)]), GoodSession("mcf_c", file[a..], [])]
  }

  lemma CutRuns(w: World, file: string, o: string, n: string, a: nat, b: nat) returns (rec0: Record, rec1: Record)
    requires Startable(file) && Writes(o, a) && Writes(n, b) && PastEnd(file, a, b)
    requires Behaves(w, [Some(file)], CutSessions(file, o, n, a), [])
    ensures w.run(0, Flash("sop-hdr", Some(file[..HEADER_BUF_SIZE]))) == Some(rec0) && rec0.req == HeaderRequest(file)
    ensures rec0.rtn == 1 && rec0.session.junk == (0, 0)
    ensures rec0.msgs == [OKAY_TEXT] + InfoTexts([Info("mcf_c", o, n)]) + [OKAY_TEXT]
    ensures w.run(1, Flash("mcf_c", Some(file[a..]))) == Some(rec1) && rec1.req == Flash("mcf_c", Some(file[a..])) && rec1.rtn == 1
  {
    DeclaresHarmlessly("mcf_c", o, n);
    OneTolerable(Info("mcf_c", o, n), Declaration("mcf_c", o, n));
    var ss := CutSessions(file, o, n, a);
    rec0 := GoodRun(w, [Some(file)], ss, [], 0, "sop-hdr", file[..HEADER_BUF_SIZE], [Info("mcf_c", o, n)]);
    rec1 := GoodRun(w, [Some(file)], ss, [], 1, "mcf_c", file[a..], []);
  }

  lemma CutCopy(file: string, a: nat, b: nat)
    requires PastEnd(file, a, b)
    ensures WriteTemp(Some(file), a, b, false, None, Disk(true, b)) == (Some(file[a..]), -5)
  {
    var m := Available(file, a, b);
    var part := From(file, a, m);
    assert m == |file| - a && part == file[a..];
    assert part[..m] == part && "" + part == part;
  }

  lemma CutWorld(w: World, sessions: seq<Session>, file: string, a: nat, b: nat, was: Option<string>)
    requires Startable(file) && PastEnd(file, a, b) && Behaves(w, [Some(file)], sessions, [])
    ensures w.files == [Some(file)] && w.start(0, Some(file), was) == Started(1, Some(file[..HEADER_BUF_SIZE]))
    ensures w.copy(1, Some(file), Slice("mcf_c", a, b), false, None) == Some(file[a..])
  {
    assert Number(0) && Number(1);
    CutCopy(file, a, b);
  }

  lemma HeaderOfOne(w: World, b: Proc, file: string, rec: Record, o: string, n: string, x: nat, y: nat) returns (q: Proc)
    requires Startable(file) && w.files == [Some(file)] && Fits(b.layout) && b.alive && Writes(o, x) && Writes(n, y)
    requires x < 0x8000_0000 && y < 0x8000_0000
    requires w.start(b.copyNo, Some(file), b.first) == Started(1, Some(file[..HEADER_BUF_SIZE]))
    requires w.run(b.sessionNo, Flash("sop-hdr", Some(file[..HEADER_BUF_SIZE]))) == Some(rec) && rec.rtn == 1
    requires rec.session.junk == (0, 0) && rec.msgs == [OKAY_TEXT] + InfoTexts([Info("mcf_c", o, n)]) + [OKAY_TEXT]
    ensures HeaderSent(w, b, q) && q.layout.images == [Slice("mcf_c", x, y)] && q.layout.pri == b.layout.pri
    ensures q.sessionNo == b.sessionNo + 1 && q.copyNo == b.copyNo + 1 && q.image == b.image && q.journal == b.journal + [rec]
  {
    var p1 := b.(copyNo := b.copyNo + 1, first := Some(file[..HEADER_BUF_SIZE]), layout := Layout([], 0, 0, b.layout.pri));
    q := HeaderTold(w, b, p1, rec);
    FirstFile(w, b, p1, q);
    OneRead(p1.layout, rec, o, n, x, y);
  }

  /** One declared image, flashed. */
  lemma OneImage(w: World, p: Proc, i: nat, rec: Record, x: Option<string>) returns (q: Proc)
    requires i < |w.files| && p.alive && Fits(p.layout) && |p.layout.images| == 1 && rec.rtn == 1
    requires w.copy(p.copyNo, w.files[i], p.layout.images[0], false, p.image) == x
    requires w.run(p.sessionNo, Flash(p.layout.images[0].name, x)) == Some(rec)
    ensures FlashImages(w, p, i, 0) == (q, 1) && q.alive && q.layout == p.layout && q.journal == p.journal + [rec]
  {
    var req := Flash(p.layout.images[0].name, x);
    var a := p.(copyNo := p.copyNo + 1, image := x);
    Answers(w, a, req, rec);
    q := a.(sessionNo := p.sessionNo + 1, journal := p.journal + [rec], asked := p.asked + [req]);
    assert FlashImages(w, q, i, 1) == (q, 1);
  }

  lemma ReqsOfTwo(a: Record, b: Record)
    ensures Reqs([] + [a] + [b]) == [a.req, b.req]
  {
  }

  /**
    The device declares `b` bytes from `a` on, which is more than the file has: the copy fails,
    the run succeeds all the same, and the partition receives the end of the file instead.
   */
  lemma CutSlice(w: World, p: Proc, file: string, o: string, n: string, a: nat, b: nat)
    requires Startable(file) && Writes(o, a) && Writes(n, b) && PastEnd(file, a, b)
    requires Behaves(w, [Some(file)], CutSessions(file, o, n, a), []) && Rested(p, None)
    ensures var f := FlashAll(w, p);
            && GoesOn(f) && f.p.layout.images == [Slice("mcf_c", a, b)]
            && Reqs(f.p.journal) == [HeaderRequest(file), Flash("mcf_c", Some(file[a..]))]
    ensures |file[a..]| < b && WriteTemp(Some(file), a, b, false, None, Disk(true, b)).1 == -5
  {
    var rec0, rec1 := CutRuns(w, file, o, n, a, b);
    CutWorld(w, CutSessions(file, o, n, a), file, a, b, p.first);
    CutCopy(file, a, b);
    var c := Begun(p);
    var q := HeaderOfOne(w, c, file, rec0, o, n, a, b);
    var q' := OneImage(w, q, 0, rec1, Some(file[a..]));
    OneFile(w, p, c, q, q');
    ReqsOfTwo(rec0, rec1);
  }

  // ----- A carrier file left behind -----

  lemma OneCarrier(r: Reader, o: string, n: string, a: string) returns (r': Reader)
    requires Fits(r.layout) && |r.layout.pri| < MAX_DOWNLOAD_PRI_IMAGES && a == Declaration("capri_c", o, n)
    requires Writes(o, 0) && Writes(n, 1)
    ensures PostProcess(r, [a] + [], true) == (r', 1)
    ensures r'.layout.images == r.layout.images && r'.layout.pri == r.layout.pri + [Slice("capri_c", 0, 1)]
  {
    NotFailed("capri_c", o, n);
    CarrierDeclared(r, o, n);
    r' := Absorb(r, a);
    assert ([a] + [])[1..] == [];
  }

  function CarrierInfos(o: string, n: string): seq<string> {
    [Info("capri_c", o, n)]
  }

  lemma CarrierTolerable(o: string, n: string)
    requires Writes(o, 0) && Writes(n, 1)
    ensures Tolerable(CarrierInfos(o, n)) && InfoTexts(CarrierInfos(o, n)) == [Declaration("capri_c", o, n)] + []
  {
    DeclaresHarmlessly("capri_c", o, n);
    OneTolerable(Info("capri_c", o, n), Declaration("capri_c", o, n));
  }

  lemma CarrierRead(l: Layout, rec: Record, o: string, n: string)
    requires Fits(l) && |l.pri| < MAX_DOWNLOAD_PRI_IMAGES && Writes(o, 0) && Writes(n, 1)
    requires rec.session.junk == (0, 0) && rec.msgs == [OKAY_TEXT] + InfoTexts(CarrierInfos(o, n)) + [OKAY_TEXT]
    ensures ReadInto(l, rec).images == l.images && ReadInto(l, rec).pri == l.pri + [Slice("capri_c", 0, 1)]
  {
    CarrierTolerable(o, n);
    var r' := OneCarrier(Reader(l, 0, 0), o, n, Declaration("capri_c", o, n));
    ReadBetween(l, rec, InfoTexts(CarrierInfos(o, n)), r');
  }

  /** The first file of a run declares its first byte as a carrier slice; the process goes on as `q`. */
  lemma HeaderOfCarrier(w: World, b: Proc, file: string, rec: Record, o: string, n: string) returns (q: Proc)
    requires Startable(file) && w.files != [] && w.files[0] == Some(file) && Writes(o, 0) && Writes(n, 1)
    requires Fits(b.layout) && b.alive && |b.layout.pri| < MAX_DOWNLOAD_PRI_IMAGES
    requires w.start(b.copyNo, Some(file), b.first) == Started(1, Some(file[..HEADER_BUF_SIZE]))
    requires w.run(b.sessionNo, Flash("sop-hdr", Some(file[..HEADER_BUF_SIZE]))) == Some(rec) && rec.rtn == 1
    requires rec.session.junk == (0, 0) && rec.msgs == [OKAY_TEXT] + InfoTexts(CarrierInfos(o, n)) + [OKAY_TEXT]
    ensures HeaderSent(w, b, q)
    ensures q.layout.images == [] && q.layout.pri == b.layout.pri + [Slice("capri_c", 0, 1)]
    ensures q.sessionNo == b.sessionNo + 1 && q.copyNo == b.copyNo + 1 && q.pri == b.pri && q.journal == b.journal + [rec]
  {
    var p1 := b.(copyNo := b.copyNo + 1, first := Some(file[..HEADER_BUF_SIZE]), layout := Layout([], 0, 0, b.layout.pri));
    q := HeaderTold(w, b, p1, rec);
    FirstFile(w, b, p1, q);
    CarrierRead(p1.layout, rec, o, n);
  }

  /** A file with no image and one carrier slice. */
  lemma OneGathered(w: World, q: Proc, prev: nat) returns (q': Proc)
    requires w.files != [] && Fits(q.layout) && q.alive && q.layout.images == [] && |q.layout.pri| == prev + 1
    ensures q' == q.(copyNo := q.copyNo + 1, pri := w.copy(q.copyNo, w.files[0], q.layout.pri[prev], true, q.pri))
    ensures FlashSlices(w, q, 0, prev) == Flow(q', 1, false)
  {
    q' := q.(copyNo := q.copyNo + 1, pri := w.copy(q.copyNo, w.files[0], q.layout.pri[prev], true, q.pri));
    assert Gather(w, q', 0, prev + 1) == q';
  }

  function CarrierSessions(file: string, o: string, n: string): seq<Session>
    requires Startable(file)
  {
    [GoodSession("sop-hdr", file[..HEADER_BUF_SIZE], CarrierInfos(o, n)), GoodSession("capri_c", [file[0], file[0]], [])]
  }

  lemma CarrierRuns(w: World, files: seq<Option<string>>, file: string, o: string, n: string) returns (rec0: Record, rec1: Record)
    requires Startable(file) && Writes(o, 0) && Writes(n, 1) && Behaves(w, files, CarrierSessions(file, o, n), [])
    ensures w.run(0, Flash("sop-hdr", Some(file[..HEADER_BUF_SIZE]))) == Some(rec0) && rec0.req == HeaderRequest(file)
    ensures rec0.rtn == 1 && rec0.session.junk == (0, 0) && rec0.msgs == [OKAY_TEXT] + InfoTexts(CarrierInfos(o, n)) + [OKAY_TEXT]
    ensures w.run(1, Flash("capri_c", Some([file[0], file[0]]))) == Some(rec1) && rec1.rtn == 1
    ensures rec1.req == Flash("capri_c", Some([file[0], file[0]]))
  {
    CarrierTolerable(o, n);
    var ss := CarrierSessions(file, o, n);
    rec0 := GoodRun(w, files, ss, [], 0, "sop-hdr", file[..HEADER_BUF_SIZE], CarrierInfos(o, n));
    rec1 := GoodRun(w, files, ss, [], 1, "capri_c", [file[0], file[0]], []);
  }

  lemma CarrierCopies(w: World, files: seq<Option<string>>, sessions: seq<Session>, file: string, was: Option<string>)
    requires Startable(file) && Behaves(w, files, sessions, [])
    ensures w.files == files && w.start(0, Some(file), was) == Started(1, Some(file[..HEADER_BUF_SIZE]))
    ensures w.start(2, None, was).rc <= 0 && forall first :: w.start(2, None, first) == Started(-1, first)
    ensures w.copy(1, Some(file), Slice("capri_c", 0, 1), true, None) == Some([file[0]])
    ensures w.copy(1, Some(file), Slice("capri_c", 0, 1), true, Some([file[0]])) == Some([file[0], file[0]])
  {
    assert Number(0) && Number(1) && Number(2);
    FirstBytes(file);
    var slice := From(file, 0, 1);
    assert "" + slice[..1] == slice && [file[0]] + slice[..1] == [file[0], file[0]];
  }

  /** Two runs over a file whose first byte is a carrier slice; the second one finds what the first one left. */
  lemma LeftBehind(w: World, p: Proc, file: string, o: string, n: string)
    requires Startable(file) && Writes(o, 0) && Writes(n, 1) && Behaves(w, [Some(file), None], CarrierSessions(file, o, n), [])
    requires Rested(p, None)
    ensures var f := FlashAll(w, p); f.early && f.p.alive && f.p.pri == Some([file[0]])
  {
    var rec0, rec1 := CarrierRuns(w, [Some(file), None], file, o, n);
    CarrierCopies(w, [Some(file), None], CarrierSessions(file, o, n), file, p.first);
    var b := Begun(p);
    var q := HeaderOfCarrier(w, b, file, rec0, o, n);
    var q' := OneGathered(w, q, |b.layout.pri|);
    StopsAtSecond(w, p, b, q');
  }

  lemma StopsAtSecond(w: World, p: Proc, b: Proc, q: Proc)
    requires |w.files| == 2 && Fits(p.layout) && Fits(b.layout) && b == Begun(p) && Fits(q.layout) && q.alive
    requires FlashFile(w, b, 0) == Flow(q, 1, false) && w.start(q.copyNo, w.files[1], q.first).rc <= 0
    ensures var f := FlashAll(w, p); f.early && f.p.alive && f.p.pri == q.pri
  {
    assert FlashFiles(w, q, 1, 1) == FlashFile(w, q, 1);
    assert FlashFiles(w, b, 0, 0) == FlashFile(w, q, 1);
  }

  lemma CarrierOfOne(w: World, p: Proc, b: Proc, q: Proc, rec: Record)
    requires |w.files| == 1 && Fits(p.layout) && Fits(b.layout) && b == Begun(p) && Fits(q.layout) && q.alive && q.layout.pri != []
    requires FlashFile(w, b, 0) == Flow(q, 1, false)
    requires w.run(q.sessionNo, Flash("capri_c", q.pri)) == Some(rec) && rec.rtn == 1
    ensures var f := FlashAll(w, p); GoesOn(f) && f.p.journal == q.journal + [rec] && f.p.layout == q.layout
  {
    Answers(w, q, Flash("capri_c", q.pri), rec);
    assert FlashFiles(w, q, 1, 1) == Flow(q, 1, false);
    assert FlashFiles(w, b, 0, 0) == Flow(q, 1, false);
  }

  /** The run that comes after: capri_c receives the slice twice. */
  lemma FlashedTwice(w: World, p: Proc, file: string, o: string, n: string)
    requires Startable(file) && Writes(o, 0) && Writes(n, 1) && Behaves(w, [Some(file)], CarrierSessions(file, o, n), [])
    requires Rested(p, Some([file[0]]))
    ensures var f := FlashAll(w, p);
            && GoesOn(f) && f.p.layout.pri == [Slice("capri_c", 0, 1)]
            && Reqs(f.p.journal) == [HeaderRequest(file), Flash("capri_c", Some([file[0], file[0]]))]
  {
    var rec0, rec1 := CarrierRuns(w, [Some(file)], file, o, n);
    CarrierCopies(w, [Some(file)], CarrierSessions(file, o, n), file, p.first);
    var b := Begun(p);
    var q := HeaderOfCarrier(w, b, file, rec0, o, n);
    var q' := OneGathered(w, q, |b.layout.pri|);
    CarrierOfOne(w, p, b, q', rec1);
    ReqsOfTwo(rec0, rec1);
  }

  // ----- These runs, on devices and disks written out -----

  /** A process that has done nothing yet, with `pri` in the carrier file. */
  function Idle(pri: Option<string>): Proc {
    Proc(0, 0, None, None, pri, Layout([], 0, 0, []), true, [], [], [])
  }

  lemma WrongSliceHappens(file: string)
    requires Startable(file)
    ensures var f := FlashAll(RealWorld([Some(file)], WrongSessions(file, "0", "1"), FULL_DISK), Idle(None));
            && GoesOn(f) && f.p.layout.images == [Slice("mcf_c", 0, 1), Slice("mcf_c", 1, 1)]
            && Reqs(f.p.journal) == [HeaderRequest(file), Flash("mcf_c", Some([file[0]])), Flash("mcf_c", Some([file[0]]))]
  {
    NumbersAreWritten();
    RealBehaves([Some(file)], WrongSessions(file, "0", "1"), FULL_DISK);
    WrongSlice(RealWorld([Some(file)], WrongSessions(file, "0", "1"), FULL_DISK), Idle(None), file, "0", "1");
  }

  /** A file of less than 4 KiB, of which the device declares 4 KiB. */
  lemma CutSliceHappens(file: string)
    requires Startable(file) && |file| < 0x1000
    ensures var f := FlashAll(RealWorld([Some(file)], CutSessions(file, "0", "1000", 0), []), Idle(None));
            && GoesOn(f) && f.p.layout.images == [Slice("mcf_c", 0, 0x1000)]
            && Reqs(f.p.journal) == [HeaderRequest(file), Flash("mcf_c", Some(file))]
  {
    NumbersAreWritten();
    RealBehaves([Some(file)], CutSessions(file, "0", "1000", 0), []);
    CutSlice(RealWorld([Some(file)], CutSessions(file, "0", "1000", 0), []), Idle(None), file, "0", "1000", 0, 0x1000);
    assert file[0..] == file;
  }

  /** A run over this file and one that is missing, and then a run over the file alone. */
  lemma FlashedTwiceHappens(file: string)
    requires Startable(file)
    ensures var sessions := CarrierSessions(file, "0", "1");
            var f := FlashAll(RealWorld([Some(file), None], sessions, []), Idle(None));
            var g := FlashAll(RealWorld([Some(file)], sessions, []), Idle(f.p.pri));
            && f.early && f.p.alive && f.p.pri == Some([file[0]])
            && GoesOn(g) && g.p.layout.pri == [Slice("capri_c", 0, 1)]
            && Reqs(g.p.journal) == [HeaderRequest(file), Flash("capri_c", Some([file[0], file[0]]))]
  {
    var sessions := CarrierSessions(file, "0", "1");
    NumbersAreWritten();
    RealBehaves([Some(file), None], sessions, []);
    RealBehaves([Some(file)], sessions, []);
    LeftBehind(RealWorld([Some(file), None], sessions, []), Idle(None), file, "0", "1");
    FlashedTwice(RealWorld([Some(file)], sessions, []), Idle(Some([file[0]])), file, "0", "1");
  }
}
