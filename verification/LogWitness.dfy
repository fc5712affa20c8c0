/**
  A header session that fills the log to its last entry: fifteen declarations, and the report that
  the download was refused.
 */
module LogWitness {
  import opened CText
  import opened UsbTransport
  import opened FastbootProtocol
  import opened FastbootEngine
  import opened FastbootDriver
  import opened EngineWire
  import opened FlashLayout
  import opened FlashProcess
  import opened GoodDevice
  import opened FlashWitness

  /** The same declaration, `k` times. */
  function Repeated(info: string, k: nat): (infos: seq<string>)
    ensures |infos| == k && forall i :: 0 <= i < k ==> infos[i] == info
  {
    if k == 0 then [] else [info] + Repeated(info, k - 1)
  }

  lemma {:induction false} ManyDeclared(r: Reader, o: string, n: string, x: nat, y: nat, k: nat, more: seq<string>)
    returns (r': Reader)
    requires Fits(r.layout) && r.layout.oem + k <= MAX_DOWNLOAD_OEM_IMAGES
    requires Writes(o, x) && Writes(n, y) && x < 0x8000_0000 && y < 0x8000_0000
    ensures Fits(r'.layout) && |r'.layout.images| == |r.layout.images| + k && r'.layout.pri == r.layout.pri
    ensures PostProcess(r, InfoTexts(Repeated(Info("mcf_c", o, n), k)) + more, true) == PostProcess(r', more, true)
    decreases k
  {
    var infos := Repeated(Info("mcf_c", o, n), k);
    if k == 0 {
      assert InfoTexts(infos) + more == more;
      r' := r;
    } else {
      InfoDeclares("mcf_c", o, n);
      var rest := InfoTexts(infos[1..]) + more;
      assert InfoTexts(infos) + more == [Declaration("mcf_c", o, n)] + rest;
      var r1 := OneDeclared(r, o, n, Declaration("mcf_c", o, n), rest);
      assert infos[1..] == Repeated(Info("mcf_c", o, n), k - 1);
      r' := ManyDeclared(r1, o, n, x, y, k - 1, more);
    }
  }

  // ----- The session -----

  /** A device with no slots that says `infos` to the download request and refuses it. */
  function RefusingSession(infos: seq<string>): Session {
    Session(Link(1, 1, 3, [|SlotQuery("sop-hdr")|] + [17], 0, Says([], "FAIL", Says(infos, "FAIL", [])), 0, []), PLENTY, (0, 0))
  }

  lemma Refused(size: nat)
    ensures IsStatus("FAIL") && Judge(Some("FAIL"), size).rc == -1 && !Judge(Some("FAIL"), size).close
  {
    assert "FAIL"[..4] == "FAIL";
  }

  lemma DownloadRefused(h: Host, src: Source, infos: seq<string>) returns (m: Host, text: string)
    requires src.page > 0 && AllInfos(infos) && Left(h.link, [17] + [], Says(infos, "FAIL", []))
    ensures Execute(h, FlashActions("sop-hdr", src)) == (m, -1)
    ensures m.msgs == h.msgs + InfoTexts(infos) + [text] && Failed(text)
  {
    var size := Truncated(src.file);
    var cmd := DownloadCommand(size);
    Refused(size);
    Obeyed(h.(err := cmd), cmd, size, infos, "FAIL", [], []);
    var o := DownloadFd(h, src, size);
    text := FailedText(o.h.err);
    FailedTextFails(o.h.err);
    m := RunAction(h, FlashActions("sop-hdr", src)[0]).0;
  }

  lemma MainFails(h: Host, m: Host, n: Host, image: string)
    requires Resolve(h, "sop-hdr") == (m, Some("sop-hdr"))
    requires Execute(m, FlashActions("sop-hdr", Source(image, PLENTY.page, PLENTY.maps))) == (n, -1)
    ensures FastbootMain(h, PLENTY, Flash("sop-hdr", Some(image))) == Ended(n.(link := Close(n.link)), -1)
  {
  }

  lemma SessionRefused(infos: seq<string>, image: string) returns (e: Ending, text: string)
    requires AllInfos(infos)
    ensures var s := RefusingSession(infos);
            && FastbootMain(Host(s.link, [], ""), s.mem, Flash("sop-hdr", Some(image))) == e && e.Ended?
            && e.h.msgs == InfoTexts(infos) + [text] && Failed(text)
  {
    var h := Host(RefusingSession(infos).link, [], "");
    assert h.link.acks[0..] == h.link.acks && h.link.replies[0..] == h.link.replies;
    Assoc([17], [], []);
    NoSlots(h, "sop-hdr", [17], Says(infos, "FAIL", []));
    var m := Resolve(h, "sop-hdr").0;
    var n;
    n, text := DownloadRefused(m, Source(image, PLENTY.page, PLENTY.maps), infos);
    MainFails(h, m, n, image);
    e := Ended(n.(link := Close(n.link)), -1);
    assert [] + InfoTexts(infos) == InfoTexts(infos);
  }

  lemma RecordFailed(s: Session, req: Request, e: Ending) returns (rec: Record)
    requires Usable(s) && e == FastbootMain(Host(s.link, [], ""), s.mem, req)
    requires e.Ended? && |e.h.msgs| <= FB_MAX_INFO_COUNT && AnyFailed(e.h.msgs)
    ensures SessionRecord(s, req) == Some(rec) && rec == Record(req, -1, s, e.h.msgs, e.h.link.trace)
  {
    rec := Record(req, -1, s, e.h.msgs, e.h.link.trace);
  }

  lemma RefusedRecord(infos: seq<string>, image: string) returns (rec: Record, text: string)
    requires AllInfos(infos) && |infos| <= 15
    ensures SessionRecord(RefusingSession(infos), Flash("sop-hdr", Some(image))) == Some(rec)
    ensures rec.rtn == -1 && rec.session.junk == (0, 0) && rec.msgs == InfoTexts(infos) + [text] && Failed(text)
  {
    var e;
    e, text := SessionRefused(infos, image);
    assert [text][0] == text;
    AnyFailedSuffix(InfoTexts(infos), [text]);
    rec := RecordFailed(RefusingSession(infos), Flash("sop-hdr", Some(image)), e);
  }

  /** A header session that fails can declare fifteen slices, one more than any that succeeds. */
  lemma FifteenSlices(image: string, o: string, n: string, x: nat, y: nat, l: Layout) returns (rec: Record)
    requires Writes(o, x) && Writes(n, y) && x < 0x8000_0000 && y < 0x8000_0000
    requires Fits(l) && l.oem + 15 <= MAX_DOWNLOAD_OEM_IMAGES
    ensures SessionRecord(RefusingSession(Repeated(Info("mcf_c", o, n), 15)), Flash("sop-hdr", Some(image))) == Some(rec)
    ensures rec.rtn == -1 && |ReadInto(l, rec).images| == |l.images| + 15
  {
    InfoDeclares("mcf_c", o, n);
    var text;
    rec, text := RefusedRecord(Repeated(Info("mcf_c", o, n), 15), image);
    var r' := ManyDeclared(Reader(l, 0, 0), o, n, x, y, 15, [text]);
    assert PostProcess(r', [text], true).0 == r';
  }

  lemma FifteenSlicesHappen(image: string) returns (rec: Record)
    ensures SessionRecord(RefusingSession(Repeated(Info("mcf_c", "0", "1"), 15)), Flash("sop-hdr", Some(image))) == Some(rec)
    ensures |ReadInto(Layout([], 0, 0, []), rec).images| == 15
  {
    NumbersAreWritten();
    rec := FifteenSlices(image, "0", "1", 0, 1, Layout([], 0, 0, []));
  }
}
