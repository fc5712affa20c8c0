/**
  Fastboot framing (pwl-fwupdate/fastboot/protocol.cpp): commands, status packets and
  the data phase, over a USB transport.  The functions give the meaning of each routine
  on values; `FastbootDriver` holds the routines themselves.
 */
module FastbootProtocol {
  import opened CText
  import opened UsbTransport

  const MAX_COMMAND: nat := 64
  const STATUS_SIZE: nat := 64
  const MAX_MAP_SIZE: nat := 512 * 1024 * 1024

  /** The transport together with the messages pushed in this session and the error text. */
  datatype Host = Host(link: Link, msgs: seq<string>, err: string)

  /** A routine's effect: the new state, its return code, and the text of an OKAY. */
  datatype Outcome = Outcome(h: Host, rc: int, resp: string)

  // ----- check_response -----

  predicate IsInfo(s: string) { |s| >= 4 && s[..4] == "INFO" }
  predicate IsOkay(s: string) { |s| >= 4 && s[..4] == "OKAY" }
  predicate IsFail(s: string) { |s| >= 4 && s[..4] == "FAIL" }
  predicate IsData(s: string) { |s| >= 4 && s[..4] == "DATA" }

  /** What follows the four status letters. */
  function Body(s: string): string {
    if |s| < 4 then "" else CStr(s[4..])
  }

  function InfoText(s: string): string {
    "(bootloader) " + Body(s) + "\n"
  }

  function InfoTexts(infos: seq<string>): (texts: seq<string>)
    ensures |texts| == |infos|
    ensures forall i :: 0 <= i < |infos| ==> texts[i] == InfoText(infos[i])
  {
    if infos == [] then [] else [InfoText(infos[0])] + InfoTexts(infos[1..])
  }

  lemma {:induction false} InfoTextsAppend(a: seq<string>, b: seq<string>)
    ensures InfoTexts(a + b) == InfoTexts(a) + InfoTexts(b)
  {
    if a == [] {
      assert a + b == b;
    } else {
      assert (a + b)[1..] == a[1..] + b;
      InfoTextsAppend(a[1..], b);
    }
  }

  /** The INFO packets that come first, and the packet (or read error) that ends them. */
  datatype Heard = Heard(link: Link, infos: seq<string>, status: Option<string>)

  function Listen(l: Link): (d: Heard)
    ensures forall i :: 0 <= i < |d.infos| ==> IsInfo(d.infos[i])
    ensures d.status.Some? ==> !IsInfo(d.status.value) && |d.status.value| <= STATUS_SIZE
    ensures d.link == l.(ins := d.link.ins, trace := d.link.trace)
    decreases |l.replies| - l.ins
  {
    var (m, p) := Read(l, STATUS_SIZE);
    if p.Some? && IsInfo(p.value) then
      var rest := Listen(m);
      Heard(rest.link, [p.value] + rest.infos, rest.status)
    else Heard(m, [], p)
  }

  datatype Verdict = Verdict(rc: int, resp: string, err: Option<string>, close: bool)

  function DataSize(s: string): (n: nat)
    ensures n < TWO_32
  {
    StrToL16(Body(s)) % TWO_32
  }

  /** What a status packet that is not an INFO decides. */
  function Judge(status: Option<string>, size: nat): (v: Verdict)
    requires status.Some? ==> !IsInfo(status.value)
    ensures v.rc < 0 ==> v.rc == -1 && v.err.Some?
    ensures v.close ==> v.rc == -1
    ensures 0 <= v.rc <= size || v.rc == -1
  {
    match status
    case None => Verdict(-1, "", Some("status read failed"), true)
    case Some(s) =>
      if |s| < 4 then Verdict(-1, "", Some("status malformed"), true)
      else if IsOkay(s) then Verdict(0, Body(s), None, false)
      else if IsFail(s) then
        Verdict(-1, "", Some(if |s| > 4 then "remote: " + Body(s) else "remote failure"), false)
      else if IsData(s) && size > 0 then
        if DataSize(s) > size then Verdict(-1, "", Some("data size too large"), true)
        else Verdict(DataSize(s), "", None, false)
      else Verdict(-1, "", Some("unknown status code"), true)
  }

  function LastOr(texts: seq<string>, default: string): string {
    if texts == [] then default else texts[|texts| - 1]
  }

  function CheckResponse(h: Host, size: nat): (o: Outcome)
    ensures 0 <= o.rc <= size || o.rc == -1
  {
    var d := Listen(h.link);
    var v := Judge(d.status, size);
    var texts := InfoTexts(d.infos);
    Outcome(Host(if v.close then Close(d.link) else d.link,
                 h.msgs + texts,
                 if v.err.Some? then v.err.value else LastOr(texts, h.err)),
            v.rc, v.resp)
  }

  // ----- Commands and data -----

  function CommandStart(h: Host, cmd: string, size: nat): (o: Outcome)
    ensures 0 <= o.rc <= size || o.rc == -1
  {
    if |cmd| > MAX_COMMAND then Outcome(h.(err := "command too large"), -1, "")
    else
      var (l, n) := Write(h.link, cmd);
      if n != |cmd| then Outcome(h.(link := Close(l), err := "command write failed"), -1, "")
      else CheckResponse(h.(link := l), size)
  }

  function CommandWriteData(h: Host, data: string): (o: Outcome)
    ensures o.rc == -1 || o.rc == |data|
  {
    var (l, n) := Write(h.link, data);
    if n < 0 then Outcome(h.(link := Close(l), err := "data write failure"), -1, "")
    else if n != |data| then Outcome(h.(link := Close(l), err := "data write failure (short transfer)"), -1, "")
    else Outcome(h.(link := l), n, "")
  }

  function CommandEnd(h: Host): (o: Outcome)
    ensures o.rc == 0 || o.rc == -1
  {
    CheckResponse(h, 0)
  }

  /** Where mmap is asked to start, for how long, and how far into that the data begins. */
  datatype Mapping = Mapping(base: nat, length: nat, adjust: nat)

  function CreateFileMap(offset: nat, length: nat, page: nat): (m: Mapping)
    requires page > 0
    ensures m.base + m.adjust == offset && m.length == length + m.adjust
  {
    Mapping(offset - offset % page, length + offset % page, offset % page)
  }

  function Mapped(file: string, m: Mapping): (data: string)
    requires m.adjust <= m.length && m.base + m.length <= |file|
    ensures data == file[m.base + m.adjust..m.base + m.length]
  {
    file[m.base..m.base + m.length][m.adjust..]
  }

  /** The file being sent: its bytes, the page size, and which mmap calls succeed. */
  datatype Source = Source(file: string, page: nat, maps: seq<bool>)

  predicate MapOk(src: Source, k: nat) {
    k >= |src.maps| || src.maps[k]
  }

  function Window(remaining: nat): (len: nat)
    ensures len <= remaining && (remaining > 0 ==> len > 0)
    ensures len <= 0x2000_0000 && (len < remaining ==> len == 0x2000_0000)
  {
    if remaining < MAX_MAP_SIZE then remaining else MAX_MAP_SIZE
  }

  /** The data phase from `offset` on, one mapped window at a time; `k` counts the mmap calls. */
  function SendWindows(h: Host, src: Source, offset: nat, remaining: nat, k: nat): (o: Outcome)
    requires src.page > 0 && offset + remaining <= |src.file|
    ensures o.rc == 0 || o.rc == -1
    decreases remaining
  {
    if remaining == 0 then Outcome(h, 0, "")
    else if !MapOk(src, k) then Outcome(h, -1, "")
    else
      var len := Window(remaining);
      var w := CommandWriteData(h, Mapped(src.file, CreateFileMap(offset, len, src.page)));
      if w.rc < 0 then w else SendWindows(w.h, src, offset + len, remaining - len, k + 1)
  }

  function CommandSendFd(h: Host, cmd: string, src: Source, size: nat): (o: Outcome)
    requires src.page > 0 && size <= |src.file|
    ensures o.rc == -1 || o.rc == size
  {
    var a := CommandStart(h, cmd, size);
    if a.rc < 0 then a.(rc := -1)
    else
      var w := SendWindows(a.h, src, 0, size, 0);
      if w.rc < 0 then w
      else
        var e := CommandEnd(w.h);
        if e.rc < 0 then e else e.(rc := size)
  }

  function DownloadCommand(size: nat): (cmd: string)
    ensures |cmd| == 17
  {
    "download:" + HexPad(size, 8)
  }

  function DownloadFd(h: Host, src: Source, size: nat): (o: Outcome)
    requires src.page > 0 && size <= |src.file|
    ensures o.rc == 0 || o.rc == -1
  {
    var cmd := DownloadCommand(size);
    var o := CommandSendFd(h.(err := cmd), cmd, src, size);
    o.(rc := if o.rc < 0 then -1 else 0)
  }

  /** fb_command and fb_command_response. */
  function Command(h: Host, cmd: string): (o: Outcome)
    ensures o.rc == 0 || o.rc == -1
  {
    CommandStart(h, cmd, 0)
  }
}
