/**
  The backup of the modem's serial number and IMEI: trim_string and split_backup_sn_imei
  (common/common.c), the record file (pwl-pref/pwl_pref.c), and the decision at start-up whether
  to back up or to recover (pwl-fwupdate/pwl_fwupdate.c).
 */
module SnImei {
  import opened CText
  import opened StatusStore

  const SN_MAX_LENGTH: nat := 32
  const IMEI_MAX_LENGTH: nat := 32
  const PWL_MQ_MAX_CONTENT_LEN: nat := 30

  // ----- trim_string -----

  function TrimEnd(s: string): (r: string)
    ensures |r| <= |s| && (r != "" ==> !IsSpace(r[|r| - 1]))
  {
    if s != "" && IsSpace(s[|s| - 1]) then TrimEnd(s[..|s| - 1]) else s
  }

  function Trim(s: string): string {
    TrimEnd(SkipSpace(s))
  }

  predicate Blank(s: string) {
    forall i :: 0 <= i < |s| ==> IsSpace(s[i])
  }

  predicate Trimmed(s: string) {
    s == "" || (!IsSpace(s[0]) && !IsSpace(s[|s| - 1]))
  }

  lemma {:induction false} TrimBlank(t: string, b: string)
    requires Blank(b) && (t == "" || !IsSpace(t[|t| - 1]))
    ensures TrimEnd(t + b) == t
  {
    if b == "" {
      assert t + b == t;
    } else {
      assert (t + b)[..|t + b| - 1] == t + b[..|b| - 1];
      TrimBlank(t, b[..|b| - 1]);
    }
  }

  lemma {:induction false} SkipAllBlank(s: string)
    requires Blank(s)
    ensures SkipSpace(s) == ""
  {
    if s != "" {
      SkipAllBlank(s[1..]);
    }
  }

  /** Trimming a string is taking the blanks off its two ends: no more and no less. */
  lemma TrimExactly(a: string, t: string, b: string)
    requires Blank(a) && Blank(b) && Trimmed(t)
    ensures Trim(a + t + b) == t
  {
    if t == "" {
      assert a + t + b == a + b;
      SkipAllBlank(a + b);
    } else {
      Assoc(a, t, b);
      BlanksInFront(a, t + b);
      TrimBlank(t, b);
    }
  }

  lemma TrimTrimmed(t: string)
    requires Trimmed(t)
    ensures Trim(t) == t && Trim(t + "\n") == t
  {
    TrimExactly("", t, "");
    TrimExactly("", t, "\n");
    assert "" + t + "" == t;
    assert "" + t + "\n" == t + "\n";
  }

  /** How far the string in a buffer reaches. */
  lemma CStrLength(s: string)
    requires '\0' in s
    ensures |CStr(s)| < |s| && s[|CStr(s)|] == '\0' && forall i :: 0 <= i < |CStr(s)| ==> s[i] == CStr(s)[i] && s[i] != '\0'
  {
    assert CStr(s) == s[..|CStr(s)|];
    assert s[..|s|] == s;
  }

  /** The buffer holds the string `c`. */
  ghost predicate Holds(buf: array<char>, c: string)
    reads buf
  {
    |c| < buf.Length && buf[|c|] == '\0' && forall i :: 0 <= i < |c| ==> buf[i] == c[i] && c[i] != '\0'
  }

  /** trim_string, in place: two scans, a cut and a move. */
  method TrimString(buf: array<char>)
    requires '\0' in buf[..]
    modifies buf
    ensures CStr(buf[..]) == Trim(old(CStr(buf[..])))
  {
    ghost var c := CStr(buf[..]);
    CStrLength(buf[..]);
    var start := FirstOf(buf, c);
    if buf[start] == '\0' {
      buf[0] := '\0';
      assert buf[..][0] == '\0';
      return;
    }
    var end := LastOf(buf, start, c);
    CutAndMove(buf, start, end, c[start..end + 1]);
  }

  /** The first character that is not blank, or the end of the string. */
  method FirstOf(buf: array<char>, ghost c: string) returns (start: nat)
    requires Holds(buf, c)
    ensures start <= |c| && SkipSpace(c) == c[start..]
  {
    start := 0;
    assert c[0..] == c;
    while buf[start] != '\0' && IsSpace(buf[start])
      invariant start <= |c| && SkipSpace(c) == SkipSpace(c[start..])
      decreases |c| - start
    {
      assert c[start..][1..] == c[start + 1..];
      start := start + 1;
    }
  }

  method StrLen(buf: array<char>, start: nat, ghost c: string) returns (n: nat)
    requires Holds(buf, c) && start <= |c|
    ensures n == |c| - start
  {
    n := 0;
    while buf[start + n] != '\0'
      invariant start + n <= |c|
      decreases |c| - n
    {
      n := n + 1;
    }
  }

  /** The last character that is not blank. */
  method LastOf(buf: array<char>, start: nat, ghost c: string) returns (end: nat)
    requires Holds(buf, c) && start < |c| && !IsSpace(c[start])
    ensures start <= end < |c| && c[start..end + 1] == TrimEnd(c[start..])
  {
    var n := StrLen(buf, start, c);
    end := start + n - 1;
    assert c[start..end + 1] == c[start..];
    while end > start && IsSpace(buf[end])
      invariant start <= end < |c| && TrimEnd(c[start..]) == TrimEnd(c[start..end + 1])
    {
      assert c[start..end + 1][..end - start] == c[start..end];
      end := end - 1;
    }
  }

  method CutAndMove(buf: array<char>, start: nat, end: nat, ghost t: string)
    requires start <= end < buf.Length - 1 && buf[start..end + 1] == t && '\0' !in t
    modifies buf
    ensures CStr(buf[..]) == t
  {
    buf[end + 1] := '\0';
    assert buf[start..end + 1] == t;
    forall i | 0 <= i < end - start + 2 {
      buf[i] := buf[start + i];
    }
    ghost var rest := buf[end - start + 1..];
    assert buf[..] == t + rest && rest[0] == '\0';
    CStrPlain(t, rest);
    Assoc(t, "", "");
  }

  // ----- split_backup_sn_imei -----

  datatype Split = NoSeparator | Overrun | Parts(sn: string, imei: string)

  /** What fits of a string in a buffer of `size` bytes. */
  function Cut(s: string, size: nat): string
    requires size > 0
  {
    if |s| < size then s else s[..size - 1]
  }

  /** `Overrun` when the SN part does not fit the caller's buffer. */
  function SplitBackup(input: string): Split {
    var sep := StrChr(input, ';');
    if sep == -1 then NoSeparator
    else if sep >= SN_MAX_LENGTH then Overrun
    else Parts(Trim(input[..sep]), Trim(Cut(input[sep + 1..], IMEI_MAX_LENGTH)))
  }

  // ----- The record -----

  /** What the record file holds after a save, and what a load makes of a file. */
  function Saved(content: string): string {
    content + "\n"
  }

  function Loaded(file: string): Option<string> {
    if file == "" then None else Some(Cut(Trim(CStr(file[..LineLength(file)])), SN_MAX_LENGTH + IMEI_MAX_LENGTH))
  }

  predicate PartOk(s: string) {
    Trimmed(s) && '\n' !in s && '\0' !in s
  }

  predicate SnOk(s: string) {
    PartOk(s) && ';' !in s
  }

  /** The backup text fits the message. */
  predicate Fits(sn: string, imei: string) {
    |sn + ";" + imei| < PWL_MQ_MAX_CONTENT_LEN
  }

  lemma LoadedIs(text: string)
    requires PartOk(text) && |text| < SN_MAX_LENGTH + IMEI_MAX_LENGTH
    ensures Loaded(text + "\n") == Some(text)
  {
    var file := Saved(text);
    StrChrAfter(text, '\n', "");
    assert text + ['\n'] + "" == file;
    assert file[..LineLength(file)] == file;
    CStrPlain(file, "");
    assert file + "" == file;
    TrimTrimmed(text);
  }

  /** A load gives the first line of the record, of up to 126 characters, without its blanks, as far as it fits 64 bytes. */
  lemma FirstLineLoaded(a: string, t: string, b: string, post: string)
    requires Blank(a) && Blank(b) && Trimmed(t) && |a + t + b| <= 126
    requires '\n' !in a + t + b && '\0' !in a + t + b
    ensures Loaded(a + t + b + "\n" + post) == Some(if |t| < 64 then t else t[..63])
  {
    var line := a + t + b;
    var file := line + ['\n'] + post;
    StrChrAfter(line, '\n', post);
    assert file[..LineLength(file)] == line + ['\n'];
    CStrPlain(line + ['\n'], "");
    Assoc(line + ['\n'], "", "");
    Assoc(a + t, b, ['\n']);
    TrimExactly(a, t, b + ['\n']);
  }

  lemma TextTrimmed(sn: string, imei: string)
    requires PartOk(sn) && PartOk(imei)
    ensures PartOk(sn + ";" + imei) && Trim(sn + ";" + imei) == sn + ";" + imei
  {
    var text := sn + ";" + imei;
    assert text[0] == if sn == "" then ';' else sn[0];
    assert text[|text| - 1] == if imei == "" then ';' else imei[|imei| - 1];
    TrimTrimmed(text);
  }

  lemma LoadedWithoutEnd(text: string)
    requires '\n' !in text && '\0' !in text && text != "" && |text| < SN_MAX_LENGTH + IMEI_MAX_LENGTH
    ensures Loaded(text) == Some(Cut(Trim(text), SN_MAX_LENGTH + IMEI_MAX_LENGTH))
  {
    assert text[..LineLength(text)] == text;
    CStrPlain(text, "");
    Assoc(text, "", "");
  }

  /** Backup, save, load and split give back exactly the SN and the IMEI. */
  lemma BackupRoundTrip(sn: string, imei: string)
    requires SnOk(sn) && PartOk(imei) && Fits(sn, imei)
    ensures var text := sn + ";" + imei;
            Loaded(Saved(text)) == Some(text) && SplitBackup(text) == Parts(sn, imei)
  {
    var text := sn + ";" + imei;
    TextTrimmed(sn, imei);
    LoadedIs(text);
    StrChrAfter(sn, ';', imei);
    assert text == sn + [';'] + imei;
    assert text[..|sn|] == sn && text[|sn| + 1..] == imei;
    TrimTrimmed(sn);
    TrimTrimmed(imei);
  }

  /** The semicolon is the one character that the SN must not have: with one in it, another SN comes back. */
  lemma RoundTripExactly(sn: string, imei: string)
    requires PartOk(sn) && PartOk(imei) && Fits(sn, imei)
    ensures SplitBackup(sn + ";" + imei) == Parts(sn, imei) <==> ';' !in sn
  {
    if ';' !in sn {
      BackupRoundTrip(sn, imei);
    } else {
      var text := sn + ";" + imei;
      var k := StrChr(text, ';');
      var i := StrChr(sn, ';');
      assert text[i] == ';';
      assert forall j :: i < j <= |text| ==> text[..j][i] == ';';
      assert |text[..k]| < |sn|;
    }
  }

  /** What a load and split of the file give. */
  function Recovered(file: string): Split {
    if Loaded(file).None? || Loaded(file).value == "" then NoSeparator else SplitBackup(Loaded(file).value)
  }

  lemma PartsLength(u: string)
    ensures SplitBackup(u).Parts? ==> |SplitBackup(u).sn| + 1 + |SplitBackup(u).imei| <= |u|
  {
  }

  /** A backup of which only the first `n` characters arrived is as good as the whole one exactly when only the line end is missing. */
  lemma CutExactly(sn: string, imei: string, n: nat)
    requires SnOk(sn) && PartOk(imei) && Fits(sn, imei)
    ensures Recovered(Kept(Saved(sn + ";" + imei), n)) == Parts(sn, imei) <==> n >= |sn + ";" + imei|
  {
    var text := sn + ";" + imei;
    var file := Kept(Saved(text), n);
    BackupRoundTrip(sn, imei);
    if n > |text| {
      assert file == Saved(text);
    } else {
      assert file == text[..n];
      TextTrimmed(sn, imei);
      if n == |text| {
        assert file == text;
        LoadedWithoutEnd(text);
      } else {
        CutShort(file, sn, imei);
      }
    }
  }

  /** A text that is too short for both parts does not give them. */
  lemma CutShort(file: string, sn: string, imei: string)
    requires '\n' !in file && '\0' !in file && |file| < |sn| + 1 + |imei| < SN_MAX_LENGTH + IMEI_MAX_LENGTH
    ensures Recovered(file) != Parts(sn, imei)
  {
    if file != "" {
      LoadedWithoutEnd(file);
      PartsLength(Loaded(file).value);
    }
  }

  lemma {:induction false} TrimEndOn(a: string, b: string)
    requires TrimEnd(b) != ""
    ensures TrimEnd(a + b) == a + TrimEnd(b)
    decreases |b|
  {
    assert b != "";
    assert (a + b)[|a + b| - 1] == b[|b| - 1];
    if IsSpace(b[|b| - 1]) {
      assert (a + b)[..|a + b| - 1] == a + b[..|b| - 1];
      TrimEndOn(a, b[..|b| - 1]);
    }
  }

  /** What is left of a trimmed part keeps its first character. */
  lemma {:induction false} TrimCut(part: string, j: nat)
    requires Trimmed(part) && 0 < j <= |part|
    ensures Trim(part[..j]) == TrimEnd(part[..j]) != "" && |TrimEnd(part[..j])| <= j
    decreases j
  {
    var s := part[..j];
    assert s[0] == part[0];
    if IsSpace(s[|s| - 1]) {
      assert s[..|s| - 1] == part[..j - 1];
      TrimCut(part, j - 1);
    }
  }

  /** What a load and split make of the first `n` characters of a backup text. */
  lemma CutGives(sn: string, imei: string, n: nat)
    requires SnOk(sn) && PartOk(imei) && Fits(sn, imei) && sn != "" && n < |sn + ";" + imei|
    ensures Recovered((sn + ";" + imei)[..n]) ==
            if n <= |sn| then NoSeparator else Parts(sn, Trim(imei[..n - |sn| - 1]))
  {
    var file := (sn + ";" + imei)[..n];
    if n == 0 {
      assert file == "";
    } else if n <= |sn| {
      assert file == sn[..n];
      NoneCut(sn, n);
    } else {
      var j := n - |sn| - 1;
      assert file == sn + ";" + imei[..j];
      SomeCut(sn, imei, j);
    }
  }

  lemma NoneCut(sn: string, n: nat)
    requires SnOk(sn) && 0 < n <= |sn| < SN_MAX_LENGTH + IMEI_MAX_LENGTH
    ensures Recovered(sn[..n]) == NoSeparator
  {
    LoadedWithoutEnd(sn[..n]);
    TrimCut(sn, n);
    var to := TrimPart(sn[..n]);
    assert Trim(sn[..n]) == sn[..to];
  }

  lemma SomeCut(sn: string, imei: string, j: nat)
    requires SnOk(sn) && PartOk(imei) && Fits(sn, imei) && sn != "" && j < |imei|
    ensures Recovered(sn + ";" + imei[..j]) == Parts(sn, Trim(imei[..j]))
  {
    var file, rest := sn + ";" + imei[..j], Trim(imei[..j]);
    LoadedWithoutEnd(file);
    TrimOk(imei[..j]);
    assert file[0] == sn[0] && SkipSpace(file) == file;
    if j == 0 {
      assert file[|file| - 1] == ';' && file == sn + ";" + rest;
    } else {
      TrimCut(imei, j);
      TrimEndOn(sn + ";", imei[..j]);
    }
    assert Trim(file) == sn + ";" + rest;
    BackupRoundTrip(sn, rest);
  }

  // ----- Start-up -----

  /** The first line of a text, as far as it fits. */
  function LineOf(rest: string, size: nat): string
    requires size > 0
  {
    var stop := StrChr(rest, '\n');
    Cut(if stop == -1 then rest else rest[..stop], size)
  }

  /** What stands from a position to the end of its line. */
  function LineFrom(info: string, at: nat, size: nat): string
    requires at <= |info| && size > 0
  {
    LineOf(info[at..], size)
  }

  function TrimmedLine(info: string, at: nat, size: nat): string
    requires at <= |info| && size > 0
  {
    Trim(LineFrom(info, at, size))
  }

  /** The text between a tag and the end of its line; nothing if there is no tag. */
  function Field(info: string, tag: string, size: nat): string
    requires size > 0
  {
    var at := StrStr(info, tag);
    if at == -1 then ""
    else TrimmedLine(info, at + |tag|, size)
  }

  /**
    What is read behind the first occurrence of a tag is the rest of its line, without the blanks
    at its ends, as far as it fits the buffer.
   */
  lemma FieldReads(pre: string, tag: string, x: string, post: string, size: nat)
    requires size > 0 && '\n' !in x && (post == "" || post[0] == '\n')
    requires forall j :: 0 <= j < |pre| ==> !At(pre + tag + x + post, tag, j)
    ensures Field(pre + tag + x + post, tag, size) == Trim(Cut(x, size))
  {
    var info := pre + tag + x + post;
    Middle(pre, tag, x, post);
    FirstAt(info, tag, |pre|);
    LineIs(x, post, size);
    FieldAt(info, tag, |pre|, size);
  }

  lemma Middle(pre: string, tag: string, x: string, post: string)
    ensures var info := pre + tag + x + post; At(info, tag, |pre|) && info[|pre| + |tag|..] == x + post
  {
  }

  lemma FieldAt(info: string, tag: string, at: nat, size: nat)
    requires size > 0 && StrStr(info, tag) == at
    ensures at + |tag| <= |info| && Field(info, tag, size) == Trim(LineOf(info[at + |tag|..], size))
  {
    FieldIs(info, tag, at, size);
    TrimmedLineIs(info, at + |tag|, size);
  }

  lemma FieldIs(info: string, tag: string, at: nat, size: nat)
    requires size > 0 && StrStr(info, tag) == at
    ensures at + |tag| <= |info| && Field(info, tag, size) == TrimmedLine(info, at + |tag|, size)
  {
  }

  lemma TrimmedLineIs(info: string, from: nat, size: nat)
    requires size > 0 && from <= |info|
    ensures TrimmedLine(info, from, size) == Trim(LineOf(info[from..], size))
  {
  }

  lemma FirstAt(s: string, p: string, k: nat)
    requires At(s, p, k) && forall j :: 0 <= j < k ==> !At(s, p, j)
    ensures StrStr(s, p) == k
  {
  }

  lemma LineIs(x: string, post: string, size: nat)
    requires size > 0 && '\n' !in x && (post == "" || post[0] == '\n')
    ensures LineOf(x + post, size) == Cut(x, size)
  {
    var rest := x + post;
    if post == "" {
      assert rest == x;
    } else {
      assert rest == x + ['\n'] + post[1..];
      StrChrAfter(x, '\n', post[1..]);
      assert rest[..|x|] == x;
    }
  }

  /** strstr, character by character. */
  method FindTag(info: string, tag: string) returns (at: int)
    ensures at == StrStr(info, tag)
  {
    var i: nat := 0;
    while i + |tag| <= |info|
      invariant StrStr(info, tag) == StrStr(info, tag, i)
    {
      if info[i..i + |tag|] == tag {
        return i;
      }
      i := i + 1;
    }
    at := -1;
  }

  /** strcspn: how far it is to the end of the line. */
  method ToLineEnd(s: string) returns (n: nat)
    ensures n == if StrChr(s, '\n') == -1 then |s| else StrChr(s, '\n')
  {
    n := 0;
    while n < |s| && s[n] != '\n'
      invariant n <= |s| && '\n' !in s[..n]
    {
      assert s[..n + 1] == s[..n] + [s[n]];
      n := n + 1;
    }
    LineEndIs(s, n);
  }

  lemma LineEndIs(s: string, n: nat)
    requires n <= |s| && '\n' !in s[..n] && (n < |s| ==> s[n] == '\n')
    ensures n == if StrChr(s, '\n') == -1 then |s| else StrChr(s, '\n')
  {
    if n == |s| {
      assert s[..n] == s;
    } else {
      assert s == s[..n] + ['\n'] + s[n + 1..];
      StrChrAfter(s[..n], '\n', s[n + 1..]);
    }
  }

  method ReadLine(rest: string, size: nat) returns (line: string)
    requires size > 0
    ensures line == LineOf(rest, size)
  {
    var len := ToLineEnd(rest);
    CutLine(rest, len, size);
    if len >= size {
      len := size - 1;
    }
    line := rest[..len];
  }

  method ReadField(info: string, tag: string, size: nat) returns (value: string)
    requires size > 0
    ensures value == Field(info, tag, size)
  {
    var at := FindTag(info, tag);
    if at == -1 {
      return "";
    }
    FieldAt(info, tag, at, size);
    var line := ReadLine(info[at + |tag|..], size);
    value := Trim(line);
  }

  lemma CutLine(rest: string, len: nat, size: nat)
    requires size > 0 && len == if StrChr(rest, '\n') == -1 then |rest| else StrChr(rest, '\n')
    ensures LineOf(rest, size) == rest[..if len >= size then size - 1 else len]
  {
    assert rest[..|rest|] == rest;
    if len >= size {
      assert rest[..len][..size - 1] == rest[..size - 1];
    }
  }

  /**
    What happens outside at one start: the modem's information if it could be had, what becomes
    of a backup, and whether a request for the backup is carried out.
   */
  datatype Start = Start(info: Option<string>, save: Save, loads: bool)

  /** The record, what the process then holds, and whether it starts EFS recovery; `overrun` when the backup does not fit its message. */
  datatype Outcome = Outcome(record: Option<string>, sn: string, imei: string, recovery: bool, overrun: bool)

  /** What a request for the backup makes of the SN and the IMEI. */
  function Restored(record: Option<string>, sn: string, imei: string): Split {
    if record.None? || Loaded(record.value).None? || Loaded(record.value).value == "" then Parts(sn, imei)
    else
      var s := SplitBackup(Loaded(record.value).value);
      if s.NoSeparator? then Parts("", "") else s
  }

  function Decide(record: Option<string>, s: Start): Outcome {
    if s.info.None? then Outcome(record, "", "", false, false)
    else
      var info := CStr(s.info.value);
      var imei := Field(info, "IMEI:", IMEI_MAX_LENGTH);
      var sn := Field(info, "CEI SN:", SN_MAX_LENGTH);
      if sn == "" || imei == "" then
        var r := if s.loads then Restored(record, sn, imei) else Parts(sn, imei);
        if r.Overrun? then Outcome(record, "", "", false, true)
        else Outcome(record, r.sn, r.imei, r.sn != "" && r.imei != "", false)
      else if !Fits(sn, imei) then Outcome(record, sn, imei, false, true)
      else Outcome(Replaced(record, Saved(sn + ";" + imei), s.save), sn, imei, false, false)
  }

  class Services {
    var record: Option<string>
    var snImei: string
    var sn: string
    var imei: string
    var overrun: bool

    constructor (file: Option<string>)
      ensures record == file && sn == "" && imei == "" && !overrun
    {
      record, snImei, sn, imei, overrun := file, "", "", "", false;
    }

    /** The save and load actions of handle_sn_imei_backup_file, as their two messages use them. */
    method SaveBackup(content: string, save: Save) returns (ok: bool)
      modifies this`record
      ensures ok == (content != "" && save.Stored? && save.reported)
      ensures record == if content == "" then old(record) else Replaced(old(record), Saved(content), save)
    {
      if content == "" || save.Skipped? {
        return false;
      }
      record := Some(Kept(content + "\n", save.kept));
      ok := save.reported;
    }

    method LoadBackup() returns (ok: bool)
      modifies this`snImei
      ensures ok == (record.Some? && record.value != "")
      ensures ok ==> Some(snImei) == Loaded(record.value)
    {
      if record.None? || record.value == "" {
        return false;
      }
      var line := CStr(record.value[..LineLength(record.value)]);
      snImei := Cut(Trim(line), SN_MAX_LENGTH + IMEI_MAX_LENGTH);
      ok := true;
    }

    method GetSnAndImei(info: string)
      requires sn == "" && imei == ""
      modifies this`sn, this`imei
      ensures imei == Field(info, "IMEI:", IMEI_MAX_LENGTH) && sn == Field(info, "CEI SN:", SN_MAX_LENGTH)
    {
      if info != "" {
        imei := ReadField(info, "IMEI:", IMEI_MAX_LENGTH);
        sn := ReadField(info, "CEI SN:", SN_MAX_LENGTH);
      }
    }

    method Restore()
      modifies this`snImei, this`sn, this`imei, this`overrun
      requires !overrun
      ensures var r := Restored(record, old(sn), old(imei));
              if r.Overrun? then overrun else !overrun && r == Parts(sn, imei)
    {
      var ok := LoadBackup();
      if ok && snImei != "" {
        var parts := SplitBackup(snImei);
        match parts
        case NoSeparator => sn, imei := "", "";
        case Overrun => overrun := true;
        case Parts(a, b) => sn, imei := a, b;
      }
    }

    /** The start of pwl-fwupdate, in a process whose SN and IMEI are still empty. */
    method StartUp(s: Start) returns (recovery: bool)
      requires sn == "" && imei == "" && !overrun
      modifies this
      ensures overrun == Decide(old(record), s).overrun && record == Decide(old(record), s).record
      ensures !overrun ==> Outcome(record, sn, imei, recovery, overrun) == Decide(old(record), s)
    {
      recovery := false;
      if s.info.None? {
        return;
      }
      GetSnAndImei(CStr(s.info.value));
      if sn == "" || imei == "" {
        if s.loads {
          Restore();
        }
        recovery := !overrun && sn != "" && imei != "";
      } else if !Fits(sn, imei) {
        overrun := true;
      } else {
        var ok := SaveBackup(sn + ";" + imei, s.save);
      }
    }
  }

  // ----- One start, written out -----

  /** Without the modem's information nothing is held and nothing is done. */
  lemma SilentStart(record: Option<string>, save: Save, loads: bool)
    ensures Decide(record, Start(None, save, loads)) == Outcome(record, "", "", false, false)
  {
  }

  /**
    A modem that reports both parts is backed up: the record is emptied and filled with as much of
    "SN;IMEI" and a line end as is written, if the save is begun at all; unless that text, with
    its NUL, does not fit the 30 bytes of its message.
   */
  lemma HealthyStart(record: Option<string>, info: string, save: Save, loads: bool, sn: string, imei: string)
    requires sn == Field(CStr(info), "CEI SN:", 32) && imei == Field(CStr(info), "IMEI:", 32) && sn != "" && imei != ""
    ensures var text := sn + ";" + imei + "\n";
            Decide(record, Start(Some(info), save, loads)) ==
            if |sn| + 1 + |imei| >= 30 then Outcome(record, sn, imei, false, true)
            else if save.Skipped? then Outcome(record, sn, imei, false, false)
            else Outcome(Some(if save.kept < |text| then text[..save.kept] else text), sn, imei, false, false)
  {
  }

  /** A modem that lacks one of them leaves the record alone; and without a backup to load there is no recovery. */
  lemma IllStart(record: Option<string>, info: string, save: Save, loads: bool, sn: string, imei: string)
    requires sn == Field(CStr(info), "CEI SN:", 32) && imei == Field(CStr(info), "IMEI:", 32) && (sn == "" || imei == "")
    ensures var o := Decide(record, Start(Some(info), save, loads));
            && o.record == record
            && (!loads || record.None? || Loaded(record.value).Or("") == "" ==> o == Outcome(record, sn, imei, false, false))
  {
  }

  /**
    With a backup: its line is cut at the first semicolon.  Without one nothing is held; an SN part
    of 32 characters or more does not fit its buffer; and otherwise both parts are trimmed, the
    IMEI part after it was cut to its buffer, and the recovery starts exactly if neither is empty.
   */
  lemma LoadedStart(file: string, info: string, save: Save, line: string, a: string, b: string)
    requires Field(CStr(info), "CEI SN:", 32) == "" || Field(CStr(info), "IMEI:", 32) == ""
    requires Loaded(file) == Some(line) && line != "" && ';' !in a && (line == a || line == a + ";" + b)
    ensures var o := Decide(Some(file), Start(Some(info), save, true));
            var sn, imei := Trim(a), Trim(if |b| < 32 then b else b[..31]);
            if line == a then o == Outcome(Some(file), "", "", false, false)
            else if |a| >= 32 then o == Outcome(Some(file), "", "", false, true)
            else o == Outcome(Some(file), sn, imei, sn != "" && imei != "", false)
  {
    if line != a {
      StrChrAfter(a, ';', b);
      assert line == a + [';'] + b;
      assert line[..|a|] == a && line[|a| + 1..] == b;
    }
  }

  // ----- Every run -----

  /** A backup of two parts, neither of them empty, of which the first `n` characters arrived. */
  predicate IsBackup(file: string, sn: string, imei: string, n: nat) {
    && sn != "" && imei != "" && PartOk(sn) && PartOk(imei) && Fits(sn, imei)
    && file == Kept(Saved(sn + ";" + imei), n)
  }

  ghost predicate Remnant(record: Option<string>) {
    record.None? || exists sn, imei, n :: IsBackup(record.value, sn, imei, n)
  }

  function Run(record: Option<string>, starts: seq<Start>): Option<string>
    decreases |starts|
  {
    if starts == [] then record else Run(Decide(record, starts[0]).record, starts[1..])
  }

  lemma {:induction false} SkipPart(s: string) returns (n: nat)
    ensures n <= |s| && SkipSpace(s) == s[n..]
  {
    if s != "" && IsSpace(s[0]) {
      n := SkipPart(s[1..]);
      assert s[1..][n..] == s[n + 1..];
      n := n + 1;
    } else {
      n := 0;
    }
  }

  lemma {:induction false} TrimPart(s: string) returns (n: nat)
    ensures n <= |s| && TrimEnd(s) == s[..n]
  {
    if s != "" && IsSpace(s[|s| - 1]) {
      n := TrimPart(s[..|s| - 1]);
    } else {
      n := |s|;
    }
  }

  lemma TrimOk(s: string)
    requires '\n' !in s && '\0' !in s
    ensures PartOk(Trim(s))
  {
    var from := SkipPart(s);
    var to := TrimPart(SkipSpace(s));
    assert Trim(s) == s[from..][..to];
  }

  lemma LineFromOk(info: string, at: nat, size: nat)
    requires at <= |info| && size > 0 && '\0' !in info
    ensures PartOk(TrimmedLine(info, at, size))
  {
    var rest, line := info[at..], LineFrom(info, at, size);
    assert '\0' !in rest;
    assert '\n' !in line && '\0' !in line;
    TrimOk(line);
  }

  lemma FieldOk(info: string, tag: string, size: nat)
    requires size > 0 && '\0' !in info
    ensures PartOk(Field(info, tag, size))
  {
    var at := StrStr(info, tag);
    if at == -1 {
      NoField(info, tag, at, size);
    } else {
      FieldIs(info, tag, at, size);
      LineFromOk(info, at + |tag|, size);
    }
  }

  lemma NoField(info: string, tag: string, at: int, size: nat)
    requires size > 0 && at == StrStr(info, tag) == -1
    ensures Field(info, tag, size) == "" && PartOk("")
  {
  }

  lemma DecideKeepsRemnant(record: Option<string>, s: Start)
    requires Remnant(record)
    ensures Remnant(Decide(record, s).record)
  {
    var out := Decide(record, s);
    if s.info.Some? && out.record != record {
      var info := CStr(s.info.value);
      FieldOk(info, "IMEI:", IMEI_MAX_LENGTH);
      FieldOk(info, "CEI SN:", SN_MAX_LENGTH);
      assert IsBackup(out.record.value, out.sn, out.imei, s.save.kept);
    }
  }

  /** In every run the record is absent, or what arrived of a backup whose two parts were both there; empty if nothing did. */
  lemma {:induction false} RecordStaysRemnant(record: Option<string>, starts: seq<Start>)
    requires Remnant(record)
    ensures Remnant(Run(record, starts))
    decreases |starts|
  {
    if starts != [] {
      DecideKeepsRemnant(record, starts[0]);
      RecordStaysRemnant(Decide(record, starts[0]).record, starts[1..]);
    }
  }

  /** The modem reports no SN, or no IMEI. */
  predicate Corrupt(info: string) {
    Field(info, "IMEI:", IMEI_MAX_LENGTH) == "" || Field(info, "CEI SN:", SN_MAX_LENGTH) == ""
  }

  predicate Ill(s: Start) {
    s.info.Some? && Corrupt(CStr(s.info.value))
  }

  /** A modem that lost its SN or IMEI changes nothing in the record. */
  lemma IllChangesNothing(record: Option<string>, s: Start)
    requires s.info.None? || Corrupt(CStr(s.info.value))
    ensures Decide(record, s).record == record
  {
  }

  /** From a record that splits, exactly its parts are recovered. */
  lemma IllRecovers(record: string, s: Start, sn: string, imei: string)
    requires Ill(s) && s.loads && sn != "" && imei != ""
    ensures Decide(Some(record), s) == Outcome(Some(record), sn, imei, true, false) <==> Recovered(record) == Parts(sn, imei)
  {
  }

  /**
    What it recovers from a backup of a SN without a semicolon is exactly that SN and IMEI if
    and only if at most the line end of the backup is missing.
   */
  lemma CorruptRecovers(record: Option<string>, s: Start, sn: string, imei: string, n: nat)
    requires Ill(s) && s.loads && record.Some? && IsBackup(record.value, sn, imei, n) && ';' !in sn
    ensures Decide(record, s) == Outcome(record, sn, imei, true, false) <==> n >= |sn + ";" + imei|
  {
    CutExactly(sn, imei, n);
    IllRecovers(record.value, s, sn, imei);
  }

  /**
    A backup that broke off inside the IMEI starts a recovery all the same, with what there is of
    the IMEI; and that is the only way in which a recovery can start with something else than the
    parts that were backed up.
   */
  lemma WrongRecovery(record: Option<string>, s: Start, sn: string, imei: string, n: nat)
    requires Ill(s) && s.loads && record.Some? && IsBackup(record.value, sn, imei, n) && ';' !in sn
    ensures var d := Decide(record, s);
            && (d.recovery && (d.sn, d.imei) != (sn, imei) <==> |sn| + 1 < n < |sn + ";" + imei|)
            && (|sn| + 1 < n < |sn + ";" + imei| ==> d.sn == sn && d.imei == Trim(imei[..n - |sn| - 1]) && |d.imei| < |imei|)
            && (n <= |sn| + 1 ==> !d.recovery)
  {
    var text := sn + ";" + imei;
    if n >= |text| {
      CorruptRecovers(record, s, sn, imei, n);
    } else {
      assert record.value == text[..n];
      CutGives(sn, imei, n);
      if n > |sn| + 1 {
        TrimCut(imei, n - |sn| - 1);
        IllRecovers(record.value, s, sn, Trim(imei[..n - |sn| - 1]));
      } else {
        NothingRecovered(record.value, s);
      }
    }
  }

  /** A record that does not split, or splits into a part and nothing, starts no recovery. */
  lemma NothingRecovered(record: string, s: Start)
    requires Ill(s) && (Recovered(record).NoSeparator? || (Recovered(record).Parts? && Recovered(record).imei == ""))
    ensures !Decide(Some(record), s).recovery
  {
  }

  /** The modem is well and reports this SN and IMEI. */
  predicate Reports(s: Start, sn: string, imei: string) {
    && s.info.Some? && sn != "" && imei != ""
    && Field(CStr(s.info.value), "IMEI:", IMEI_MAX_LENGTH) == imei && Field(CStr(s.info.value), "CEI SN:", SN_MAX_LENGTH) == sn
  }

  /** All starts are with one modem: it reports this SN and IMEI, or not both of them. */
  predicate OneModem(starts: seq<Start>, sn: string, imei: string) {
    forall s <- starts :: s.info.None? || Corrupt(CStr(s.info.value)) || Reports(s, sn, imei)
  }

  /** How much arrived of the last backup that was begun, if any was. */
  function LastKept(starts: seq<Start>, sn: string, imei: string): Option<nat> {
    if starts == [] then None
    else
      var s, later := starts[0], LastKept(starts[1..], sn, imei);
      if later.Some? then later
      else if Reports(s, sn, imei) && s.save.Stored? then Some(s.save.kept) else None
  }

  lemma {:induction false} RunKeepsLast(record: Option<string>, starts: seq<Start>, sn: string, imei: string)
    requires OneModem(starts, sn, imei) && Fits(sn, imei)
    ensures var last := LastKept(starts, sn, imei);
            Run(record, starts) == if last.None? then record else Some(Kept(Saved(sn + ";" + imei), last.value))
    decreases |starts|
  {
    if starts != [] {
      assert starts[0] in starts;
      assert forall s <- starts[1..] :: s in starts;
      var d := Decide(record, starts[0]);
      if !Reports(starts[0], sn, imei) {
        IllChangesNothing(record, starts[0]);
      }
      RunKeepsLast(d.record, starts[1..], sn, imei);
    }
  }

  /**
    A whole backup of a SN without a semicolon survives a run of starts with its modem, for a
    corrupt start to recover, exactly when the last backup begun in that run, if there was one,
    arrived up to its line end.
   */
  lemma BackupSurvives(record: Option<string>, starts: seq<Start>, ill: Start, sn: string, imei: string)
    requires record.Some? && IsBackup(record.value, sn, imei, |sn + ";" + imei| + 1) && ';' !in sn
    requires OneModem(starts, sn, imei) && Ill(ill) && ill.loads
    ensures var kept := Run(record, starts);
            var last := LastKept(starts, sn, imei);
            Decide(kept, ill) == Outcome(kept, sn, imei, true, false) <==> last.None? || last.value >= |sn + ";" + imei|
  {
    RunKeepsLast(record, starts, sn, imei);
    var last := LastKept(starts, sn, imei);
    CorruptRecovers(Run(record, starts), ill, sn, imei, if last.None? then |sn + ";" + imei| + 1 else last.value);
  }

  /** What a modem that is well reports, and that is saved, is what a later start recovers. */
  lemma BackedUpThenRecovered(record: Option<string>, well: Start, starts: seq<Start>, ill: Start, sn: string, imei: string)
    requires Reports(well, sn, imei) && Fits(sn, imei) && ';' !in sn && well.save.Stored? && well.save.kept > |sn + ";" + imei|
    requires forall s <- starts :: s.info.None? || Corrupt(CStr(s.info.value))
    requires Ill(ill) && ill.loads
    ensures var kept := Run(Decide(record, well).record, starts);
            Decide(kept, ill) == Outcome(kept, sn, imei, true, false)
  {
    var d := Decide(record, well);
    var info := CStr(well.info.value);
    FieldOk(info, "IMEI:", IMEI_MAX_LENGTH);
    FieldOk(info, "CEI SN:", SN_MAX_LENGTH);
    NoneKept(starts, sn, imei);
    BackupSurvives(d.record, starts, ill, sn, imei);
  }

  lemma {:induction false} NoneKept(starts: seq<Start>, sn: string, imei: string)
    requires forall s <- starts :: s.info.None? || Corrupt(CStr(s.info.value))
    ensures LastKept(starts, sn, imei).None?
  {
    if starts != [] {
      assert starts[0] in starts;
      assert forall s <- starts[1..] :: s in starts;
      NoneKept(starts[1..], sn, imei);
    }
  }

  /** A start with a healthy modem can cost the backup: the file is emptied, nothing arrives, and a later start recovers nothing. */
  lemma BackupLost(record: Option<string>, well: Start, ill: Start, sn: string, imei: string)
    requires Reports(well, sn, imei) && Fits(sn, imei) && well.save == Stored(0, false) && Ill(ill)
    ensures var kept := Decide(record, well).record; kept == Some("") && !Decide(kept, ill).recovery
  {
  }

  /** There are such starts, for every IMEI and every SN without an M. */
  function Info(sn: string, imei: string): string {
    "CEI SN:" + sn + ("\nIMEI:" + imei)
  }

  lemma InfoOfSn(sn: string, imei: string)
    requires PartOk(sn) && |sn| < SN_MAX_LENGTH
    ensures Field(Info(sn, imei), "CEI SN:", SN_MAX_LENGTH) == sn
  {
    assert "" + "CEI SN:" + sn + ("\nIMEI:" + imei) == Info(sn, imei);
    FieldReads("", "CEI SN:", sn, "\nIMEI:" + imei, SN_MAX_LENGTH);
    TrimTrimmed(sn);
  }

  lemma InfoOfImei(sn: string, imei: string)
    requires PartOk(imei) && |imei| < IMEI_MAX_LENGTH && 'M' !in sn
    ensures Field(Info(sn, imei), "IMEI:", IMEI_MAX_LENGTH) == imei
  {
    var pre := "CEI SN:" + sn + "\n";
    var info := pre + "IMEI:" + imei + "";
    assert info == Info(sn, imei);
    assert 'M' !in pre && info[..|pre|] == pre && info[|pre|] == 'I';
    NotAhead(info, pre);
    FieldReads(pre, "IMEI:", imei, "", IMEI_MAX_LENGTH);
    TrimTrimmed(imei);
  }

  lemma NotAhead(info: string, pre: string)
    requires |pre| < |info| && info[..|pre|] == pre && 'M' !in pre && info[|pre|] == 'I'
    ensures forall j :: 0 <= j < |pre| ==> !At(info, "IMEI:", j)
  {
    assert forall j :: 0 <= j < |pre| ==> info[j] == pre[j];
    assert forall j :: At(info, "IMEI:", j) ==> info[j..j + 5][1] == info[j + 1];
  }

  lemma WellStart(sn: string, imei: string, save: Save, loads: bool)
    requires sn != "" && imei != "" && PartOk(sn) && PartOk(imei) && 'M' !in sn && |sn| < SN_MAX_LENGTH && |imei| < IMEI_MAX_LENGTH
    ensures Reports(Start(Some(Info(sn, imei)), save, loads), sn, imei)
  {
    InfoOfSn(sn, imei);
    InfoOfImei(sn, imei);
    InfoPlain(sn, imei);
  }

  lemma NothingIsIll(save: Save, loads: bool)
    ensures Ill(Start(Some(""), save, loads))
  {
    assert CStr("") == "" && StrStr("", "IMEI:") == -1;
  }

  /** Two starts, written out: the first empties the record in place of saving, and the second recovers nothing. */
  lemma LossHappens(record: Option<string>, sn: string, imei: string)
    requires sn != "" && imei != "" && PartOk(sn) && PartOk(imei) && Fits(sn, imei) && 'M' !in sn
    ensures var kept := Decide(record, Start(Some(Info(sn, imei)), Stored(0, false), true)).record;
            kept == Some("") && !Decide(kept, Start(Some(""), Skipped, true)).recovery
  {
    WellStart(sn, imei, Stored(0, false), true);
    NothingIsIll(Skipped, true);
    BackupLost(record, Start(Some(Info(sn, imei)), Stored(0, false), true), Start(Some(""), Skipped, true), sn, imei);
  }

  lemma InfoPlain(sn: string, imei: string)
    requires '\0' !in sn && '\0' !in imei
    ensures CStr(Info(sn, imei)) == Info(sn, imei)
  {
    CStrPlain(Info(sn, imei), "");
    Assoc(Info(sn, imei), "", "");
  }
}
