/**
  The status records of common/common.c: text files of `key=value` lines that survive restarts,
  with the set and get functions that all three records (firmware update, eSIM profile, boot-up)
  use in the same form.
 */
module StatusStore {
  import opened CText

  const STATUS_LINE_LENGTH: nat := 128
  const VALUE_SIZE: nat := 5

  // ----- Decimal text -----

  predicate IsDigit(c: char) {
    '0' <= c <= '9'
  }

  function Dec(n: nat): (s: string)
    ensures s != "" && forall i :: 0 <= i < |s| ==> IsDigit(s[i])
  {
    if n < 10 then [DIGITS[n]] else Dec(n / 10) + [DIGITS[n % 10]]
  }

  /** The number that the leading digits denote, after `acc`. */
  function Digits(s: string, acc: nat): nat {
    if s != "" && IsDigit(s[0]) then Digits(s[1..], 10 * acc + (s[0] as int - '0' as int)) else acc
  }

  function Atoi(s: string): int {
    var t := SkipSpace(s);
    if t != "" && t[0] == '-' then 0 - Digits(t[1..], 0)
    else if t != "" && t[0] == '+' then Digits(t[1..], 0)
    else Digits(t, 0)
  }

  lemma {:induction false} DigitsSplit(a: string, c: char, acc: nat)
    requires IsDigit(c) && forall i :: 0 <= i < |a| ==> IsDigit(a[i])
    ensures Digits(a + [c], acc) == 10 * Digits(a, acc) + (c as int - '0' as int)
  {
    if a == "" {
      assert a + [c] == [c] && [c][1..] == "";
    } else {
      assert (a + [c])[1..] == a[1..] + [c];
      DigitsSplit(a[1..], c, 10 * acc + (a[0] as int - '0' as int));
    }
  }

  lemma {:induction false} DigitsDec(n: nat)
    ensures Digits(Dec(n), 0) == n
  {
    assert forall d :: 0 <= d < 10 ==> DIGITS[d] == ('0' as int + d) as char;
    if n >= 10 {
      DigitsDec(n / 10);
      DigitsSplit(Dec(n / 10), DIGITS[n % 10], 0);
    }
  }

  lemma AtoiDec(n: nat)
    ensures Atoi(Dec(n)) == n
  {
    DigitsDec(n);
    assert IsDigit(Dec(n)[0]);
  }

  lemma {:induction false} DigitsStop(a: string, rest: string, acc: nat)
    requires (forall i :: 0 <= i < |a| ==> IsDigit(a[i])) && (rest == "" || rest[0] < '0' || rest[0] > '9')
    ensures Digits(a + rest, acc) == Digits(a, acc)
  {
    if a == "" {
      assert a + rest == rest;
    } else {
      assert (a + rest)[1..] == a[1..] + rest;
      DigitsStop(a[1..], rest, 10 * acc + (a[0] as int - '0' as int));
    }
  }

  /** atoi reads a number behind blanks and a sign, up to the first character that is no digit. */
  lemma AtoiReads(a: string, sign: string, n: nat, rest: string)
    requires forall i :: 0 <= i < |a| ==> IsSpace(a[i])
    requires sign == "" || sign == "+" || sign == "-"
    requires rest == "" || rest[0] < '0' || rest[0] > '9'
    ensures var r := Atoi(a + (sign + (Dec(n) + rest))); if sign == "-" then r + n == 0 else r == n
  {
    var t := sign + (Dec(n) + rest);
    assert IsDigit(Dec(n)[0]);
    BlanksInFront(a, t);
    DigitsDec(n);
    DigitsStop(Dec(n), rest, 0);
    if sign == "" {
      assert t == Dec(n) + rest;
    } else {
      assert t[1..] == Dec(n) + rest;
    }
  }

  function CountIntLength(x: nat): nat {
    if x >= 1000000000 then 10
    else if x >= 100000000 then 9
    else if x >= 10000000 then 8
    else if x >= 1000000 then 7
    else if x >= 100000 then 6
    else if x >= 10000 then 5
    else if x >= 1000 then 4
    else if x >= 100 then 3
    else if x >= 10 then 2
    else 1
  }

  /** count_int_length is the length of what %u prints, for every unsigned number. */
  lemma {:induction false} CountIsDecimalLength(x: nat)
    requires x < TWO_32
    ensures CountIntLength(x) == |Dec(x)|
  {
    if x >= 10 {
      CountIsDecimalLength(x / 10);
    }
  }

  // ----- The file -----

  /** How much of the file one `fgets` takes. */
  function LineLength(s: string): (n: nat)
    requires s != ""
    ensures 0 < n <= |s| && n < STATUS_LINE_LENGTH
    ensures n <= 127 && (forall i :: 0 <= i < n - 1 ==> s[i] != '\n') && (n < |s| && n < 127 ==> s[n - 1] == '\n')
  {
    var k := StrChr(s, '\n');
    if 0 <= k < STATUS_LINE_LENGTH - 1 then k + 1
    else if |s| < STATUS_LINE_LENGTH then |s| else STATUS_LINE_LENGTH - 1
  }

  /** The line that `fgets` reads at an offset, as a C string, and the offset after it. */
  function LineAt(file: string, at: nat): string
    requires at < |file|
  {
    CStr(file[at..][..LineLength(file[at..])])
  }

  function NextAt(file: string, at: nat): (next: nat)
    requires at < |file|
    ensures at < next <= |file|
  {
    at + LineLength(file[at..])
  }

  function Line(key: string, value: nat): string {
    key + "=" + Dec(value) + "\n"
  }

  function NewLine(line: string, key: string, value: nat): string {
    if Contains(line, key) then Line(key, value) else line
  }

  /** The text set_..._status_value writes back. */
  function Set(content: string, key: string, value: nat): string {
    if content == "" then ""
    else
      var n := LineLength(content);
      NewLine(CStr(content[..n]), key, value) + Set(content[n..], key, value)
  }

  /**
    What get_..._status_value leaves in its `value` buffer after one line; `mem` is the memory
    from the start of that buffer on.  None when it writes or points outside the buffer.
   */
  function Read(mem: string, line: string, key: string): Option<string> {
    if !Contains(line, key) then Some(mem)
    else
      var eq := StrChr(line, '=');
      var text := line[eq + 1..];
      if eq == -1 || |text| == 0 || |text| > VALUE_SIZE || |text| > |mem| then None
      else
        var copied := text + mem[|text|..];
        if !Contains(CStr(copied), "\r\n") then Some(copied[|text| - 1 := '\0'])
        else if |text| == 1 then None
        else Some(copied[|text| - 2 := '\0'])
  }

  function ReadAll(mem: string, content: string, key: string): Option<string>
    decreases |content|
  {
    if content == "" then Some(mem)
    else
      var n := LineLength(content);
      var next := Read(mem, CStr(content[..n]), key);
      if next.None? then None else ReadAll(next.value, content[n..], key)
  }

  function Get(mem: string, content: string, key: string): Option<int> {
    var final := ReadAll(mem, content, key);
    if final.None? then None else Some(Atoi(CStr(final.value)))
  }

  // The state of the two loops at offset `at`.

  ghost predicate SetSoFar(file: string, key: string, value: nat, at: nat, text: string) {
    at <= |file| && Set(file, key, value) == text + Set(file[at..], key, value)
  }

  lemma SetStart(file: string, key: string, value: nat)
    ensures SetSoFar(file, key, value, 0, "")
  {
    assert file[0..] == file;
    assert "" + Set(file, key, value) == Set(file, key, value);
  }

  lemma SetAt(file: string, key: string, value: nat, at: nat)
    requires at < |file|
    ensures Set(file[at..], key, value) == NewLine(LineAt(file, at), key, value) + Set(file[NextAt(file, at)..], key, value)
  {
    assert file[at..][LineLength(file[at..])..] == file[NextAt(file, at)..];
  }

  lemma SetStep(file: string, key: string, value: nat, at: nat, text: string)
    requires SetSoFar(file, key, value, at, text) && at < |file|
    ensures SetSoFar(file, key, value, NextAt(file, at), text + NewLine(LineAt(file, at), key, value))
  {
    SetAt(file, key, value, at);
    Assoc(text, NewLine(LineAt(file, at), key, value), Set(file[NextAt(file, at)..], key, value));
  }

  lemma SetEnd(file: string, key: string, value: nat, at: nat, text: string)
    requires SetSoFar(file, key, value, at, text) && at == |file|
    ensures Set(file, key, value) == text
  {
    assert text + "" == text;
  }

  ghost predicate ReadSoFar(mem: string, file: string, key: string, at: nat, value: string) {
    at <= |file| && ReadAll(mem, file, key) == ReadAll(value, file[at..], key)
  }

  lemma ReadAt(mem: string, file: string, key: string, at: nat)
    requires at < |file|
    ensures var next := Read(mem, LineAt(file, at), key);
            ReadAll(mem, file[at..], key) == if next.None? then None else ReadAll(next.value, file[NextAt(file, at)..], key)
  {
    assert file[at..][LineLength(file[at..])..] == file[NextAt(file, at)..];
  }

  lemma ReadStep(mem: string, file: string, key: string, at: nat, value: string)
    requires ReadSoFar(mem, file, key, at, value) && at < |file|
    ensures var next := Read(value, LineAt(file, at), key);
            if next.None? then ReadAll(mem, file, key) == None else ReadSoFar(mem, file, key, NextAt(file, at), next.value)
  {
    ReadAt(value, file, key, at);
  }

  method Rewrite(file: string, key: string, value: nat) returns (text: string)
    ensures text == Set(file, key, value)
  {
    text := "";
    var at: nat := 0;
    SetStart(file, key, value);
    while at < |file|
      invariant SetSoFar(file, key, value, at, text)
      decreases |file| - at
    {
      var line := LineAt(file, at);
      SetStep(file, key, value, at, text);
      if Contains(line, key) {
        line := Line(key, value);
      }
      text := text + line;
      at := NextAt(file, at);
    }
    SetEnd(file, key, value, at, text);
  }

  method ReadValue(file: string, key: string, mem: string) returns (result: Option<int>)
    ensures result == Get(mem, file, key)
  {
    var value := mem;
    var at: nat := 0;
    assert file[0..] == file;
    while at < |file|
      invariant ReadSoFar(mem, file, key, at, value)
      decreases |file| - at
    {
      var next := Read(value, LineAt(file, at), key);
      ReadStep(mem, file, key, at, value);
      if next.None? {
        return None;
      }
      value := next.value;
      at := NextAt(file, at);
    }
    result := Some(Atoi(CStr(value)));
  }

  /**
    What becomes of a text that is to replace a file: the file cannot be opened for writing and
    stays as it is; or it is emptied and the first `kept` characters arrive, and the caller is
    told of success or not.  A process that dies in between is one that keeps fewer.
   */
  datatype Save = Skipped | Stored(kept: nat, reported: bool)

  function Kept(text: string, n: nat): string {
    if n < |text| then text[..n] else text
  }

  function Replaced(file: Option<string>, text: string, save: Save): Option<string> {
    if save.Skipped? then file else Some(Kept(text, save.kept))
  }

  /** A record file; None when it cannot be opened. */
  class RecordFile {
    var content: Option<string>

    constructor (initial: Option<string>)
      ensures content == initial
    {
      content := initial;
    }

    /** Two of the three variants report success whatever was stored, the third what `fwrite` says. */
    method SetStatusValue(key: string, value: nat, save: Save) returns (rc: int)
      modifies this
      ensures rc == if old(content).Some? && save.Stored? && save.reported then 0 else -1
      ensures content == if old(content).None? || save.Skipped? then old(content)
                         else
                           var text := Set(old(content).value, key, value);
                           Some(if save.kept < |text| then text[..save.kept] else text)
    {
      if content.None? {
        return -1;
      }
      var text := Rewrite(content.value, key, value);
      if save.Skipped? {
        return -1;
      }
      content := Some(Kept(text, save.kept));
      rc := if save.reported then 0 else -1;
    }

    /** `result` is none where the source leaves its buffer. */
    method GetStatusValue(key: string, mem: string) returns (rc: int, result: Option<int>)
      ensures rc == if content.Some? then 0 else -1
      ensures result == if rc == 0 then Get(mem, content.value, key) else None
    {
      if content.None? {
        return -1, None;
      }
      result := ReadValue(content.value, key, mem);
      rc := 0;
    }
  }

  // ----- A record as a map -----

  datatype Entry = Entry(key: string, value: nat)

  function Render(es: seq<Entry>): string {
    if es == [] then "" else Line(es[0].key, es[0].value) + Render(es[1..])
  }

  predicate KeyOk(k: string) {
    k != "" && '=' !in k && '\n' !in k && '\0' !in k && !IsDigit(k[0])
  }

  /** Looking for `k` meets no other key of the record. */
  predicate Apart(es: seq<Entry>, k: string) {
    KeyOk(k) && forall e <- es :: KeyOk(e.key) && (Contains(e.key, k) ==> e.key == k)
  }

  /** Every line fits the line buffer. */
  predicate Short(es: seq<Entry>) {
    forall e <- es :: |Line(e.key, e.value)| < STATUS_LINE_LENGTH
  }

  function Updated(es: seq<Entry>, k: string, v: nat): (r: seq<Entry>)
    ensures |r| == |es|
    ensures forall i :: 0 <= i < |es| ==> r[i] == if es[i].key == k then Entry(k, v) else es[i]
  {
    if es == [] then [] else [if es[0].key == k then Entry(k, v) else es[0]] + Updated(es[1..], k, v)
  }

  predicate Has(es: seq<Entry>, k: string) {
    exists e <- es :: e.key == k
  }

  /** Every key has one line. */
  predicate Unique(es: seq<Entry>) {
    forall i, j :: 0 <= i < j < |es| ==> es[i].key != es[j].key
  }

  function Lookup(es: seq<Entry>, k: string): (v: nat)
    requires Has(es, k)
    ensures Entry(k, v) in es
  {
    if es[0].key == k then es[0].value
    else
      assert Has(es[1..], k);
      Lookup(es[1..], k)
  }

  // ----- Lines -----

  /** A `key=value` line contains a key exactly when its own key does. */
  lemma LineContains(k: string, v: nat, key: string)
    requires KeyOk(k) && KeyOk(key)
    ensures Contains(Line(k, v), key) <==> Contains(k, key)
  {
    var line := Line(k, v);
    if Contains(k, key) {
      var i := StrStr(k, key);
      assert line[i..i + |key|] == k[i..i + |key|];
      ContainsAt(line, key, i);
    }
    if Contains(line, key) {
      var i := StrStr(line, key);
      assert forall j :: 0 <= j < |key| ==> line[i + j] == key[j];
      assert line[|k|] == '=';
      if i + |key| <= |k| {
        assert k[i..i + |key|] == line[i..i + |key|];
        ContainsAt(k, key, i);
      }
    }
  }

  /** The first line read back from a record is its first entry's. */
  lemma FirstLine(k: string, v: nat, rest: string)
    requires KeyOk(k) && |Line(k, v)| < STATUS_LINE_LENGTH
    ensures var s := Line(k, v) + rest;
            var n := LineLength(s);
            n == |Line(k, v)| && CStr(s[..n]) == Line(k, v) && s[n..] == rest
  {
    var line := Line(k, v);
    var s := line + rest;
    var body := k + "=" + Dec(v);
    assert '\n' !in Dec(v) && '\0' !in Dec(v);
    assert s == body + ['\n'] + rest;
    StrChrAfter(body, '\n', rest);
    assert s[..|line|] == line;
    CStrPlain(line, "");
    assert line + "" == line;
  }

  // ----- Setting -----

  /** Setting a value rewrites that key's line and leaves every other line, in order, as it was. */
  lemma {:induction false} SetRefines(es: seq<Entry>, key: string, v: nat)
    requires Apart(es, key) && Short(es)
    ensures Set(Render(es), key, v) == Render(Updated(es, key, v))
  {
    if es != [] {
      var e, rest := es[0], Render(es[1..]);
      assert e in es;
      FirstLine(e.key, e.value, rest);
      LineContains(e.key, e.value, key);
      if e.key == key {
        assert key[0..|key|] == key;
        ContainsAt(key, key, 0);
      }
      SetRefines(es[1..], key, v);
    }
  }

  lemma LineLengthIs(k: string, v: nat)
    ensures |Line(k, v)| == |k| + |Dec(v)| + 2
  {
  }

  lemma {:induction false} UpdatedWithout(es: seq<Entry>, key: string, v: nat)
    requires !Has(es, key)
    ensures Updated(es, key, v) == es
  {
  }

  lemma {:induction false} UpdatedGrows(es: seq<Entry>, key: string, v: nat)
    requires Unique(es)
    ensures |Render(Updated(es, key, v))| < |Render(es)| + |Dec(v)|
  {
    if es != [] {
      var tail := Updated(es[1..], key, v);
      assert Updated(es, key, v)[1..] == tail;
      if es[0].key == key {
        assert !Has(es[1..], key);
        UpdatedWithout(es[1..], key, v);
        LineLengthIs(key, v);
        LineLengthIs(key, es[0].value);
      } else {
        UpdatedGrows(es[1..], key, v);
      }
    }
  }

  /** The text and its NUL fit the file_size + value_len + 1 bytes that are allocated. */
  lemma SetFits(es: seq<Entry>, key: string, v: nat)
    requires Apart(es, key) && Short(es) && Unique(es) && v < TWO_32
    ensures |Set(Render(es), key, v)| + 1 <= |Render(es)| + CountIntLength(v) + 1
  {
    SetRefines(es, key, v);
    UpdatedGrows(es, key, v);
    CountIsDecimalLength(v);
  }

  // ----- Getting -----

  lemma ContainsLater(a: string, b: string, p: string)
    requires Contains(b, p)
    ensures Contains(a + b, p)
  {
    var i := StrStr(b, p);
    var s := a + b;
    assert s[|a| + i..|a| + i + |p|] == b[i..i + |p|];
    ContainsAt(s, p, |a| + i);
  }

  lemma ContainsRight(a: string, b: string, p: string)
    requires p != "" && p[0] !in a
    ensures Contains(a + b, p) <==> Contains(b, p)
  {
    var s := a + b;
    if Contains(s, p) {
      var i := StrStr(s, p);
      NotBefore(a, b, p, i);
      ContainsAt(b, p, i - |a|);
    }
    if Contains(b, p) {
      ContainsLater(a, b, p);
    }
  }

  lemma NotBefore(a: string, b: string, p: string, i: nat)
    requires p != "" && p[0] !in a && At(a + b, p, i)
    ensures i >= |a| && At(b, p, i - |a|)
  {
    var s := a + b;
    assert s[i..i + |p|][0] == s[i];
    assert forall j :: 0 <= j < |a| ==> s[j] in a;
    assert b[i - |a|..i - |a| + |p|] == s[i..i + |p|];
  }

  /** What lies behind the copied text holds a CR LF before its first NUL. */
  predicate Dirty(mem: string, v: nat)
    requires |Dec(v)| < |mem|
  {
    Contains(CStr(mem[|Dec(v)| + 1..]), "\r\n")
  }

  lemma CutAt(s: string, n: nat, rest: string)
    requires '\0' !in s && n < |s|
    ensures CStr((s + rest)[n := '\0']) == s[..n]
  {
    var cut := (s + rest)[n := '\0'];
    assert cut == s[..n] + (['\0'] + cut[n + 1..]);
    CStrPlain(s[..n], ['\0'] + cut[n + 1..]);
    assert s[..n] + "" == s[..n];
  }

  lemma DecLength(v: nat)
    requires v <= 9999
    ensures |Dec(v)| <= 4 && (|Dec(v)| > 1 <==> v >= 10)
  {
    CountIsDecimalLength(v);
  }

  lemma DecPrefix(v: nat)
    requires v >= 10
    ensures Dec(v)[..|Dec(v)| - 1] == Dec(v / 10)
  {
  }

  /** Reading the key's own line: the text after the `=` is copied and cut short. */
  lemma ReadText(mem: string, key: string, v: nat)
    requires KeyOk(key) && |Dec(v)| < VALUE_SIZE <= |mem|
    ensures var copied := Dec(v) + "\n" + mem[|Dec(v)| + 1..];
            Read(mem, Line(key, v), key) == Some(copied[|Dec(v)| - (if Dirty(mem, v) then 1 else 0) := '\0'])
  {
    var line, text := Line(key, v), Dec(v) + "\n";
    LineContains(key, v, key);
    assert key[0..|key|] == key;
    ContainsAt(key, key, 0);
    assert line == key + ['='] + text;
    StrChrAfter(key, '=', text);
    assert line[|key| + 1..] == text;
    var rest := mem[|text|..];
    CStrPlain(text, rest);
    ContainsRight(text, CStr(rest), "\r\n");
  }

  lemma ReadLine(mem: string, key: string, v: nat) returns (after: string)
    requires KeyOk(key) && v <= 9999 && |mem| >= VALUE_SIZE
    ensures |Dec(v)| <= 4
    ensures Read(mem, Line(key, v), key) == Some(after)
    ensures Atoi(CStr(after)) == if Dirty(mem, v) then v / 10 else v
  {
    DecLength(v);
    ReadText(mem, key, v);
    var text, rest := Dec(v) + "\n", mem[|Dec(v)| + 1..];
    after := Read(mem, Line(key, v), key).value;
    if Dirty(mem, v) {
      CutAt(text, |text| - 2, rest);
      if v >= 10 {
        DecPrefix(v);
        assert text[..|text| - 2] == Dec(v / 10);
        AtoiDec(v / 10);
      } else {
        assert text[..|text| - 2] == "";
      }
    } else {
      CutAt(text, |text| - 1, rest);
      assert text[..|text| - 1] == Dec(v);
      AtoiDec(v);
    }
  }

  /** A value of five digits or more does not fit the buffer. */
  lemma ReadTooLong(mem: string, key: string, v: nat)
    requires KeyOk(key) && v >= 10000
    ensures Read(mem, Line(key, v), key) == None
  {
    var line, text := Line(key, v), Dec(v) + "\n";
    LineContains(key, v, key);
    assert key[0..|key|] == key;
    ContainsAt(key, key, 0);
    assert line == key + ['='] + text;
    StrChrAfter(key, '=', text);
    assert line[|key| + 1..] == text;
    FiveDigits(v);
  }

  lemma {:induction false} FiveDigits(v: nat)
    requires v >= 10000
    ensures |Dec(v)| >= 5
  {
    if v >= 100000 {
      FiveDigits(v / 10);
    } else {
      CountIsDecimalLength(v);
    }
  }

  lemma {:induction false} ReadWithout(mem: string, es: seq<Entry>, key: string)
    requires Apart(es, key) && Short(es) && !Has(es, key)
    ensures ReadAll(mem, Render(es), key) == Some(mem)
  {
    if es != [] {
      var e := es[0];
      assert e in es;
      FirstLine(e.key, e.value, Render(es[1..]));
      LineContains(e.key, e.value, key);
      ReadWithout(mem, es[1..], key);
    }
  }

  /**
    For values up to 9999 the get returns the key's value, except that a CR LF lying in the
    stack memory behind the copied text costs it the last digit.
   */
  lemma {:induction false} GetRefines(mem: string, es: seq<Entry>, key: string)
    requires Apart(es, key) && Short(es) && Unique(es) && Has(es, key)
    requires Lookup(es, key) <= 9999 && |mem| >= VALUE_SIZE
    ensures var v := Lookup(es, key);
            |Dec(v)| <= 4 && Get(mem, Render(es), key) == Some(if Dirty(mem, v) then v / 10 else v)
  {
    var e := es[0];
    assert e in es;
    FirstLine(e.key, e.value, Render(es[1..]));
    if e.key == key {
      var after := ReadLine(mem, key, e.value);
      assert !Has(es[1..], key);
      ReadWithout(after, es[1..], key);
    } else {
      LineContains(e.key, e.value, key);
      GetRefines(mem, es[1..], key);
    }
  }

  // ----- The map laws -----

  lemma {:induction false} UpdatedLookup(es: seq<Entry>, key: string, v: nat, other: string)
    requires Has(es, other)
    ensures Has(Updated(es, key, v), other)
    ensures Lookup(Updated(es, key, v), other) == if other == key then v else Lookup(es, other)
  {
    assert Updated(es, key, v)[1..] == Updated(es[1..], key, v);
    if es[0].key == other {
      assert Updated(es, key, v)[0].key == other;
    } else {
      assert Has(es[1..], other);
      UpdatedLookup(es[1..], key, v, other);
      var u :| u in Updated(es[1..], key, v) && u.key == other;
      assert u in Updated(es, key, v);
    }
  }

  /** What a set leaves is again a record that can be read. */
  lemma UpdatedApart(es: seq<Entry>, key: string, v: nat, other: string)
    requires Apart(es, other)
    ensures Apart(Updated(es, key, v), other)
  {
    var us := Updated(es, key, v);
    forall u | u in us
      ensures KeyOk(u.key) && (Contains(u.key, other) ==> u.key == other)
    {
      var i :| 0 <= i < |us| && us[i] == u;
      assert es[i] in es && es[i].key == u.key;
    }
  }

  lemma UpdatedShort(es: seq<Entry>, key: string, v: nat)
    requires Short(es) && |Line(key, v)| < STATUS_LINE_LENGTH
    ensures Short(Updated(es, key, v))
  {
    var us := Updated(es, key, v);
    forall u | u in us
      ensures |Line(u.key, u.value)| < STATUS_LINE_LENGTH
    {
      var i :| 0 <= i < |us| && us[i] == u;
      assert es[i] in es;
    }
  }

  lemma UpdatedUnique(es: seq<Entry>, key: string, v: nat)
    requires Unique(es)
    ensures Unique(Updated(es, key, v))
  {
  }

  /** Get after set: the value that was set, or for another key the value from before. */
  lemma GetAfterSet(mem: string, es: seq<Entry>, key: string, v: nat, other: string)
    requires Apart(es, key) && Apart(es, other) && Short(es) && Unique(es) && Has(es, other)
    requires |Line(key, v)| < STATUS_LINE_LENGTH && |mem| >= VALUE_SIZE
    requires v <= 9999 && Lookup(es, other) <= 9999
    ensures var now := if other == key then v else Lookup(es, other);
            |Dec(now)| <= 4 && Get(mem, Set(Render(es), key, v), other) == Some(if Dirty(mem, now) then now / 10 else now)
  {
    SetRefines(es, key, v);
    UpdatedApart(es, key, v, other);
    UpdatedShort(es, key, v);
    UpdatedUnique(es, key, v);
    UpdatedLookup(es, key, v, other);
    GetRefines(mem, Updated(es, key, v), other);
  }
}
