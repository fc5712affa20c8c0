/**
  The C string functions that the flashing code is built on, over `string`.
  An octet is a Dafny `char`, as it is a C `char` in the source.
 */
module CText {

  datatype Option<+T> = None | Some(value: T) {
    function Or(default: T): T {
      if None? then default else value
    }
  }

  const TWO_32: int := 0x1_0000_0000
  const TWO_63: int := 0x8000_0000_0000_0000

  /** Conversion to a 32-bit unsigned number. */
  function U32(n: nat): (r: nat)
    ensures r < TWO_32 && (n < TWO_32 ==> r == n)
  {
    if n < TWO_32 then n else n % TWO_32
  }

  /** What `%s` and `strcpy` see of a buffer: everything before the first NUL. */
  function CStr(s: string): (r: string)
    ensures r <= s && '\0' !in r
    ensures |r| < |s| ==> s[|r|] == '\0'
  {
    if s == "" || s[0] == '\0' then "" else [s[0]] + CStr(s[1..])
  }

  /** `p` occurs in `s` at position `i`. */
  predicate At(s: string, p: string, i: int) {
    0 <= i && i + |p| <= |s| && s[i..i + |p|] == p
  }

  /** `strstr`, as a position: the first occurrence, or -1. */
  function StrStr(s: string, p: string, from: nat := 0): (r: int)
    ensures r == -1 || (from <= r && At(s, p, r))
    ensures forall j :: from <= j && (r == -1 || j < r) ==> !At(s, p, j)
    decreases |s| - from
  {
    if from + |p| > |s| then -1
    else if At(s, p, from) then from
    else StrStr(s, p, from + 1)
  }

  predicate Contains(s: string, p: string) {
    StrStr(s, p) != -1
  }

  lemma ContainsAt(s: string, p: string, i: int)
    requires At(s, p, i)
    ensures Contains(s, p)
  {
  }

  /** A character of `p` is missing in `s`. */
  lemma NotInside(s: string, p: string, k: nat)
    requires k < |p| && p[k] !in s
    ensures !Contains(s, p)
  {
    assert forall i :: At(s, p, i) ==> s[i..i + |p|][k] == s[i + k] && s[i + k] in s;
  }

  /** `strchr`, as a position, or -1. */
  function StrChr(s: string, c: char): (r: int)
    ensures r == -1 <==> c !in s
    ensures r != -1 ==> 0 <= r < |s| && s[r] == c && c !in s[..r]
  {
    if s == "" then -1
    else if s[0] == c then 0
    else
      var k := StrChr(s[1..], c);
      if k == -1 then -1 else
        assert s[..k + 1] == [s[0]] + s[1..][..k];
        k + 1
  }

  lemma StrChrAfter(a: string, c: char, b: string)
    requires c !in a
    ensures StrChr(a + [c] + b, c) == |a|
  {
    var s := a + [c] + b;
    var k := StrChr(s, c);
    assert s[|a|] == c;
    assert forall j :: 0 <= j < |a| ==> s[j] == a[j];
    assert forall j :: |a| < j <= |s| ==> s[..j][|a|] == c;
  }

  lemma {:induction false} CStrPlain(a: string, b: string)
    requires '\0' !in a
    ensures CStr(a + b) == a + CStr(b)
  {
    if a == "" {
      assert a + b == b;
    } else {
      assert (a + b)[1..] == a[1..] + b;
      CStrPlain(a[1..], b);
    }
  }

  predicate IsSpace(c: char) {
    c == ' ' || '\t' <= c <= '\r'
  }

  function SkipSpace(s: string): (r: string)
    ensures |r| <= |s| && (r != "" ==> !IsSpace(r[0]))
  {
    if s != "" && IsSpace(s[0]) then SkipSpace(s[1..]) else s
  }

  // ----- Hexadecimal -----

  const DIGITS: string := "0123456789abcdef"

  /** The value of a hexadecimal digit in either case, or -1. */
  function HexValue(c: char): (v: int)
    ensures -1 <= v < 16
    ensures v != -1 && !('A' <= c <= 'F') ==> DIGITS[v] == c
  {
    if '0' <= c <= '9' then c as int - '0' as int
    else if 'a' <= c <= 'f' then c as int - 'a' as int + 10
    else if 'A' <= c <= 'F' then c as int - 'A' as int + 10
    else -1
  }

  /** The low `w` hexadecimal digits of `n`; `%08x` of a 32-bit number is `HexPad(n, 8)`. */
  function HexPad(n: nat, w: nat): (s: string)
    ensures |s| == w
    ensures forall i :: 0 <= i < w ==> HexValue(s[i]) != -1
  {
    if w == 0 then "" else HexPad(n / 16, w - 1) + [DIGITS[n % 16]]
  }

  /** The number a run of leading hexadecimal digits denotes, appended to `acc`. */
  function ScanHex(s: string, acc: nat := 0): nat {
    if s != "" && HexValue(s[0]) != -1 then ScanHex(s[1..], 16 * acc + HexValue(s[0])) else acc
  }

  function Pow16(w: nat): (p: nat)
    ensures p > 0
  {
    if w == 0 then 1 else 16 * Pow16(w - 1)
  }

  lemma DigitRoundTrip(d: int)
    requires 0 <= d < 16
    ensures HexValue(DIGITS[d]) == d
  {
    assert DIGITS[d] == if d < 10 then ('0' as int + d) as char else ('a' as int + d - 10) as char;
  }

  lemma {:induction false} ScanAppend(a: string, b: string, acc: nat)
    requires forall i :: 0 <= i < |a| ==> HexValue(a[i]) != -1
    ensures ScanHex(a + b, acc) == ScanHex(b, ScanHex(a, acc))
  {
    if a == "" {
      assert a + b == b;
    } else {
      assert (a + b)[1..] == a[1..] + b;
      ScanAppend(a[1..], b, 16 * acc + HexValue(a[0]));
    }
  }

  lemma ScanDigit(d: int, acc: nat)
    requires 0 <= d < 16
    ensures ScanHex([DIGITS[d]], acc) == 16 * acc + d
  {
    DigitRoundTrip(d);
    assert [DIGITS[d]][1..] == "";
  }

  lemma {:induction false} ScanPad(n: nat, w: nat)
    requires n < Pow16(w)
    ensures ScanHex(HexPad(n, w)) == n
  {
    if w > 0 {
      ScanPad(n / 16, w - 1);
      ScanAppend(HexPad(n / 16, w - 1), [DIGITS[n % 16]], 0);
      ScanDigit(n % 16, n / 16);
    }
  }

  /** The digits, without a 0x that is followed by one. */
  function AfterPrefix(u: string): string {
    if |u| > 2 && u[0] == '0' && (u[1] == 'x' || u[1] == 'X') && HexValue(u[2]) != -1 then u[2..] else u
  }

  /** `strtol(s, 0, 16)` on a 64-bit system: blanks, sign, optional 0x, digits, saturation. */
  function StrToL16(s: string): int {
    var t := SkipSpace(s);
    var negative := t != "" && t[0] == '-';
    var u := if t != "" && (t[0] == '-' || t[0] == '+') then t[1..] else t;
    var v: int := ScanHex(AfterPrefix(u));
    if negative then (if v > TWO_63 then -TWO_63 else -v) else (if v >= TWO_63 then TWO_63 - 1 else v)
  }

  /** The digits, in either case, and nothing else. */
  lemma HexDigitsAre(c: char, i: nat)
    ensures i < 16 ==> HexValue("0123456789abcdef"[i]) == i
    ensures i < 6 ==> HexValue("ABCDEF"[i]) == 10 + i
    ensures HexValue(c) != -1 ==> c in "0123456789abcdef" || c in "ABCDEF"
  {
    if HexValue(c) != -1 {
      var v := HexValue(c);
      assert c == "0123456789abcdef"[v] || c == "ABCDEF"[v - 10];
    }
  }

  lemma {:induction false} BlanksInFront(a: string, t: string)
    requires (forall i :: 0 <= i < |a| ==> IsSpace(a[i])) && (t == "" || !IsSpace(t[0]))
    ensures SkipSpace(a + t) == t
  {
    if a == "" {
      assert a + t == t;
    } else {
      assert (a + t)[1..] == a[1..] + t;
      BlanksInFront(a[1..], t);
    }
  }

  /** strtol takes blanks, a sign and a 0x in either case in front of the digits, and keeps to the range of a long. */
  lemma LongReads(a: string, sign: string, prefix: string, d: string)
    requires forall i :: 0 <= i < |a| ==> a[i] == ' ' || a[i] == '\t' || a[i] == '\n' || a[i] == '\r'
    requires sign == "" || sign == "+" || sign == "-"
    requires prefix == "" || prefix == "0x" || prefix == "0X"
    requires d != "" && forall i :: 0 <= i < |d| ==> HexValue(d[i]) != -1
    ensures var v := ScanHex(d);
            StrToL16(a + (sign + (prefix + d))) ==
            if sign == "-" then (if v > 0x8000_0000_0000_0000 then -0x8000_0000_0000_0000 else -(v as int))
            else if v >= 0x8000_0000_0000_0000 then 0x7fff_ffff_ffff_ffff else v
  {
    var u := prefix + d;
    var t := sign + u;
    PrefixDropped(prefix, d);
    SignFirst(sign, u);
    FewBlanks(a, t);
  }

  lemma FewBlanks(a: string, t: string)
    requires forall i :: 0 <= i < |a| ==> a[i] == ' ' || a[i] == '\t' || a[i] == '\n' || a[i] == '\r'
    requires t != "" && !IsSpace(t[0])
    ensures SkipSpace(a + t) == t
  {
    BlanksInFront(a, t);
  }

  lemma SignFirst(sign: string, u: string)
    requires (sign == "" || sign == "+" || sign == "-") && u != "" && HexValue(u[0]) != -1
    ensures var t := sign + u;
            && t != "" && !IsSpace(t[0]) && (t[0] == '-' <==> sign == "-") && (t[0] == '+' <==> sign == "+")
            && (if t[0] == '-' || t[0] == '+' then t[1..] else t) == u
  {
    if sign == "" {
      assert sign + u == u;
    } else {
      assert (sign + u)[1..] == u;
    }
  }

  lemma PrefixDropped(prefix: string, d: string)
    requires prefix == "" || prefix == "0x" || prefix == "0X"
    requires d != "" && forall i :: 0 <= i < |d| ==> HexValue(d[i]) != -1
    ensures AfterPrefix(prefix + d) == d && prefix + d != "" && HexValue((prefix + d)[0]) != -1
  {
    var u := prefix + d;
    assert u[|prefix|..] == d;
    if prefix == "" {
      assert u == d && (|d| > 1 ==> HexValue(d[1]) != -1);
    } else {
      assert u[2] == d[0];
    }
  }

  /** What `%08x` prints, `strtol` reads back, with or without a 0x in front. */
  lemma {:induction false} Hex8RoundTrip(n: nat)
    requires n < TWO_32
    ensures |HexPad(n, 8)| == 8
    ensures StrToL16(HexPad(n, 8)) == n
    ensures StrToL16("0x" + HexPad(n, 8)) == n
  {
    var h := HexPad(n, 8);
    HexPadScanned(n, h);
    LongReads("", "", "", h);
    LongReads("", "", "0x", h);
    assert "" + ("" + ("" + h)) == h && "" + ("" + ("0x" + h)) == "0x" + h;
  }

  lemma HexPadScanned(n: nat, h: string)
    requires n < TWO_32 && h == HexPad(n, 8)
    ensures ScanHex(h) == n
  {
    assert Pow16(8) == TWO_32 by {
      assert Pow16(4) == 65536;
      assert Pow16(8) == 16 * (16 * (16 * (16 * Pow16(4))));
    }
    ScanPad(n, 8);
  }

  // ----- Joining -----

  lemma Assoc<T>(a: seq<T>, b: seq<T>, c: seq<T>)
    ensures a + b + c == a + (b + c)
    ensures a + [] == a
  {
  }

  function Join(parts: seq<string>): string {
    if parts == [] then "" else parts[0] + Join(parts[1..])
  }
}
