/**
  pwl-fwupdate/fb_programing.c: reading the partition layout the device declares in its
  answers to an image header, and cutting an image file into temporary files.
 */
module FlashLayout {
  import opened CText
  import opened EngineWire
  import opened FastbootDriver

  const MAX_DOWNLOAD_FW_IMAGES: nat := 1
  const MAX_DOWNLOAD_OEM_IMAGES: nat := 100
  const MAX_DOWNLOAD_PRI_IMAGES: nat := 100
  const MAX_DOWNLOAD_IMAGES: nat := MAX_DOWNLOAD_FW_IMAGES + MAX_DOWNLOAD_OEM_IMAGES
  const HEADER_BUF_SIZE: nat := 1024
  const TEMP_IMAGE_FILE_BUF_SIZE: nat := 1024

  // ----- get_offset_and_size -----

  function ToInt32(v: int): (r: int)
    ensures -0x8000_0000 <= r < 0x8000_0000
    ensures -0x8000_0000 <= v < 0x8000_0000 ==> r == v
  {
    var u := v % TWO_32;
    if u >= 0x8000_0000 then u - TWO_32 else u
  }

  /** `sscanf(s, "%x", &v)` into an int: none when there is no number. */
  function ScanX(s: string): Option<int> {
    var t := SkipSpace(s);
    var u := if t != "" && (t[0] == '-' || t[0] == '+') then t[1..] else t;
    if u == "" || HexValue(u[0]) == -1 then None
    else
      var v: int := ScanHex(AfterPrefix(u));
      var w := if v >= TWO_32 * TWO_32 then TWO_32 * TWO_32 - 1 else v;
      Some(ToInt32(if t[0] == '-' then -w else w))
  }

  /** The two numbers after the first two colons; what is missing keeps its old value. */
  function OffsetAndSize(msg: string, offset: int, size: int): (int, int) {
    var first := StrChr(msg, ':');
    if first == -1 then (offset, size)
    else
      var rest := msg[first + 1..];
      var second := StrChr(rest, ':');
      if second == -1 then (offset, size)
      else (ScanX(rest[..second]).Or(offset), ScanX(rest[second + 1..]).Or(size))
  }

  // ----- post_process_fastboot -----

  /** Part of an image file, and the partition it is for. */
  datatype Slice = Slice(name: string, offset: int, size: int)

  datatype Layout = Layout(images: seq<Slice>, fw: nat, oem: nat, pri: seq<Slice>)

  /** The counters and the tables agree, and no table is overfull. */
  predicate Fits(l: Layout) {
    && |l.images| == l.fw + l.oem && l.fw <= MAX_DOWNLOAD_FW_IMAGES && l.oem <= MAX_DOWNLOAD_OEM_IMAGES
    && |l.pri| <= MAX_DOWNLOAD_PRI_IMAGES
  }

  /** The layout read so far, with the two locals that outlive a message. */
  datatype Reader = Reader(layout: Layout, offset: int, size: int)

  /** `strncpy(name, msg + pos, 8)` */
  function SlotName(msg: string, pos: nat): string
    requires pos <= |msg|
  {
    if pos + 8 <= |msg| then msg[pos..pos + 8] else msg[pos..]
  }

  function Absorb(r: Reader, msg: string): (r': Reader)
    requires Fits(r.layout)
    ensures Fits(r'.layout) && |r.layout.pri| <= |r'.layout.pri| <= 100
    ensures |r'.layout.images| == r'.layout.fw + r'.layout.oem <= 101 && r'.layout.fw <= 1
  {
    var l := r.layout;
    var (offset, size) := OffsetAndSize(msg, r.offset, r.size);
    if !Contains(msg, "(bootloader)") || Contains(msg, "image_count = ") then r
    else if Contains(msg, "slot_") then
      if l.fw < MAX_DOWNLOAD_FW_IMAGES then
        var slice := Slice(SlotName(msg, StrStr(msg, "slot_")), offset, size);
        Reader(l.(images := l.images + [slice], fw := l.fw + 1), offset, size)
      else r
    else if Contains(msg, "capri_c") then
      if |l.pri| < MAX_DOWNLOAD_PRI_IMAGES then
        Reader(l.(pri := l.pri + [Slice("capri_c", offset, size)]), offset, size)
      else r
    else if Contains(msg, "mcf_c") then
      if l.oem < MAX_DOWNLOAD_OEM_IMAGES then
        Reader(l.(images := l.images + [Slice("mcf_c", offset, size)], oem := l.oem + 1), offset, size)
      else r
    else r
  }

  lemma FailedLater(msgs: seq<string>)
    requires msgs != [] && !Failed(msgs[0])
    ensures AnyFailed(msgs) <==> AnyFailed(msgs[1..])
  {
    if AnyFailed(msgs) {
      var i :| 0 <= i < |msgs| && Failed(msgs[i]);
      assert msgs[1..][i - 1] == msgs[i];
    }
  }

  /** Messages are read in order up to the first failure; only a header session declares a layout. */
  function PostProcess(r: Reader, msgs: seq<string>, header: bool): (p: (Reader, int))
    requires Fits(r.layout)
    ensures Fits(p.0.layout) && |r.layout.pri| <= |p.0.layout.pri|
    decreases |msgs|
  {
    if msgs == [] then (r, 1)
    else if Failed(msgs[0]) then (r, -1)
    else PostProcess(if header then Absorb(r, msgs[0]) else r, msgs[1..], header)
  }

  /**
    post_process_fastboot returns 1 exactly when no message says FAILED; it only ever adds to
    the tables, and a session that is not a header's leaves them alone.
   */
  lemma {:induction false} PostProcessOutcome(r: Reader, msgs: seq<string>, header: bool)
    requires Fits(r.layout)
    ensures var (r', rc) := PostProcess(r, msgs, header);
            && rc == (if AnyFailed(msgs) then -1 else 1)
            && r.layout.images <= r'.layout.images && r.layout.pri <= r'.layout.pri
            && (!header ==> r' == r)
    decreases |msgs|
  {
    if msgs != [] && !Failed(msgs[0]) {
      FailedLater(msgs);
      PostProcessOutcome(if header then Absorb(r, msgs[0]) else r, msgs[1..], header);
    }
  }

  // ----- What a device declares -----

  predicate Hex(d: string) {
    d != "" && forall i :: 0 <= i < |d| ==> HexValue(d[i]) != -1
  }

  /** A declaration as it stands in the log: a partition name, and an offset and a size in hexadecimal. */
  function Declaration(name: string, offset: string, size: string): string {
    "(bootloader) " + name + [':'] + ("0x" + offset + [':'] + ("0x" + size + "\n"))
  }

  lemma ScanXReads(d: string)
    requires Hex(d) && ScanHex(d) < 0x8000_0000
    ensures ScanX("0x" + d) == Some(ScanHex(d)) && ScanX("0x" + d + "\n") == Some(ScanHex(d))
  {
    var s, t := "0x" + d, "0x" + d + "\n";
    assert s[2..] == d && t[2..] == d + "\n" && s[2] == d[0] && t[2] == d[0];
    assert SkipSpace(s) == s && SkipSpace(t) == t;
    ScanAppend(d, "\n", 0);
  }

  lemma NumbersRead(name: string, o: string, n: string, offset: int, size: int)
    requires ':' !in name && Hex(o) && Hex(n) && ScanHex(o) < 0x8000_0000 && ScanHex(n) < 0x8000_0000
    ensures OffsetAndSize(Declaration(name, o, n), offset, size) == (ScanHex(o), ScanHex(n))
  {
    var head, tail := "(bootloader) " + name, "0x" + n + "\n";
    var rest := "0x" + o + [':'] + tail;
    var msg := head + [':'] + rest;
    StrChrAfter(head, ':', rest);
    assert msg[|head| + 1..] == rest;
    assert ':' !in "0x" + o;
    StrChrAfter("0x" + o, ':', tail);
    assert rest[..|o| + 2] == "0x" + o && rest[|o| + 3..] == tail;
    ScanXReads(o);
    ScanXReads(n);
  }

  /** No character of a declaration is an `=`, and none outside its name is an `s` or a `p`. */
  lemma Letters(name: string, o: string, n: string)
    requires Hex(o) && Hex(n) && '=' !in name
    ensures var msg := Declaration(name, o, n);
            && '=' !in msg && ('s' !in name ==> 's' !in msg) && ('p' !in name ==> 'p' !in msg)
  {
    assert forall c <- o :: HexValue(c) != -1;
    assert forall c <- n :: HexValue(c) != -1;
  }

  lemma NameInside(name: string, o: string, n: string)
    ensures Contains(Declaration(name, o, n), "(bootloader)") && Contains(Declaration(name, o, n), name)
  {
    var msg := Declaration(name, o, n);
    assert msg[0..12] == "(bootloader)";
    ContainsAt(msg, "(bootloader)", 0);
    assert msg[13..13 + |name|] == name;
    ContainsAt(msg, name, 13);
  }

  lemma OemMarks(o: string, n: string)
    requires Hex(o) && Hex(n)
    ensures var msg := Declaration("mcf_c", o, n);
            && Contains(msg, "(bootloader)") && Contains(msg, "mcf_c")
            && !Contains(msg, "image_count = ") && !Contains(msg, "slot_") && !Contains(msg, "capri_c")
  {
    var msg := Declaration("mcf_c", o, n);
    NameInside("mcf_c", o, n);
    Letters("mcf_c", o, n);
    NotInside(msg, "image_count = ", 12);
    NotInside(msg, "slot_", 0);
    NotInside(msg, "capri_c", 2);
  }

  lemma CarrierMarks(o: string, n: string)
    requires Hex(o) && Hex(n)
    ensures var msg := Declaration("capri_c", o, n);
            && Contains(msg, "(bootloader)") && Contains(msg, "capri_c")
            && !Contains(msg, "image_count = ") && !Contains(msg, "slot_")
  {
    var msg := Declaration("capri_c", o, n);
    NameInside("capri_c", o, n);
    Letters("capri_c", o, n);
    NotInside(msg, "image_count = ", 12);
    NotInside(msg, "slot_", 0);
  }

  /** A declared OEM image is recorded as exactly that, in the next free entry. */
  lemma OemDeclared(r: Reader, o: string, n: string)
    requires Fits(r.layout) && Hex(o) && Hex(n) && ScanHex(o) < 0x8000_0000 && ScanHex(n) < 0x8000_0000
    ensures Absorb(r, Declaration("mcf_c", o, n)).layout ==
            if r.layout.oem >= 100 then r.layout
            else r.layout.(images := r.layout.images + [Slice("mcf_c", ScanHex(o), ScanHex(n))], oem := r.layout.oem + 1)
  {
    NumbersRead("mcf_c", o, n, r.offset, r.size);
    OemMarks(o, n);
  }

  /** So is a declared carrier slice. */
  lemma CarrierDeclared(r: Reader, o: string, n: string)
    requires Fits(r.layout) && Hex(o) && Hex(n) && ScanHex(o) < 0x8000_0000 && ScanHex(n) < 0x8000_0000
    ensures Absorb(r, Declaration("capri_c", o, n)).layout ==
            if |r.layout.pri| >= 100 then r.layout
            else r.layout.(pri := r.layout.pri + [Slice("capri_c", ScanHex(o), ScanHex(n))])
  {
    NumbersRead("capri_c", o, n, r.offset, r.size);
    CarrierMarks(o, n);
  }

  /** And a declared firmware slot, under its eight-letter name. */
  lemma SlotDeclared(r: Reader, slot: string, o: string, n: string)
    requires Fits(r.layout) && Hex(o) && Hex(n) && ScanHex(o) < 0x8000_0000 && ScanHex(n) < 0x8000_0000
    requires |slot| == 3 && ':' !in slot && '=' !in slot
    ensures Absorb(r, Declaration("slot_" + slot, o, n)).layout ==
            if r.layout.fw >= 1 then r.layout
            else r.layout.(images := r.layout.images + [Slice("slot_" + slot, ScanHex(o), ScanHex(n))], fw := r.layout.fw + 1)
  {
    NumbersRead("slot_" + slot, o, n, r.offset, r.size);
    SlotMarks(slot, o, n);
  }

  ghost predicate Inside(msg: string, p: string) {
    exists i :: At(msg, p, i)
  }

  /** Every other message declares nothing: one that is not the bootloader's, the count of the images, or no known name. */
  lemma NothingDeclared(r: Reader, msg: string)
    requires Fits(r.layout)
    requires || !Inside(msg, "(bootloader)") || Inside(msg, "image_count = ")
             || (!Inside(msg, "slot_") && !Inside(msg, "capri_c") && !Inside(msg, "mcf_c"))
    ensures Absorb(r, msg) == r
  {
    forall p | Contains(msg, p)
      ensures Inside(msg, p)
    {
      assert At(msg, p, StrStr(msg, p));
    }
  }

  /** A number read with a sign or none in front, as it wraps into 32 bits. */
  lemma ScanXWraps(d: string)
    requires Hex(d) && ScanHex(d) < TWO_32
    ensures ScanX("0x" + d) == Some(if ScanHex(d) < 0x8000_0000 then ScanHex(d) else ScanHex(d) - 0x1_0000_0000)
  {
    var s := "0x" + d;
    assert s[2..] == d && s[2] == d[0] && SkipSpace(s) == s;
  }

  lemma ScanXSigned(d: string, c: char)
    requires Hex(d) && ScanHex(d) < 0x8000_0000 && (c == '-' || c == '+' || c == ' ')
    ensures ScanX([c] + ("0x" + d)) == Some(if c == '-' then 0 - ScanHex(d) else ScanHex(d))
  {
    var s := "0x" + d;
    var t := [c] + s;
    assert s[2..] == d && s[2] == d[0] && t[1..] == s && SkipSpace(s) == s;
    assert SkipSpace(t) == if c == ' ' then s else t;
  }

  /** No number begins here. */
  predicate NoNumber(s: string) {
    s == "" || (HexValue(s[0]) == -1 && !IsSpace(s[0]) && s[0] != '-' && s[0] != '+')
  }

  lemma NothingScanned(s: string)
    requires NoNumber(s)
    ensures ScanX(s) == None
  {
    assert SkipSpace(s) == s;
  }

  /** Where a colon or a number is missing, the old number stays. */
  lemma NumbersMissing(a: string, b: string, c: string, offset: int, size: int)
    requires ':' !in a && ':' !in b && NoNumber(b) && NoNumber(c)
    ensures OffsetAndSize(a, offset, size) == (offset, size)
    ensures OffsetAndSize(a + [':'] + b, offset, size) == (offset, size)
    ensures OffsetAndSize(a + [':'] + (b + [':'] + c), offset, size) == (offset, size)
  {
    FirstColon(a, b);
    FirstColon(a, b + [':'] + c);
    FirstColon(b, c);
    NothingScanned(b);
    NothingScanned(c);
  }

  lemma FirstColon(a: string, b: string)
    requires ':' !in a
    ensures var s := a + [':'] + b; StrChr(s, ':') == |a| && s[..|a|] == a && s[|a| + 1..] == b
  {
    StrChrAfter(a, ':', b);
  }

  lemma SlotMarks(slot: string, o: string, n: string)
    requires Hex(o) && Hex(n) && |slot| == 3 && '=' !in slot
    ensures var msg := Declaration("slot_" + slot, o, n);
            && Contains(msg, "(bootloader)") && !Contains(msg, "image_count = ")
            && StrStr(msg, "slot_") == 13 && |msg| >= 13 && SlotName(msg, 13) == "slot_" + slot
  {
    var name := "slot_" + slot;
    var msg := Declaration(name, o, n);
    NameInside(name, o, n);
    Letters(name, o, n);
    NotInside(msg, "image_count = ", 12);
    FirstSlot(msg, slot);
  }

  lemma FirstSlot(msg: string, slot: string)
    requires |slot| == 3 && "(bootloader) " + ("slot_" + slot) <= msg
    ensures StrStr(msg, "slot_") == 13 && SlotName(msg, 13) == "slot_" + slot
  {
    var head := "(bootloader) ";
    assert msg[..21] == head + ("slot_" + slot);
    assert msg[13..21] == msg[..21][13..];
    assert msg[13..18] == msg[13..21][..5];
    assert At(msg, "slot_", 13);
    assert forall i :: 0 <= i < 13 ==> msg[i] == head[i];
    forall i | 0 <= i < 13
      ensures !At(msg, "slot_", i)
    {
      assert msg[i..i + 5][0] == msg[i];
      assert head[i] != 's';
    }
  }

  // ----- write_temp_image_file -----

  /** Whether the temporary file can be opened, and how many bytes the disk still takes. */
  datatype Disk = Disk(opens: bool, room: nat)

  function Min(a: int, b: int): int {
    if a < b then a else b
  }

  /** Where the copy starts: a negative fseek fails, which the code does not notice. */
  function SeekTo(offset: int): nat {
    if offset > 0 then offset else 0
  }

  function Wanted(size: int): nat {
    if size > 0 then size else 0
  }

  /** The bytes of the file that the copy can read. */
  function Available(file: string, offset: int, size: int): (n: nat)
    ensures SeekTo(offset) + n <= |file| || n == 0
  {
    if SeekTo(offset) >= |file| then 0 else Min(Wanted(size), |file| - SeekTo(offset))
  }

  function From(file: string, offset: int, n: nat): (s: string)
    requires SeekTo(offset) + n <= |file| || n == 0
    ensures |s| == n
  {
    if n == 0 then "" else file[SeekTo(offset)..SeekTo(offset) + n]
  }

  /** The slice of `file` that `offset` and `size` name. */
  function SliceOf(file: string, offset: int, size: int): string {
    From(file, offset, Available(file, offset, size))
  }

  /** The temporary file afterwards and the return code. */
  function WriteTemp(file: Option<string>, offset: int, size: int, append: bool, temp: Option<string>, disk: Disk)
    : (r: (Option<string>, int))
  {
    if file.None? then (temp, -1)
    else if !disk.opens then (temp, -2)
    else
      var n := Available(file.value, offset, size);
      var kept := Min(n, disk.room);
      (Some((if append then temp.Or("") else "") + From(file.value, offset, n)[..kept]),
       if kept < n then -4 else if n < Wanted(size) then -5 else 1)
  }

  /**
    write_temp_image_file reports success exactly when the slice named by the device lies
    within the file and the disk takes it; then the temporary file has gained that slice and
    nothing else.  A non-positive size is an empty slice, and a negative offset counts as 0.
   */
  lemma WriteTempCopies(file: Option<string>, offset: int, size: int, append: bool, temp: Option<string>, disk: Disk)
    ensures var (temp', rc) := WriteTemp(file, offset, size, append, temp, disk);
            && (rc == 1 <==> && file.Some? && disk.opens && Wanted(size) <= disk.room
                             && (size <= 0 || SeekTo(offset) + size <= |file.value|))
            && (rc == 1 ==> temp' == Some((if append then temp.Or("") else "") + SliceOf(file.value, offset, size)))
            && (rc == 1 && offset >= 0 && size >= 0 && offset + size <= |file.value| ==>
                  temp' == Some((if append then temp.Or("") else "") + file.value[offset..offset + size]))
  {
    if file.Some? && disk.opens {
      var n := Available(file.value, offset, size);
      assert From(file.value, offset, n)[..n] == From(file.value, offset, n);
    }
  }

  /** What is there when it does not succeed: the file as it was, what the disk took, or what the image file had. */
  lemma WriteTempFails(file: Option<string>, offset: nat, size: nat, append: bool, temp: Option<string>, disk: Disk)
    ensures var (temp', rc) := WriteTemp(file, offset, size, append, temp, disk);
            && (file.None? || !disk.opens ==> temp' == temp && rc < 0)
            && (file.Some? && disk.opens && offset + size <= |file.value| && disk.room < size ==>
                  rc == -4 && temp' == Some((if append then temp.Or("") else "") + file.value[offset..offset + disk.room]))
            && (file.Some? && disk.opens && offset <= |file.value| < offset + size && |file.value| - offset <= disk.room ==>
                  rc == -5 && temp' == Some((if append then temp.Or("") else "") + file.value[offset..]))
  {
    if file.Some? && disk.opens && offset < |file.value| {
      var n := Available(file.value, offset, size);
      assert From(file.value, offset, n) == file.value[offset..offset + n];
      if disk.room <= n {
        assert From(file.value, offset, n)[..disk.room] == file.value[offset..offset + disk.room];
      }
      assert From(file.value, offset, n)[..n] == From(file.value, offset, n);
      assert offset + n == |file.value| ==> file.value[offset..offset + n] == file.value[offset..];
    } else if file.Some? && offset == |file.value| {
      assert file.value[offset..] == "";
    }
  }

  /** The copy loop: 1 KiB at a time. */
  method CopySlice(file: string, offset: int, size: int, temp: string, room: nat) returns (temp': string, rc: int)
    ensures (Some(temp'), rc) == WriteTemp(Some(file), offset, size, true, Some(temp), Disk(true, room))
  {
    var at, imageSize, left := SeekTo(offset), size, room;
    temp' := temp;
    ghost var n := Available(file, offset, size);
    ghost var done := 0;
    while imageSize > 0
      invariant 0 <= done <= n && done <= room && left == room - done && at == SeekTo(offset) + done
      invariant imageSize == size - done
      invariant temp' == temp + From(file, offset, n)[..done]
      decreases imageSize
    {
      var ask := if imageSize < TEMP_IMAGE_FILE_BUF_SIZE then imageSize else TEMP_IMAGE_FILE_BUF_SIZE;
      var readSize := if at >= |file| then 0 else Min(ask, |file| - at);
      if readSize > 0 {
        var readBuf := file[at..at + readSize];
        var writeSize := Min(readSize, left);
        NextPiece(file, offset, n, done, writeSize);
        assert readBuf[..writeSize] == file[at..at + writeSize];
        temp' := temp' + readBuf[..writeSize];
        left := left - writeSize;
        if writeSize != readSize {
          assert temp' == temp + From(file, offset, n)[..room];
          return temp', -4;
        }
        at := at + readSize;
        done := done + readSize;
        imageSize := imageSize - readSize;
      } else {
        return temp', -5;
      }
    }
    rc := 1;
  }

  lemma NextPiece(file: string, offset: int, n: nat, done: nat, more: nat)
    requires SeekTo(offset) + n <= |file| && done + more <= n
    ensures From(file, offset, n)[..done + more] ==
            From(file, offset, n)[..done] + file[SeekTo(offset) + done..SeekTo(offset) + done + more]
  {
  }

  // ----- fdtl_data_t -----

  /** The tables of fdtl_data_t, with the name, offset and size of an entry side by side. */
  class FdtlData {
    const images: array<Slice>
    const pris: array<Slice>
    var total: nat
    var fw: nat
    var oem: nat
    var pri: nat

    constructor ()
      ensures Valid() && fresh(images) && fresh(pris) && View() == Layout([], 0, 0, [])
    {
      images := new Slice[MAX_DOWNLOAD_IMAGES](_ => Slice("", 0, 0));
      pris := new Slice[MAX_DOWNLOAD_PRI_IMAGES](_ => Slice("", 0, 0));
      total, fw, oem, pri := 0, 0, 0, 0;
    }

    ghost predicate Valid()
      reads this
    {
      && images.Length == MAX_DOWNLOAD_IMAGES && pris.Length == MAX_DOWNLOAD_PRI_IMAGES && images != pris
      && total == fw + oem && fw <= MAX_DOWNLOAD_FW_IMAGES && oem <= MAX_DOWNLOAD_OEM_IMAGES
      && pri <= MAX_DOWNLOAD_PRI_IMAGES
    }

    ghost function View(): (l: Layout)
      requires Valid()
      reads this, images, pris
      ensures Fits(l)
    {
      Layout(images[..total], fw, oem, pris[..pri])
    }

    /** A new image file starts with empty image tables; the carrier slices of earlier files stay. */
    method Clear()
      requires Valid()
      modifies this
      ensures Valid() && View() == Layout([], 0, 0, old(View()).pri)
    {
      total, fw, oem := 0, 0, 0;
    }

    method ClearPri()
      requires Valid()
      modifies this
      ensures Valid() && View() == old(View()).(pri := [])
    {
      pri := 0;
    }

    method AbsorbMessage(msg: string, offset: int, size: int) returns (offset': int, size': int)
      requires Valid()
      modifies this, images, pris
      ensures Valid() && Reader(View(), offset', size') == Absorb(Reader(old(View()), offset, size), msg)
    {
      offset', size' := offset, size;
      if !Contains(msg, "(bootloader)") || Contains(msg, "image_count = ") {
        return;
      }
      var numbers := OffsetAndSize(msg, offset, size);
      if Contains(msg, "slot_") {
        if fw < MAX_DOWNLOAD_FW_IMAGES {
          offset', size' := numbers.0, numbers.1;
          images[total] := Slice(SlotName(msg, StrStr(msg, "slot_")), offset', size');
          fw, total := fw + 1, total + 1;
        }
      } else if Contains(msg, "capri_c") {
        if pri < MAX_DOWNLOAD_PRI_IMAGES {
          offset', size' := numbers.0, numbers.1;
          pris[pri] := Slice("capri_c", offset', size');
          pri := pri + 1;
        }
      } else if Contains(msg, "mcf_c") {
        if oem < MAX_DOWNLOAD_OEM_IMAGES {
          offset', size' := numbers.0, numbers.1;
          images[total] := Slice("mcf_c", offset', size');
          oem, total := oem + 1, total + 1;
        }
      }
    }

    /** One round of post_process_fastboot: nothing left, a failure, or one more message read. */
    method TakeMessage(fb: FastbootData, header: bool, offset: int, size: int)
      returns (rtn: int, offset': int, size': int)
      requires Valid() && fb.Draining() && images != fb.slots as object && pris != fb.slots as object
      modifies this, images, pris, fb`count
      ensures Valid() && fb.Draining()
      ensures var was, r := old(fb.Pending()), Reader(old(View()), offset, size);
              if was == [] then rtn == 1 && View() == r.layout
              else if Failed(was[0]) then rtn == -1 && View() == r.layout
              else rtn == 0 && fb.Pending() == was[1..] &&
                   Reader(View(), offset', size') == if header then Absorb(r, was[0]) else r
    {
      offset', size' := offset, size;
      var msg := fb.Pop();
      if msg.None? {
        return 1, offset, size;
      }
      if Failed(msg.value) {
        return -1, offset, size;
      }
      rtn := 0;
      if header {
        offset', size' := AbsorbMessage(msg.value, offset, size);
      }
    }

    /** post_process_fastboot; `junk` is what its uninitialised locals hold. */
    method Process(fb: FastbootData, header: bool, junk: (int, int)) returns (rtn: int)
      requires Valid() && fb.Filling() && !fb.overrun && images != fb.slots as object && pris != fb.slots as object
      modifies this, images, pris, fb`count
      ensures Valid()
      ensures var (r, rc) := PostProcess(Reader(old(View()), junk.0, junk.1), fb.pushed, header);
              rtn == rc && View() == r.layout
    {
      var offset, size := junk.0, junk.1;
      ghost var msgs, i := fb.pushed, 0;
      fb.FilledIsPending();
      ghost var r := Reader(View(), offset, size);
      ghost var all := PostProcess(r, msgs, header);
      assert msgs[0..] == msgs;
      rtn := 0;
      while rtn == 0
        invariant Valid() && fb.Draining()
        invariant 0 <= i <= |msgs|
        invariant rtn == 0 ==> fb.Pending() == msgs[i..] && r == Reader(View(), offset, size) && Processing(all, r, msgs, i, header)
        invariant rtn != 0 ==> all.0.layout == View() && all.1 == rtn
        decreases if rtn == 0 then |msgs| - i + 1 else 0
      {
        ProcessStep(all, r, msgs, i, header);
        rtn, offset, size := TakeMessage(fb, header, offset, size);
        if rtn == 0 {
          r := Reader(View(), offset, size);
          i := i + 1;
        }
      }
    }
  }

  /** What is left of a log whose outcome will be `all`. */
  ghost predicate Processing(all: (Reader, int), r: Reader, msgs: seq<string>, i: nat, header: bool) {
    i <= |msgs| && Fits(r.layout) && all == PostProcess(r, msgs[i..], header)
  }

  lemma ProcessStep(all: (Reader, int), r: Reader, msgs: seq<string>, i: nat, header: bool)
    requires Processing(all, r, msgs, i, header)
    ensures i == |msgs| ==> all == (r, 1)
    ensures i < |msgs| ==> msgs[i..][0] == msgs[i] && msgs[i..][1..] == msgs[i + 1..]
    ensures i < |msgs| && Failed(msgs[i]) ==> all == (r, -1)
    ensures i < |msgs| && !Failed(msgs[i]) ==>
              Processing(all, if header then Absorb(r, msgs[i]) else r, msgs, i + 1, header)
  {
    if i < |msgs| {
      assert msgs[i..][1..] == msgs[i + 1..];
    }
  }
}
