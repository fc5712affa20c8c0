/**
  The PCIe flash table (pwl-fwupdate/pwl_fwupdate.c): printed from the partitions of the scatter
  file and the list of selected images, checked, and read back with fscanf and strtok.
 */
module PcieTable {
  import opened CText

  // ----- fscanf("%s") and strtok -----

  /** How many characters go before the next blank. */
  function WordLength(s: string): (n: nat)
    ensures n <= |s| && (s != "" && !IsSpace(s[0]) ==> n > 0)
  {
    if s == "" || IsSpace(s[0]) then 0 else 1 + WordLength(s[1..])
  }

  /** All that repeated `fscanf("%s")` reads. */
  function Words(s: string): seq<string>
    decreases |s|
  {
    var t := SkipSpace(s);
    if t == "" then [] else [t[..WordLength(t)]] + Words(t[WordLength(t)..])
  }

  /** One call of strtok: a token, if there is one, and what is left. */
  function StrTok(s: string, d: char): (r: (Option<string>, string))
    ensures |r.1| <= |s| && (r.0.Some? ==> |r.1| < |s|)
    decreases |s|
  {
    if s == "" then (None, "")
    else if s[0] == d then StrTok(s[1..], d)
    else
      var k := StrChr(s, d);
      if k == -1 then (Some(s), "") else (Some(s[..k]), s[k + 1..])
  }

  /** All that repeated strtok returns; runs of delimiters count as one. */
  function Fields(s: string, d: char): seq<string>
    decreases |s|
  {
    var (token, rest) := StrTok(s, d);
    if token.None? then [] else [token.value] + Fields(rest, d)
  }

  /** What a line of the table asks for. */
  datatype Target = Target(partition: string, image: string, checksum: string)

  /** The first field is dropped, the next three are kept. */
  function Kept(f: seq<string>): Target {
    Target(if |f| > 1 then f[1] else "", if |f| > 2 then f[2] else "", if |f| > 3 then f[3] else "")
  }

  function ParseWord(word: string): Target {
    Kept(Fields(word, '|'))
  }

  /** The parsing loop, call by call of strtok. */
  method ParseDownloadString(word: string) returns (t: Target)
    ensures t == ParseWord(word)
  {
    t := Target("", "", "");
    var (p, rest) := StrTok(word, '|');
    var index: nat := 0;
    ghost var seen := if p.Some? then [p.value] else [];
    while p.Some?
      invariant Fields(word, '|') == seen + if p.Some? then Fields(rest, '|') else []
      invariant p.Some? ==> |seen| == index + 1
      invariant t == Kept(seen)
      decreases p.Some?, |rest|
    {
      var next := StrTok(rest, '|');
      if next.0.Some? {
        Assoc(seen, [next.0.value], Fields(next.1, '|'));
        seen := seen + [next.0.value];
      }
      p, rest := next.0, next.1;
      if p.Some? {
        index := index + 1;
        if index == 1 {
          t := t.(partition := p.value);
        } else if index == 2 {
          t := t.(image := p.value);
        } else if index == 3 {
          t := t.(checksum := p.value);
        }
      }
    }
    Assoc(seen, [], []);
  }

  // ----- The table -----

  /** A selected image: its path, perhaps with a checksum of its own, perhaps marked as up to date. */
  datatype Image = Image(skip: bool, path: string, embedded: string)

  const SKIP: string := "SKIP_"

  function Name(i: Image): string {
    if i.skip then SKIP + i.path else i.path
  }

  /** The image as it stands in g_pcie_download_image_list. */
  function Entry(i: Image): string {
    if i.embedded == "" then Name(i) else Name(i) + "|" + i.embedded
  }

  datatype Row = Row(partition: string, image: Image, separate: string)

  function Word(r: Row): string {
    "Flash" + "|" + (r.partition + "|" + (Entry(r.image) + "|" + r.separate))
  }

  function TableText(rows: seq<Row>): string {
    if rows == [] then "" else Word(rows[0]) + "\n" + TableText(rows[1..])
  }

  /** What a row is to be read back as: a checksum of the image's own comes before the separate one. */
  function Meant(r: Row): Target {
    Target(r.partition, Name(r.image), if r.image.embedded != "" then r.image.embedded else r.separate)
  }

  /** A line without fields, or with a partition only, asks for no image. */
  lemma ShortLines(a: string, b: string)
    requires '|' !in a && '|' !in b && a != "" && b != ""
    ensures ParseWord("") == ParseWord(a) == Target("", "", "") && ParseWord(a + "|" + b) == Target(b, "", "")
  {
    FieldsOne(a, '|');
    FieldsOne(b, '|');
    FieldsCons(a, '|', b);
  }

  /** An image that is marked has the mark in its name. */
  lemma MarkedName(i: Image)
    requires i.skip
    ensures Contains(Name(i), "SKIP_")
  {
    assert Name(i)[..5] == "SKIP_";
    ContainsAt(Name(i), "SKIP_", 0);
  }

  predicate Plain(s: string) {
    forall c <- s :: c != '|' && !IsSpace(c)
  }

  predicate RowOk(r: Row) {
    && r.partition != "" && r.image.path != ""
    && Plain(r.partition) && Plain(r.image.path) && Plain(r.image.embedded) && Plain(r.separate)
  }

  // ----- The round trip -----

  lemma FieldsCons(a: string, d: char, rest: string)
    requires a != "" && d !in a
    ensures Fields(a + [d] + rest, d) == [a] + Fields(rest, d)
  {
    StrChrAfter(a, d, rest);
    var s := a + [d] + rest;
    assert s[..|a|] == a && s[|a| + 1..] == rest;
  }

  lemma FieldsOne(a: string, d: char)
    requires d !in a
    ensures Fields(a, d) == if a == "" then [] else [a]
  {
  }

  lemma NamePlain(i: Image)
    requires i.path != "" && Plain(i.path)
    ensures Name(i) != "" && Plain(Name(i))
  {
  }

  lemma TailFields(r: Row)
    requires RowOk(r)
    ensures var f := Fields(Entry(r.image) + "|" + r.separate, '|');
            |f| >= 1 && f[0] == Name(r.image)
            && (if |f| > 1 then f[1] else "") == Meant(r).checksum
  {
    var name, own := Name(r.image), r.image.embedded;
    NamePlain(r.image);
    FieldsOne(r.separate, '|');
    if own == "" {
      FieldsCons(name, '|', r.separate);
    } else {
      var tail := own + "|" + r.separate;
      assert Entry(r.image) + "|" + r.separate == name + ['|'] + tail;
      FieldsCons(name, '|', tail);
      FieldsCons(own, '|', r.separate);
    }
  }

  /** A printed row is parsed back to what it means, wherever its checksum stands. */
  lemma RowRoundTrip(r: Row)
    requires RowOk(r)
    ensures ParseWord(Word(r)) == Meant(r)
  {
    var tail := Entry(r.image) + "|" + r.separate;
    var middle := r.partition + "|" + tail;
    FieldsCons("Flash", '|', middle);
    FieldsCons(r.partition, '|', tail);
    TailFields(r);
    var f := Fields(Word(r), '|');
    assert f == ["Flash"] + ([r.partition] + Fields(tail, '|'));
  }

  lemma {:induction false} WordLengthIs(w: string, rest: string)
    requires forall c <- w :: !IsSpace(c)
    requires rest != "" ==> IsSpace(rest[0])
    ensures WordLength(w + rest) == |w|
  {
    if w == "" {
      assert w + rest == rest;
    } else {
      assert (w + rest)[1..] == w[1..] + rest;
      assert w[0] in w;
      WordLengthIs(w[1..], rest);
    }
  }

  lemma WordsCons(w: string, rest: string)
    requires w != "" && forall c <- w :: !IsSpace(c)
    ensures Words(w + "\n" + rest) == [w] + Words(rest)
  {
    var s := w + "\n" + rest;
    var tail := "\n" + rest;
    assert s == w + tail && s[0] == w[0];
    assert SkipSpace(s) == s;
    WordLengthIs(w, tail);
    assert s[..|w|] == w && s[|w|..] == tail;
    assert tail[1..] == rest;
    assert SkipSpace(tail) == SkipSpace(rest);
  }

  lemma WordPlain(r: Row)
    requires RowOk(r)
    ensures Word(r) != "" && forall c <- Word(r) :: !IsSpace(c)
  {
    NamePlain(r.image);
    assert forall c <- Entry(r.image) :: !IsSpace(c);
  }

  predicate RowsOk(rows: seq<Row>) {
    forall r <- rows :: RowOk(r)
  }

  function WordsOf(rows: seq<Row>): (ws: seq<string>)
    ensures |ws| == |rows| && forall i :: 0 <= i < |rows| ==> ws[i] == Word(rows[i])
  {
    if rows == [] then [] else [Word(rows[0])] + WordsOf(rows[1..])
  }

  /** The printed table is read back row by row. */
  lemma {:induction false} TableWords(rows: seq<Row>)
    requires RowsOk(rows)
    ensures Words(TableText(rows)) == WordsOf(rows)
  {
    if rows != [] {
      assert rows[0] in rows;
      WordPlain(rows[0]);
      WordsCons(Word(rows[0]), TableText(rows[1..]));
      TableWords(rows[1..]);
    }
  }

  // ----- generate_download_table -----

  datatype UpdateType = Full | OnlyFw | OnlyDev

  /** A partition of the scatter file and the file name it is for. */
  datatype Node = Node(partition: string, file: string)

  /** The checksum printed for an image: none if a "0x" shows that the image has its own. */
  function Separate(i: Image, file: string, lookup: string -> string): string {
    if Contains(Entry(i), "0x") then "" else lookup(file)
  }

  /** An image goes to a partition of the scatter file. */
  predicate Goes(n: Node, i: Image) {
    Contains(Entry(i), n.file) && n.partition != "mcf2"
  }

  function Joined(n: Node, i: Image, lookup: string -> string): Row {
    Row(n.partition, i, Separate(i, n.file, lookup))
  }

  /** The rows from the `k`-th on whose flag is set. */
  function Picked(flags: seq<bool>, rows: seq<Row>, k: nat): seq<Row>
    requires |flags| == |rows| && k <= |rows|
    decreases |rows| - k
  {
    if k == |rows| then []
    else if flags[k] then [rows[k]] + Picked(flags, rows, k + 1)
    else Picked(flags, rows, k + 1)
  }

  function Flags(n: Node, images: seq<Image>): (f: seq<bool>)
    ensures |f| == |images|
  {
    if images == [] then [] else Flags(n, images[..|images| - 1]) + [Goes(n, images[|images| - 1])]
  }

  function AllJoined(n: Node, images: seq<Image>, lookup: string -> string): (rows: seq<Row>)
    ensures |rows| == |images|
  {
    if images == [] then []
    else AllJoined(n, images[..|images| - 1], lookup) + [Joined(n, images[|images| - 1], lookup)]
  }

  lemma {:induction false} FlagAt(n: Node, images: seq<Image>, lookup: string -> string, m: nat)
    requires m < |images|
    ensures Flags(n, images)[m] == Goes(n, images[m]) && AllJoined(n, images, lookup)[m] == Joined(n, images[m], lookup)
  {
    if m < |images| - 1 {
      FlagAt(n, images[..|images| - 1], lookup, m);
    }
  }

  /** The images that go to a partition. */
  function NodeRows(n: Node, images: seq<Image>, lookup: string -> string): seq<Row> {
    Picked(Flags(n, images), AllJoined(n, images, lookup), 0)
  }

  function ScatterRows(nodes: seq<Node>, images: seq<Image>, lookup: string -> string, j: nat): seq<Row>
    requires j <= |nodes|
    decreases |nodes| - j
  {
    if j == |nodes| then [] else NodeRows(nodes[j], images, lookup) + ScatterRows(nodes, images, lookup, j + 1)
  }

  function DeviceRow(i: Image, dpv: string): seq<Row> {
    if Contains(Entry(i), "DevPackage") then [Row("mcf2", i, dpv)] else []
  }

  function Rows(kind: UpdateType, nodes: seq<Node>, images: seq<Image>, lookup: string -> string, dpv: string): seq<Row>
    requires images != []
  {
    match kind
    case OnlyDev => DeviceRow(images[0], dpv)
    case OnlyFw => ScatterRows(nodes, images, lookup, 0)
    case Full => ScatterRows(nodes, images, lookup, 0) + DeviceRow(images[|images| - 1], dpv)
  }

  lemma InEither<T>(a: seq<T>, b: seq<T>, x: T)
    ensures x in a + b <==> x in a || x in b
  {
  }

  lemma {:induction false} PickedSound(flags: seq<bool>, rows: seq<Row>, k: nat, r: Row) returns (m: nat)
    requires |flags| == |rows| && k <= |rows| && r in Picked(flags, rows, k)
    ensures m < |rows| && flags[m] && r == rows[m]
    decreases |rows| - k
  {
    if r in Picked(flags, rows, k + 1) {
      m := PickedSound(flags, rows, k + 1, r);
    } else {
      m := k;
    }
  }

  lemma {:induction false} PickedComplete(flags: seq<bool>, rows: seq<Row>, k: nat, m: nat)
    requires |flags| == |rows| && k <= m < |rows| && flags[m]
    ensures rows[m] in Picked(flags, rows, k)
    decreases |rows| - k
  {
    if k < m {
      PickedComplete(flags, rows, k + 1, m);
    }
  }

  /** Every row of the table joins a partition of the scatter file with a selected image that goes to it ... */
  lemma {:induction false} ScatterRowsSound(nodes: seq<Node>, images: seq<Image>, lookup: string -> string, j: nat, r: Row)
    returns (l: nat, m: nat)
    requires j <= |nodes| && r in ScatterRows(nodes, images, lookup, j)
    ensures l < |nodes| && m < |images| && Goes(nodes[l], images[m]) && r == Joined(nodes[l], images[m], lookup)
    decreases |nodes| - j
  {
    if r in NodeRows(nodes[j], images, lookup) {
      l := j;
      m := PickedSound(Flags(nodes[j], images), AllJoined(nodes[j], images, lookup), 0, r);
      FlagAt(nodes[j], images, lookup, m);
    } else {
      l, m := ScatterRowsSound(nodes, images, lookup, j + 1, r);
    }
  }

  /**
    The checksum of a row: that of the device package, or nothing for an image with a "0x" in its
    entry, or what was looked up for the file that the row's partition is for.
   */
  lemma RowChecksum(kind: UpdateType, nodes: seq<Node>, images: seq<Image>, lookup: string -> string, dpv: string, r: Row)
    returns (l: nat)
    requires images != [] && r in Rows(kind, nodes, images, lookup, dpv)
    ensures || (r.partition == "mcf2" && r.separate == dpv && Contains(Entry(r.image), "DevPackage"))
            || (l < |nodes| && r.partition == nodes[l].partition != "mcf2" && Contains(Entry(r.image), nodes[l].file) &&
                r.separate == if exists i :: At(Entry(r.image), "0x", i) then "" else lookup(nodes[l].file))
  {
    l := 0;
    if !kind.OnlyDev? && r in ScatterRows(nodes, images, lookup, 0) {
      var m;
      l, m := ScatterRowsSound(nodes, images, lookup, 0, r);
      assert Contains(Entry(r.image), "0x") <==> exists i :: At(Entry(r.image), "0x", i);
    }
  }

  lemma {:induction false} InScatter(nodes: seq<Node>, images: seq<Image>, lookup: string -> string, j: nat, l: nat, r: Row)
    requires j <= l < |nodes| && r in NodeRows(nodes[l], images, lookup)
    ensures r in ScatterRows(nodes, images, lookup, j)
    decreases |nodes| - j
  {
    if j < l {
      InScatter(nodes, images, lookup, j + 1, l, r);
    }
    InEither(NodeRows(nodes[j], images, lookup), ScatterRows(nodes, images, lookup, j + 1), r);
  }

  lemma NodeRowsComplete(n: Node, images: seq<Image>, lookup: string -> string, m: nat)
    requires m < |images| && Goes(n, images[m])
    ensures AllJoined(n, images, lookup)[m] == Joined(n, images[m], lookup)
    ensures AllJoined(n, images, lookup)[m] in NodeRows(n, images, lookup)
  {
    FlagAt(n, images, lookup, m);
    PickedComplete(Flags(n, images), AllJoined(n, images, lookup), 0, m);
  }

  /** ... and every such pair has its row. */
  lemma ScatterRowsComplete(nodes: seq<Node>, images: seq<Image>, lookup: string -> string, l: nat, m: nat)
    requires l < |nodes| && m < |images| && Goes(nodes[l], images[m])
    ensures Joined(nodes[l], images[m], lookup) in ScatterRows(nodes, images, lookup, 0)
  {
    NodeRowsComplete(nodes[l], images, lookup, m);
    InScatter(nodes, images, lookup, 0, l, AllJoined(nodes[l], images, lookup)[m]);
  }

  function DeviceIndex(kind: UpdateType, images: seq<Image>): int {
    match kind
    case OnlyDev => 0
    case OnlyFw => -1
    case Full => |images| - 1
  }

  /** Image number `m` goes to a partition of the scatter file, or is the device image. */
  ghost predicate Assigned(kind: UpdateType, nodes: seq<Node>, images: seq<Image>, m: nat)
    requires m < |images|
  {
    || (!kind.OnlyDev? && exists n <- nodes :: Goes(n, images[m]))
    || (m == DeviceIndex(kind, images) && Contains(Entry(images[m]), "DevPackage"))
  }

  /** Every row is that of an assigned image ... */
  lemma RowAssigned(kind: UpdateType, nodes: seq<Node>, images: seq<Image>, lookup: string -> string, dpv: string, r: Row)
    returns (m: nat)
    requires images != [] && r in Rows(kind, nodes, images, lookup, dpv)
    ensures m < |images| && r.image == images[m] && Assigned(kind, nodes, images, m)
  {
    if !kind.OnlyDev? && r in ScatterRows(nodes, images, lookup, 0) {
      var l;
      l, m := ScatterRowsSound(nodes, images, lookup, 0, r);
      assert nodes[l] in nodes;
    } else {
      m := DeviceIndex(kind, images);
    }
  }

  /** ... and every assigned image has a row. */
  lemma AssignedRow(kind: UpdateType, nodes: seq<Node>, images: seq<Image>, lookup: string -> string, dpv: string, m: nat)
    returns (r: Row)
    requires m < |images| && Assigned(kind, nodes, images, m)
    ensures r in Rows(kind, nodes, images, lookup, dpv) && r.image == images[m]
  {
    if !kind.OnlyDev? && exists n <- nodes :: Goes(n, images[m]) {
      var n :| n in nodes && Goes(n, images[m]);
      var l :| 0 <= l < |nodes| && nodes[l] == n;
      r := Joined(n, images[m], lookup);
      ScatterRowsComplete(nodes, images, lookup, l, m);
    } else {
      r := Row("mcf2", images[m], dpv);
    }
  }

  lemma {:induction false} TextAppend(a: seq<Row>, b: seq<Row>)
    ensures TableText(a + b) == TableText(a) + TableText(b)
  {
    if a == [] {
      assert a + b == b;
    } else {
      assert (a + b)[1..] == a[1..] + b;
      TextAppend(a[1..], b);
      Assoc(Word(a[0]) + "\n", TableText(a[1..]), TableText(b));
    }
  }

  lemma OneMoreRow(rows: seq<Row>, row: Row)
    ensures TableText(rows + [row]) == TableText(rows) + (Word(row) + "\n")
  {
    TextAppend(rows, [row]);
    assert [row][1..] == [];
    Assoc(Word(row) + "\n", "", "");
  }

  method Candidate(n: Node, images: seq<Image>, lookup: string -> string, i: nat) returns (goes: bool, row: Row)
    requires i < |images|
    ensures goes == Flags(n, images)[i] && row == AllJoined(n, images, lookup)[i]
  {
    FlagAt(n, images, lookup, i);
    goes := Goes(n, images[i]);
    row := Joined(n, images[i], lookup);
  }

  method PrintNode(n: Node, images: seq<Image>, lookup: string -> string) returns (text: string)
    ensures text == TableText(NodeRows(n, images, lookup))
  {
    text := "";
    var i: nat := 0;
    ghost var flags, rows := Flags(n, images), AllJoined(n, images, lookup);
    ghost var printed: seq<Row> := [];
    Assoc(printed, Picked(flags, rows, 0), []);
    while i < |images|
      invariant i <= |images|
      invariant text == TableText(printed)
      invariant NodeRows(n, images, lookup) == printed + Picked(flags, rows, i)
    {
      var goes, row := Candidate(n, images, lookup, i);
      if goes {
        Assoc(printed, [row], Picked(flags, rows, i + 1));
        OneMoreRow(printed, row);
        printed := printed + [row];
        text := text + (Word(row) + "\n");
      }
      i := i + 1;
    }
    Assoc(printed, [], []);
  }

  /** The text of the table, or none if there is no device image to make it of. */
  method GenerateTable(kind: UpdateType, nodes: seq<Node>, images: seq<Image>, lookup: string -> string, dpv: string)
    returns (text: Option<string>)
    requires images != []
    ensures text == if kind.OnlyDev? && DeviceRow(images[0], dpv) == [] then None
                    else Some(TableText(Rows(kind, nodes, images, lookup, dpv)))
  {
    if kind.OnlyDev? {
      if Contains(Entry(images[0]), "DevPackage") {
        return Some(TableText([Row("mcf2", images[0], dpv)]));
      }
      return None;
    }
    var t := "";
    var j: nat := 0;
    ghost var printed: seq<Row> := [];
    Assoc(printed, ScatterRows(nodes, images, lookup, 0), []);
    while j < |nodes|
      invariant j <= |nodes|
      invariant t == TableText(printed)
      invariant ScatterRows(nodes, images, lookup, 0) == printed + ScatterRows(nodes, images, lookup, j)
    {
      var lines := PrintNode(nodes[j], images, lookup);
      ghost var rows := NodeRows(nodes[j], images, lookup);
      TextAppend(printed, rows);
      Assoc(printed, rows, ScatterRows(nodes, images, lookup, j + 1));
      printed := printed + rows;
      t := t + lines;
      j := j + 1;
    }
    Assoc(printed, [], []);
    if kind.Full? {
      TextAppend(printed, DeviceRow(images[|images| - 1], dpv));
      t := t + TableText(DeviceRow(images[|images| - 1], dpv));
    }
    text := Some(t);
  }

  predicate ImagesOk(images: seq<Image>) {
    forall i <- images :: i.path != "" && Plain(i.path) && Plain(i.embedded)
  }

  ghost predicate LookupOk(lookup: string -> string) {
    forall f :: Plain(lookup(f))
  }

  predicate NodesOk(nodes: seq<Node>) {
    forall n <- nodes :: n.partition != "" && Plain(n.partition)
  }

  lemma {:induction false} ScatterRowsOk(nodes: seq<Node>, images: seq<Image>, lookup: string -> string, j: nat)
    requires j <= |nodes| && ImagesOk(images) && NodesOk(nodes) && LookupOk(lookup)
    ensures RowsOk(ScatterRows(nodes, images, lookup, j))
    decreases |nodes| - j
  {
    if j < |nodes| {
      ScatterRowsOk(nodes, images, lookup, j + 1);
      assert nodes[j] in nodes;
      NodeRowsOk(nodes[j], images, lookup);
    }
  }

  lemma NodeRowsOk(n: Node, images: seq<Image>, lookup: string -> string)
    requires ImagesOk(images) && n.partition != "" && Plain(n.partition) && LookupOk(lookup)
    ensures RowsOk(NodeRows(n, images, lookup))
  {
    forall r | r in NodeRows(n, images, lookup)
      ensures RowOk(r)
    {
      var m := PickedSound(Flags(n, images), AllJoined(n, images, lookup), 0, r);
      FlagAt(n, images, lookup, m);
      assert images[m] in images;
    }
  }

  lemma GeneratedOk(kind: UpdateType, nodes: seq<Node>, images: seq<Image>, lookup: string -> string, dpv: string)
    requires images != [] && ImagesOk(images) && NodesOk(nodes) && Plain(dpv) && LookupOk(lookup)
    ensures RowsOk(Rows(kind, nodes, images, lookup, dpv))
  {
    ScatterRowsOk(nodes, images, lookup, 0);
    assert images[0] in images && images[|images| - 1] in images;
  }

  /** Whatever partitions and images there are, the generated table is read back as its rows were meant. */
  lemma TableRoundTrip(kind: UpdateType, nodes: seq<Node>, images: seq<Image>, lookup: string -> string, dpv: string, i: nat)
    requires images != [] && ImagesOk(images) && NodesOk(nodes) && Plain(dpv) && LookupOk(lookup)
    ensures var rows := Rows(kind, nodes, images, lookup, dpv);
            && Words(TableText(rows)) == WordsOf(rows)
            && (i < |rows| ==> ParseWord(Words(TableText(rows))[i]) == Meant(rows[i]))
  {
    var rows := Rows(kind, nodes, images, lookup, dpv);
    GeneratedOk(kind, nodes, images, lookup, dpv);
    TableWords(rows);
    if i < |rows| {
      assert rows[i] in rows;
      RowRoundTrip(rows[i]);
    }
  }

  // ----- check_image_downlaod_table -----

  /** The entry stands in some line of the table. */
  ghost predicate Listed(words: seq<string>, entry: string) {
    exists j :: 0 <= j < |words| && Contains(words[j], entry)
  }

  method FindEntry(words: seq<string>, entry: string) returns (found: bool)
    ensures found <==> Listed(words, entry)
  {
    for j := 0 to |words|
      invariant forall m :: 0 <= m < j ==> !Contains(words[m], entry)
    {
      if Contains(words[j], entry) {
        return true;
      }
    }
    found := false;
  }

  /** Whether there is anything to update, and whether the table is then complete. */
  method CheckTable(words: seq<string>, entries: seq<string>) returns (need: bool, ok: bool)
    ensures need <==> exists i :: 0 <= i < |words| && !Contains(words[i], SKIP)
    ensures ok <==> need && forall k :: 0 <= k < |entries| ==> Listed(words, entries[k])
  {
    need := false;
    for i := 0 to |words|
      invariant need <==> exists j :: 0 <= j < i && !Contains(words[j], SKIP)
    {
      if !Contains(words[i], SKIP) {
        need := true;
      }
    }
    if !need {
      return false, false;
    }
    for k := 0 to |entries|
      invariant forall m :: 0 <= m < k ==> Listed(words, entries[m])
    {
      var found := FindEntry(words, entries[k]);
      if !found {
        return true, false;
      }
    }
    ok := true;
  }
}
