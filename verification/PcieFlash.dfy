/**
  Flashing the images of the PCIe flash table (pwl-fwupdate/pwl_fwupdate.c): flash_image and the
  loop of parse_download_table_and_flash.  What the modem answers is arbitrary.
 */
module PcieFlash {
  import opened CText
  import opened PcieTable

  const SPLIT_IMAGE_BUFFER: nat := 2048

  /** Contents of the image files that can be opened. */
  type Disk = map<string, string>

  /**
    The modem's side of one flash: its answers to the download request, to the data, to the flash
    command and to the check (empty for none), whether the port opens, and what each write of a
    piece returns.
   */
  datatype Answers = Answers(asked: string, opens: bool, writes: nat -> int, sent: string, flashed: string, checked: string)

  datatype Event = Command(text: string, reply: string) | Data(bytes: string, reply: string)

  datatype Shot = Shot(ok: bool, events: seq<Event>)

  // ----- Sending the file -----

  function Piece(n: nat): nat {
    if n < SPLIT_IMAGE_BUFFER then n else SPLIT_IMAGE_BUFFER
  }

  function AtMost(w: int, n: nat): nat
    requires w >= 0
  {
    if w < n then w else n
  }

  /** What the port takes of a file: pieces are written in order up to the first error, and a short write loses the rest of its piece. */
  function Accepted(file: string, writes: nat -> int, at: nat := 0, k: nat := 0): string
    requires at <= |file|
    decreases |file| - at
  {
    if at == |file| || writes(k) < 0 then ""
    else
      var n := Piece(|file| - at);
      file[at..at + AtMost(writes(k), n)] + Accepted(file, writes, at + n, k + 1)
  }

  /** What is left of a transfer that will have put `all` on the port. */
  ghost predicate SentSoFar(all: string, file: string, writes: nat -> int, at: nat, k: nat, bytes: string) {
    at <= |file| && all == bytes + Accepted(file, writes, at, k)
  }

  lemma SendStep(all: string, file: string, writes: nat -> int, at: nat, k: nat, bytes: string, n: nat, sent: string)
    requires SentSoFar(all, file, writes, at, k, bytes) && at < |file| && n == Piece(|file| - at)
    requires writes(k) >= 0 ==> sent == file[at..at + AtMost(writes(k), n)]
    ensures if writes(k) < 0 then all == bytes else SentSoFar(all, file, writes, at + n, k + 1, bytes + sent)
  {
    if writes(k) < 0 {
      Assoc(bytes, "", "");
    } else {
      Assoc(bytes, sent, Accepted(file, writes, at + n, k + 1));
    }
  }

  lemma SendDone(all: string, file: string, writes: nat -> int, at: nat, k: nat, bytes: string)
    requires SentSoFar(all, file, writes, at, k, bytes) && at == |file|
    ensures all == bytes
  {
    Assoc(bytes, "", "");
  }

  method SendFile(file: string, writes: nat -> int) returns (bytes: string)
    ensures bytes == Accepted(file, writes)
  {
    bytes := "";
    var at: nat, k: nat := 0, 0;
    ghost var all := Accepted(file, writes);
    while at < |file|
      invariant SentSoFar(all, file, writes, at, k, bytes)
      decreases |file| - at
    {
      var n := Piece(|file| - at);
      var w := writes(k);
      var sent := if w < 0 then "" else file[at..at + AtMost(w, n)];
      SendStep(all, file, writes, at, k, bytes, n, sent);
      if w < 0 {
        return;
      }
      bytes := bytes + sent;
      at := at + n;
      k := k + 1;
    }
    SendDone(all, file, writes, at, k, bytes);
  }

  lemma {:induction false} AcceptedLength(file: string, writes: nat -> int, at: nat, k: nat)
    requires at <= |file|
    ensures |Accepted(file, writes, at, k)| <= |file| - at
    decreases |file| - at
  {
    if at < |file| {
      AcceptedLength(file, writes, at + Piece(|file| - at), k + 1);
    }
  }

  /** From piece `k` on, every piece of the file is taken in full. */
  ghost predicate TakenInFull(file: string, writes: nat -> int, k: nat) {
    forall j: nat :: j >= k && 2048 * j < |file| ==>
                       writes(j) >= if |file| - 2048 * j < 2048 then |file| - 2048 * j else 2048
  }

  /** One piece: it must be taken in full, and so must the rest. */
  lemma OnePiece(file: string, writes: nat -> int, at: nat, k: nat, n: nat)
    requires at < |file| && n == Piece(|file| - at)
    ensures Accepted(file, writes, at, k) == file[at..] <==> writes(k) >= n && Accepted(file, writes, at + n, k + 1) == file[at + n..]
  {
    AcceptedLength(file, writes, at + n, k + 1);
    assert file[at..] == file[at..at + n] + file[at + n..];
    if writes(k) >= n {
      SameTail(file[at..at + n], Accepted(file, writes, at + n, k + 1), file[at + n..]);
    } else {
      assert |Accepted(file, writes, at, k)| < |file| - at;
    }
  }

  lemma {:induction false} AcceptedFrom(file: string, writes: nat -> int, at: nat, k: nat)
    requires at <= |file| && (at == SPLIT_IMAGE_BUFFER * k || (at == |file| && |file| <= SPLIT_IMAGE_BUFFER * k))
    ensures Accepted(file, writes, at, k) == file[at..] <==> TakenInFull(file, writes, k)
    decreases |file| - at
  {
    if at < |file| {
      var n := Piece(|file| - at);
      OnePiece(file, writes, at, k, n);
      AcceptedFrom(file, writes, at + n, k + 1);
    }
  }

  lemma SameTail(a: string, b: string, c: string)
    ensures a + b == a + c <==> b == c
  {
    if a + b == a + c {
      assert b == (a + b)[|a|..] && c == (a + c)[|a|..];
    }
  }

  /** The port takes exactly the file if and only if each write takes the whole of its piece. */
  lemma AcceptedExactly(file: string, writes: nat -> int)
    ensures Accepted(file, writes) == file <==> TakenInFull(file, writes, 0)
  {
    AcceptedFrom(file, writes, 0, 0);
    assert file[0..] == file;
  }

  // ----- flash_image -----

  function SizeText(file: string): string {
    HexPad(U32(|file|), 8)
  }

  /** The check answer passes: its first field after the colon starts with the checksum, or is missing. */
  predicate ChecksumPasses(checksum: string, reply: string) {
    && Contains(reply, "OKAYCRC32:")
    && var f := Fields(reply, ':');
       |f| > 1 ==> checksum <= f[1]
  }

  function FlashImage(disk: Disk, t: Target, a: Answers): Shot {
    if t.partition == "" || t.image == "" || t.image !in disk then Shot(false, [])
    else
      var size := SizeText(disk[t.image]);
      var ask := Command("download:" + size, a.asked);
      if a.asked != "DATA" + size || !a.opens then Shot(false, [ask])
      else
        var data := Data(Accepted(disk[t.image], a.writes), a.sent);
        if !Contains(a.sent, "OKAY") then Shot(false, [ask, data])
        else
          var flash := Command("flash:" + t.partition, a.flashed);
          if a.flashed != "OKAY" then Shot(false, [ask, data, flash])
          else Shot(ChecksumPasses(t.checksum, a.checked), [ask, data, flash, Command("check:" + t.partition, a.checked)])
  }

  method CheckSum(checksum: string, reply: string) returns (ok: bool)
    ensures ok == ChecksumPasses(checksum, reply)
  {
    if !Contains(reply, "OKAYCRC32:") {
      return false;
    }
    var first := StrTok(reply, ':');
    if first.0.Some? {
      var second := StrTok(first.1, ':');
      if second.0.Some? {
        assert Fields(reply, ':') == [first.0.value] + Fields(first.1, ':');
        assert Fields(first.1, ':') == [second.0.value] + Fields(second.1, ':');
        return checksum <= second.0.value;
      }
    }
    ok := true;
  }

  method FlashOne(disk: Disk, t: Target, a: Answers) returns (ok: bool, events: seq<Event>)
    ensures Shot(ok, events) == FlashImage(disk, t, a)
  {
    events := [];
    if t.partition == "" || t.image == "" || t.image !in disk {
      return false, events;
    }
    var file := disk[t.image];
    var size := HexPad(U32(|file|), 8);
    events := [Command("download:" + size, a.asked)];
    if a.asked != "DATA" + size || !a.opens {
      return false, events;
    }
    var bytes := SendFile(file, a.writes);
    events := events + [Data(bytes, a.sent)];
    if !Contains(a.sent, "OKAY") {
      return false, events;
    }
    events := events + [Command("flash:" + t.partition, a.flashed)];
    if a.flashed != "OKAY" {
      return false, events;
    }
    events := events + [Command("check:" + t.partition, a.checked)];
    ok := CheckSum(t.checksum, a.checked);
  }

  // ----- The loop over the table -----

  datatype Record = Record(target: Target, answers: Answers, shot: Shot)

  datatype Result = Result(ok: bool, journal: seq<Record>)

  /** `answers` gives the modem's side of each flash that is tried, counted from `k`. */
  function FlashWords(disk: Disk, words: seq<string>, answers: nat -> Answers, k: nat): Result
    decreases |words|
  {
    if words == [] then Result(true, [])
    else
      var t := ParseWord(words[0]);
      if Contains(t.image, SKIP) then FlashWords(disk, words[1..], answers, k)
      else
        var rec := Record(t, answers(k), FlashImage(disk, t, answers(k)));
        if !rec.shot.ok then Result(false, [rec])
        else
          var rest := FlashWords(disk, words[1..], answers, k + 1);
          Result(rest.ok, [rec] + rest.journal)
  }

  ghost predicate FlashedSoFar(disk: Disk, words: seq<string>, answers: nat -> Answers, i: nat, journal: seq<Record>) {
    && i <= |words|
    && var rest := FlashWords(disk, words[i..], answers, |journal|);
       FlashWords(disk, words, answers, 0) == Result(rest.ok, journal + rest.journal)
  }

  function Try(disk: Disk, word: string, a: Answers): Record {
    Record(ParseWord(word), a, FlashImage(disk, ParseWord(word), a))
  }

  lemma FlashAt(disk: Disk, words: seq<string>, answers: nat -> Answers, i: nat, k: nat)
    requires i < |words|
    ensures var rec := Try(disk, words[i], answers(k));
            FlashWords(disk, words[i..], answers, k) ==
              if Contains(rec.target.image, SKIP) then FlashWords(disk, words[i + 1..], answers, k)
              else if !rec.shot.ok then Result(false, [rec])
              else
                var rest := FlashWords(disk, words[i + 1..], answers, k + 1);
                Result(rest.ok, [rec] + rest.journal)
  {
    assert words[i..][1..] == words[i + 1..];
  }

  lemma FlashStep(disk: Disk, words: seq<string>, answers: nat -> Answers, i: nat, journal: seq<Record>)
    requires FlashedSoFar(disk, words, answers, i, journal) && i < |words|
    ensures var rec := Try(disk, words[i], answers(|journal|));
            if Contains(rec.target.image, SKIP) then FlashedSoFar(disk, words, answers, i + 1, journal)
            else if rec.shot.ok then FlashedSoFar(disk, words, answers, i + 1, journal + [rec])
            else FlashWords(disk, words, answers, 0) == Result(false, journal + [rec])
  {
    var rec := Try(disk, words[i], answers(|journal|));
    FlashAt(disk, words, answers, i, |journal|);
    Assoc(journal, [rec], FlashWords(disk, words[i + 1..], answers, |journal| + 1).journal);
  }

  method ParseTableAndFlash(disk: Disk, table: string, answers: nat -> Answers) returns (ok: bool, journal: seq<Record>)
    ensures Result(ok, journal) == FlashWords(disk, Words(table), answers, 0)
  {
    var words := Words(table);
    journal := [];
    var i: nat := 0;
    assert words[0..] == words;
    Assoc([], FlashWords(disk, words, answers, 0).journal, []);
    while i < |words|
      invariant FlashedSoFar(disk, words, answers, i, journal)
      decreases |words| - i
    {
      var t := ParseDownloadString(words[i]);
      FlashStep(disk, words, answers, i, journal);
      i := i + 1;
      if Contains(t.image, SKIP) {
        continue;
      }
      var a := answers(|journal|);
      var done, events := FlashOne(disk, t, a);
      journal := journal + [Record(t, a, Shot(done, events))];
      if !done {
        return false, journal;
      }
    }
    Assoc(journal, [], []);
    ok := true;
  }

  // ----- What success means -----

  /** The image was announced with its size, acknowledged, flashed to its partition and checked, in this order. */
  ghost predicate Landed(disk: Disk, rec: Record) {
    var t, a := rec.target, rec.answers;
    && t.image in disk && t.partition != "" && !Contains(t.image, SKIP)
    && rec.shot == Shot(true, [
         Command("download:" + SizeText(disk[t.image]), "DATA" + SizeText(disk[t.image])),
         Data(Accepted(disk[t.image], a.writes), a.sent),
         Command("flash:" + t.partition, "OKAY"),
         Command("check:" + t.partition, a.checked)])
    && Contains(a.sent, "OKAY") && HasMarker(a.checked) && ChecksumPasses(t.checksum, a.checked)
  }

  /** The check was carried out. */
  ghost predicate HasMarker(reply: string) {
    exists i :: At(reply, "OKAYCRC32:", i)
  }

  lemma PassNeedsMarker(checksum: string, reply: string)
    ensures ChecksumPasses(checksum, reply) ==> HasMarker(reply)
  {
    if ChecksumPasses(checksum, reply) {
      assert At(reply, "OKAYCRC32:", StrStr(reply, "OKAYCRC32:"));
    }
  }

  /** What the table asks for: its lines in order, without those marked SKIP_. */
  function Wanted(words: seq<string>): seq<Target> {
    if words == [] then []
    else
      var t := ParseWord(words[0]);
      if Contains(t.image, SKIP) then Wanted(words[1..]) else [t] + Wanted(words[1..])
  }

  function Targets(journal: seq<Record>): (ts: seq<Target>)
    ensures |ts| == |journal| && forall i :: 0 <= i < |ts| ==> ts[i] == journal[i].target
  {
    if journal == [] then [] else [journal[0].target] + Targets(journal[1..])
  }

  /**
    Lines are tried in table order and SKIP_ lines never; every one tried but perhaps the last
    has landed; and the whole succeeds exactly when every line that is asked for has.
   */
  lemma {:induction false} FlashedInOrder(disk: Disk, words: seq<string>, answers: nat -> Answers, k: nat)
    ensures var r := FlashWords(disk, words, answers, k);
            && Targets(r.journal) <= Wanted(words)
            && (forall i :: 0 <= i < |r.journal| - 1 ==> Landed(disk, r.journal[i]))
            && (r.ok <==> Targets(r.journal) == Wanted(words) && forall i :: 0 <= i < |r.journal| ==> Landed(disk, r.journal[i]))
    decreases |words|
  {
    if words != [] {
      var t := ParseWord(words[0]);
      if Contains(t.image, SKIP) {
        FlashedInOrder(disk, words[1..], answers, k);
      } else {
        var r := FlashWords(disk, words, answers, k);
        var rec := r.journal[0];
        OneLands(disk, t, answers(k), rec);
        if rec.shot.ok {
          FlashedInOrder(disk, words[1..], answers, k + 1);
          var rest := FlashWords(disk, words[1..], answers, k + 1).journal;
          assert r.journal == [rec] + rest && r.journal[1..] == rest;
          assert forall i :: 0 <= i < |rest| ==> rest[i] == r.journal[i + 1];
        }
      }
    }
  }

  lemma OneLands(disk: Disk, t: Target, a: Answers, rec: Record)
    requires rec == Record(t, a, FlashImage(disk, t, a)) && !Contains(t.image, SKIP)
    ensures rec.shot.ok <==> Landed(disk, rec)
  {
    PassNeedsMarker(t.checksum, a.checked);
  }

  /** A flash whose check is not answered with the marker never lands; it is the last that is tried, and the whole fails. */
  lemma RefusedCheckEnds(disk: Disk, words: seq<string>, answers: nat -> Answers, i: nat)
    requires i < |FlashWords(disk, words, answers, 0).journal|
    requires !HasMarker(FlashWords(disk, words, answers, 0).journal[i].answers.checked)
    ensures var r := FlashWords(disk, words, answers, 0);
            !Landed(disk, r.journal[i]) && i == |r.journal| - 1 && !r.ok
  {
    FlashedInOrder(disk, words, answers, 0);
  }

  /**
    How far a flash gets, good or bad: the data are sent only if the download request was confirmed
    with the size of the file and the port opens, the flash command only if the data were
    acknowledged, the check only if the flash was; and it is good exactly if the check passes.
   */
  lemma StepsExactly(disk: Disk, t: Target, a: Answers) returns (n: nat)
    requires t.partition != "" && t.image != "" && t.image in disk
    ensures var size := SizeText(disk[t.image]);
            var all := [Command("download:" + size, a.asked), Data(Accepted(disk[t.image], a.writes), a.sent),
                        Command("flash:" + t.partition, a.flashed), Command("check:" + t.partition, a.checked)];
            && 1 <= n <= 4 && FlashImage(disk, t, a).events == all[..n]
            && (n > 1 <==> a.asked == "DATA" + size && a.opens)
            && (n > 2 <==> n > 1 && exists i :: At(a.sent, "OKAY", i))
            && (n > 3 <==> n > 2 && a.flashed == "OKAY")
            && (FlashImage(disk, t, a).ok <==> n > 3 && ChecksumPasses(t.checksum, a.checked))
  {
    n := |FlashImage(disk, t, a).events|;
    assert Contains(a.sent, "OKAY") <==> exists i :: At(a.sent, "OKAY", i);
  }

  /** Nothing is sent for a line that names no partition or no image that can be opened. */
  lemma NothingToFlash(disk: Disk, t: Target, a: Answers)
    ensures FlashImage(disk, t, a).events == [] <==> t.partition == "" || t.image == "" || t.image !in disk
    ensures FlashImage(disk, t, a).events == [] ==> !FlashImage(disk, t, a).ok
  {
  }

  /** The size that was announced and confirmed is that of the file, below four gigabytes. */
  lemma SizeConfirmed(disk: Disk, rec: Record)
    requires Landed(disk, rec) && |disk[rec.target.image]| < TWO_32
    ensures StrToL16(SizeText(disk[rec.target.image])) == |disk[rec.target.image]|
  {
    Hex8RoundTrip(|disk[rec.target.image]|);
  }

  predicate Only(s: string, d: char) {
    forall i :: 0 <= i < |s| ==> s[i] == d
  }

  /** The delimiters in front of a token. */
  lemma {:induction false} SkipDelimiters(s: string, d: char) returns (n: nat)
    ensures n <= |s| && (forall i :: 0 <= i < n ==> s[i] == d) && (n < |s| ==> s[n] != d)
    ensures StrTok(s, d) == StrTok(s[n..], d)
    decreases |s|
  {
    if s == "" || s[0] != d {
      n := 0;
      assert s[0..] == s;
    } else {
      n := SkipDelimiters(s[1..], d);
      assert s[1..][n..] == s[n + 1..];
      assert forall i :: 1 <= i <= n ==> s[i] == s[1..][i - 1];
      n := n + 1;
    }
  }

  /** Where one token of strtok begins and ends. */
  lemma TokenShape(s: string, d: char) returns (lead: string, tail: string)
    ensures var (token, rest) := StrTok(s, d);
            if token.None? then lead == s && Only(s, d) && tail == ""
            else
              && s == lead + token.value + tail && Only(lead, d) && token.value != "" && d !in token.value
              && (tail == "" ==> rest == "") && (tail != "" ==> tail == [d] + rest)
  {
    var n := SkipDelimiters(s, d);
    var t := s[n..];
    lead, tail := s[..n], "";
    assert s == lead + t;
    if t != "" {
      tail := TokenAt(t, d);
      Assoc(lead, StrTok(t, d).0.value, tail);
    }
  }

  lemma TokenAt(t: string, d: char) returns (tail: string)
    requires t != "" && t[0] != d
    ensures var (token, rest) := StrTok(t, d);
            && token.Some? && t == token.value + tail && token.value != "" && d !in token.value
            && (tail == "" ==> rest == "") && (tail != "" ==> tail == [d] + rest)
  {
    var k := StrChr(t, d);
    tail := if k == -1 then "" else t[k..];
  }

  /** The parts of an answer: colons, a word, more colons, a value up to the next colon, and what is left. */
  predicate Parted(reply: string, lead: string, word: string, gap: string, value: string, tail: string) {
    && reply == lead + word + gap + value + tail
    && Only(lead, ':') && word != "" && ':' !in word && gap != "" && Only(gap, ':') && ':' !in value
    && (tail != "" ==> value != "" && tail[0] == ':')
  }

  /**
    An answer without the marker never passes.  One that holds it has all five parts, and passes
    exactly when there is no value or the value starts with the checksum.  So no checksum at all,
    on either side, passes.
   */
  lemma ChecksumExactly(checksum: string, reply: string)
    returns (lead: string, word: string, gap: string, value: string, tail: string)
    ensures HasMarker(reply) ==> Parted(reply, lead, word, gap, value, tail)
    ensures ChecksumPasses(checksum, reply) <==> HasMarker(reply) && (value == "" || checksum <= value)
  {
    PassNeedsMarker(checksum, reply);
    lead, word, gap, value, tail := "", "", "", "", "";
    if HasMarker(reply) {
      lead, word, gap, value, tail := MarkedExactly(checksum, reply);
    }
  }

  lemma MarkedExactly(checksum: string, reply: string)
    returns (lead: string, word: string, gap: string, value: string, tail: string)
    requires Contains(reply, "OKAYCRC32:")
    ensures Parted(reply, lead, word, gap, value, tail)
    ensures ChecksumPasses(checksum, reply) <==> value == "" || checksum <= value
  {
    var rest, after;
    lead, word, after, rest := FirstWord(reply);
    gap, value, tail := SecondWord(reply, word, after, rest);
    Assoc(lead + word, gap, value + tail);
    Assoc(gap, value, tail);
    Assoc(lead + word + gap, value, tail);
  }

  lemma FirstWord(reply: string) returns (lead: string, word: string, after: string, rest: string)
    requires Contains(reply, "OKAYCRC32:")
    ensures reply == lead + word + after && Only(lead, ':') && word != "" && ':' !in word && after == [':'] + rest
    ensures StrTok(reply, ':') == (Some(word), rest)
  {
    var i := StrStr(reply, "OKAYCRC32:");
    var marker := reply[i..i + 10];
    assert marker == "OKAYCRC32:" && marker[0] == reply[i] && marker[9] == reply[i + 9];
    lead, after := TokenShape(reply, ':');
    var t := StrTok(reply, ':');
    assert t.0.Some?;
    word, rest := t.0.value, t.1;
    MarkerSplits(reply, lead, word, after, i);
  }

  lemma SecondWord(reply: string, word: string, after: string, rest: string) returns (gap: string, value: string, tail: string)
    requires StrTok(reply, ':') == (Some(word), rest) && after == [':'] + rest
    ensures after == gap + (value + tail) && gap != "" && Only(gap, ':') && ':' !in value
    ensures tail != "" ==> value != "" && tail[0] == ':'
    ensures var f := Fields(reply, ':'); if value == "" then |f| == 1 else |f| > 1 && f[1] == value
  {
    var t := StrTok(rest, ':');
    var more;
    more, tail := TokenShape(rest, ':');
    assert Fields(reply, ':') == [word] + Fields(rest, ':');
    if t.0.None? {
      gap, value := after, "";
      Assoc(after, [], []);
    } else {
      gap, value := [':'] + more, t.0.value;
      assert Fields(rest, ':') == [value] + Fields(t.1, ':');
      Assoc([':'], more, value + tail);
      Assoc(more, value, tail);
    }
  }

  /** The colon of the marker is not in the first word, so something comes after that. */
  lemma MarkerSplits(reply: string, lead: string, word: string, after: string, i: nat)
    requires reply == lead + word + after && Only(lead, ':') && ':' !in word
    requires i + 9 < |reply| && reply[i] == 'O' && reply[i + 9] == ':'
    ensures after != ""
  {
    assert forall j :: 0 <= j < |lead| ==> reply[j] == lead[j];
    assert forall j :: 0 <= j < |word| ==> reply[|lead| + j] == word[j] && word[j] in word;
  }

  // ----- From the scatter file to the modem -----

  function MeantRows(rows: seq<Row>): seq<Target> {
    if rows == [] then []
    else if Contains(Name(rows[0].image), SKIP) then MeantRows(rows[1..])
    else [Meant(rows[0])] + MeantRows(rows[1..])
  }

  lemma {:induction false} WantedIsMeant(rows: seq<Row>)
    requires RowsOk(rows)
    ensures Wanted(WordsOf(rows)) == MeantRows(rows)
  {
    if rows != [] {
      assert rows[0] in rows;
      RowRoundTrip(rows[0]);
      assert WordsOf(rows)[1..] == WordsOf(rows[1..]);
      WantedIsMeant(rows[1..]);
    }
  }

  /**
    Over the whole way, generating the table, printing it, reading it back and flashing: success
    is exactly that every row that is not a SKIP_ one was flashed to its partition, in table
    order, acknowledged, and checked against the checksum it was listed with.
   */
  lemma TableFlashed(kind: UpdateType, nodes: seq<Node>, images: seq<Image>, lookup: string -> string, dpv: string,
                     disk: Disk, answers: nat -> Answers)
    requires images != [] && ImagesOk(images) && NodesOk(nodes) && Plain(dpv) && LookupOk(lookup)
    ensures var rows := Rows(kind, nodes, images, lookup, dpv);
            var r := FlashWords(disk, Words(TableText(rows)), answers, 0);
            && Targets(r.journal) <= MeantRows(rows)
            && (r.ok <==> Targets(r.journal) == MeantRows(rows) && forall i :: 0 <= i < |r.journal| ==> Landed(disk, r.journal[i]))
  {
    var rows := Rows(kind, nodes, images, lookup, dpv);
    TableRoundTrip(kind, nodes, images, lookup, dpv, 0);
    GeneratedOk(kind, nodes, images, lookup, dpv);
    WantedIsMeant(rows);
    FlashedInOrder(disk, WordsOf(rows), answers, 0);
  }

  /**
    What an image is checked against.  Every line that was tried stands for a row of the table:
    for the device package, or for an image that goes to a partition of the scatter file.  Such an
    image, if there is no "0x" in its entry, is flashed only against the checksum that was looked
    up for the file of that partition.
   */
  lemma FlashedAgainst(kind: UpdateType, nodes: seq<Node>, images: seq<Image>, lookup: string -> string, dpv: string,
                       disk: Disk, answers: nat -> Answers, rec: Record) returns (r: Row, l: nat)
    requires images != [] && ImagesOk(images) && NodesOk(nodes) && Plain(dpv) && LookupOk(lookup)
    requires rec in FlashWords(disk, Words(TableText(Rows(kind, nodes, images, lookup, dpv))), answers, 0).journal
    ensures r.image in images && rec.target.partition == r.partition && rec.target.image == Name(r.image)
    ensures || (r.partition == "mcf2" && Contains(Entry(r.image), "DevPackage"))
            || (l < |nodes| && r.partition == nodes[l].partition && Contains(Entry(r.image), nodes[l].file))
    ensures r.image.embedded != "" ==> rec.target.checksum == r.image.embedded
    ensures r.partition != "mcf2" && (forall i :: !At(Entry(r.image), "0x", i)) && r.image.embedded == "" ==>
              rec.target.checksum == lookup(nodes[l].file)
  {
    var rows := Rows(kind, nodes, images, lookup, dpv);
    var journal := FlashWords(disk, Words(TableText(rows)), answers, 0).journal;
    TableFlashed(kind, nodes, images, lookup, dpv, disk, answers);
    var i :| 0 <= i < |journal| && journal[i] == rec;
    assert Targets(journal)[i] == rec.target == MeantRows(rows)[i];
    r := MeantSound(rows, rec.target);
    l := RowChecksum(kind, nodes, images, lookup, dpv, r);
    var m := RowAssigned(kind, nodes, images, lookup, dpv, r);
  }

  // ----- Which images are flashed -----

  lemma {:induction false} MeantSound(rows: seq<Row>, t: Target) returns (r: Row)
    requires t in MeantRows(rows)
    ensures r in rows && !Contains(Name(r.image), SKIP) && Meant(r) == t
  {
    if !Contains(Name(rows[0].image), SKIP) && Meant(rows[0]) == t {
      r := rows[0];
    } else {
      r := MeantSound(rows[1..], t);
    }
  }

  lemma {:induction false} MeantComplete(rows: seq<Row>, r: Row)
    requires r in rows && !Contains(Name(r.image), SKIP)
    ensures Meant(r) in MeantRows(rows)
  {
    if r != rows[0] {
      MeantComplete(rows[1..], r);
    }
  }

  /** An image of this name has landed. */
  ghost predicate HasLanded(disk: Disk, journal: seq<Record>, name: string) {
    exists rec <- journal :: rec.target.image == name && Landed(disk, rec)
  }

  /** One of the images of this name has a row. */
  ghost predicate NameAssigned(kind: UpdateType, nodes: seq<Node>, images: seq<Image>, name: string) {
    exists m :: 0 <= m < |images| && Name(images[m]) == name && Assigned(kind, nodes, images, m)
  }

  /** A row of the table that is not a SKIP_ one has landed when the flashing succeeded. */
  lemma RowLanded(rows: seq<Row>, disk: Disk, journal: seq<Record>, r: Row)
    requires r in rows && !Contains(Name(r.image), SKIP) && Targets(journal) == MeantRows(rows)
    requires forall i :: 0 <= i < |journal| ==> Landed(disk, journal[i])
    ensures HasLanded(disk, journal, Name(r.image))
  {
    MeantComplete(rows, r);
    var i :| 0 <= i < |journal| && Targets(journal)[i] == Meant(r);
    assert journal[i] in journal;
  }

  lemma LandedRow(rows: seq<Row>, disk: Disk, journal: seq<Record>, name: string) returns (r: Row)
    requires HasLanded(disk, journal, name) && Targets(journal) == MeantRows(rows)
    ensures r in rows && Name(r.image) == name && !Contains(name, SKIP)
  {
    var rec :| rec in journal && rec.target.image == name && Landed(disk, rec);
    var i :| 0 <= i < |journal| && journal[i] == rec;
    assert Targets(journal)[i] == rec.target;
    r := MeantSound(rows, Targets(journal)[i]);
  }

  /**
    When the flashing succeeded, an image of a given name was flashed exactly when the name is
    not a SKIP_ one and an image of that name goes to some partition of the scatter file, or is
    the device image.
   */
  lemma ImageFlashedExactly(kind: UpdateType, nodes: seq<Node>, images: seq<Image>, lookup: string -> string, dpv: string,
                            disk: Disk, answers: nat -> Answers, name: string)
    requires images != [] && ImagesOk(images) && NodesOk(nodes) && Plain(dpv) && LookupOk(lookup)
    requires FlashWords(disk, Words(TableText(Rows(kind, nodes, images, lookup, dpv))), answers, 0).ok
    ensures HasLanded(disk, FlashWords(disk, Words(TableText(Rows(kind, nodes, images, lookup, dpv))), answers, 0).journal, name)
       <==> !Contains(name, SKIP) && NameAssigned(kind, nodes, images, name)
  {
    var rows := Rows(kind, nodes, images, lookup, dpv);
    var journal := FlashWords(disk, Words(TableText(rows)), answers, 0).journal;
    TableFlashed(kind, nodes, images, lookup, dpv, disk, answers);
    if HasLanded(disk, journal, name) {
      var row := LandedRow(rows, disk, journal, name);
      var m := RowAssigned(kind, nodes, images, lookup, dpv, row);
    }
    if !Contains(name, SKIP) && NameAssigned(kind, nodes, images, name) {
      var m :| 0 <= m < |images| && Name(images[m]) == name && Assigned(kind, nodes, images, m);
      var row := AssignedRow(kind, nodes, images, lookup, dpv, m);
      RowLanded(rows, disk, journal, row);
    }
  }

  /** An image that is marked as up to date is never flashed, in good runs and bad. */
  lemma MarkedNeverFlashed(disk: Disk, words: seq<string>, answers: nat -> Answers, i: Image, rec: Record)
    requires i.skip && rec in FlashWords(disk, words, answers, 0).journal
    ensures rec.target.image != Name(i)
  {
    MarkedName(i);
    FlashedInOrder(disk, words, answers, 0);
    var journal := FlashWords(disk, words, answers, 0).journal;
    var k :| 0 <= k < |journal| && journal[k] == rec;
    assert Targets(journal)[k] == rec.target == Wanted(words)[k];
    WantedUnmarked(words, rec.target);
  }

  lemma {:induction false} WantedUnmarked(words: seq<string>, t: Target)
    requires t in Wanted(words)
    ensures !Contains(t.image, SKIP)
  {
    var first := ParseWord(words[0]);
    if Contains(first.image, SKIP) || t != first {
      WantedUnmarked(words[1..], t);
    }
  }

  /** No image's entry stands in the row of another image. */
  ghost predicate NoneInside(rows: seq<Row>, images: seq<Image>) {
    forall r <- rows, i <- images :: Contains(Word(r), Entry(i)) ==> r.image == i
  }

  /**
    The check of the table is a search for substrings.  When no entry stands in the row of
    another image, what it accepts is complete: after a successful flashing every selected image
    that is not a SKIP_ one was flashed.
   */
  lemma CheckedAreFlashed(kind: UpdateType, nodes: seq<Node>, images: seq<Image>, lookup: string -> string, dpv: string,
                          disk: Disk, answers: nat -> Answers, i: Image)
    requires images != [] && ImagesOk(images) && NodesOk(nodes) && Plain(dpv) && LookupOk(lookup)
    requires var rows := Rows(kind, nodes, images, lookup, dpv);
             && NoneInside(rows, images) && Listed(Words(TableText(rows)), Entry(i))
             && FlashWords(disk, Words(TableText(rows)), answers, 0).ok
    requires i in images && !Contains(Name(i), SKIP)
    ensures HasLanded(disk, FlashWords(disk, Words(TableText(Rows(kind, nodes, images, lookup, dpv))), answers, 0).journal, Name(i))
  {
    var rows := Rows(kind, nodes, images, lookup, dpv);
    TableRoundTrip(kind, nodes, images, lookup, dpv, 0);
    TableFlashed(kind, nodes, images, lookup, dpv, disk, answers);
    var j :| 0 <= j < |rows| && Contains(WordsOf(rows)[j], Entry(i));
    assert rows[j] in rows;
    RowLanded(rows, disk, FlashWords(disk, Words(TableText(rows)), answers, 0).journal, rows[j]);
  }

  // ----- What success does not mean -----

  /** The data that a flash which landed sent is the image exactly when each write took the whole of its piece. */
  lemma LandedWhole(disk: Disk, rec: Record)
    requires Landed(disk, rec)
    ensures rec.shot.events[1].Data?
    ensures rec.shot.events[1].bytes == disk[rec.target.image] <==> TakenInFull(disk[rec.target.image], rec.answers.writes, 0)
  {
    AcceptedExactly(disk[rec.target.image], rec.answers.writes);
  }

  const YES: string := "OKAYCRC32:"

  lemma YesPasses(checksum: string)
    ensures ChecksumPasses(checksum, YES)
  {
    assert YES[0..10] == "OKAYCRC32:";
    ContainsAt(YES, "OKAYCRC32:", 0);
    assert YES == "OKAYCRC32" + [':'] + "";
    FieldsCons("OKAYCRC32", ':', "");
  }

  /** A modem that says yes to everything, with a port that takes nothing. */
  function Agreeable(size: string): Answers {
    Answers("DATA" + size, true, k => 0, "OKAY", "OKAY", YES)
  }

  /** Every image that is there can land without a single byte of it being sent. */
  lemma LandedUnsent(disk: Disk, t: Target) returns (rec: Record)
    requires t.image in disk && t.image != "" && t.partition != "" && !Contains(t.image, SKIP)
    ensures rec == Record(t, Agreeable(SizeText(disk[t.image])), FlashImage(disk, t, Agreeable(SizeText(disk[t.image]))))
    ensures Landed(disk, rec) && rec.shot.events[1] == Data("", "OKAY")
  {
    var a := Agreeable(SizeText(disk[t.image]));
    rec := Record(t, a, FlashImage(disk, t, a));
    YesPasses(t.checksum);
    OkayInside();
    NothingTaken(disk[t.image], 0, 0);
    AgreedTo(disk, t, a, rec);
  }

  lemma OkayInside()
    ensures Contains("OKAY", "OKAY")
  {
    assert "OKAY"[0..4] == "OKAY";
    ContainsAt("OKAY", "OKAY", 0);
  }

  lemma AgreedTo(disk: Disk, t: Target, a: Answers, rec: Record)
    requires t.image in disk && t.image != "" && t.partition != "" && !Contains(t.image, SKIP)
    requires a.asked == "DATA" + SizeText(disk[t.image]) && a.opens && Contains(a.sent, "OKAY") && a.flashed == "OKAY"
    requires ChecksumPasses(t.checksum, a.checked) && rec == Record(t, a, FlashImage(disk, t, a))
    ensures Landed(disk, rec) && rec.shot.events[1] == Data(Accepted(disk[t.image], a.writes), a.sent)
  {
    OneLands(disk, t, a, rec);
  }

  lemma {:induction false} NothingTaken(file: string, at: nat, k: nat)
    requires at <= |file|
    ensures Accepted(file, k => 0, at, k) == ""
    decreases |file| - at
  {
    if at < |file| {
      NothingTaken(file, at + Piece(|file| - at), k + 1);
    }
  }

  /** A scatter file with one partition, and two selected images of which only one goes there. */
  const NODES: seq<Node> := [Node("p", "bx")]
  const IMAGES: seq<Image> := [Image(false, "b", ""), Image(false, "bx", "")]

  function NoChecksum(file: string): string {
    ""
  }

  lemma OnlyOneRow()
    ensures Rows(OnlyFw, NODES, IMAGES, NoChecksum, "") == [Row("p", IMAGES[1], "")]
  {
    assert "bx"[0..2] == "bx";
    ContainsAt("bx", "bx", 0);
    FlagAt(NODES[0], IMAGES, NoChecksum, 0);
    FlagAt(NODES[0], IMAGES, NoChecksum, 1);
    var flags, rows := Flags(NODES[0], IMAGES), AllJoined(NODES[0], IMAGES, NoChecksum);
    assert Picked(flags, rows, 2) == [];
    assert Picked(flags, rows, 1) == [rows[1]];
    assert ScatterRows(NODES, IMAGES, NoChecksum, 1) == [];
  }

  /**
    The check accepts this table, for both entries stand in its one line; but the image `b` has
    no row of its own, and no run flashes it.
   */
  lemma ListedButMissed(disk: Disk, answers: nat -> Answers)
    ensures var rows := Rows(OnlyFw, NODES, IMAGES, NoChecksum, "");
            var words := Words(TableText(rows));
            && (forall i <- IMAGES :: Listed(words, Entry(i))) && !Contains(words[0], SKIP)
            && !Contains(Name(IMAGES[0]), SKIP)
            && forall rec <- FlashWords(disk, words, answers, 0).journal :: rec.target.image != Name(IMAGES[0])
  {
    BothListed(Rows(OnlyFw, NODES, IMAGES, NoChecksum, ""));
    NeverFlashed(Rows(OnlyFw, NODES, IMAGES, NoChecksum, ""), disk, answers);
  }

  lemma BothListed(rows: seq<Row>)
    requires rows == Rows(OnlyFw, NODES, IMAGES, NoChecksum, "")
    ensures var words := Words(TableText(rows));
            |words| == 1 && (forall i <- IMAGES :: Listed(words, Entry(i))) && !Contains(words[0], SKIP)
    ensures !Contains(Name(IMAGES[0]), SKIP)
  {
    OnlyOneRow();
    TableRoundTrip(OnlyFw, NODES, IMAGES, NoChecksum, "", 0);
    OneLine(rows[0]);
  }

  lemma NeverFlashed(rows: seq<Row>, disk: Disk, answers: nat -> Answers)
    requires rows == Rows(OnlyFw, NODES, IMAGES, NoChecksum, "")
    ensures forall rec <- FlashWords(disk, Words(TableText(rows)), answers, 0).journal :: rec.target.image != "b"
  {
    OnlyOneRow();
    TableFlashed(OnlyFw, NODES, IMAGES, NoChecksum, "", disk, answers);
    OneMeant(rows);
    OnlyIts(FlashWords(disk, Words(TableText(rows)), answers, 0).journal, MeantRows(rows), "b");
  }

  lemma OnlyIts(journal: seq<Record>, ts: seq<Target>, image: string)
    requires Targets(journal) <= ts && forall t <- ts :: t.image != image
    ensures forall rec <- journal :: rec.target.image != image
  {
    forall rec | rec in journal
      ensures rec.target.image != image
    {
      var i :| 0 <= i < |journal| && journal[i] == rec;
      assert Targets(journal)[i] in ts;
    }
  }

  lemma OneMeant(rows: seq<Row>)
    requires |rows| == 1
    ensures MeantRows(rows) == [Meant(rows[0])] || MeantRows(rows) == []
  {
    assert rows[1..] == [];
  }

  lemma OneLine(r: Row)
    requires r == Row("p", IMAGES[1], "")
    ensures Contains(Word(r), "b") && Contains(Word(r), "bx") && !Contains(Word(r), SKIP)
    ensures !Contains("b", SKIP)
  {
    var w := Word(r);
    assert w == "Flash|p|" + ("bx" + "|");
    NotInside(w, SKIP, 4);
    Suffix("Flash|p|", "bx" + "|", "b");
    Suffix("Flash|p|", "bx" + "|", "bx");
  }

  /** What stands at the beginning of a part stands in the whole. */
  lemma Suffix(a: string, b: string, p: string)
    requires p <= b
    ensures Contains(a + b, p)
  {
    var s := a + b;
    assert s[|a|..|a| + |p|] == b[..|p|];
    ContainsAt(s, p, |a|);
  }
}
