/**
  What fastboot_flash_process_v2 is meant to do, and when it does it: the plan that the device's
  declarations make of the image files.
 */
module FlashPlan {
  import opened CText
  import opened FastbootEngine
  import opened FlashLayout
  import opened FlashProcess

  // ----- The plan -----

  /** The bytes of `file` that a declaration names, if all of them are there. */
  function Extract(file: Option<string>, s: Slice): Option<string> {
    if file.Some? && 0 <= s.offset && 0 <= s.size && s.offset + s.size <= |file.value|
    then Some(file.value[s.offset..s.offset + s.size]) else None
  }

  function ImageRequest(file: Option<string>, s: Slice): Request {
    Flash(s.name, Extract(file, s))
  }

  function ImageRequests(file: Option<string>, slices: seq<Slice>, c: nat): seq<Request>
    decreases |slices| - c
  {
    if c >= |slices| then [] else [ImageRequest(file, slices[c])] + ImageRequests(file, slices, c + 1)
  }

  /** The slices from number `c` on, cut out of `file`. */
  function Parts(file: Option<string>, slices: seq<Slice>, c: nat): (ps: seq<Option<string>>)
    ensures |ps| == if c < |slices| then |slices| - c else 0
    decreases |slices| - c
  {
    if c >= |slices| then [] else [Extract(file, slices[c])] + Parts(file, slices, c + 1)
  }

  lemma {:induction false} PartAt(file: Option<string>, slices: seq<Slice>, c: nat, j: nat)
    requires c <= j < |slices|
    ensures Parts(file, slices, c)[j - c] == Extract(file, slices[j])
    decreases j - c
  {
    if c < j {
      PartAt(file, slices, c + 1, j);
    }
  }

  /** The flashes of the first `n` files: for each its header, then the images that declared, in order. */
  function Requests(files: seq<Option<string>>, decl: seq<Declared>, n: nat): seq<Request>
    requires n <= |decl| && n <= |files|
  {
    if n == 0 then []
    else
      var file := files[n - 1];
      Requests(files, decl, n - 1) + ([HeaderRequest(file.Or(""))] + ImageRequests(file, LayoutAfter(decl, n).images, 0))
  }

  /** The carrier slices of the first `n` files, each cut out of the file whose header declared it. */
  function CarrierParts(files: seq<Option<string>>, decl: seq<Declared>, n: nat): seq<Option<string>>
    requires n <= |decl| && n <= |files|
  {
    if n == 0 then []
    else CarrierParts(files, decl, n - 1) + Parts(files[n - 1], LayoutAfter(decl, n).pri, OldPri(decl, n))
  }

  /** All parts one after the other, if all of them are there. */
  function JoinAll(parts: seq<Option<string>>): Option<string> {
    if parts == [] then Some("")
    else
      var rest := JoinAll(parts[1..]);
      if parts[0].None? || rest.None? then None else Some(parts[0].value + rest.value)
  }

  lemma {:induction false} JoinAllAppend(a: seq<Option<string>>, b: seq<Option<string>>)
    ensures JoinAll(a + b) ==
            if JoinAll(a).None? || JoinAll(b).None? then None else Some(JoinAll(a).value + JoinAll(b).value)
  {
    if a == [] {
      assert a + b == b;
      if JoinAll(b).Some? {
        assert "" + JoinAll(b).value == JoinAll(b).value;
      }
    } else {
      assert (a + b)[1..] == a[1..] + b;
      JoinAllAppend(a[1..], b);
      if JoinAll(a).Some? && JoinAll(b).Some? {
        Assoc(a[0].value, JoinAll(a[1..]).value, JoinAll(b).value);
      }
    }
  }

  /** A file that held `stale` after `parts` were added to it. */
  function Holding(stale: Option<string>, parts: seq<Option<string>>): Option<string> {
    if parts == [] then stale
    else if JoinAll(parts).None? then None
    else Some(stale.Or("") + JoinAll(parts).value)
  }

  /**
    Everything that is to be flashed for the headers that have been read, with `stale` in the
    carrier file when the run begins.  A slice that is not inside its file has no bytes to flash.
   */
  function Plan(files: seq<Option<string>>, decl: seq<Declared>, stale: Option<string>): seq<Request>
    requires |decl| <= |files|
  {
    var n := |decl|;
    Requests(files, decl, n) +
    (if n < |files| || LayoutAfter(decl, n).pri == [] then [] else [Flash("capri_c", Holding(stale, CarrierParts(files, decl, n)))])
  }

  lemma TableGrows(decl: seq<Declared>, n: nat)
    requires 0 < n <= |decl|
    ensures LayoutAfter(decl, n - 1).pri <= LayoutAfter(decl, n).pri
  {
    var d := decl[n - 1];
    PostProcessOutcome(Reader(Layout([], 0, 0, LayoutAfter(decl, n - 1).pri), d.junk.0, d.junk.1), d.msgs, true);
  }

  lemma {:induction false} CarrierCount(files: seq<Option<string>>, decl: seq<Declared>, n: nat)
    requires n <= |decl| && n <= |files|
    ensures |CarrierParts(files, decl, n)| == |LayoutAfter(decl, n).pri|
  {
    if n > 0 {
      CarrierCount(files, decl, n - 1);
      var before, more := CarrierParts(files, decl, n - 1), Parts(files[n - 1], LayoutAfter(decl, n).pri, OldPri(decl, n));
      assert CarrierParts(files, decl, n) == before + more;
    }
  }

  /** From table `t` with the parts `p`, one more file makes table `t'` with the parts `p'`. */
  ghost predicate Extends(file: Option<string>, t: seq<Slice>, p: seq<Option<string>>, t': seq<Slice>, p': seq<Option<string>>) {
    && t <= t' && |p| == |t| && |p'| == |t'|
    && forall j :: 0 <= j < |t'| ==> p'[j] == if j < |t| then p[j] else Extract(file, t'[j])
  }

  lemma OneMoreTable(files: seq<Option<string>>, decl: seq<Declared>, n: nat)
    requires 0 < n <= |decl| && n <= |files|
    ensures Extends(files[n - 1], LayoutAfter(decl, n - 1).pri, CarrierParts(files, decl, n - 1),
                    LayoutAfter(decl, n).pri, CarrierParts(files, decl, n))
  {
    CarrierCount(files, decl, n - 1);
    TableGrows(decl, n);
    PartsExtend(files[n - 1], LayoutAfter(decl, n - 1).pri, CarrierParts(files, decl, n - 1), LayoutAfter(decl, n).pri);
  }

  lemma PartsExtend(file: Option<string>, t: seq<Slice>, p: seq<Option<string>>, t': seq<Slice>)
    requires t <= t' && |p| == |t|
    ensures Extends(file, t, p, t', p + Parts(file, t', |t|))
  {
    forall j | |t| <= j < |t'|
      ensures Parts(file, t', |t|)[j - |t|] == Extract(file, t'[j])
    {
      PartAt(file, t', |t|, j);
    }
  }

  /** One file more: what part `j` is. */
  lemma LastOrBefore(files: seq<Option<string>>, decl: seq<Declared>, n: nat, j: nat, t: seq<Slice>, t': seq<Slice>,
                     p: seq<Option<string>>, p': seq<Option<string>>)
    requires 0 < n <= |decl| && n <= |files| && t == LayoutAfter(decl, n - 1).pri && t' == LayoutAfter(decl, n).pri
    requires p == CarrierParts(files, decl, n - 1) && p' == CarrierParts(files, decl, n) && j < |t'|
    ensures |p| == |t| && |p'| == |t'|
    ensures if j < |t| then p'[j] == p[j] && t'[j] == t[j] && n > 1 else p'[j] == Extract(files[n - 1], t'[j])
  {
    OneMoreTable(files, decl, n);
  }

  /** The header of file number `k` made the carrier table `hi` out of `lo`, and so declared entry `j`. */
  ghost predicate Declarer(decl: seq<Declared>, k: nat, j: nat, lo: seq<Slice>, hi: seq<Slice>) {
    k < |decl| && lo == LayoutAfter(decl, k).pri && hi == LayoutAfter(decl, k + 1).pri && |lo| <= j < |hi|
  }

  lemma LastDeclares(decl: seq<Declared>, n: nat, j: nat, t: seq<Slice>, table: seq<Slice>)
    requires 0 < n <= |decl| && table == LayoutAfter(decl, n).pri && t == LayoutAfter(decl, n - 1).pri && |t| <= j < |table|
    ensures Declarer(decl, n - 1, j, t, table)
  {
  }

  /**
    There is one part for each entry of the carrier table, and part number `j` is the slice of
    entry `j`, cut out of the file whose header declared it.
   */
  lemma {:induction false} CarrierByTable(files: seq<Option<string>>, decl: seq<Declared>, n: nat, j: nat,
                                          table: seq<Slice>, parts: seq<Option<string>>)
    returns (k: nat, lo: seq<Slice>, hi: seq<Slice>)
    requires 0 < n <= |decl| && n <= |files| && table == LayoutAfter(decl, n).pri && parts == CarrierParts(files, decl, n) && j < |table|
    ensures k < n && Declarer(decl, k, j, lo, hi)
    ensures |parts| == |table| && parts[j] == Extract(files[k], table[j])
  {
    var t, p := LayoutAfter(decl, n - 1).pri, CarrierParts(files, decl, n - 1);
    LastOrBefore(files, decl, n, j, t, table, p, parts);
    if j >= |t| {
      k, lo, hi := n - 1, t, table;
      LastDeclares(decl, n, j, t, table);
    } else {
      k, lo, hi := CarrierByTable(files, decl, n - 1, j, t, p);
    }
  }

  /**
    capri_c receives the carrier slices and nothing else exactly when nothing was left in the
    carrier file before; or one of the slices is not there, and then there is nothing to send.
   */
  lemma CarrierExactly(files: seq<Option<string>>, decl: seq<Declared>, stale: Option<string>)
    requires |files| == |decl| && LayoutAfter(decl, |decl|).pri != []
    ensures var plan, all := Plan(files, decl, stale), JoinAll(CarrierParts(files, decl, |decl|));
            plan[|plan| - 1] == Flash("capri_c", all) <==> stale.Or("") == "" || all.None?
  {
    CarrierCount(files, decl, |decl|);
    var all, left := JoinAll(CarrierParts(files, decl, |decl|)), stale.Or("");
    if all.Some? && left == "" {
      assert left + all.value == all.value;
    } else if all.Some? {
      assert |left + all.value| > |all.value|;
    }
  }

  // ----- When the copies are made as they should be -----

  /** Copy number `no` puts exactly the bytes that were declared where they belong. */
  ghost predicate CopyGood(w: World, no: nat, i: nat, s: Slice)
    requires i < |w.files|
  {
    && Extract(w.files[i], s).Some?
    && forall append, temp :: w.copy(no, w.files[i], s, append, temp) ==
                              Some((if append then temp.Or("") else "") + Extract(w.files[i], s).value)
  }

  /**
    With a disk as it is, that is so exactly when the declared slice lies inside the image file
    and the disk takes it; that is when write_temp_image_file reports success for a slice that
    does not begin before the file or end before it begins, nor is empty and beyond the end.
   */
  lemma CopyGoodExactly(files: seq<Option<string>>, sessions: seq<Session>, disks: seq<Disk>, no: nat, i: nat, s: Slice)
    requires i < |files|
    ensures var disk := DiskAt(disks, no, Wanted(s.size));
            && (CopyGood(RealWorld(files, sessions, disks), no, i, s) <==>
                  && files[i].Some? && 0 <= s.offset && 0 <= s.size && s.offset + s.size <= |files[i].value|
                  && disk.opens && s.size <= disk.room)
            && (CopyGood(RealWorld(files, sessions, disks), no, i, s) <==>
                  && 0 <= s.offset && 0 <= s.size && (s.size == 0 && files[i].Some? ==> s.offset <= |files[i].value|)
                  && forall append, temp :: WriteTemp(files[i], s.offset, s.size, append, temp, disk).1 == 1)
  {
    var w, disk := RealWorld(files, sessions, disks), DiskAt(disks, no, Wanted(s.size));
    var made := w.copy(no, files[i], s, false, None);
    forall append, temp {
      WriteTempCopies(files[i], s.offset, s.size, append, temp, disk);
    }
    assert WriteTemp(files[i], s.offset, s.size, false, None, disk).0 == made;
    if Extract(files[i], s).Some? && disk.opens && s.size > disk.room {
      assert |made.value| == disk.room;
    }
  }

  /** So are all copies of slices from number `c` on, the first of which is copy number `no`. */
  ghost predicate Copied(w: World, i: nat, slices: seq<Slice>, c: nat, no: nat)
    requires i < |w.files|
    decreases |slices| - c
  {
    c >= |slices| || (CopyGood(w, no, i, slices[c]) && Copied(w, i, slices, c + 1, no + 1))
  }

  /** All copies of file `i` are made as they should be; `no` is the number of copies before it. */
  ghost predicate FileCopied(w: World, i: nat, l: Layout, prev: nat, no: nat)
    requires i < |w.files|
  {
    Copied(w, i, l.images, 0, no + 1) && Copied(w, i, l.pri, prev, no + 1 + |l.images|)
  }

  ghost predicate AllCopied(w: World, decl: seq<Declared>, n: nat, t: Temps)
    requires n <= |decl| && n <= |w.files|
  {
    n == 0 || (AllCopied(w, decl, n - 1, t) &&
               FileCopied(w, n - 1, LayoutAfter(decl, n), OldPri(decl, n), TempsAfter(w, decl, n - 1, t).no))
  }

  lemma {:induction false} ImagesAsPlanned(w: World, i: nat, slices: seq<Slice>, c: nat, no: nat, image: Option<string>)
    requires i < |w.files| && c <= |slices| && Copied(w, i, slices, c, no)
    ensures MadeImages(w, i, slices, c, no, image) == ImageRequests(w.files[i], slices, c)
    decreases |slices| - c
  {
    if c < |slices| {
      var slice := Extract(w.files[i], slices[c]).value;
      var temp := w.copy(no, w.files[i], slices[c], false, image);
      assert "" + slice == slice;
      ImagesAsPlanned(w, i, slices, c + 1, no + 1, temp);
    }
  }

  lemma HoldingTwice(stale: Option<string>, a: seq<Option<string>>, b: seq<Option<string>>)
    requires JoinAll(a).Some?
    ensures Holding(Holding(stale, a), b) == Holding(stale, a + b)
  {
    JoinAllAppend(a, b);
    if b == [] {
      Assoc(a, [], []);
    } else if a == [] {
      assert a + b == b;
    } else if JoinAll(b).Some? {
      Assoc(stale.Or(""), JoinAll(a).value, JoinAll(b).value);
    }
  }

  lemma JoinOne(part: string)
    ensures JoinAll([Some(part)]) == Some(part)
  {
    assert [Some(part)][1..] == [] && part + "" == part;
  }

  lemma {:induction false} PriAsPlanned(w: World, i: nat, slices: seq<Slice>, c: nat, no: nat, pri: Option<string>)
    requires i < |w.files| && c <= |slices| && Copied(w, i, slices, c, no)
    ensures JoinAll(Parts(w.files[i], slices, c)).Some?
    ensures PriLeft(w, i, slices, c, no, pri) == Holding(pri, Parts(w.files[i], slices, c))
    decreases |slices| - c
  {
    if c < |slices| {
      var slice := Extract(w.files[i], slices[c]).value;
      var temp := w.copy(no, w.files[i], slices[c], true, pri);
      assert temp == Some(pri.Or("") + slice);
      JoinOne(slice);
      PriAsPlanned(w, i, slices, c + 1, no + 1, temp);
      JoinAllAppend([Some(slice)], Parts(w.files[i], slices, c + 1));
      HoldingTwice(pri, [Some(slice)], Parts(w.files[i], slices, c + 1));
    }
  }

  lemma FileAsPlanned(w: World, i: nat, l: Layout, prev: nat, b: Temps)
    requires i < |w.files| && prev <= |l.pri| && FileCopied(w, i, l, prev, b.no)
    ensures var file := w.files[i];
            && FileFlashes(w, i, l, b) == [HeaderRequest(file.Or(""))] + ImageRequests(file, l.images, 0)
            && JoinAll(Parts(file, l.pri, prev)).Some?
            && FileTemps(w, i, l, prev, b).pri == Holding(b.pri, Parts(file, l.pri, prev))
  {
    ImagesAsPlanned(w, i, l.images, 0, b.no + 1, b.image);
    PriAsPlanned(w, i, l.pri, prev, b.no + 1 + |l.images|, b.pri);
  }

  lemma {:induction false} FilesAsPlanned(w: World, decl: seq<Declared>, n: nat, t: Temps)
    requires n <= |decl| && n <= |w.files| && AllCopied(w, decl, n, t)
    ensures MadeRequests(w, decl, n, t) == Requests(w.files, decl, n)
    ensures JoinAll(CarrierParts(w.files, decl, n)).Some?
    ensures TempsAfter(w, decl, n, t).pri == Holding(t.pri, CarrierParts(w.files, decl, n))
  {
    if n > 0 {
      FilesAsPlanned(w, decl, n - 1, t);
      var b, l := TempsAfter(w, decl, n - 1, t), LayoutAfter(decl, n);
      FileAsPlanned(w, n - 1, l, OldPri(decl, n), b);
      var before, more := CarrierParts(w.files, decl, n - 1), Parts(w.files[n - 1], l.pri, OldPri(decl, n));
      JoinAllAppend(before, more);
      HoldingTwice(t.pri, before, more);
    }
  }

  /** When every copy is made as it should be, what is to be flashed is the plan. */
  lemma MadeAsPlanned(w: World, decl: seq<Declared>, t: Temps)
    requires |decl| <= |w.files| && AllCopied(w, decl, |decl|, t)
    ensures MadePlan(w, decl, t) == Plan(w.files, decl, t.pri)
  {
    FilesAsPlanned(w, decl, |decl|, t);
  }

  // ----- On the bus -----

  /**
    A flashing run that achieved its end, seen from the bus: record by record, each image is on
    its partition, downloaded whole and acknowledged.
   */
  lemma AchievedOnDevice(files: seq<Option<string>>, sessions: seq<Session>, disks: seq<Disk>,
                         decl: seq<Declared>, t: Temps, recs: seq<Record>, i: nat)
    requires Achieved(RealWorld(files, sessions, disks), decl, t, recs) && i < |recs|
    ensures var plan := MadePlan(RealWorld(files, sessions, disks), decl, t);
            && |plan| == |recs| && plan[i].Flash? && plan[i].image.Some?
            && OnDevice(recs[i].events, plan[i].partition, plan[i].image.value)
  {
    var w := RealWorld(files, sessions, disks);
    assert Good(w, recs[i]) && Reqs(recs)[i] == recs[i].req && recs[i].req.Flash?;
    RanIsGenuine(files, sessions, disks, recs[i]);
    SendCommandMeans(recs[i]);
  }
}
