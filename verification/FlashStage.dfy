/**
  download_process as a whole: the order of unlocking, flashing and closing, and exactly when the
  stage ends with the reboot.
 */
module FlashStage {
  import opened CText
  import opened FastbootEngine
  import opened FastbootDriver
  import opened FlashLayout
  import opened FlashProcess
  import opened SessionLog

  // ----- One session after the other -----

  /**
    The sessions from number `no` on were opened for the requests `asked`, in turn, and left the
    records `recs`: one for each, or for each but the last, from which the process did not come
    back.
   */
  ghost predicate InTurn(w: World, no: nat, asked: seq<Request>, recs: seq<Record>, alive: bool)
    decreases |asked|
  {
    if asked == [] then recs == [] && alive
    else if w.run(no, asked[0]).None? then |asked| == 1 && recs == [] && !alive
    else recs != [] && recs[0] == w.run(no, asked[0]).value && InTurn(w, no + 1, asked[1..], recs[1..], alive)
  }

  lemma {:induction false} InTurnOn(w: World, no: nat, a: seq<Request>, r: seq<Record>, mid: nat,
                                    b: seq<Request>, s: seq<Record>, alive: bool)
    requires InTurn(w, no, a, r, true) && mid == no + |a| && InTurn(w, mid, b, s, alive)
    ensures InTurn(w, no, a + b, r + s, alive)
    decreases |a|
  {
    if a == [] {
      assert a + b == b && r + s == s;
    } else {
      InTurnOn(w, no + 1, a[1..], r[1..], mid, b, s, alive);
      assert (a + b)[1..] == a[1..] + b && (r + s)[1..] == r[1..] + s;
    }
  }

  /** The process came back from each of these sessions. */
  ghost predicate AllBack(w: World, no: nat, asked: seq<Request>) {
    forall j :: 0 <= j < |asked| ==> w.run(no + j, asked[j]).Some?
  }

  /** The process is still there exactly when it came back from every session. */
  lemma {:induction false} AliveExactly(w: World, no: nat, asked: seq<Request>, recs: seq<Record>, alive: bool)
    requires InTurn(w, no, asked, recs, alive)
    ensures alive <==> AllBack(w, no, asked)
    decreases |asked|
  {
    if asked != [] {
      if w.run(no, asked[0]).None? {
        assert w.run(no + 0, asked[0]).None?;
      } else {
        AliveExactly(w, no + 1, asked[1..], recs[1..], alive);
        assert forall j :: 0 <= j < |asked[1..]| ==> asked[1..][j] == asked[j + 1] && no + 1 + j == no + (j + 1);
      }
    }
  }

  /** From `p` to `q`, sessions were opened for `asked` and left `recs`. */
  ghost predicate Turns(w: World, p: Proc, q: Proc, asked: seq<Request>, recs: seq<Record>) {
    && q.asked == p.asked + asked && q.journal == p.journal + recs && q.sessionNo == p.sessionNo + |asked|
    && InTurn(w, p.sessionNo, asked, recs, q.alive)
  }

  lemma NoTurn(w: World, p: Proc, q: Proc)
    requires p.alive && q.alive && q.asked == p.asked && q.journal == p.journal && q.sessionNo == p.sessionNo
    ensures Turns(w, p, q, [], [])
  {
    Assoc(p.asked, [], []);
    Assoc(p.journal, [], []);
  }

  lemma TurnsOn(w: World, p: Proc, m: Proc, q: Proc, a: seq<Request>, r: seq<Record>, b: seq<Request>, s: seq<Record>)
    requires Turns(w, p, m, a, r) && m.alive && Turns(w, m, q, b, s)
    ensures Turns(w, p, q, a + b, r + s)
  {
    Assoc(p.asked, a, b);
    Assoc(p.journal, r, s);
    InTurnOn(w, p.sessionNo, a, r, m.sessionNo, b, s, q.alive);
  }

  lemma SendTurn(w: World, p: Proc, req: Request, header: bool) returns (recs: seq<Record>)
    requires Fits(p.layout) && p.alive
    ensures Turns(w, p, Send(w, p, req, header).0, [req], recs)
  {
    var run := w.run(p.sessionNo, req);
    recs := if run.None? then [] else [run.value];
    assert [req][1..] == [];
    if run.None? {
      Assoc(p.journal, [], []);
    } else {
      assert recs[1..] == [];
    }
  }

  lemma {:induction false} ImagesTurn(w: World, p: Proc, i: nat, c: nat) returns (asked: seq<Request>, recs: seq<Record>)
    requires Fits(p.layout) && p.alive && i < |w.files| && c <= |p.layout.images|
    ensures Turns(w, p, FlashImages(w, p, i, c).0, asked, recs)
    decreases |p.layout.images| - c
  {
    if c == |p.layout.images| {
      asked, recs := [], [];
      NoTurn(w, p, p);
    } else {
      var s := p.layout.images[c];
      var image := w.copy(p.copyNo, w.files[i], s, false, p.image);
      var p1 := p.(copyNo := p.copyNo + 1, image := image);
      var (q, rtn) := Send(w, p1, Flash(s.name, image), false);
      asked := [Flash(s.name, image)];
      recs := SendTurn(w, p1, Flash(s.name, image), false);
      if q.alive && rtn > 0 {
        var b, t := ImagesTurn(w, q, i, c + 1);
        TurnsOn(w, p, q, FlashImages(w, q, i, c + 1).0, asked, recs, b, t);
        asked, recs := asked + b, recs + t;
      }
    }
  }

  lemma SlicesTurn(w: World, p: Proc, i: nat, prev: nat) returns (asked: seq<Request>, recs: seq<Record>)
    requires Fits(p.layout) && p.alive && i < |w.files|
    ensures Turns(w, p, FlashSlices(w, p, i, prev).p, asked, recs)
  {
    asked, recs := ImagesTurn(w, p, i, 0);
    var (q, rtn) := FlashImages(w, p, i, 0);
    if q.alive && rtn > 0 {
      GatherMade(w, q, i, prev);
    }
  }

  lemma FileTurn(w: World, p: Proc, i: nat) returns (asked: seq<Request>, recs: seq<Record>)
    requires Fits(p.layout) && p.alive && i < |w.files|
    ensures Turns(w, p, FlashFile(w, p, i).p, asked, recs)
  {
    var st := w.start(p.copyNo, w.files[i], p.first);
    var p1 := p.(copyNo := p.copyNo + 1, first := st.first, layout := Layout([], 0, 0, p.layout.pri));
    FileSteps(w, p, i, st, p1);
    asked, recs := [], [];
    NoTurn(w, p, p1);
    if st.rc > 0 {
      var req := Flash("sop-hdr", p1.first);
      var (q, rtn) := Send(w, p1, req, true);
      asked := [req];
      recs := SendTurn(w, p1, req, true);
      if q.alive && rtn > 0 {
        var b, t := SlicesTurn(w, q, i, |p.layout.pri|);
        TurnsOn(w, p, q, FlashSlices(w, q, i, |p.layout.pri|).p, asked, recs, b, t);
        asked, recs := asked + b, recs + t;
      }
    }
  }

  lemma {:induction false} FilesTurn(w: World, p: Proc, i: nat, rtn: int) returns (asked: seq<Request>, recs: seq<Record>)
    requires Fits(p.layout) && p.alive && i <= |w.files|
    ensures Turns(w, p, FlashFiles(w, p, i, rtn).p, asked, recs)
    decreases |w.files| - i
  {
    if i == |w.files| {
      asked, recs := [], [];
      NoTurn(w, p, p);
    } else {
      asked, recs := FileTurn(w, p, i);
      var f := FlashFile(w, p, i);
      if GoesOn(f) {
        var b, t := FilesTurn(w, f.p, i + 1, f.rtn);
        TurnsOn(w, p, f.p, FlashFiles(w, f.p, i + 1, f.rtn).p, asked, recs, b, t);
        asked, recs := asked + b, recs + t;
      }
    }
  }

  lemma FlashTurn(w: World, p: Proc) returns (asked: seq<Request>, recs: seq<Record>)
    requires Fits(p.layout) && p.alive
    ensures Turns(w, p, FlashAll(w, p).p, asked, recs)
  {
    asked, recs := FilesTurn(w, Begun(p), 0, 0);
    var f := FlashFiles(w, Begun(p), 0, 0);
    if GoesOn(f) && f.p.layout.pri != [] {
      var req := Flash("capri_c", f.p.pri);
      var t := SendTurn(w, f.p, req, false);
      TurnsOn(w, Begun(p), f.p, Send(w, f.p, req, false).0, asked, recs, [req], t);
      asked, recs := asked + [req], recs + t;
    }
  }

  lemma {:induction false} EachTurn(w: World, p: Proc, reqs: seq<Request>, rtn: int) returns (asked: seq<Request>, recs: seq<Record>)
    requires Fits(p.layout) && p.alive
    ensures Turns(w, p, SendEach(w, p, reqs, rtn).0, asked, recs)
    decreases |reqs|
  {
    if reqs == [] || rtn <= 0 {
      asked, recs := [], [];
      NoTurn(w, p, p);
    } else {
      var (q, rtn') := Send(w, p, reqs[0], false);
      asked := [reqs[0]];
      recs := SendTurn(w, p, reqs[0], false);
      if q.alive {
        var b, t := EachTurn(w, q, reqs[1..], rtn');
        TurnsOn(w, p, q, SendEach(w, q, reqs[1..], rtn').0, asked, recs, b, t);
        asked, recs := asked + b, recs + t;
      }
    }
  }

  lemma FinishTurn(w: World, p: Proc, success: bool) returns (asked: seq<Request>, recs: seq<Record>)
    requires Fits(p.layout) && p.alive
    ensures Turns(w, p, Finish(w, p, success), asked, recs)
  {
    asked, recs := [], [];
    NoTurn(w, p, p);
    var q := p;
    if success {
      asked := [BOOT_FLAG];
      recs := SendTurn(w, p, BOOT_FLAG, false);
      q := Send(w, p, BOOT_FLAG, false).0;
    }
    if q.alive {
      var t := SendTurn(w, q, Reboot, false);
      TurnsOn(w, p, q, Send(w, q, Reboot, false).0, asked, recs, [Reboot], t);
      asked, recs := asked + [Reboot], recs + t;
    }
  }

  lemma DownloadTurn(w: World, p: Proc, ready: bool, key: Option<string>, pref: Option<string>, boots: bool)
    returns (asked: seq<Request>, recs: seq<Record>)
    requires Fits(p.layout) && p.alive
    ensures Turns(w, p, Download(w, p, ready, key, pref, boots).0, asked, recs)
  {
    if !ready {
      asked, recs := [], [];
      NoTurn(w, p, p);
    } else {
      asked, recs := EachTurn(w, p, UnlockRequests(key, pref), 1);
      var (u, rtn) := SendEach(w, p, UnlockRequests(key, pref), 1);
      if u.alive && rtn <= 0 {
        var b, t := FinishTurn(w, u, false);
        TurnsOn(w, p, u, Finish(w, u, false), asked, recs, b, t);
        asked, recs := asked + b, recs + t;
      } else if u.alive {
        var b, t := FlashTurn(w, u);
        var f := FlashAll(w, u);
        TurnsOn(w, p, u, f.p, asked, recs, b, t);
        asked, recs := asked + b, recs + t;
        if f.p.alive {
          b, t := FinishTurn(w, f.p, f.rtn > 0);
          TurnsOn(w, p, f.p, Finish(w, f.p, f.rtn > 0), asked, recs, b, t);
          asked, recs := asked + b, recs + t;
        }
      }
    }
  }

  // ----- The order -----

  lemma {:induction false} EachInOrder(w: World, p: Proc, reqs: seq<Request>, rtn: int) returns (recs: seq<Record>)
    requires Honest(w) && Fits(p.layout) && p.alive && rtn > 0
    ensures var (q, rtn') := SendEach(w, p, reqs, rtn);
            && q.journal == p.journal + recs && Came(w, recs, reqs)
            && (q.alive && rtn' > 0 <==> Through(w, recs, reqs))
    decreases |reqs|
  {
    recs := [];
    if reqs == [] {
      Assoc(p.journal, [], []);
    } else {
      var (q, rtn') := Send(w, p, reqs[0], false);
      recs := SendAdds(w, p, reqs[0], false);
      assert reqs == [reqs[0]] + reqs[1..];
      if q.alive && rtn' > 0 {
        var more := EachInOrder(w, q, reqs[1..], rtn');
        Assoc(p.journal, recs, more);
        ReqsOfOne(recs);
        CameOn(w, recs, [reqs[0]], more, reqs[1..]);
        recs := recs + more;
      } else {
        CameShort(w, recs, reqs);
      }
    }
  }

  lemma FinishInOrder(w: World, p: Proc, success: bool) returns (recs: seq<Record>)
    requires Honest(w) && Fits(p.layout) && p.alive
    ensures var q := Finish(w, p, success);
            && q.journal == p.journal + recs && Reqs(recs) <= ClosingRequests(success) && q.declared == p.declared
            && (q.alive <==> Reqs(recs) == ClosingRequests(success))
  {
    recs := [];
    var q := p;
    Assoc(p.journal, [], []);
    if success {
      recs := SendAdds(w, p, BOOT_FLAG, false);
      q := Send(w, p, BOOT_FLAG, false).0;
    }
    if q.alive {
      var last := SendAdds(w, q, Reboot, false);
      Assoc(p.journal, recs, last);
      ReqsAppend(recs, last);
      recs := recs + last;
    }
  }

  /** The code says that the flashing succeeded, whether or not the modem then came back. */
  predicate Flashed(code: int) {
    code == 1 || code == MODEM_PORT_OPENING_FAILS_AFTER_FIRMWARE_DOWNLOAD
  }

  predicate Rebooted(recs: seq<Record>) {
    recs != [] && recs[|recs| - 1].req == Reboot
  }

  /** What the flashing part of the journal is. */
  ghost predicate FlashesOf(w: World, decl: seq<Declared>, t: Temps, recs: seq<Record>) {
    OnlyFlashes(recs) && |decl| <= |w.files| && Came(w, recs, MadePlan(w, decl, t))
  }

  /**
    The parts of a stage that ended as `q` with `code`, with temporary files `t` when the flashing
    began.  Nothing is flashed before every unlocking step has succeeded; the boot flag is set
    only after the whole flashing succeeded; in each part only the last request can have failed;
    and the closing part is complete unless the process is gone.
   */
  ghost predicate InOrder(w: World, q: Proc, code: int, key: Option<string>, pref: Option<string>, boots: bool, t: Temps,
                          unlock: seq<Record>, flashes: seq<Record>, closing: seq<Record>) {
    && Came(w, unlock, UnlockRequests(key, pref))
    && (flashes != [] ==> Through(w, unlock, UnlockRequests(key, pref)) && FlashesOf(w, q.declared, t, flashes))
    && (BOOT_FLAG in Reqs(closing) ==> Achieved(w, q.declared, t, flashes))
    && (q.alive ==> Reqs(closing) == ClosingRequests(Flashed(code)))
    && (!q.alive ==> closing == [] || Reqs(closing) == [BOOT_FLAG])
    && (q.alive && Flashed(code) ==> Achieved(w, q.declared, t, flashes) && (code == 1 <==> boots))
    && (q.alive ==> if Through(w, unlock, UnlockRequests(key, pref)) then code == 1 || code == -8 || code == -6 else code == -4)
  }

  /** The flashing ended as `f`. */
  ghost predicate FlashedAs(w: World, f: Flow, t: Temps, flashes: seq<Record>) {
    FlashesOf(w, f.p.declared, t, flashes) && (f.p.alive && f.rtn > 0 ==> Achieved(w, f.p.declared, t, flashes))
  }

  /** After that the stage ended as `q`. */
  ghost predicate ClosedAs(f: Flow, q: Proc, closing: seq<Record>) {
    && q.declared == f.p.declared
    && if f.p.alive
       then Reqs(closing) <= ClosingRequests(f.rtn > 0) && (q.alive <==> Reqs(closing) == ClosingRequests(f.rtn > 0))
       else closing == [] && !q.alive
  }

  lemma Closes(w: World, f: Flow, q: Proc, code: int, key: Option<string>, pref: Option<string>, boots: bool, t: Temps,
               unlock: seq<Record>, flashes: seq<Record>, closing: seq<Record>)
    requires Through(w, unlock, UnlockRequests(key, pref)) && FlashedAs(w, f, t, flashes) && ClosedAs(f, q, closing)
    requires f.p.alive ==> code == if f.rtn <= 0 then FASTBOOT_FLASHING_FAILED
                                   else if boots then 1 else MODEM_PORT_OPENING_FAILS_AFTER_FIRMWARE_DOWNLOAD
    ensures InOrder(w, q, code, key, pref, boots, t, unlock, flashes, closing)
  {
  }

  lemma FlashPart(w: World, u: Proc) returns (flashes: seq<Record>)
    requires Honest(w) && Fits(u.layout) && u.alive
    ensures FlashAll(w, u).p.journal == u.journal + flashes && FlashedAs(w, FlashAll(w, u), TempsOf(u), flashes)
  {
    flashes := FlashAllMade(w, u);
  }

  lemma ClosingPart(w: World, f: Flow) returns (closing: seq<Record>)
    requires Honest(w) && Fits(f.p.layout)
    ensures var q := if f.p.alive then Finish(w, f.p, f.rtn > 0) else f.p;
            q.journal == f.p.journal + closing && ClosedAs(f, q, closing)
  {
    closing := [];
    Assoc(f.p.journal, [], []);
    if f.p.alive {
      closing := FinishInOrder(w, f.p, f.rtn > 0);
    }
  }

  /** The stage from the moment the device is unlocked. */
  lemma FlashParts(w: World, u: Proc, key: Option<string>, pref: Option<string>, boots: bool, unlock: seq<Record>)
    returns (flashes: seq<Record>, closing: seq<Record>)
    requires Honest(w) && Fits(u.layout) && u.alive && Through(w, unlock, UnlockRequests(key, pref))
    ensures var (q, code) := AfterUnlock(w, u, boots);
            && q.journal == u.journal + flashes + closing
            && InOrder(w, q, code, key, pref, boots, TempsOf(u), unlock, flashes, closing)
  {
    flashes := FlashPart(w, u);
    var f := FlashAll(w, u);
    closing := ClosingPart(w, f);
    var (q, code) := AfterUnlock(w, u, boots);
    Closes(w, f, q, code, key, pref, boots, TempsOf(u), unlock, flashes, closing);
  }

  /** download_process in every world: the journal grows by an unlocking, a flashing and a closing part, in this order. */
  lemma DownloadOrder(w: World, p: Proc, ready: bool, key: Option<string>, pref: Option<string>, boots: bool)
    returns (t: Temps, unlock: seq<Record>, flashes: seq<Record>, closing: seq<Record>)
    requires Honest(w) && Fits(p.layout) && p.alive
    ensures var (q, code) := Download(w, p, ready, key, pref, boots);
            && q.journal == p.journal + unlock + flashes + closing
            && (ready ==> InOrder(w, q, code, key, pref, boots, t, unlock, flashes, closing))
            && (!ready ==> unlock == flashes == closing == [] && code == -3)
  {
    t, unlock, flashes, closing := TempsOf(p), [], [], [];
    Assoc(p.journal, [], []);
    if ready {
      unlock := EachInOrder(w, p, UnlockRequests(key, pref), 1);
      var (u, rtn) := SendEach(w, p, UnlockRequests(key, pref), 1);
      t := TempsOf(u);
      Assoc(p.journal + unlock, [], []);
      if u.alive && rtn <= 0 {
        closing := FinishInOrder(w, u, false);
      } else if u.alive {
        flashes, closing := FlashParts(w, u, key, pref, boots, unlock);
      }
    }
  }

  lemma OrderReboots(w: World, q: Proc, code: int, key: Option<string>, pref: Option<string>, boots: bool, t: Temps,
                     unlock: seq<Record>, flashes: seq<Record>, closing: seq<Record>)
    requires InOrder(w, q, code, key, pref, boots, t, unlock, flashes, closing)
    ensures Rebooted(unlock + flashes + closing) <==> q.alive
  {
    LastIsReboot(unlock, flashes, closing, key, pref);
  }

  lemma SameRest<T>(was: seq<T>, a: seq<T>, b: seq<T>, c: seq<T>, all: seq<T>)
    requires all == a + b + c
    ensures was + a + b + c == was + all
  {
  }

  lemma LastIsReboot(unlock: seq<Record>, flashes: seq<Record>, closing: seq<Record>, key: Option<string>, pref: Option<string>)
    requires Reqs(unlock) <= UnlockRequests(key, pref) && OnlyFlashes(flashes)
    ensures closing == [] || Reqs(closing) == [BOOT_FLAG] ==> !Rebooted(unlock + flashes + closing)
    ensures Reqs(closing) == ClosingRequests(true) || Reqs(closing) == ClosingRequests(false) ==> Rebooted(unlock + flashes + closing)
  {
    var recs := unlock + flashes + closing;
    if closing != [] {
      assert recs[|recs| - 1] == closing[|closing| - 1];
      assert Reqs(closing)[|closing| - 1] == closing[|closing| - 1].req;
    } else if flashes != [] {
      assert recs[|recs| - 1] == flashes[|flashes| - 1];
    } else if unlock != [] {
      assert recs[|recs| - 1] == unlock[|unlock| - 1];
      assert Reqs(unlock)[|unlock| - 1] == UnlockRequests(key, pref)[|unlock| - 1];
    }
  }

  lemma RebootAlive(w: World, p: Proc, ready: bool, key: Option<string>, pref: Option<string>, boots: bool, q: Proc)
    returns (recs: seq<Record>)
    requires Honest(w) && Fits(p.layout) && p.alive && q == Download(w, p, ready, key, pref, boots).0
    ensures q.journal == p.journal + recs && (Rebooted(recs) <==> ready && q.alive)
  {
    var t, unlock, flashes, closing := DownloadOrder(w, p, ready, key, pref, boots);
    recs := unlock + flashes + closing;
    SameRest(p.journal, unlock, flashes, closing, recs);
    if ready {
      OrderReboots(w, q, Download(w, p, ready, key, pref, boots).1, key, pref, boots, t, unlock, flashes, closing);
    }
  }

  /**
    Whatever the world: the reboot is the last command exactly when the device showed up and the
    process came back from every session that was opened.
   */
  lemma RebootLast(w: World, p: Proc, ready: bool, key: Option<string>, pref: Option<string>, boots: bool)
    returns (asked: seq<Request>, recs: seq<Record>)
    requires Honest(w) && Fits(p.layout) && p.alive
    ensures Turns(w, p, Download(w, p, ready, key, pref, boots).0, asked, recs)
    ensures Rebooted(recs) <==> ready && AllBack(w, p.sessionNo, asked)
  {
    var q := Download(w, p, ready, key, pref, boots).0;
    asked, recs := DownloadTurn(w, p, ready, key, pref, boots);
    var same := RebootAlive(w, p, ready, key, pref, boots, q);
    RebootBack(w, p, q, ready, asked, recs, same);
  }

  lemma RebootBack(w: World, p: Proc, q: Proc, ready: bool, asked: seq<Request>, recs: seq<Record>, same: seq<Record>)
    requires Turns(w, p, q, asked, recs) && q.journal == p.journal + same && (Rebooted(same) <==> ready && q.alive)
    ensures Rebooted(recs) <==> ready && AllBack(w, p.sessionNo, asked)
  {
    AliveExactly(w, p.sessionNo, asked, recs, q.alive);
    SameTail(p.journal, recs, same);
  }

  lemma SameTail<T>(was: seq<T>, a: seq<T>, b: seq<T>)
    requires was + a == was + b
    ensures a == b
  {
    assert a == (was + a)[|was|..] && b == (was + b)[|was|..];
  }

  // ----- On the device -----

  /** None of these sessions is one from which the process does not come back. */
  ghost predicate NoneGone(sessions: seq<Session>, no: nat, asked: seq<Request>)
    requires AllUsable(sessions)
  {
    forall j :: 0 <= j < |asked| ==> !Gone(UsableAt(sessions, no + j), asked[j])
  }

  predicate AllUsable(sessions: seq<Session>) {
    forall i :: 0 <= i < |sessions| ==> Usable(sessions[i])
  }

  function UsableAt(sessions: seq<Session>, k: nat): (s: Session)
    requires AllUsable(sessions)
    ensures Usable(s)
  {
    SessionAt(sessions, k)
  }

  lemma BackExactly(files: seq<Option<string>>, sessions: seq<Session>, disks: seq<Disk>, no: nat, asked: seq<Request>)
    requires AllUsable(sessions)
    ensures AllBack(RealWorld(files, sessions, disks), no, asked) <==> NoneGone(sessions, no, asked)
  {
    var w := RealWorld(files, sessions, disks);
    forall j | 0 <= j < |asked|
      ensures w.run(no + j, asked[j]).Some? <==> !Gone(UsableAt(sessions, no + j), asked[j])
    {
      GoneExactly(UsableAt(sessions, no + j), asked[j]);
    }
  }

  /**
    For devices and disks as they are: the reboot is the last command exactly when the device
    showed up and no session of the stage was one from which the process does not come back.
   */
  lemma RebootExactly(files: seq<Option<string>>, sessions: seq<Session>, disks: seq<Disk>,
                      p: Proc, ready: bool, key: Option<string>, pref: Option<string>, boots: bool)
    returns (asked: seq<Request>, recs: seq<Record>)
    requires Fits(p.layout) && p.alive && AllUsable(sessions)
    ensures Turns(RealWorld(files, sessions, disks), p, Download(RealWorld(files, sessions, disks), p, ready, key, pref, boots).0, asked, recs)
    ensures Rebooted(recs) <==> ready && NoneGone(sessions, p.sessionNo, asked)
  {
    RealIsHonest(files, sessions, disks);
    asked, recs := RebootLast(RealWorld(files, sessions, disks), p, ready, key, pref, boots);
    BackExactly(files, sessions, disks, p.sessionNo, asked);
  }

  /** Such a stage: without the key file for the first unlocking step the process ends in it, and nothing is rebooted. */
  lemma NoKeyNoReboot(files: seq<Option<string>>, sessions: seq<Session>, disks: seq<Disk>, p: Proc, pref: Option<string>, boots: bool)
    requires Fits(p.layout) && p.alive
    ensures var q := Download(RealWorld(files, sessions, disks), p, true, None, pref, boots).0;
            q.asked == p.asked + [Flash("frp-unlock", None)] && q.journal == p.journal && !q.alive
  {
    var w, req := RealWorld(files, sessions, disks), Flash("frp-unlock", None);
    assert w.run(p.sessionNo, req) == SessionRecord(SessionAt(sessions, p.sessionNo), req) == None;
    var q := Send(w, p, req, false).0;
    assert UnlockRequests(None, pref)[0] == req;
    assert SendEach(w, p, UnlockRequests(None, pref), 1).0 == q;
  }
}
