/**
  download_process as the devices see it: which commands are on the bus of its sessions, and what
  has been acknowledged before.
 */
module StageWire {
  import opened CText
  import opened UsbTransport
  import opened FastbootProtocol
  import opened FastbootWire
  import opened FastbootEngine
  import opened EngineWire
  import opened FlashLayout
  import opened FlashProcess
  import opened FlashStage

  /** A session of this one command. */
  predicate Says(ev: seq<Event>, cmd: string) {
    ev != [] && Only(ev, cmd)
  }

  /** The command was answered with OKAY. */
  predicate Acknowledged(ev: seq<Event>, cmd: string) {
    Says(ev, cmd) && EndsOkay(ev)
  }

  /** The record of a request that flashes nothing. */
  lemma CommandRecord(rec: Record)
    requires Genuine(rec) && !rec.req.Flash?
    ensures Only(rec.events, Wording(rec.req))
    ensures rec.events != [] <==> Writable(rec.session.link) && |Wording(rec.req)| <= 64
    ensures rec.rtn == 1 && !rec.req.Reboot? ==> Acknowledged(rec.events, Wording(rec.req))
  {
    var ev := CommandSession(Host(rec.session.link, [], ""), rec.session.mem, rec.req);
    assert [] + ev == ev;
    SendCommandMeans(rec);
  }

  /** The first transfer begins with this letter. */
  predicate Opens(ev: seq<Event>, c: char) {
    ev != [] && ev[0].Out? && |ev[0].data| > 0 && ev[0].data[0] == c
  }

  lemma OpensOn(ev: seq<Event>, rest: seq<Event>, c: char)
    requires Opens(ev, c)
    ensures Opens(ev + rest, c)
  {
  }

  lemma NotSaid(ev: seq<Event>, c: char, cmd: string)
    requires Opens(ev, c) && |cmd| > 0 && cmd[0] != c
    ensures !Says(ev, cmd)
  {
    assert OutData(ev)[0] == ev[0].data;
  }

  lemma DownloadOpens(d: seq<Event>, image: string)
    requires d != [] && d[0].Out? && Sends(OutData(d), image)
    ensures Opens(d, 'd')
  {
    assert d[0].data[..9][0] == 'd';
  }

  /** A flash session begins with a question or with the announcement of its image, if anything is on the bus of it. */
  lemma FlashOpens(rec: Record)
    requires Genuine(rec) && rec.req.Flash?
    ensures rec.events == [] || Opens(rec.events, 'g') || Opens(rec.events, 'd')
  {
    var a, b, d, f := FlashSession(Host(rec.session.link, [], ""), rec.session.mem, rec.req.partition, rec.req.image);
    assert rec.events == a + b + (d + f) by {
      assert [] + (a + b + (d + f)) == a + b + (d + f);
    }
    QuestionsOpen(a, b, d, f, rec.req.partition);
    if a == [] {
      var e := FastbootMain(Host(rec.session.link, [], ""), rec.session.mem, rec.req);
      DownloadsOpen(a, b, d, f, NameToFlash(rec.req.partition, Answer(a), Answer(b)).value, rec.req.image.value, e.status);
    }
  }

  lemma QuestionsOpen(a: seq<Event>, b: seq<Event>, d: seq<Event>, f: seq<Event>, partition: string)
    requires Asked(a, b, partition)
    ensures a != [] ==> Opens(a + b + (d + f), 'g')
  {
    if a != [] {
      assert a[0].data == OutData(a)[0] && a[0].data[..16] == "getvar:has-slot:" && a[0].data[0] == 'g';
      OpensOn(a, b, 'g');
      OpensOn(a + b, d + f, 'g');
    }
  }

  lemma DownloadsOpen(a: seq<Event>, b: seq<Event>, d: seq<Event>, f: seq<Event>, name: string, file: string, status: int)
    requires a == b == [] && PairTrace(d, f, name, file, status)
    ensures a + b + (d + f) == [] || Opens(a + b + (d + f), 'd')
  {
    assert a + b + (d + f) == d + f;
    if d != [] {
      DownloadOpens(d, Sent(file));
      OpensOn(d, f, 'd');
    } else {
      assert f == [];
    }
  }

  lemma FlashRecord(rec: Record, cmd: string)
    requires Genuine(rec) && rec.req.Flash? && |cmd| > 0 && cmd[0] != 'g' && cmd[0] != 'd'
    ensures !Says(rec.events, cmd)
  {
    FlashOpens(rec);
    if Opens(rec.events, 'g') {
      NotSaid(rec.events, 'g', cmd);
    } else if Opens(rec.events, 'd') {
      NotSaid(rec.events, 'd', cmd);
    }
  }

  /** What the unlocking is on the bus: the key is on the device, and every step after it was acknowledged. */
  ghost predicate UnlockedOnBus(recs: seq<Record>, key: Option<string>, pref: Option<string>) {
    && |recs| == (if pref.Some? then 3 else 2)
    && key.Some? && OnDevice(recs[0].events, "frp-unlock", key.value)
    && Acknowledged(recs[1].events, "flashing unlock")
    && (pref.Some? ==> Acknowledged(recs[2].events, "oem impref " + pref.value))
  }

  ghost predicate AllGenuine(recs: seq<Record>) {
    forall rec <- recs :: Genuine(rec)
  }

  lemma UnlockParts(w: World, recs: seq<Record>, key: Option<string>, pref: Option<string>)
    requires Through(w, recs, UnlockRequests(key, pref))
    ensures |recs| == if pref.Some? then 3 else 2
    ensures Good(w, recs[0]) && recs[0].req == Flash("frp-unlock", key)
    ensures Good(w, recs[1]) && recs[1].req == Flashing("unlock", None)
    ensures pref.Some? ==> Good(w, recs[2]) && recs[2].req == Oem("impref", pref)
  {
    var reqs := UnlockRequests(key, pref);
    assert |Reqs(recs)| == |recs| == |reqs|;
    forall i | 0 <= i < |recs|
      ensures recs[i].req == reqs[i]
    {
      assert Reqs(recs)[i] == recs[i].req;
    }
  }

  lemma PreferenceWording(pref: string)
    ensures Wording(Oem("impref", Some(pref))) == "oem impref " + pref
  {
    assert "oem " + "impref" + " " == "oem impref ";
  }

  lemma StepSeen(rec: Record, cmd: string)
    requires Genuine(rec) && rec.rtn == 1 && !rec.req.Flash? && !rec.req.Reboot? && cmd == Wording(rec.req)
    ensures Acknowledged(rec.events, cmd)
  {
    CommandRecord(rec);
  }

  lemma UnlockWording()
    ensures Wording(Flashing("unlock", None)) == "flashing unlock"
  {
  }

  lemma FlagWording()
    ensures Wording(Oem("boot-flag", Some("9"))) == "oem boot-flag 9"
  {
  }

  lemma KeySeen(rec: Record, key: Option<string>)
    requires Genuine(rec) && rec.rtn == 1 && rec.req == Flash("frp-unlock", key)
    ensures key.Some? && OnDevice(rec.events, "frp-unlock", key.value)
  {
    SendCommandMeans(rec);
  }

  lemma UnlockSeen(w: World, recs: seq<Record>, key: Option<string>, pref: Option<string>)
    requires Through(w, recs, UnlockRequests(key, pref)) && AllGenuine(recs)
    ensures UnlockedOnBus(recs, key, pref)
  {
    UnlockParts(w, recs, key, pref);
    KeySeen(recs[0], key);
    UnlockWording();
    StepSeen(recs[1], "flashing unlock");
    if pref.Some? {
      PreferenceWording(pref.value);
      StepSeen(recs[2], "oem impref " + pref.value);
    }
  }

  lemma OtherCommand(ev: seq<Event>, a: string, b: string)
    requires Only(ev, a) && a != b
    ensures !Says(ev, b)
  {
  }

  /** Before the closing part no session is that of the boot flag or of the reboot. */
  lemma NoClosingYet(rec: Record, key: Option<string>, pref: Option<string>, cmd: string)
    requires Genuine(rec) && (rec.req.Flash? || rec.req in UnlockRequests(key, pref))
    requires cmd == "oem boot-flag 9" || cmd == "reboot"
    ensures !Says(rec.events, cmd)
  {
    if rec.req.Flash? {
      FlashRecord(rec, cmd);
    } else {
      CommandRecord(rec);
      UnlockingWords(rec.req, key, pref, cmd);
      OtherCommand(rec.events, Wording(rec.req), cmd);
    }
  }

  lemma UnlockingWords(req: Request, key: Option<string>, pref: Option<string>, cmd: string)
    requires req in UnlockRequests(key, pref) && !req.Flash? && (cmd == "oem boot-flag 9" || cmd == "reboot")
    ensures Wording(req) != cmd
  {
    if req.Oem? {
      PreferenceWording(pref.value);
      NotPreference(pref.value, cmd);
    } else {
      UnlockWording();
      assert "flashing unlock"[0] != cmd[0];
    }
  }

  lemma NotPreference(pref: string, cmd: string)
    requires cmd == "oem boot-flag 9" || cmd == "reboot"
    ensures "oem impref " + pref != cmd
  {
    assert ("oem impref " + pref)[4] == 'i' && cmd[4] != 'i';
  }

  lemma {:induction false} TurnsAreGenuine(files: seq<Option<string>>, sessions: seq<Session>, disks: seq<Disk>,
                                           no: nat, asked: seq<Request>, recs: seq<Record>, alive: bool)
    requires InTurn(RealWorld(files, sessions, disks), no, asked, recs, alive)
    ensures AllGenuine(recs)
    decreases |asked|
  {
    var w := RealWorld(files, sessions, disks);
    if asked != [] && w.run(no, asked[0]).Some? {
      TurnsAreGenuine(files, sessions, disks, no + 1, asked[1..], recs[1..], alive);
      RecordIsGenuine(SessionAt(sessions, no), asked[0]);
      assert recs == [recs[0]] + recs[1..];
    }
  }

  /** The closing part on the bus: the boot flag only if `whole`, and then the reboot, unless the process is gone. */
  ghost predicate ClosedOnBus(recs: seq<Record>, whole: bool, alive: bool) {
    && |recs| <= 2
    && (alive ==> |recs| > 0 && Only(recs[|recs| - 1].events, "reboot") &&
                  (recs[|recs| - 1].events != [] <==> Writable(recs[|recs| - 1].session.link)))
    && (forall i :: 0 <= i < |recs| - (if alive then 1 else 0) ==> whole && Only(recs[i].events, "oem boot-flag 9"))
  }

  lemma ClosingRecord(rec: Record)
    requires Genuine(rec)
    ensures rec.req == BOOT_FLAG ==> Only(rec.events, "oem boot-flag 9")
    ensures rec.req == Reboot ==> Only(rec.events, "reboot") && (rec.events != [] <==> Writable(rec.session.link))
  {
    if !rec.req.Flash? {
      CommandRecord(rec);
      FlagWording();
    }
  }

  lemma ClosingParts(recs: seq<Record>, n: nat, reqs: seq<Request>)
    requires Reqs(recs) == reqs && n < |reqs|
    ensures |recs| == |reqs| && recs[n].req == reqs[n]
  {
    assert Reqs(recs)[n] == recs[n].req;
  }

  lemma ClosingSeen(recs: seq<Record>, whole: bool, alive: bool)
    requires AllGenuine(recs) && (BOOT_FLAG in Reqs(recs) ==> whole)
    requires if alive then Reqs(recs) == ClosingRequests(true) || Reqs(recs) == ClosingRequests(false)
             else recs == [] || Reqs(recs) == [BOOT_FLAG]
    ensures ClosedOnBus(recs, whole, alive)
  {
    assert |Reqs(recs)| == |recs|;
    if alive {
      ClosingParts(recs, |recs| - 1, Reqs(recs));
      ClosingRecord(recs[|recs| - 1]);
    }
    if |recs| == 2 || (!alive && |recs| == 1) {
      ClosingParts(recs, 0, Reqs(recs));
      ClosingRecord(recs[0]);
    }
  }

  /** The parts of the stage are those of the journal, so what ran in them is genuine. */
  lemma PartsAreGenuine(files: seq<Option<string>>, sessions: seq<Session>, disks: seq<Disk>, p: Proc, q: Proc,
                        ready: bool, key: Option<string>, pref: Option<string>, boots: bool, all: seq<Record>)
    requires Fits(p.layout) && p.alive && q == Download(RealWorld(files, sessions, disks), p, ready, key, pref, boots).0
    requires q.journal == p.journal + all
    ensures AllGenuine(all)
  {
    var asked, recs := DownloadTurn(RealWorld(files, sessions, disks), p, ready, key, pref, boots);
    SameTail(p.journal, recs, all);
    TurnsAreGenuine(files, sessions, disks, p.sessionNo, asked, recs, q.alive);
  }

  /** Every image of a whole flashing is on the device. */
  ghost predicate AllOnDevice(recs: seq<Record>) {
    forall rec <- recs :: rec.req.Flash? && rec.req.image.Some? && OnDevice(rec.events, rec.req.partition, rec.req.image.value)
  }

  lemma GoodOnDevice(w: World, recs: seq<Record>)
    requires AllGenuine(recs) && OnlyFlashes(recs) && AllGood(w, recs)
    ensures AllOnDevice(recs)
  {
    forall rec | rec in recs
      ensures rec.req.Flash? && rec.req.image.Some? && OnDevice(rec.events, rec.req.partition, rec.req.image.value)
    {
      var i :| 0 <= i < |recs| && recs[i] == rec;
      assert Good(w, recs[i]);
      SendCommandMeans(rec);
    }
  }

  /** The stage on the bus, in its three parts. */
  ghost predicate SeenOnBus(unlock: seq<Record>, flashes: seq<Record>, closing: seq<Record>,
                            key: Option<string>, pref: Option<string>, whole: bool, alive: bool) {
    && (flashes != [] ==> UnlockedOnBus(unlock, key, pref))
    && (forall rec <- unlock + flashes :: !Says(rec.events, "oem boot-flag 9") && !Says(rec.events, "reboot"))
    && (whole ==> AllOnDevice(flashes))
    && ClosedOnBus(closing, whole, alive)
  }

  /**
    download_process once the device has shown up, on the bus of devices as they are.  No image is
    flashed before the key is on the device, "flashing unlock" was acknowledged, and so was the
    preference if there is one.  "oem boot-flag 9" comes only after a whole flashing, with every
    image on the device.  The last command is "reboot", unless the process is gone.
   */
  lemma StageOnBus(files: seq<Option<string>>, sessions: seq<Session>, disks: seq<Disk>,
                   p: Proc, key: Option<string>, pref: Option<string>, boots: bool)
    returns (t: Temps, unlock: seq<Record>, flashes: seq<Record>, closing: seq<Record>, whole: bool)
    requires Fits(p.layout) && p.alive
    ensures var w := RealWorld(files, sessions, disks);
            var (q, code) := Download(w, p, true, key, pref, boots);
            && q.journal == p.journal + (unlock + flashes + closing)
            && SeenOnBus(unlock, flashes, closing, key, pref, whole, q.alive)
            && (whole <==> Achieved(w, q.declared, t, flashes))
            && (q.alive ==> if code == 1 || code == -8 then whole && (code == 1 <==> boots) else code == -4 || code == -6)
  {
    var w := RealWorld(files, sessions, disks);
    RealIsHonest(files, sessions, disks);
    t, unlock, flashes, closing := DownloadOrder(w, p, true, key, pref, boots);
    var (q, code) := Download(w, p, true, key, pref, boots);
    SameRest(p.journal, unlock, flashes, closing, unlock + flashes + closing);
    PartsAreGenuine(files, sessions, disks, p, q, true, key, pref, boots, unlock + flashes + closing);
    whole := Achieved(w, q.declared, t, flashes);
    StageSeen(w, q, code, key, pref, boots, t, unlock, flashes, closing, whole);
  }

  lemma StageSeen(w: World, q: Proc, code: int, key: Option<string>, pref: Option<string>, boots: bool, t: Temps,
                  unlock: seq<Record>, flashes: seq<Record>, closing: seq<Record>, whole: bool)
    requires InOrder(w, q, code, key, pref, boots, t, unlock, flashes, closing)
    requires AllGenuine(unlock + flashes + closing) && whole == Achieved(w, q.declared, t, flashes)
    ensures SeenOnBus(unlock, flashes, closing, key, pref, whole, q.alive)
  {
    SplitGenuine(unlock, flashes, closing);
    if flashes != [] {
      UnlockSeen(w, unlock, key, pref);
    }
    forall rec | rec in unlock + flashes
      ensures !Says(rec.events, "oem boot-flag 9") && !Says(rec.events, "reboot")
    {
      OfUnlockOrFlash(w, q, t, unlock, flashes, key, pref, rec);
      NoClosingYet(rec, key, pref, "oem boot-flag 9");
      NoClosingYet(rec, key, pref, "reboot");
    }
    if whole {
      GoodOnDevice(w, flashes);
    }
    ClosingSeen(closing, whole, q.alive);
  }

  lemma SplitGenuine(a: seq<Record>, b: seq<Record>, c: seq<Record>)
    requires AllGenuine(a + b + c)
    ensures AllGenuine(a) && AllGenuine(b) && AllGenuine(c)
  {
    assert forall rec <- a :: rec in a + b + c;
    assert forall rec <- b :: rec in a + b + c;
    assert forall rec <- c :: rec in a + b + c;
  }

  lemma OfUnlockOrFlash(w: World, q: Proc, t: Temps, unlock: seq<Record>, flashes: seq<Record>,
                        key: Option<string>, pref: Option<string>, rec: Record)
    requires Came(w, unlock, UnlockRequests(key, pref)) && (flashes != [] ==> FlashesOf(w, q.declared, t, flashes))
    requires rec in unlock + flashes && AllGenuine(unlock) && AllGenuine(flashes)
    ensures Genuine(rec) && (rec.req.Flash? || rec.req in UnlockRequests(key, pref))
  {
    if rec in flashes {
      var i :| 0 <= i < |flashes| && flashes[i] == rec;
    } else {
      var i :| 0 <= i < |unlock| && unlock[i] == rec;
      assert Reqs(unlock)[i] == UnlockRequests(key, pref)[i];
    }
  }
}
