/**
  The routines of pwl-fwupdate/pwl_fwupdate.c that FlashProcess describes on values, as they run:
  an object with the tables, the temporary files and the counters, and the loops over them.
 */
module FlashUpdater {
  import opened CText
  import opened UsbTransport
  import opened FastbootProtocol
  import opened FastbootEngine
  import opened FastbootDriver
  import opened EngineWire
  import opened FlashLayout
  import opened FlashProcess

  class Updater {
    const files: seq<Option<string>>
    const sessions: seq<Session>
    const disks: seq<Disk>
    const fdtl: FdtlData
    const engine: Engine
    ghost const world: World
    var sessionNo: nat
    var copyNo: nat
    var first: Option<string>
    var image: Option<string>
    var pri: Option<string>
    var alive: bool
    ghost var journal: seq<Record>
    ghost var declared: seq<Declared>
    ghost var asked: seq<Request>

    ghost predicate Valid()
      reads this, fdtl, engine
    {
      && fdtl.Valid() && engine.actionList == []
      && (forall i :: 0 <= i < |sessions| ==> Usable(sessions[i]))
      && Behaves(world, files, sessions, disks)
    }

    ghost function View(): (p: Proc)
      requires Valid()
      reads this, fdtl, fdtl.images, fdtl.pris, engine
      ensures Fits(p.layout)
    {
      Proc(sessionNo, copyNo, first, image, pri, fdtl.View(), alive, journal, declared, asked)
    }

    constructor (files: seq<Option<string>>, sessions: seq<Session>, disks: seq<Disk>, pri: Option<string>)
      requires forall i :: 0 <= i < |sessions| ==> Usable(sessions[i])
      ensures Valid() && fresh(fdtl) && fresh(fdtl.images) && fresh(fdtl.pris) && fresh(engine)
      ensures world == RealWorld(files, sessions, disks)
      ensures View() == Proc(0, 0, None, None, pri, Layout([], 0, 0, []), true, [], [], [])
    {
      this.files, this.sessions, this.disks, this.pri := files, sessions, disks, pri;
      fdtl := new FdtlData();
      engine := new Engine();
      world := RealWorld(files, sessions, disks);
      sessionNo, copyNo, first, image, alive := 0, 0, None, None, true;
      journal, declared, asked := [], [], [];
    }

    /** Open the device, run fastboot_main on it, and keep its log if the process survives that. */
    method RunSession(req: Request) returns (survives: bool, fb: FastbootData, junk: (int, int), ghost rec: Option<Record>)
      requires Valid()
      modifies this`sessionNo, this`asked, engine
      ensures Valid() && sessionNo == old(sessionNo) + 1 && asked == old(asked) + [req] && rec == world.run(old(sessionNo), req) && survives == rec.Some?
      ensures survives ==> fresh(fb) && fresh(fb.slots) && fb.Filling() && !fb.overrun
                           && fb.pushed == rec.value.msgs && junk == rec.value.session.junk
                           && rec.value.rtn == if AnyFailed(rec.value.msgs) then -1 else 1
    {
      var session := if sessionNo < |sessions| then sessions[sessionNo] else DEAD;
      assert Number(sessionNo);
      rec := world.run(sessionNo, req);
      sessionNo, asked := sessionNo + 1, asked + [req];
      var t := new Transport(session.link);
      fb := new FastbootData();
      var died, status := engine.Program(t, fb, session.mem, req);
      survives, junk := !died && !fb.overrun, session.junk;
    }

    /** What fastboot_send_command_v3 does with the log of a session. */
    method ReadLog(fb: FastbootData, header: bool, junk: (int, int), ghost rec: Record) returns (rtn: int)
      requires Valid() && alive && sessionNo > 0 && fb.Filling() && !fb.overrun
      requires fdtl.images != fb.slots as object && fdtl.pris != fb.slots as object
      requires fb.pushed == rec.msgs && junk == rec.session.junk && rec.rtn == if AnyFailed(rec.msgs) then -1 else 1
      modifies this`journal, this`declared, fdtl, fdtl.images, fdtl.pris, fb`count
      ensures Valid() && (View(), rtn) == Told(old(View()).(sessionNo := sessionNo - 1), Some(rec), header) && rtn <= 1
    {
      PostProcessOutcome(Reader(fdtl.View(), junk.0, junk.1), fb.pushed, header);
      rtn := fdtl.Process(fb, header, junk);
      journal := journal + [rec];
      if header {
        declared := declared + [Declared(rec.msgs, rec.session.junk)];
      }
    }

    /** fastboot_send_command_v3; after `die` or an overrun log there is no process left. */
    method SendCommand(req: Request, header: bool) returns (rtn: int)
      requires Valid() && alive
      modifies this`sessionNo, this`alive, this`journal, this`declared, this`asked, fdtl, fdtl.images, fdtl.pris, engine
      ensures Valid() && (View(), rtn) == Send(world, old(View()), req, header) && rtn <= 1
    {
      var survives, fb, junk;
      ghost var rec;
      survives, fb, junk, rec := RunSession(req);
      if !survives {
        alive := false;
        return 0;
      }
      rtn := ReadLog(fb, header, junk, rec.value);
    }

    /** start_flash_image_file: the first KiB becomes the header file. */
    method StartImage(i: nat) returns (rc: int)
      requires Valid() && i < |files|
      modifies this`first, this`copyNo
      ensures Valid() && View() == old(View()).(copyNo := copyNo, first := first) && copyNo == old(copyNo) + 1
      ensures Started(rc, first) == world.start(old(copyNo), files[i], old(first))
    {
      var disk := if copyNo < |disks| then disks[copyNo] else Disk(true, HEADER_BUF_SIZE);
      assert Number(copyNo);
      copyNo := copyNo + 1;
      if files[i].None? {
        return -1;
      }
      var file := files[i].value;
      if |file| < HEADER_BUF_SIZE {
        return -2;
      }
      if !disk.opens {
        return -3;
      }
      first := Some(file[..Min(HEADER_BUF_SIZE, disk.room)]);
      if disk.room < HEADER_BUF_SIZE {
        return -4;
      }
      rc := 1;
    }

    /** write_temp_image_file, whose code its callers ignore. */
    method WriteTempFile(i: nat, s: Slice, append: bool, temp: Option<string>) returns (temp': Option<string>)
      requires Valid() && i < |files|
      modifies this`copyNo
      ensures Valid() && View() == old(View()).(copyNo := copyNo) && copyNo == old(copyNo) + 1
      ensures temp' == world.copy(old(copyNo), files[i], s, append, temp)
    {
      var disk := if copyNo < |disks| then disks[copyNo] else Disk(true, Wanted(s.size));
      assert Number(copyNo);
      copyNo := copyNo + 1;
      if files[i].None? || !disk.opens {
        return temp;
      }
      var text, rc := CopySlice(files[i].value, s.offset, s.size, if append then temp.Or("") else "", disk.room);
      temp' := Some(text);
    }

    /** One turn of the image loop: the slice goes to the temporary file, and that to its partition. */
    method FlashOneImage(i: nat, c: nat) returns (rtn: int)
      requires Valid() && alive && i < |files| && c < fdtl.total
      modifies this`sessionNo, this`copyNo, this`image, this`alive, this`journal, this`declared, this`asked
      modifies fdtl, fdtl.images, fdtl.pris, engine
      ensures Valid() && (View(), rtn) == SendImage(world, old(View()), i, c) && rtn <= 1
    {
      var s := fdtl.images[c];
      image := WriteTempFile(i, s, false, image);
      rtn := SendCommand(Flash(s.name, image), false);
    }

    /** The loop over the image table of file `i`. */
    method FlashImageTable(i: nat) returns (rtn: int)
      requires Valid() && alive && i < |files|
      modifies this`sessionNo, this`copyNo, this`image, this`alive, this`journal, this`declared, this`asked
      modifies fdtl, fdtl.images, fdtl.pris, engine
      ensures Valid() && (View(), rtn) == FlashImages(world, old(View()), i, 0)
    {
      rtn := 1;
      var c: nat := 0;
      ghost var all := FlashImages(world, View(), i, 0);
      while c < fdtl.total
        invariant Valid() && alive && c <= fdtl.total && Imaging(all, world, View(), i, c) && rtn == 1
        decreases |View().layout.images| - c
      {
        ImageStep(all, world, View(), i, c);
        rtn := FlashOneImage(i, c);
        if !alive || rtn <= 0 {
          return;
        }
        c := c + 1;
      }
    }

    /** The carrier slices of file `i`, from entry `from` on. */
    method GatherPri(i: nat, from: nat)
      requires Valid() && i < |files| && from <= fdtl.pri
      modifies this`copyNo, this`pri
      ensures Valid() && View() == Gather(world, old(View()), i, from)
    {
      var c := from;
      ghost var all := Gather(world, View(), i, from);
      while c < fdtl.pri
        invariant Valid() && c <= fdtl.pri && fdtl.View() == old(fdtl.View())
        invariant all == Gather(world, View(), i, c)
        decreases fdtl.pri - c
      {
        var temp := WriteTempFile(i, fdtl.pris[c], true, pri);
        pri := temp;
        c := c + 1;
      }
    }

    /** One round of the outer loop: header, images, carrier slices. */
    method FlashOneFile(i: nat) returns (rtn: int, early: bool)
      requires Valid() && alive && i < |files|
      modifies this, fdtl, fdtl.images, fdtl.pris, engine
      ensures Valid() && Flow(View(), rtn, early) == FlashFile(world, old(View()), i)
    {
      var prev := fdtl.pri;
      fdtl.Clear();
      var rc := StartImage(i);
      ghost var p1 := View();
      FileSteps(world, old(View()), i, Started(rc, first), p1);
      if rc <= 0 {
        return 0, true;
      }
      early := false;
      rtn := FlashTheHeader();
      if alive && rtn > 0 {
        rtn := FlashTheSlices(i, prev);
      }
    }

    method FlashTheHeader() returns (rtn: int)
      requires Valid() && alive
      modifies this`sessionNo, this`alive, this`journal, this`declared, this`asked, fdtl, fdtl.images, fdtl.pris, engine
      ensures Valid() && (View(), rtn) == Send(world, old(View()), Flash("sop-hdr", old(View()).first), true)
    {
      rtn := SendCommand(Flash("sop-hdr", first), true);
    }

    method FlashTheSlices(i: nat, prev: nat) returns (rtn: int)
      requires Valid() && alive && i < |files| && prev <= fdtl.pri
      modifies this, fdtl, fdtl.images, fdtl.pris, engine
      ensures Valid() && Flow(View(), rtn, false) == FlashSlices(world, old(View()), i, prev)
    {
      rtn := FlashImageTable(i);
      if alive && rtn > 0 {
        GatherPri(i, prev);
      }
    }

    /** The outer loop: stops at the first file that cannot be started or that fails. */
    method FlashEveryFile() returns (rtn: int, early: bool)
      requires Valid() && alive
      modifies this, fdtl, fdtl.images, fdtl.pris, engine
      ensures Valid() && Flow(View(), rtn, early) == FlashFiles(world, old(View()), 0, 0)
    {
      rtn, early := 0, false;
      var count: nat := 0;
      ghost var all := FlashFiles(world, View(), 0, 0);
      while count < |files|
        invariant Valid() && alive && count <= |files| && !early && Filing(all, world, View(), count, rtn)
        decreases |files| - count
      {
        FileStep(all, world, View(), count, rtn);
        rtn, early := FlashOneFile(count);
        if early || !alive || rtn <= 0 {
          return;
        }
        count := count + 1;
      }
    }

    /** After the last file: what was gathered for the carrier partition. */
    method FlashTheCarrier(rtn: int) returns (rtn': int)
      requires Valid() && alive
      modifies this`sessionNo, this`alive, this`journal, this`declared, this`asked, fdtl, fdtl.images, fdtl.pris, engine
      ensures Valid() && Flow(View(), rtn', false) == FlashCarrier(world, old(View()), rtn)
    {
      rtn' := rtn;
      if fdtl.pri > 0 {
        rtn' := SendCommand(Flash("capri_c", pri), false);
      }
    }

    method FlashFilesThenCarrier() returns (rtn: int, early: bool)
      requires Valid() && alive
      modifies this, fdtl, fdtl.images, fdtl.pris, engine
      ensures Valid() && Flow(View(), rtn, early) == FlashFilesAndCarrier(world, old(View()))
    {
      rtn, early := FlashEveryFile();
      if !early && alive && rtn > 0 {
        rtn := FlashTheCarrier(rtn);
      }
    }

    /** fastboot_flash_process_v2 */
    method FlashProcessV2() returns (rtn: int, early: bool)
      requires Valid() && alive
      modifies this, fdtl, fdtl.images, fdtl.pris, engine
      ensures Valid() && Flow(View(), rtn, early) == FlashAll(world, old(View()))
    {
      fdtl.ClearPri();
      declared := [];
      rtn, early := FlashFilesThenCarrier();
      if alive && !early {
        first, image, pri := None, None, None;
      }
    }

    /** The unlock stage. */
    method Unlock(key: Option<string>, pref: Option<string>) returns (rtn: int)
      requires Valid() && alive
      modifies this`sessionNo, this`alive, this`journal, this`declared, this`asked, fdtl, fdtl.images, fdtl.pris, engine
      ensures Valid() && (View(), rtn) == SendEach(world, old(View()), UnlockRequests(key, pref), 1)
    {
      ghost var reqs := UnlockRequests(key, pref);
      ghost var p := View();
      rtn := SendCommand(Flash("frp-unlock", key), false);
      ghost var q, r := View(), rtn;
      if alive && rtn > 0 {
        rtn := SendCommand(Flashing("unlock", None), false);
      }
      ghost var q', r' := View(), rtn;
      if alive && rtn > 0 && pref.Some? {
        rtn := SendCommand(Oem("impref", pref), false);
      }
      EachOfThree(world, p, reqs, q, r, q', r', View(), rtn);
    }

    /** The last commands. */
    method FinishStage(success: bool)
      requires Valid() && alive
      modifies this`sessionNo, this`alive, this`journal, this`declared, this`asked, fdtl, fdtl.images, fdtl.pris, engine
      ensures Valid() && View() == Finish(world, old(View()), success)
    {
      var rtn;
      if success {
        rtn := SendCommand(Oem("boot-flag", Some("9")), false);
      }
      if alive {
        rtn := SendCommand(Reboot, false);
      }
    }

    /** download_process */
    method DownloadProcess(ready: bool, key: Option<string>, pref: Option<string>, boots: bool) returns (code: int)
      requires Valid() && alive
      modifies this, fdtl, fdtl.images, fdtl.pris, engine
      ensures Valid() && (View(), code) == Download(world, old(View()), ready, key, pref, boots)
    {
      if !ready {
        return SWITCHING_TO_DOWNLOAD_MODE_FAILED;
      }
      var rtn := Unlock(key, pref);
      if !alive {
        return 0;
      }
      if rtn <= 0 {
        FinishStage(false);
        return FASTBOOT_COMMAND_FAILED;
      }
      var early;
      rtn, early := FlashProcessV2();
      if !alive {
        return 0;
      }
      FinishStage(rtn > 0);
      code := if rtn <= 0 then FASTBOOT_FLASHING_FAILED
              else if boots then 1 else MODEM_PORT_OPENING_FAILS_AFTER_FIRMWARE_DOWNLOAD;
    }
  }

  /** What is left of an image loop whose outcome will be `all`. */
  ghost predicate Imaging(all: (Proc, int), w: World, p: Proc, i: nat, c: nat) {
    Fits(p.layout) && i < |w.files| && c <= |p.layout.images| && all == FlashImages(w, p, i, c)
  }

  lemma ImageStep(all: (Proc, int), w: World, p: Proc, i: nat, c: nat)
    requires Imaging(all, w, p, i, c) && c < |p.layout.images|
    ensures var (q, rtn) := SendImage(w, p, i, c);
            if !q.alive || rtn <= 0 then all == (q, rtn) else Imaging(all, w, q, i, c + 1)
  {
  }

  /** What is left of a run over the files whose outcome will be `all`. */
  ghost predicate Filing(all: Flow, w: World, p: Proc, i: nat, rtn: int) {
    Fits(p.layout) && i <= |w.files| && all == FlashFiles(w, p, i, rtn)
  }

  lemma FileStep(all: Flow, w: World, p: Proc, i: nat, rtn: int)
    requires Filing(all, w, p, i, rtn) && i < |w.files|
    ensures var f := FlashFile(w, p, i);
            if GoesOn(f) then Filing(all, w, f.p, i + 1, f.rtn) else all == f
  {
  }

  lemma EachOfThree(w: World, p: Proc, reqs: seq<Request>, q: Proc, r: int, q': Proc, r': int, q'': Proc, r'': int)
    requires 2 <= |reqs| <= 3 && Fits(p.layout) && p.alive && (q, r) == Send(w, p, reqs[0], false)
    requires (q', r') == if q.alive && r > 0 then Send(w, q, reqs[1], false) else (q, r)
    requires (q'', r'') == if |reqs| == 3 && q'.alive && r' > 0 then Send(w, q', reqs[2], false) else (q', r')
    ensures SendEach(w, p, reqs, 1) == (q'', r'')
  {
    assert reqs[1..][0] == reqs[1];
    assert SendEach(w, p, reqs, 1) == SendEach(w, q, reqs[1..], r);
    assert reqs[1..][1..] == reqs[2..];
    if q.alive && r > 0 {
      assert SendEach(w, q, reqs[1..], r) == SendEach(w, q', reqs[2..], r');
      if |reqs| == 3 && q'.alive && r' > 0 {
        assert reqs[2..][0] == reqs[2] && reqs[2..][1..] == [];
        assert SendEach(w, q', reqs[2..], r') == SendEach(w, q'', [], r'');
      }
    }
  }
}
