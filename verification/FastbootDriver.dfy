/**
  The fastboot routines as they run: `fastboot_data_t` with its 16-entry message log, the
  protocol routines of pwl-fwupdate/fastboot/protocol.cpp, and the per-device action list
  of pwl-fwupdate/fastboot/engine.cpp.  Each is proved against its meaning on values.
 */
module FastbootDriver {
  import opened CText
  import opened UsbTransport
  import opened FastbootProtocol
  import opened FastbootEngine

  const FB_MAX_INFO_COUNT: nat := 16

  /**
    fastboot_data_t.  `pushed` remembers every message of the session; `overrun` is set when
    one is stored past the end of the array, after which the memory around it is lost.
   */
  class FastbootData {
    const slots: array<string>
    var count: nat
    var keep: nat
    var err: string
    var overrun: bool
    ghost var pushed: seq<string>

    constructor ()
      ensures fresh(slots) && Filling() && pushed == [] && err == ""
    {
      slots := new string[FB_MAX_INFO_COUNT](_ => "");
      count, keep, err, overrun, pushed := 0, 0, "", false, [];
    }

    /** Nothing popped yet: the array is the list of messages, as far as it reaches. */
    ghost predicate Filling()
      reads this, slots
    {
      && slots.Length == FB_MAX_INFO_COUNT
      && count == keep == |pushed|
      && (overrun <==> |pushed| > FB_MAX_INFO_COUNT)
      && (!overrun ==> slots[..count] == pushed)
    }

    /** The counters point into the array. */
    ghost predicate Draining()
      reads this, slots
    {
      slots.Length == FB_MAX_INFO_COUNT && count <= keep <= FB_MAX_INFO_COUNT
    }

    ghost function Pending(): seq<string>
      requires Draining()
      reads this, slots
    {
      slots[keep - count..keep]
    }

    /** rest_fastboot_output_msg */
    method Reset()
      requires slots.Length == FB_MAX_INFO_COUNT
      modifies this
      ensures Filling() && pushed == [] && err == old(err)
    {
      count, keep, overrun, pushed := 0, 0, false, [];
    }

    /** push_fastboot_output_msg */
    method Push(msg: string)
      requires Filling()
      modifies this, slots
      ensures Filling() && pushed == old(pushed) + [msg] && err == old(err)
    {
      if count < slots.Length {
        slots[count] := msg;
      } else {
        overrun := true;
      }
      count := count + 1;
      keep := count;
      pushed := pushed + [msg];
    }

    /** A session that did not overrun the array leaves its messages to be popped in push order. */
    lemma FilledIsPending()
      requires Filling() && !overrun
      ensures Draining() && Pending() == pushed
    {
    }

    /** pop_fastboot_output_msg */
    method Pop() returns (msg: Option<string>)
      requires Draining()
      modifies this`count
      ensures Draining()
      ensures old(Pending()) == [] ==> msg.None? && Pending() == []
      ensures old(Pending()) != [] ==> msg == Some(old(Pending())[0]) && Pending() == old(Pending())[1..]
    {
      if count == 0 {
        return None;
      }
      count := count - 1;
      var idx := keep - count - 1;
      msg := Some(slots[idx]);
    }
  }

  ghost function State(t: Transport, fb: FastbootData): Host
    reads t, fb
  {
    Host(t.link, fb.pushed, fb.err)
  }

  // ----- protocol.cpp -----

  method AwaitResponse(t: Transport, fb: FastbootData, size: nat) returns (rc: int, resp: string)
    requires fb.Filling()
    modifies t, fb, fb.slots
    ensures fb.Filling()
    ensures Outcome(State(t, fb), rc, resp) == CheckResponse(old(State(t, fb)), size)
  {
    ghost var h, infos: seq<string> := State(t, fb), [];
    Heard0(t.link);
    while true
      invariant fb.Filling() && Hearing(h, infos, State(t, fb))
      decreases |t.link.replies| - t.link.ins
    {
      ghost var m := State(t, fb);
      var status := t.ReadData(STATUS_SIZE);
      if status.Some? && IsInfo(status.value) {
        HearInfo(h, infos, m, t.link, status.value);
        fb.err := InfoText(status.value);
        fb.Push(fb.err);
        infos := infos + [status.value];
      } else {
        HearStatus(h, infos, m, size, t.link, status);
        rc, resp := ActOnStatus(t, fb, status, size);
        return;
      }
    }
  }

  /** The part of check_response that ends the loop. */
  method ActOnStatus(t: Transport, fb: FastbootData, status: Option<string>, size: nat) returns (rc: int, resp: string)
    requires status.Some? ==> !IsInfo(status.value)
    modifies t, fb`err
    ensures var v := Judge(status, size);
            && rc == v.rc && resp == v.resp
            && t.link == (if v.close then Close(old(t.link)) else old(t.link))
            && fb.err == (if v.err.Some? then v.err.value else old(fb.err))
  {
    rc, resp := -1, "";
    if status.None? {
      fb.err := "status read failed";
      t.CloseHandle();
      return;
    }
    var s := status.value;
    if |s| < 4 {
      fb.err := "status malformed";
      t.CloseHandle();
      return;
    }
    if IsOkay(s) {
      rc, resp := 0, Body(s);
      return;
    }
    if IsFail(s) {
      fb.err := if |s| > 4 then "remote: " + Body(s) else "remote failure";
      return;
    }
    if IsData(s) && size > 0 {
      var dsize := DataSize(s);
      if dsize > size {
        fb.err := "data size too large";
        t.CloseHandle();
        return;
      }
      rc := dsize;
      return;
    }
    fb.err := "unknown status code";
    t.CloseHandle();
  }

  method StartCommand(t: Transport, fb: FastbootData, cmd: string, size: nat) returns (rc: int, resp: string)
    requires fb.Filling()
    modifies t, fb, fb.slots
    ensures fb.Filling()
    ensures Outcome(State(t, fb), rc, resp) == CommandStart(old(State(t, fb)), cmd, size)
  {
    if |cmd| > MAX_COMMAND {
      fb.err := "command too large";
      return -1, "";
    }
    var n := t.WriteData(cmd);
    if n != |cmd| {
      fb.err := "command write failed";
      t.CloseHandle();
      return -1, "";
    }
    rc, resp := AwaitResponse(t, fb, size);
  }

  method SendData(t: Transport, fb: FastbootData, data: string) returns (rc: int)
    requires fb.Filling()
    modifies t, fb
    ensures fb.Filling()
    ensures Outcome(State(t, fb), rc, "") == CommandWriteData(old(State(t, fb)), data)
  {
    var n := t.WriteData(data);
    if n < 0 {
      fb.err := "data write failure";
      t.CloseHandle();
      return -1;
    }
    if n != |data| {
      fb.err := "data write failure (short transfer)";
      t.CloseHandle();
      return -1;
    }
    rc := n;
  }

  /** One window of the loop of _command_send_fd. */
  method SendWindow(t: Transport, fb: FastbootData, src: Source, offset: nat, remaining: nat, k: nat, ghost all: Outcome)
    returns (rc: int, offset': nat, remaining': nat)
    requires fb.Filling() && remaining > 0 && Sending(all, State(t, fb), src, offset, remaining, k)
    modifies t, fb
    ensures fb.Filling()
    ensures rc < 0 ==> rc == -1 && all == Outcome(State(t, fb), -1, "")
    ensures rc >= 0 ==> remaining' < remaining && Sending(all, State(t, fb), src, offset', remaining', k + 1)
  {
    offset', remaining' := offset, remaining;
    ghost var m := State(t, fb);
    var len := Window(remaining);
    var mapping := CreateFileMap(offset, len, src.page);
    if !MapOk(src, k) {
      rc := -1;
      return;
    }
    rc := SendData(t, fb, Mapped(src.file, mapping));
    SendStep(all, m, src, offset, remaining, k, len, Outcome(State(t, fb), rc, ""));
    offset', remaining' := offset + len, remaining - len;
  }

  /** The loop of _command_send_fd. */
  method SendMapped(t: Transport, fb: FastbootData, src: Source, size: nat) returns (rc: int)
    requires fb.Filling() && src.page > 0 && size <= |src.file|
    modifies t, fb
    ensures fb.Filling()
    ensures Outcome(State(t, fb), rc, "") == SendWindows(old(State(t, fb)), src, 0, size, 0)
  {
    var offset: nat, remaining: nat, k: nat := 0, size, 0;
    ghost var all := SendWindows(State(t, fb), src, 0, size, 0);
    while remaining != 0
      invariant fb.Filling() && Sending(all, State(t, fb), src, offset, remaining, k)
      decreases remaining
    {
      rc, offset, remaining := SendWindow(t, fb, src, offset, remaining, k, all);
      if rc < 0 {
        return;
      }
      k := k + 1;
    }
    rc := 0;
  }

  method SendFile(t: Transport, fb: FastbootData, cmd: string, src: Source, size: nat) returns (rc: int)
    requires fb.Filling() && src.page > 0 && size <= |src.file|
    modifies t, fb, fb.slots
    ensures fb.Filling()
    ensures var o := CommandSendFd(old(State(t, fb)), cmd, src, size); State(t, fb) == o.h && rc == o.rc
  {
    var resp;
    rc, resp := StartCommand(t, fb, cmd, size);
    if rc < 0 {
      return -1;
    }
    rc := SendMapped(t, fb, src, size);
    if rc < 0 {
      return -1;
    }
    rc, resp := AwaitResponse(t, fb, 0);
    if rc < 0 {
      return -1;
    }
    rc := size;
  }

  method DownloadFile(t: Transport, fb: FastbootData, src: Source, size: nat) returns (rc: int)
    requires fb.Filling() && src.page > 0 && size <= |src.file|
    modifies t, fb, fb.slots
    ensures fb.Filling()
    ensures var o := DownloadFd(old(State(t, fb)), src, size); State(t, fb) == o.h && rc == o.rc
  {
    var cmd := DownloadCommand(size);
    fb.err := cmd;
    rc := SendFile(t, fb, cmd, src, size);
    rc := if rc < 0 then -1 else 0;
  }

  // ----- engine.cpp and fastboot.cpp -----

  /** The action list of one device. */
  class Engine {
    var actionList: seq<Action>

    constructor ()
      ensures actionList == []
    {
      actionList := [];
    }

    method QueueAction(a: Action)
      modifies this
      ensures actionList == old(actionList) + [a]
    {
      actionList := actionList + [a];
    }

    method QueueFlashFd(partition: string, src: Source)
      requires src.page > 0
      modifies this
      ensures actionList == old(actionList) + FlashActions(partition, src)
    {
      QueueAction(OpDownloadFd(src, Truncated(src.file), CbDefault));
      QueueAction(OpCommand(FlashCommand(partition), CbDefault));
    }

    method RunOne(a: Action, t: Transport, fb: FastbootData) returns (status: int)
      requires Sound(a) && fb.Filling()
      modifies t, fb, fb.slots
      ensures fb.Filling() && (State(t, fb), status) == RunAction(old(State(t, fb)), a)
    {
      var resp;
      match a {
        case OpDownloadFd(src, size, func) =>
          status := DownloadFile(t, fb, src, size);
          status := Callback(func, status, fb);
        case OpCommand(cmd, func) =>
          status, resp := StartCommand(t, fb, cmd, 0);
          status := Callback(func, status, fb);
        case OpWaitForDisconnect =>
          status := 0;
      }
    }

    method Callback(func: Callback, status: int, fb: FastbootData) returns (r: int)
      requires fb.Filling()
      modifies fb, fb.slots
      ensures fb.Filling() && fb.err == old(fb.err)
      ensures match func
              case CbDoNothing => r == 0 && fb.pushed == old(fb.pushed)
              case CbDefault =>
                r == status &&
                fb.pushed == old(fb.pushed) + [if status != 0 then FailedText(old(fb.err)) else OKAY_TEXT]
    {
      r := 0;
      if func == CbDefault {
        fb.Push(if status != 0 then FailedText(fb.err) else OKAY_TEXT);
        r := status;
      }
    }

    /** Whatever happens, the list is empty afterwards. */
    method ExecuteQueue(t: Transport, fb: FastbootData) returns (status: int)
      requires fb.Filling() && SoundQueue(actionList)
      modifies this, t, fb, fb.slots
      ensures fb.Filling() && actionList == []
      ensures (State(t, fb), status) == Execute(old(State(t, fb)), old(actionList))
    {
      status := 0;
      var i := 0;
      ghost var m := State(t, fb);
      ghost var all := Execute(m, actionList);
      assert actionList[0..] == actionList;
      while i < |actionList|
        invariant 0 <= i <= |actionList| && fb.Filling() && SoundQueue(actionList)
        invariant m == State(t, fb) && status == 0
        invariant Running(all, m, actionList, i)
      {
        status := RunOne(actionList[i], t, fb);
        RunStep(all, m, actionList, i, State(t, fb), status);
        m := State(t, fb);
        if status != 0 {
          break;
        }
        i := i + 1;
      }
      actionList := [];
    }

    method QueryVar(t: Transport, fb: FastbootData, key: string) returns (value: Option<string>)
      requires fb.Filling()
      modifies t, fb, fb.slots
      ensures fb.Filling() && (State(t, fb), value) == GetVar(old(State(t, fb)), key)
    {
      var rc, resp := StartCommand(t, fb, "getvar:" + key, 0);
      value := if rc != 0 then None else Some(resp);
    }

    /** do_for_partition up to the call of its argument. */
    method ResolveName(t: Transport, fb: FastbootData, part: string) returns (name: Option<string>)
      requires fb.Filling()
      modifies t, fb, fb.slots
      ensures fb.Filling() && (State(t, fb), name) == Resolve(old(State(t, fb)), part)
    {
      var hasSlot := QueryVar(t, fb, "has-slot:" + part);
      if hasSlot != Some("yes") {
        return Some(part);
      }
      var current := QueryVar(t, fb, "current-slot");
      var slot := if current.None? then "" else if current.value == "_a" then "a"
                  else if current.value == "_b" then "b" else current.value;
      name := if slot == "" then None else Some(part + "_" + slot);
    }

    method FillQueue(t: Transport, fb: FastbootData, mem: Memory, req: Request) returns (died: bool)
      requires fb.Filling() && mem.page > 0 && actionList == []
      modifies this, t, fb, fb.slots
      ensures fb.Filling()
      ensures var (m, queue) := Fill(old(State(t, fb)), mem, req);
              State(t, fb) == m && died == queue.None? && actionList == if died then [] else queue.value
    {
      died := false;
      match req {
        case Reboot =>
          QueueAction(OpCommand("reboot", CbDoNothing));
          QueueAction(OpWaitForDisconnect);
        case Oem(arg, value) => QueueAction(OpCommand(OemText("oem", arg, value), CbDefault));
        case Flashing(arg, value) => QueueAction(OpCommand(OemText("flashing", arg, value), CbDefault));
        case Flash(partition, image) =>
          var name := ResolveName(t, fb, partition);
          if name.None? || image.None? {
            died := true;
          } else {
            QueueFlashFd(name.value, Source(image.value, mem.page, mem.maps));
          }
      }
    }

    method Program(t: Transport, fb: FastbootData, mem: Memory, req: Request) returns (died: bool, status: int)
      requires fb.slots.Length == FB_MAX_INFO_COUNT && mem.page > 0 && actionList == []
      modifies this, t, fb, fb.slots
      ensures fb.Filling() && actionList == []
      ensures FastbootMain(Host(old(t.link), [], old(fb.err)), mem, req) ==
              if died then Died(State(t, fb)) else Ended(State(t, fb), status)
    {
      fb.Reset();
      status := 0;
      died := FillQueue(t, fb, mem, req);
      if !died {
        status := ExecuteQueue(t, fb);
        t.CloseHandle();
      }
    }
  }

  /** What is left of a queue whose outcome will be `all`. */
  ghost predicate Running(all: (Host, int), h: Host, queue: seq<Action>, i: nat) {
    i <= |queue| && SoundQueue(queue) && all == Execute(h, queue[i..])
  }

  lemma RunStep(all: (Host, int), h: Host, queue: seq<Action>, i: nat, m: Host, status: int)
    requires Running(all, h, queue, i) && i < |queue| && (m, status) == RunAction(h, queue[i])
    ensures if status != 0 then all == (m, status) else Running(all, m, queue, i + 1)
  {
    assert queue[i..][1..] == queue[i + 1..];
  }

  // ----- check_response, one read at a time -----

  /** The session that started at `h` has heard `infos` so far and is now at `m`. */
  ghost predicate Hearing(h: Host, infos: seq<string>, m: Host) {
    var d, rest := Listen(h.link), Listen(m.link);
    && d == Heard(rest.link, infos + rest.infos, rest.status)
    && m.msgs == h.msgs + InfoTexts(infos)
    && m.err == LastOr(InfoTexts(infos), h.err)
  }

  lemma Heard0(l: Link)
    ensures Listen(l) == Heard(Listen(l).link, [] + Listen(l).infos, Listen(l).status)
  {
    assert [] + Listen(l).infos == Listen(l).infos;
  }

  lemma HearInfo(h: Host, infos: seq<string>, m: Host, l: Link, s: string)
    requires Hearing(h, infos, m) && (l, Some(s)) == Read(m.link, STATUS_SIZE) && IsInfo(s)
    ensures Hearing(h, infos + [s], Host(l, m.msgs + [InfoText(s)], InfoText(s)))
  {
    var rest := Listen(l);
    InfoTextsAppend(infos, [s]);
    Assoc(infos, [s], rest.infos);
    Assoc(h.msgs, InfoTexts(infos), [InfoText(s)]);
  }

  lemma HearStatus(h: Host, infos: seq<string>, m: Host, size: nat, l: Link, p: Option<string>)
    requires Hearing(h, infos, m) && (l, p) == Read(m.link, STATUS_SIZE) && !(p.Some? && IsInfo(p.value))
    ensures var v := Judge(p, size);
            CheckResponse(h, size) ==
            Outcome(Host(if v.close then Close(l) else l, m.msgs, if v.err.Some? then v.err.value else m.err), v.rc, v.resp)
  {
    assert infos + [] == infos;
    assert Listen(m.link) == Heard(l, [], p);
    assert Listen(h.link) == Heard(l, infos, p);
  }

  /** What is left of a data phase whose outcome will be `all`. */
  ghost predicate Sending(all: Outcome, h: Host, src: Source, offset: nat, remaining: nat, k: nat) {
    src.page > 0 && offset + remaining <= |src.file| && all == SendWindows(h, src, offset, remaining, k)
  }

  lemma SendStep(all: Outcome, h: Host, src: Source, offset: nat, remaining: nat, k: nat, len: nat, w: Outcome)
    requires Sending(all, h, src, offset, remaining, k) && remaining > 0 && MapOk(src, k)
    requires len == Window(remaining) && w == CommandWriteData(h, Mapped(src.file, CreateFileMap(offset, len, src.page)))
    ensures 0 < len <= remaining && offset + len + (remaining - len) <= |src.file|
    ensures if w.rc < 0 then all == w else Sending(all, w.h, src, offset + len, remaining - len, k + 1)
  {
  }
}
