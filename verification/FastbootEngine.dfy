/**
  The action queue (pwl-fwupdate/fastboot/engine.cpp) and the fastboot program that fills
  and runs it (pwl-fwupdate/fastboot/fastboot.cpp).
 */
module FastbootEngine {
  import opened CText
  import opened UsbTransport
  import opened FastbootProtocol

  // ----- The queue -----

  datatype Callback = CbDefault | CbDoNothing

  datatype Action =
    | OpDownloadFd(src: Source, size: nat, func: Callback)
    | OpCommand(cmd: string, func: Callback)
    | OpWaitForDisconnect

  /** An fd action carries a size the file really has, in 32 bits. */
  predicate Sound(a: Action) {
    a.OpDownloadFd? ==> a.src.page > 0 && a.size <= |a.src.file| && a.size < TWO_32
  }

  predicate SoundQueue(queue: seq<Action>) {
    forall i :: 0 <= i < |queue| ==> Sound(queue[i])
  }

  const OKAY_TEXT: string := "OKAY [  0.000s]\n"

  function FailedText(err: string): string {
    "FAILED (" + err + ")\n"
  }

  /** cb_default logs the status and hands it on, cb_do_nothing does neither. */
  function Report(h: Host, func: Callback, status: int): (r: (Host, int)) {
    match func
    case CbDoNothing => (h, 0)
    case CbDefault => (h.(msgs := h.msgs + [if status != 0 then FailedText(h.err) else OKAY_TEXT]), status)
  }

  function RunAction(h: Host, a: Action): (r: (Host, int))
    requires Sound(a)
    ensures r.1 == 0 || r.1 == -1
  {
    match a
    case OpDownloadFd(src, size, func) =>
      var o := DownloadFd(h, src, size);
      Report(o.h, func, o.rc)
    case OpCommand(cmd, func) =>
      var o := Command(h, cmd);
      Report(o.h, func, o.rc)
    case OpWaitForDisconnect => (h, 0)
  }

  /** fb_execute_queue: the first action that fails ends the run. */
  function Execute(h: Host, queue: seq<Action>): (r: (Host, int))
    requires SoundQueue(queue)
    ensures r.1 == 0 || r.1 == -1
    decreases |queue|
  {
    if queue == [] then (h, 0)
    else
      var (m, status) := RunAction(h, queue[0]);
      if status != 0 then (m, status) else Execute(m, queue[1..])
  }

  function FlashCommand(partition: string): string {
    "flash:" + partition
  }

  /** fb_queue_flash_fd: download the file, then flash it.  The size is cut to 32 bits. */
  function FlashActions(partition: string, src: Source): (q: seq<Action>)
    requires src.page > 0
    ensures SoundQueue(q)
  {
    [OpDownloadFd(src, Truncated(src.file), CbDefault), OpCommand(FlashCommand(partition), CbDefault)]
  }

  function Truncated(file: string): (size: nat)
    ensures size <= |file| && size < TWO_32
    ensures size == |file| <==> |file| < TWO_32
  {
    U32(|file|)
  }

  // ----- The program -----

  datatype Request =
    | Reboot
    | Flash(partition: string, image: Option<string>)
    | Oem(arg: string, value: Option<string>)
    | Flashing(arg: string, value: Option<string>)

  /** `die` ends the whole process, so a run may have no outcome. */
  datatype Ending = Died(h: Host) | Ended(h: Host, status: int)

  /** What the host brings to a session: the page size and which mmap calls succeed. */
  datatype Memory = Memory(page: nat, maps: seq<bool>)

  function GetVar(h: Host, key: string): (r: (Host, Option<string>)) {
    var o := Command(h, "getvar:" + key);
    (o.h, if o.rc != 0 then None else Some(o.resp))
  }

  function CurrentSlot(h: Host): (r: (Host, string)) {
    var (m, v) := GetVar(h, "current-slot");
    (m, match v
        case None => ""
        case Some(s) => if s == "_a" then "a" else if s == "_b" then "b" else s)
  }

  /** do_for_partition: the name to flash, or none when the slot cannot be told. */
  function Resolve(h: Host, part: string): (r: (Host, Option<string>))
    ensures r.1.Some? ==> r.1.value == part || (exists slot :: slot != "" && r.1.value == part + "_" + slot)
  {
    var (m, v) := GetVar(h, "has-slot:" + part);
    if v == Some("yes") then
      var (m', slot) := CurrentSlot(m);
      (m', if slot == "" then None else Some(part + "_" + slot))
    else (m, Some(part))
  }

  function OemText(cmd: string, arg: string, value: Option<string>): string {
    cmd + " " + arg + (if value.Some? then " " + value.value else "")
  }

  /** What a request puts on the queue, or none when the program dies before that. */
  function Fill(h: Host, mem: Memory, req: Request): (r: (Host, Option<seq<Action>>))
    requires mem.page > 0
    ensures r.1.Some? ==> SoundQueue(r.1.value)
  {
    match req
    case Reboot => (h, Some([OpCommand("reboot", CbDoNothing), OpWaitForDisconnect]))
    case Oem(arg, value) => (h, Some([OpCommand(OemText("oem", arg, value), CbDefault)]))
    case Flashing(arg, value) => (h, Some([OpCommand(OemText("flashing", arg, value), CbDefault)]))
    case Flash(partition, image) =>
      var (m, name) := Resolve(h, partition);
      (m, if name.None? || image.None? then None
          else Some(FlashActions(name.value, Source(image.value, mem.page, mem.maps))))
  }

  /** fastboot_main on an open transport: fill the queue, execute it, close. */
  function FastbootMain(h: Host, mem: Memory, req: Request): (e: Ending)
    requires mem.page > 0
  {
    var (m, queue) := Fill(h, mem, req);
    if queue.None? then Died(m)
    else
      var (m', status) := Execute(m, queue.value);
      Ended(m'.(link := Close(m'.link)), status)
  }
}
