# Verification of the modem firmware update services

This project models the parts of the PWL modem services on which a firmware update depends,
and proves what they promise for every file, every device and every run. It is written for
Dafny 4.11; `dafny verify dfyconfig.toml` checks all of it.

**Flashing over USB.** A stack of layers, each proved to refine a simpler one. The device is an
arbitrary stream of answers, the kernel an arbitrary stream of transfer results, and the bus a
trace of events.

- `UsbTransport` cuts data into 16 KiB bulk transfers and reads with retries.
- `FastbootProtocol` and `FastbootWire` are the fastboot framing (section "Transport and
  Framing" of the fastboot protocol document of the Android Open Source Project): responses,
  commands, and the download of a file through memory-mapped windows. `DownloadTrace` says what
  a successful download looks like on the bus, and that nothing else is reported as one.
- `FastbootEngine`, `EngineWire` and `FastbootDriver` are the action queue and the 16-entry
  message log. `FastbootDriver` holds the classes and loops; the functions they are proved
  against are in the other two.
- `FlashLayout` reads the partition layout out of the log and cuts image files into slices.
- `SessionLog` counts what a session puts into the log and says from which sessions the process
  does not come back. `GoodDevice` builds a device that obeys, for every partition and image.
- `FlashProcess` puts it together on values, over any device and any disk: one file after the
  other, the carrier file, unlocking, boot flag and reboot, with a journal of every fastboot
  session. `FlashUpdater` is the class with the loops that refine it. `FlashPlan` says when what
  is flashed is what was meant, `FlashStage` in what order the stage goes and how it ends,
  `StageWire` which commands the devices see of it, and `FlashWitness` and `LogWitness` hold the
  runs in which things go otherwise.

**State that survives restarts.** `StatusStore` is the text record behind it, proved to behave
as a map. `RetryCounters`, `EsimProfile`, `BootMonitor` and `SnImei` are the machines that keep
their state in such records. Their theorems range over all runs: in the first three a process
may die between any two writes, and in `SnImei` a save may be cut off after any character.

**Flashing over PCIe.** `PcieTable` prints, checks and parses the flash table, `PcieFlash`
flashes what it lists, and `ModeSwitch` is the loop that waits for the modem to settle.

**Two separate pieces.** `UsbDescriptors` finds the fastboot interface in a descriptor sequence,
`TcpSend` is the scatter-gather send. `CText` holds the C string functions all of them use.

## Where the code does not keep what one would expect

Each of these is a theorem: the code is modelled as it is, and the exact condition is proved.

- The result of `write_temp_image_file` is ignored (pwl-fwupdate/pwl_fwupdate.c:1149, 1165).
  `FlashAllMade` says what is flashed whatever becomes of the copies; that is the plan when every
  copy is good (`MadeAsPlanned`), and `CopyGoodExactly` says when one is. `WrongSlice` is a
  successful run that puts one image on the partition of another, `CutSlice` one that puts the
  end of the file in place of a slice that goes beyond it. A negative offset counts as 0 because
  the failed `fseek` is not noticed.
- The early return at pwl-fwupdate/pwl_fwupdate.c:1132 leaves the carrier file behind
  (`FlashAllMade`, `LeftBehind`), and the next run appends to it (`FlashedTwice`): capri_c gets
  just its slices exactly when nothing was left over (`CarrierExactly`).
- A device may answer a download request with OKAY instead of DATA, or with a smaller size; both
  are accepted. The size is a 32-bit number, and an image of four gigabytes or more is cut.
- A device can make its own session count as failed by writing FAILED into an INFO text
  (`LogTellsStatus`); it cannot do the opposite.
- Not every path that reaches the unlock stage ends with a reboot: `die` ends the process
  (pwl-fwupdate/fastboot/fastboot.cpp:320, 354), and so, in this model, does a seventeenth log
  message. `GoneExactly` says for every session whether the process comes back from it,
  `RebootExactly` that the reboot is the last command exactly when it does from all of them, and
  `NoKeyNoReboot` is a stage that ends without.
- The log is so short that it bounds what a device can declare: fourteen slices in a header
  session that succeeds and fifteen in one that fails (`SlicesOfHeader`, `FifteenSlices`).
- `filter_usb_device` does not notice that it stands exactly at the end when it looks for an
  endpoint (pwl-fwupdate/fastboot/usb_linux.cpp:246); `FilterOutside` says for every descriptor
  sequence when it reads on, and `TooFewOutside` is one.
- The scatter-gather send never ends well if its last buffer is empty (`CanSucceedExactly`), and
  the single-buffer send repeats the start of its data after a partial write
  (`SingleSendExact`).
- `get_..._status_value` takes a CR LF that happens to lie behind its buffer for a line end and
  drops the last digit (`GetRefines`).
- The update counters allow seven failing updates, one less than their sum (`FailedUpdatesBound`,
  `SevenReached`); the bound needs the reset requests to be served (`UnservedUnbounded`).
- The PCIe retry count is written before it is incremented, so it never grows and the retry loop
  has no bound (`CountNeverGrows`); `IncrementFirstBounds` is the bound the other order gives.
- An eSIM update that dies between the two writes that end the count starts it again
  (`DeathsUnbounded`).
- A semicolon in the serial number breaks its recovery (`RoundTripExactly`).
- Saving the SN and IMEI empties the record first (pwl-pref/pwl_pref.c:727), so a save that fails
  or is cut off costs the backup that was there: `BackupSurvives` says exactly when one survives,
  and `BackupLost` is a start that loses it. A backup that broke off inside the IMEI starts a
  recovery with the wrong one (`WrongRecovery`).
- A short write to the PCIe port goes unnoticed (pwl-fwupdate/pwl_fwupdate.c:4594-4600):
  `LandedWhole` says when the whole image was sent, and `LandedUnsent` is a successful flash that
  sends nothing.
- A selected PCIe image need not be flashed when the update succeeds: it may have no row, and the
  check for that is a search for substrings. `ImageFlashedExactly` says which images are flashed,
  `CheckedAreFlashed` when the check suffices, and `ListedButMissed` is a case in which it passes
  and an image is missed.
- A PCIe check answer without a value passes, and so does an image without a checksum
  (`ChecksumExactly`); and an image with "0x" anywhere in its path has none (`RowChecksum`).
- An announced retry of an update is lost if the service restarts before its thread takes it up
  (`RetryLost`); otherwise none is (`RetriesAccounted`).

## Model

| member | source | states |
|---|---|---|
| `UsbTransport.ChunksCover` | pwl-fwupdate/fastboot/usb_linux.cpp:410-437 | a buffer is cut into transfers of at most 16384 bytes, all but the last of exactly that size, whose concatenation is the buffer |
| `UsbTransport.ChunksSplit` | pwl-fwupdate/fastboot/usb_linux.cpp:410-437 | two buffers written one after the other, the first a multiple of 16 KiB, give the same transfers as their concatenation |
| `UsbTransport.TransfersTaken` | pwl-fwupdate/fastboot/usb_linux.cpp:418-434 | transfers go out in order and stop at the first that the kernel does not take in full |
| `UsbTransport.WriteDelivers` | pwl-fwupdate/fastboot/usb_linux.cpp:405-438 | Write returns the length exactly when every transfer was taken in full, and -1 otherwise |
| `UsbTransport.FirstPacketRead` | pwl-fwupdate/fastboot/usb_linux.cpp:440-482 | a read of at most one packet takes the first of the next six answers that is a packet and fits, or fails after all six |
| `UsbTransport.Transport.WriteData` | pwl-fwupdate/fastboot/usb_linux.cpp:405-438 | the loop over `data`, `len` and `count` refines Write, trace included |
| `UsbTransport.Transport.ReadData` | pwl-fwupdate/fastboot/usb_linux.cpp:440-482 | the loop appends packets until the buffer is full or one comes short; it refines Read |
| `UsbTransport.Transport.PullData` | pwl-fwupdate/fastboot/usb_linux.cpp:460-470 | the inner retry loop refines one bulk-in transfer with at most five retries |
| `UsbTransport.Transport.CloseHandle` | pwl-fwupdate/fastboot/usb_linux.cpp:484-496 | the handle is gone and nothing else of the link changes |
| `FastbootWire.ResponseFixedByFirstStatus` | pwl-fwupdate/fastboot/protocol.cpp:94-167 | for every stream of answers the result, the reply and the closing are those of the first packet that is not INFO; the INFO texts before it are logged in order; a non-negative result means exactly an accepted OKAY or DATA |
| `FastbootWire.ClosedExactlyOnBadStatus` | pwl-fwupdate/fastboot/protocol.cpp:98-166 | the transport is closed exactly on a read error, a short packet, an oversized DATA or an unknown status; FAIL is the one error that leaves it open |
| `FastbootWire.ReasonKept` | pwl-fwupdate/fastboot/protocol.cpp:94-167 | the error text that is kept for each status that is not accepted, up to a parenthesis; a refusal keeps the words of the device |
| `FastbootWire.CommandTrace` | pwl-fwupdate/fastboot/protocol.cpp:169-191 | a command of over 64 bytes, or one on a closed endpoint, writes nothing; otherwise it is the first event and the only transfer, followed by the answer, and success is exactly that |
| `FastbootWire.MapCoversSlice` | pwl-fwupdate/fastboot/protocol.cpp:256-316 | every mmap window starts on a page boundary, covers its slice, and gives exactly the slice |
| `FastbootWire.MappingInvisible` | pwl-fwupdate/fastboot/protocol.cpp:319-357 | sending through page-aligned windows is sending the slices themselves, whatever the page size |
| `FastbootWire.DataPhaseSplit` | pwl-fwupdate/fastboot/protocol.cpp:332-349 | the windows leave no mark in the transfers: they are the 16 KiB transfers of the whole image |
| `FastbootWire.DownloadTrace` | pwl-fwupdate/fastboot/protocol.cpp:319-383 | an fd download succeeds exactly when the number announced after download: is the size of the image, the image went out whole, nothing else did, and the last packet was OKAY; good or bad, the first event is such an announcement and the other transfers are the first pieces of the image |
| `CText.Hex8RoundTrip` | pwl-fwupdate/fastboot/protocol.cpp:378-383 | the size printed in the download command reads back as the same number, for all 32-bit sizes |
| `CText.LongReads` | pwl-fwupdate/fastboot/protocol.cpp:146-152 | the number in a DATA status is read with blanks, sign and a 0x in front, in the range of a long |
| `FastbootDriver.AwaitResponse` | pwl-fwupdate/fastboot/protocol.cpp:94-167 | the response loop over transport and log refines check_response |
| `FastbootDriver.ActOnStatus` | pwl-fwupdate/fastboot/protocol.cpp:99-166 | the status branches: result, error text and closing for each |
| `FastbootDriver.StartCommand` | pwl-fwupdate/fastboot/protocol.cpp:169-191 | refines the command function, including the too-long and the failed-write branches |
| `FastbootDriver.SendData` | pwl-fwupdate/fastboot/protocol.cpp:193-210 | refines the data write, including the short-transfer branch |
| `FastbootDriver.SendWindow` | pwl-fwupdate/fastboot/protocol.cpp:332-349 | one window of the data phase: what is left of it afterwards, or its failure |
| `FastbootDriver.SendMapped` | pwl-fwupdate/fastboot/protocol.cpp:332-349 | the remaining/offset loop refines the sending of all windows |
| `FastbootDriver.SendFile` | pwl-fwupdate/fastboot/protocol.cpp:319-357 | command, data phase and closing status in order, stopping at the first error |
| `FastbootDriver.DownloadFile` | pwl-fwupdate/fastboot/protocol.cpp:378-383 | refines the fd download |
| `FastbootDriver.FastbootData.Reset` | pwl-fwupdate/fastboot/protocol.cpp:70-74 | an empty log |
| `FastbootDriver.FastbootData.Push` | pwl-fwupdate/fastboot/protocol.cpp:76-83 | the message is appended; a seventeenth has no slot and is flagged as an overrun |
| `FastbootDriver.FastbootData.FilledIsPending` | pwl-fwupdate/fb_programing.c:131-140 | a log that was filled with at most 16 messages is read back from its first message on |
| `FastbootDriver.FastbootData.Pop` | pwl-fwupdate/fb_programing.c:131-140 | messages come out in the order they were pushed |
| `SessionLog.LogFills` | pwl-fwupdate/fastboot/protocol.cpp:76-83 | in every session that ends, good or bad, the log has one entry for each INFO packet and one for each action that reports |
| `SessionLog.GoneExactly` | pwl-fwupdate/fastboot/fastboot.cpp:306-355 | for every session and request, failed ones included: the process does not come back exactly when a flash has no image, or has-slot is answered with yes and no current slot comes, or INFO packets and reports are more than sixteen |
| `SessionLog.SlotOnBus` | pwl-fwupdate/fastboot/fastboot.cpp:306-333 | on the bus: the slot is untold, and the flash dies, exactly when has-slot is answered OKAY with yes and current-slot with no OKAY or an empty one |
| `SessionLog.ReportsOnBus` | pwl-fwupdate/fastboot/engine.cpp:384-433 | on the bus: a flash reports twice exactly when its complete download was acknowledged, and once otherwise |
| `SessionLog.LogOfFlash` | pwl-fwupdate/fastboot/protocol.cpp:76-83 | a flash that ends well leaves one log entry for each INFO packet and two more, so the 16-entry log runs over exactly when the device sends more than fourteen INFO packets |
| `SessionLog.SlicesOfHeader` | pwl-fwupdate/fb_programing.c:157-270 | a header session that leaves a log adds at most fifteen slices to the tables, and at most fourteen if it succeeded, so the bounds 101 and 100 are never the binding ones in one session |
| `LogWitness.FifteenSlices` | pwl-fwupdate/fb_programing.c:157-270 | a header session, for every image, in which fifteen declarations answer the download command and then a FAIL: it leaves a record with -1, and fifteen slices more in the tables |
| `LogWitness.FifteenSlicesHappen` | pwl-fwupdate/fb_programing.c:157-270 | that session with its packets written out |
| `SessionLog.SlicesDeclared` | pwl-fwupdate/fb_programing.c:186-270 | a log adds at most as many slices as it has messages of the bootloader |
| `EngineWire.FlashPair` | pwl-fwupdate/fastboot/engine.cpp:141-159 | a download-and-flash pair: the only transfers are the announcement and pieces of the image and, exactly if the complete download was acknowledged and the text fits 64 bytes, "flash:" and the partition; status 0 means both were acknowledged |
| `EngineWire.QueueRunsInOrder` | pwl-fwupdate/fastboot/engine.cpp:384-433 | for every queue of images and every device the bus shows the images in order, each flash: command directly after its own acknowledged download, and nothing after the first failure |
| `EngineWire.ActionTells` | pwl-fwupdate/fastboot/engine.cpp:103-121 | an action with the default callback that failed leaves a FAILED message |
| `EngineWire.AnswerLogged` | pwl-fwupdate/fastboot/engine.cpp:103-121 | an acknowledged command leaves an OKAY as the last message, and a refused one FAILED with the reason that the device gave |
| `EngineWire.LogTellsStatus` | pwl-fwupdate/fastboot/engine.cpp:384-433 | a failed run always leaves a FAILED message; after a good run that word can only be in a text of the device |
| `EngineWire.ResolveTrace` | pwl-fwupdate/fastboot/fastboot.cpp:290-333 | exactly which name is flashed, by the two answers: the partition unless has-slot is answered with yes, else partition, underscore and current slot, with _a and _b read as a and b, or none; the two questions as they stand on the bus, and that only the texts of the device are logged |
| `EngineWire.FlashSession` | pwl-fwupdate/fastboot/fastboot.cpp:433-532 | a flash session, whatever becomes of it: the questions, the download of that image, and the flash: command for exactly the name the answers give; it dies exactly when there is no name or no image, and a log without FAILED means the image is there |
| `EngineWire.EveryTransfer` | pwl-fwupdate/fastboot/fastboot.cpp:433-532 | every transfer of a flash session is one of the two questions, the announcement or a piece of that image, or the flash: command for that name, so no other command is ever sent |
| `EngineWire.CommandSession` | pwl-fwupdate/fastboot/fastboot.cpp:469-511 | a session for any other request puts just its command on the bus, written out word by word, and succeeds exactly when that is answered OKAY; the reboot always does |
| `EngineWire.SessionTells` | pwl-fwupdate/fastboot/fastboot.cpp:433-532 | whatever was asked for, a session whose status is not 0 says FAILED in its log |
| `FastbootDriver.Engine.QueueFlashFd` | pwl-fwupdate/fastboot/engine.cpp:141-159 | download and flash are appended to the action list, with the 32-bit size |
| `FastbootDriver.Engine.RunOne` | pwl-fwupdate/fastboot/engine.cpp:391-426 | one action with its callback refines the action function |
| `FastbootDriver.Engine.Callback` | pwl-fwupdate/fastboot/engine.cpp:103-121 | the default callback logs OKAY or FAILED and passes the status on; the reboot callback ignores it |
| `FastbootDriver.Engine.ExecuteQueue` | pwl-fwupdate/fastboot/engine.cpp:384-433 | the loop stops at the first failing action, refines the run of the queue, and leaves the action list empty either way |
| `FastbootDriver.Engine.ResolveName` | pwl-fwupdate/fastboot/fastboot.cpp:306-333 | refines the slot resolution |
| `FastbootDriver.Engine.FillQueue` | pwl-fwupdate/fastboot/fastboot.cpp:433-524 | the actions queued for each kind of request |
| `FastbootDriver.Engine.Program` | pwl-fwupdate/fastboot/fastboot.cpp:433-532 | refines a whole session, with `die` as a way to end it |
| `FlashLayout.PostProcessOutcome` | pwl-fwupdate/fb_programing.c:142-287 | the result is 1 exactly when no message says FAILED; the tables only grow, and only in a header session |
| `FlashLayout.Absorb` | pwl-fwupdate/fb_programing.c:186-270 | whatever the device declares, total = fw + oem <= 101, fw <= 1 and pri <= 100 |
| `FlashLayout.NumbersRead` | pwl-fwupdate/fb_programing.c:96-129 | the two hexadecimal numbers of a declaration are read as those numbers, in either case and any width |
| `FlashLayout.NumbersMissing` | pwl-fwupdate/fb_programing.c:96-129 | where a colon or a number is missing the old number stays |
| `FlashLayout.ScanXWraps` | pwl-fwupdate/fb_programing.c:96-129 | sign, blanks and the wrap into a 32-bit number |
| `FlashLayout.ScanXSigned` | pwl-fwupdate/fb_programing.c:96-129 | a sign or a blank in front of a number |
| `FlashLayout.SlotDeclared` | pwl-fwupdate/fb_programing.c:202-223 | a declared firmware slot is recorded under its eight-letter name with exactly its offset and size, and a second one is not |
| `FlashLayout.CarrierDeclared` | pwl-fwupdate/fb_programing.c:225-243 | a declared carrier slice is recorded with exactly its offset and size, and a hundred-and-first is not |
| `FlashLayout.OemDeclared` | pwl-fwupdate/fb_programing.c:245-266 | a declared OEM image is recorded with exactly its offset and size, and a hundred-and-first is not |
| `FlashLayout.NothingDeclared` | pwl-fwupdate/fb_programing.c:186-270 | every other message leaves tables and numbers as they were |
| `FlashLayout.WriteTempCopies` | pwl-fwupdate/fb_programing.c:289-381 | the copy reports success exactly when the named slice lies in the file and fits the disk, and then the temporary file gained that slice and nothing else |
| `FlashLayout.WriteTempFails` | pwl-fwupdate/fb_programing.c:289-381 | what is in the temporary file when the copy fails: what was there, what the disk took, or what the image file had |
| `FlashLayout.CopySlice` | pwl-fwupdate/fb_programing.c:342-379 | the decreasing 1 KiB loop computes that copy, error codes included |
| `FlashLayout.FdtlData.AbsorbMessage` | pwl-fwupdate/fb_programing.c:186-270 | the in-place update of the tables and counters refines the reading of one message, all indices in range |
| `FlashLayout.FdtlData.TakeMessage` | pwl-fwupdate/fb_programing.c:157-270 | one turn of the message loop |
| `FlashLayout.FdtlData.Process` | pwl-fwupdate/fb_programing.c:142-287 | the message loop refines the reading of the whole log |
| `FlashProcess.SendCommandMeans` | pwl-fwupdate/pwl_fwupdate.c:918-971 | the send-command result is 1 exactly when no message contains FAILED, -1 whenever the discarded status was an error, and a flash for which it is 1 is on the device |
| `FlashProcess.ImagesMade` | pwl-fwupdate/pwl_fwupdate.c:1141-1156 | for any device and any disk, in every run of the loop: the flashes are the first of the images in table order, each with what its copy left in the temporary file; only the last can have failed; and the loop returns success exactly when all of them went through |
| `FlashProcess.GatherMade` | pwl-fwupdate/pwl_fwupdate.c:1158-1168 | what the copies of the carrier slices from one entry on leave in the carrier file, for any disk |
| `FlashProcess.FileMade` | pwl-fwupdate/pwl_fwupdate.c:1118-1169 | one file: the flashes are the first of its header and the images it declared, in this order, and it goes on exactly when all went through; it ends the run early exactly when it cannot be started, and then changes neither journal nor carrier file |
| `FlashProcess.FilesMade` | pwl-fwupdate/pwl_fwupdate.c:1118-1171 | the loop over the files: it comes to the end exactly when everything the headers declared went through; otherwise it stopped at the first flash that failed, or returned early at file n with n files done |
| `FlashProcess.FlashAllMade` | pwl-fwupdate/pwl_fwupdate.c:1108-1186 | for every device and every disk, in every run: the flashes are the first of the plan as its copies were made, file by file and capri_c last, and only the last of them can have failed; success is exactly that there is a file and all of the plan went through; an early return has done n files, could not start file n, and leaves the carrier file of those n; every other run that the process survives removes the temporary files |
| `FlashProcess.RanIsGenuine` | pwl-fwupdate/pwl_fwupdate.c:918-971 | every record of a run is a session of the modelled driver with the request that was sent |
| `FlashPlan.CarrierByTable` | pwl-fwupdate/pwl_fwupdate.c:1158-1180 | there is one carrier part for each entry of the carrier table, and part j is the slice of entry j cut out of the file whose header declared it |
| `FlashPlan.CarrierExactly` | pwl-fwupdate/pwl_fwupdate.c:1124-1180 | capri_c is to receive exactly the declared carrier slices if and only if nothing was left in the carrier file before the run (or a slice does not exist, and there is nothing to send) |
| `FlashPlan.CopyGoodExactly` | pwl-fwupdate/fb_programing.c:289-381 | a copy leaves exactly the declared bytes where they belong if and only if the slice lies inside a readable image file, the temporary file opens and the disk takes it; that is when the copy reports success for an offset and a size that are not negative, an empty slice not beyond the end |
| `FlashPlan.FilesAsPlanned` | pwl-fwupdate/pwl_fwupdate.c:1118-1171 | when the copies for n headers are good: the flashes are their headers and exactly the declared slices, and the carrier file is what was in it before followed by every declared carrier slice; an early return leaves exactly that behind |
| `FlashPlan.MadeAsPlanned` | pwl-fwupdate/pwl_fwupdate.c:1108-1186 | when every copy is good, what is to be flashed is the plan: to each partition exactly the bytes that were declared for it |
| `FlashPlan.AchievedOnDevice` | pwl-fwupdate/pwl_fwupdate.c:1108-1186 | each flash of a successful run is on the bus as a whole acknowledged download to its partition |
| `FlashStage.DownloadOrder` | pwl-fwupdate/pwl_fwupdate.c:1533-1650 | in every world: no image before both unlock steps succeeded, with the code of each outcome; the boot flag only after the whole flashing succeeded; in each part only the last request can have failed; the closing part is complete unless the process is gone; the code says success exactly when the flashing succeeded |
| `FlashStage.RebootLast` | pwl-fwupdate/pwl_fwupdate.c:1533-1650 | in every world: the reboot is the last command exactly when the device showed up and the process came back from every session it opened |
| `FlashStage.RebootExactly` | pwl-fwupdate/pwl_fwupdate.c:1533-1650 | for devices and disks as they are: the reboot is the last command exactly when the device showed up and no session opened in the stage is one of those that GoneExactly describes |
| `FlashStage.NoKeyNoReboot` | pwl-fwupdate/pwl_fwupdate.c:1533-1536 | whatever device and disk: without the key file for the first unlock step the process ends in it, and nothing is flashed or rebooted |
| `StageWire.StageOnBus` | pwl-fwupdate/pwl_fwupdate.c:1533-1650 | the stage on the bus: no image before the key is on the device and "flashing unlock" and the preference were acknowledged; "oem boot-flag 9" only after a whole flashing with every image on its partition; and "reboot" last unless the process is gone |
| `StageWire.FlashRecord` | pwl-fwupdate/pwl_fwupdate.c:918-971 | no flash session is a session of any of the other commands |
| `FlashWitness.GoodRecord` | pwl-fwupdate/pwl_fwupdate.c:918-971 | for every partition whose command fits, every image and every few INFO texts there is a device whose session is recorded with 1 |
| `FlashWitness.WrongSlice` | pwl-fwupdate/pwl_fwupdate.c:1146-1156 | a run, for every image file, in which the second copy cannot be made: it succeeds, and the second partition has received the first slice |
| `FlashWitness.WrongSliceHappens` | pwl-fwupdate/pwl_fwupdate.c:1146-1156 | that run, on a device and a disk written out |
| `FlashWitness.CutSlice` | pwl-fwupdate/pwl_fwupdate.c:1146-1156 | a run in which a declared slice goes past the end of its file: the copy fails with -5, the run succeeds, and the partition has received the end of the file only |
| `FlashWitness.CutSliceHappens` | pwl-fwupdate/pwl_fwupdate.c:1146-1156 | that run, on a device and a disk written out, for every file of less than 4 KiB |
| `FlashWitness.LeftBehind` | pwl-fwupdate/pwl_fwupdate.c:1128-1133 | a run that returns early and leaves a carrier slice behind |
| `FlashWitness.FlashedTwice` | pwl-fwupdate/pwl_fwupdate.c:1158-1180 | the run that comes after that one: it succeeds, and capri_c has received the slice twice |
| `FlashWitness.FlashedTwiceHappens` | pwl-fwupdate/pwl_fwupdate.c:1128-1180 | both runs, one after the other, on devices and disks written out |
| `GoodDevice.SessionSucceeds` | pwl-fwupdate/fastboot/fastboot.cpp:433-532 | for every partition whose command fits, every image and every list of INFO texts there is a device and a kernel with which the session ends with status 0 and logs just these texts and two OKAYs |
| `FlashUpdater.Updater.SendCommand` | pwl-fwupdate/pwl_fwupdate.c:918-971 | the method on tables, log and engine refines the session of the model, whatever the device does |
| `FlashUpdater.Updater.StartImage` | pwl-fwupdate/fb_programing.c:48-94 | the header file is the first KiB of an image of at least that size, or as much of it as the disk takes; the four error codes |
| `FlashProcess.HeaderExactly` | pwl-fwupdate/fb_programing.c:48-94 | the header is the first 1024 bytes, exactly of a file that has as many on a disk that takes them |
| `FlashUpdater.Updater.WriteTempFile` | pwl-fwupdate/fb_programing.c:289-381 | what is in the temporary file afterwards, whether the copy succeeded or not |
| `FlashUpdater.Updater.FlashOneImage` | pwl-fwupdate/pwl_fwupdate.c:1144-1151 | one turn of the image loop: slice, temporary file, partition |
| `FlashUpdater.Updater.FlashImageTable` | pwl-fwupdate/pwl_fwupdate.c:1141-1156 | the loop over the image table refines FlashImages |
| `FlashUpdater.Updater.GatherPri` | pwl-fwupdate/pwl_fwupdate.c:1158-1168 | the loop over the new carrier slices refines Gather |
| `FlashUpdater.Updater.FlashOneFile` | pwl-fwupdate/pwl_fwupdate.c:1118-1169 | one round of the outer loop refines FlashFile |
| `FlashUpdater.Updater.FlashEveryFile` | pwl-fwupdate/pwl_fwupdate.c:1118-1171 | the loop over the files refines FlashFiles, early return included |
| `FlashUpdater.Updater.FlashTheCarrier` | pwl-fwupdate/pwl_fwupdate.c:1173-1180 | the carrier file is flashed last, if any carrier slice was declared |
| `FlashUpdater.Updater.FlashProcessV2` | pwl-fwupdate/pwl_fwupdate.c:1108-1186 | the whole of it refines FlashAll, of which FlashAllMade speaks |
| `FlashUpdater.Updater.Unlock` | pwl-fwupdate/pwl_fwupdate.c:1533-1563 | the unlock commands go out in order, each only after the one before succeeded |
| `FlashUpdater.Updater.FinishStage` | pwl-fwupdate/pwl_fwupdate.c:1564-1607 | the boot flag only on success, and the reboot always, as the last command |
| `FlashUpdater.Updater.DownloadProcess` | pwl-fwupdate/pwl_fwupdate.c:1533-1650 | the stage refines Download, of which DownloadOrder speaks |
| `UsbDescriptors.SkipTo` | pwl-fwupdate/fastboot/usb_linux.cpp:217-223 | the skipping loop, with ptr + len constant; it is stuck exactly on a zero length |
| `UsbDescriptors.WalkEndpoints` | pwl-fwupdate/fastboot/usb_linux.cpp:238-269 | the endpoint loop refines the endpoint walk; every read is inside the bytes but the one reported as outside |
| `UsbDescriptors.CompanionPassed` | pwl-fwupdate/fastboot/usb_linux.cpp:238-269 | a companion behind a bulk endpoint is passed as six bytes whatever length it states |
| `UsbDescriptors.FilterUsbDevice` | pwl-fwupdate/fastboot/usb_linux.cpp:143-283 | the interface loop refines the whole walk |
| `UsbDescriptors.LastBulk` | pwl-fwupdate/fastboot/usb_linux.cpp:253-261 | the address of the last bulk endpoint in a direction, or -1 if there is none |
| `UsbDescriptors.FirstAccepted` | pwl-fwupdate/fastboot/fastboot.cpp:131-149 | the first accepted interface among the first n, or -1 if none is |
| `UsbDescriptors.FilterChooses` | pwl-fwupdate/fastboot/usb_linux.cpp:143-283 | for every descriptor sequence whose first bNumInterfaces interfaces have their endpoints, the walk ends inside the bytes and reports the last bulk endpoints of the first accepted interface, or that there is none |
| `UsbDescriptors.EndpointsExactly` | pwl-fwupdate/fastboot/usb_linux.cpp:238-269 | for every descriptor list: an endpoint is read past the end exactly when more are declared than all the descriptors left contain; otherwise exactly that many are taken and the rest is left |
| `UsbDescriptors.FilterReports` | pwl-fwupdate/fastboot/usb_linux.cpp:143-283 | for every descriptor sequence: the walk reports the first interface it comes to that is accepted or lacks endpoints |
| `UsbDescriptors.FilterEnds` | pwl-fwupdate/fastboot/usb_linux.cpp:143-283 | the walk ends for every descriptor sequence |
| `UsbDescriptors.FilterOutside` | pwl-fwupdate/fastboot/usb_linux.cpp:143-283 | for every descriptor sequence the walk reads past the end exactly when it comes to an interface that declares more endpoints than all the descriptors left contain, and has accepted none before |
| `UsbDescriptors.TooFewOutside` | pwl-fwupdate/fastboot/usb_linux.cpp:246-251 | the bytes of a device with which it does so |
| `UsbDescriptors.FourthChosen` | pwl-fwupdate/fastboot/fastboot.cpp:131-149 | the bytes of a device whose first three interfaces each differ from the fastboot interface in one of class, subclass and protocol: the walk finds the fourth, with its two bulk endpoints |
| `TcpSend.SendVector` | pwl-fwupdate/fastboot/socket.cpp:196-228 | the nested loops compute the scatter-gather send |
| `TcpSend.Advance` | pwl-fwupdate/fastboot/socket.cpp:206-225 | the inner loop never passes the end and leaves exactly the unsent buffers |
| `TcpSend.SkipKeepsRest` | pwl-fwupdate/fastboot/socket.cpp:206-225 | what is left after n bytes is the concatenation without its first n bytes |
| `TcpSend.SendsInOrder` | pwl-fwupdate/fastboot/socket.cpp:196-228 | what was sent is always a prefix of the concatenation, and all of it on success |
| `TcpSend.ProgressSucceeds` | pwl-fwupdate/fastboot/socket.cpp:196-228 | with progress in every call the send ends with success |
| `TcpSend.ZeroRetried` | pwl-fwupdate/fastboot/socket.cpp:196-228 | a call that takes nothing is made again |
| `TcpSend.OneCall` | pwl-fwupdate/fastboot/socket.cpp:196-228 | after a call that takes k bytes and a failing one, just the first k bytes were sent |
| `TcpSend.CanSucceedExactly` | pwl-fwupdate/fastboot/socket.cpp:196-228 | a send can succeed at all exactly when the last buffer is not empty |
| `TcpSend.TrailingEmptyNeverSucceeds` | pwl-fwupdate/fastboot/socket.cpp:202-225 | an empty last buffer is never erased |
| `TcpSend.SendSingle` | pwl-fwupdate/fastboot/socket.cpp:182-194 | the single-buffer loop, whose pointer does not advance |
| `TcpSend.SingleSendExact` | pwl-fwupdate/fastboot/socket.cpp:182-194 | the single-buffer send is right for all contents exactly when its first productive call takes everything |
| `StatusStore.CountIsDecimalLength` | common/common.c:1045-1056 | count_int_length is the decimal length of every unsigned number |
| `StatusStore.Rewrite` | common/common.c:737-745 | the line loop computes the new text |
| `StatusStore.RecordFile.SetStatusValue` | common/common.c:714-757 | the file becomes the new text; or as much of it as was written, with -1 or unnoticed; or stays as it was with -1 |
| `StatusStore.ReadValue` | common/common.c:771-786 | the line loop with its five-byte buffer computes the value, or runs out of the buffer |
| `StatusStore.RecordFile.GetStatusValue` | common/common.c:759-789 | the value, or -1 without a file |
| `StatusStore.LineContains` | common/common.c:738 | a key is found in a line exactly when it occurs in the key of that line |
| `StatusStore.SetRefines` | common/common.c:714-757 | setting changes the line of that key and no other, and keeps the order |
| `StatusStore.SetFits` | common/common.c:730-745 | the new text and its NUL fit the file_size + value_len + 1 bytes |
| `StatusStore.GetRefines` | common/common.c:759-789 | for values up to 9999 the get returns the value of the key, except that a CR LF in the memory behind the copied text costs the last digit |
| `StatusStore.AtoiReads` | common/common.c:759-789 | the number is read behind blanks and a sign, up to the first character that is no digit |
| `StatusStore.ReadTooLong` | common/common.c:759-789 | a value of five digits or more runs out of the buffer |
| `StatusStore.GetAfterSet` | common/common.c:714-789 | get after set, for the same key and for every other one |
| `RetryCounters.Services.GpioReset` | pwl-core/pwl_core.c:493-504 | counts and resets only up to the threshold |
| `RetryCounters.Services.StartUpdateProcess` | pwl-fwupdate/pwl_fwupdate.c:3234-3433 | the guard, the count on a failed setup, and flag and reset request on a failed download |
| `RetryCounters.Services.OnMadptRestart` | pwl-fwupdate/pwl_fwupdate.c:723-731 | the flag of the record is cleared and becomes one pending retry |
| `RetryCounters.Services.MonitorRetry` | pwl-fwupdate/pwl_fwupdate.c:814-825 | a pending retry is started once |
| `RetryCounters.HwResetBound` | pwl-core/pwl_core.c:493-504 | over all restarts hw_reset is entered at most six times from a fresh record |
| `RetryCounters.EnteredExactly` | pwl-core/pwl_core.c:493-504 | when the service does not die in a request, the recorded count is exactly how often hw_reset was entered |
| `RetryCounters.DyingReset` | pwl-core/pwl_core.c:493-504 | a request in which the service dies is counted but does not reset |
| `RetryCounters.FailedUpdatesBound` | pwl-fwupdate/pwl_fwupdate.c:3234-3433 | at most seven updates fail whose reset request was served (within the 6 + 2 that the two counters suggest), and after that the guard stops every further one |
| `RetryCounters.SevenReached` | pwl-fwupdate/pwl_fwupdate.c:3386-3427 | seven failures do happen |
| `RetryCounters.UnservedUnbounded` | pwl-fwupdate/pwl_fwupdate.c:3424-3427 | without the reset request being served any number of updates can fail |
| `RetryCounters.BlockedForGood` | pwl-fwupdate/pwl_fwupdate.c:3243-3246 | a record that blocks updates blocks them for good |
| `RetryCounters.RetriesAnnounced` | pwl-fwupdate/pwl_fwupdate.c:723-731 | the retry thread starts no more updates than downloads announced |
| `RetryCounters.RetryTaken` | pwl-fwupdate/pwl_fwupdate.c:723-731 | a recorded retry: the madpt restart clears the flag, the next turn of the retry thread starts exactly one update unless the record blocks it, and the turn after that none |
| `RetryCounters.RetryLost` | pwl-fwupdate/pwl_fwupdate.c:814-825 | a service restart or a recovery update before that turn loses it |
| `RetryCounters.RetriesAccounted` | pwl-fwupdate/pwl_fwupdate.c:3386-3427 | over every run without restart, death or recovery, every failed download is a retry that was started, is pending, stands in the record, or was merged with one still waiting |
| `RetryCounters.RetryLoop` | pwl-fwupdate/pwl_fwupdate.c:3543-3557 | the PCIe retry loop with its re-reading of the count |
| `RetryCounters.CountNeverGrows` | pwl-fwupdate/pwl_fwupdate.c:5063-5082 | failed PCIe attempts leave the persisted count as it was; the loop is left exactly on success or if it began at the threshold, and success is the first attempt that completes, with the count at 0 |
| `RetryCounters.IncrementFirstBounds` | pwl-fwupdate/pwl_fwupdate.c:5063-5082 | with the increment before the write the loop would be bounded by the threshold |
| `EsimProfile.Process.AskModem` | pwl-fwupdate/pwl_fwupdate.c:2030-2051 | the retry loop: whether an answer came, and the result held at the end |
| `EsimProfile.AskDecides` | pwl-fwupdate/pwl_fwupdate.c:2030-2051 | the loop is answered exactly by the first of three replies that answers, and holds the result of the last reply it read |
| `EsimProfile.Process.RemoveProfile` | pwl-fwupdate/pwl_fwupdate.c:1995-2024 | one delete round, and the two writes when the command fails |
| `EsimProfile.Process.CountDown` | pwl-fwupdate/pwl_fwupdate.c:2065-2075 | how a failed check moves counter and verdict |
| `EsimProfile.Process.CheckProfile` | pwl-fwupdate/pwl_fwupdate.c:2026-2081 | the whole check, as the list of its writes |
| `EsimProfile.Process.RunUpdate` | pwl-fwupdate/pwl_fwupdate.c:3218-3380 | the two checks and the restart of the count in one update |
| `EsimProfile.RoundsBound` | pwl-fwupdate/pwl_fwupdate.c:1995-2081 | in every run, whatever write a process dies after, (counter, done) stays in {(0,0),(2,0),(1,0),(0,1),(0,2)} and the delete rounds are bounded by three, plus three for each restart of the count, plus two for each death |
| `EsimProfile.ThreeRounds` | pwl-fwupdate/pwl_fwupdate.c:1995-2081 | at most three rounds between restarts of the count when no process dies |
| `EsimProfile.RemovedForGood` | pwl-fwupdate/pwl_fwupdate.c:3371-3380 | done = 1 is never left and nothing more is sent |
| `EsimProfile.RemovedExactly` | pwl-fwupdate/pwl_fwupdate.c:2053-2060 | an update ends with done = 1 exactly when it was so before or the modem reports the removal |
| `EsimProfile.UpdateExactly` | pwl-fwupdate/pwl_fwupdate.c:3218-3380 | every update of a good record, write by write; a finished download with done = 2 restarts the count |
| `EsimProfile.DeathsUnbounded` | pwl-fwupdate/pwl_fwupdate.c:2070-2074 | a death between the two writes that end the count costs two more rounds, any number of times |
| `BootMonitor.LastPass` | pwl-core/pwl_core.c:1046-1111 | the loop ends with the first deciding pass, at the latest with the fourth |
| `BootMonitor.Core.Pass` | pwl-core/pwl_core.c:1046-1111 | one pass: its writes, its notice, and whether the loop goes on |
| `BootMonitor.Core.Monitor` | pwl-core/pwl_core.c:1035-1115 | the thread ends for every behaviour of the ports, with the actions stated and the recovering flag clear |
| `BootMonitor.BootBounds` | pwl-core/pwl_core.c:1035-1115 | at most three rescans and at most one notice, which comes last |
| `BootMonitor.NoticeExactly` | pwl-core/pwl_core.c:1046-1111 | which notice goes out, and exactly when |
| `BootMonitor.BootExactly` | pwl-core/pwl_core.c:1035-1115 | all actions of a boot, by the first pass that decides |
| `BootMonitor.CountAfterBoot` | pwl-core/pwl_core.c:1046-1111 | the count that a whole boot leaves: 0, one more, or as it was, by the first pass that decides |
| `BootMonitor.RecoveriesBound` | pwl-core/pwl_core.c:1063-1087 | over all boots, even cut short ones, at most `limit` abnormal-port recoveries until a passing check resets the count |
| `BootMonitor.RecoveriesReached` | pwl-core/pwl_core.c:1063-1087 | the bound is reached: boots with the abnormal port recover `limit` times and then no more |
| `SnImei.TrimExactly` | common/common.c:1076-1100 | trimming takes exactly the blanks off the two ends |
| `SnImei.TrimString` | common/common.c:1076-1100 | the scans, the cut and the move in place leave the trimmed string in the buffer |
| `SnImei.BackupRoundTrip` | common/common.c:1102-1124 | backup, save, load, trim and split return exactly the SN and the IMEI |
| `SnImei.RoundTripExactly` | common/common.c:1102-1124 | among trimmed one-line strings that fit the message, the semicolon in the SN is exactly what breaks that |
| `SnImei.Services.SaveBackup` | pwl-pref/pwl_pref.c:724-739 | for a non-empty content the record is untouched, or emptied and filled with the content and a newline as far as the write gets, reported or not |
| `SnImei.Services.LoadBackup` | pwl-pref/pwl_pref.c:741-757 | the trimmed first line of the record |
| `SnImei.FirstLineLoaded` | pwl-pref/pwl_pref.c:741-757 | the first line of the record, without the blanks at its ends, as far as it fits the 64 bytes |
| `SnImei.FieldReads` | pwl-fwupdate/pwl_fwupdate.c:2525-2556 | what is read behind the first occurrence of a tag is the rest of its line, cut to the buffer and trimmed |
| `SnImei.ReadField` | pwl-fwupdate/pwl_fwupdate.c:2530-2548 | the scans for the tag and for the line end compute that |
| `SnImei.Services.GetSnAndImei` | pwl-fwupdate/pwl_fwupdate.c:2525-2556 | IMEI and SN are what the modem reports behind their tags, as FieldReads says |
| `SnImei.Services.Restore` | pwl-pref/pwl_pref.c:970-975 | loading and splitting the backup |
| `SnImei.Services.StartUp` | pwl-fwupdate/pwl_fwupdate.c:5421-5442 | back up, recover, or neither |
| `SnImei.HealthyStart` | pwl-fwupdate/pwl_fwupdate.c:5421-5442 | a start with both parts reported: what becomes of the record, and the 30 bytes that the backup must fit |
| `SnImei.IllStart` | pwl-fwupdate/pwl_fwupdate.c:5421-5442 | a start with a part missing leaves the record alone, and without a backup nothing is recovered |
| `SnImei.LoadedStart` | pwl-fwupdate/pwl_fwupdate.c:5421-5442 | a start with a part missing and a backup there: what is held and whether the recovery starts, for every line of the record |
| `SnImei.CutExactly` | common/common.c:1102-1124 | a backup of which only a part was written gives back SN and IMEI exactly when at most its line end is missing |
| `SnImei.RecordStaysRemnant` | pwl-pref/pwl_pref.c:724-739 | in every run the record is absent or what was written of a backup whose two parts are both non-empty, perhaps nothing |
| `SnImei.CorruptRecovers` | pwl-fwupdate/pwl_fwupdate.c:5421-5442 | a modem without SN or IMEI never changes the record, and recovers SN and IMEI from it exactly when at most its line end is missing |
| `SnImei.WrongRecovery` | pwl-fwupdate/pwl_fwupdate.c:5421-5442 | a recovery starts with something else than the parts that were backed up exactly when the backup broke off inside the IMEI, and then with the SN and the beginning of the IMEI; a backup that broke off before starts none |
| `SnImei.BackupSurvives` | pwl-fwupdate/pwl_fwupdate.c:5421-5442 | a whole backup survives a run of starts with its modem exactly when the last save begun in that run, if there was one, was written up to its line end |
| `SnImei.BackupLost` | pwl-pref/pwl_pref.c:727-735 | a start with a healthy modem that loses the backup: the record is emptied, nothing is written, and a later start recovers nothing |
| `SnImei.LossHappens` | pwl-pref/pwl_pref.c:727-735 | two starts, written out, that lose a backup |
| `SnImei.BackedUpThenRecovered` | pwl-fwupdate/pwl_fwupdate.c:5259-5266 | what a healthy modem reported is what a corrupted one gets back later |
| `PcieTable.ParseDownloadString` | pwl-fwupdate/pwl_fwupdate.c:4360-4376 | the strtok loop keeps the second, third and fourth field |
| `PcieTable.RowRoundTrip` | pwl-fwupdate/pwl_fwupdate.c:4253-4282 | a printed row parses back to partition, image and checksum, wherever the checksum stands |
| `PcieTable.ShortLines` | pwl-fwupdate/pwl_fwupdate.c:4360-4376 | a line without an image field asks for no image |
| `PcieTable.GenerateTable` | pwl-fwupdate/pwl_fwupdate.c:4175-4291 | the nested loops print the rows of the table |
| `PcieTable.ScatterRowsSound` | pwl-fwupdate/pwl_fwupdate.c:4253-4270 | every row joins a partition with a selected image whose entry names its file |
| `PcieTable.ScatterRowsComplete` | pwl-fwupdate/pwl_fwupdate.c:4253-4270 | every such pair has its row |
| `PcieTable.TableRoundTrip` | pwl-fwupdate/pwl_fwupdate.c:4354-4376 | the generated table is read back word by word as its rows were meant |
| `PcieTable.CheckTable` | pwl-fwupdate/pwl_fwupdate.c:4293-4337 | something is to be updated exactly if some line is not a SKIP_ one; the check passes exactly if also every entry stands in some line |
| `PcieFlash.SendFile` | pwl-fwupdate/pwl_fwupdate.c:4579-4601 | the 2 KiB loop, with its unnoticed short writes |
| `PcieFlash.AcceptedExactly` | pwl-fwupdate/pwl_fwupdate.c:4594-4600 | the port takes exactly the file if and only if each write takes the whole of its piece |
| `PcieFlash.LandedWhole` | pwl-fwupdate/pwl_fwupdate.c:4516-4694 | the data sent by a flash that counts as successful is the image exactly when each write took the whole of its piece |
| `PcieFlash.LandedUnsent` | pwl-fwupdate/pwl_fwupdate.c:4594-4600 | for every image there is a flash that counts as successful and sends none of it |
| `PcieFlash.CheckSum` | pwl-fwupdate/pwl_fwupdate.c:4671-4690 | the strtok comparison of the check answer |
| `PcieFlash.ChecksumExactly` | pwl-fwupdate/pwl_fwupdate.c:4671-4690 | an answer without the marker never passes; every other is colons, a word, colons, and a value up to the next colon, and passes exactly when there is no value or the value starts with the checksum |
| `PcieFlash.FlashOne` | pwl-fwupdate/pwl_fwupdate.c:4516-4694 | the steps of flash_image in order |
| `PcieFlash.StepsExactly` | pwl-fwupdate/pwl_fwupdate.c:4516-4694 | how far a flash gets, good or bad: each step only after the answer that it needs, and success exactly if the check passes |
| `PcieFlash.NothingToFlash` | pwl-fwupdate/pwl_fwupdate.c:4516-4546 | nothing is sent exactly for a line without partition or without an image that can be opened |
| `PcieFlash.ParseTableAndFlash` | pwl-fwupdate/pwl_fwupdate.c:4339-4392 | the loop over the table |
| `PcieFlash.FlashedInOrder` | pwl-fwupdate/pwl_fwupdate.c:4339-4392 | lines are tried in order, SKIP_ lines never; success is exactly that every line asked for was announced, acknowledged, flashed OKAY and checked |
| `PcieFlash.MarkedNeverFlashed` | pwl-fwupdate/pwl_fwupdate.c:4354-4376 | an image marked with SKIP_ is never flashed, in good runs and bad |
| `PcieFlash.RefusedCheckEnds` | pwl-fwupdate/pwl_fwupdate.c:4671-4673 | a flash whose check is answered without the marker never lands, is the last that is tried, and fails the whole |
| `PcieFlash.SizeConfirmed` | pwl-fwupdate/pwl_fwupdate.c:4548-4564 | the size the modem confirmed is that of the file |
| `PcieFlash.TableFlashed` | pwl-fwupdate/pwl_fwupdate.c:4175-4392 | from scatter file and image list to the modem: success is exactly that every row not marked SKIP_ was flashed in table order and matched its checksum |
| `PcieTable.RowChecksum` | pwl-fwupdate/pwl_fwupdate.c:4253-4270 | the separate checksum of a row: that of the device package, nothing if there is a 0x in the entry, or the one looked up for the file of the partition |
| `PcieFlash.FlashedAgainst` | pwl-fwupdate/pwl_fwupdate.c:4175-4392 | an image without a 0x in its entry is flashed to a partition only against the checksum looked up for its file |
| `PcieTable.RowAssigned` | pwl-fwupdate/pwl_fwupdate.c:4175-4291 | every row is that of an image that goes to a partition or is the device image |
| `PcieTable.AssignedRow` | pwl-fwupdate/pwl_fwupdate.c:4175-4291 | every such image has a row |
| `PcieFlash.ImageFlashedExactly` | pwl-fwupdate/pwl_fwupdate.c:4175-4392 | after a successful flashing an image was flashed exactly when its name is not a SKIP_ one and an image of that name goes to a partition of the scatter file or is the device image |
| `PcieFlash.CheckedAreFlashed` | pwl-fwupdate/pwl_fwupdate.c:4322-4336 | when no entry stands in the row of another image, every selected image that the check found and that is not a SKIP_ one was flashed |
| `PcieFlash.ListedButMissed` | pwl-fwupdate/pwl_fwupdate.c:4322-4336 | a scatter file and two images for which the check passes and one of the two is flashed in no run |
| `ModeSwitch.PollFastboot` | pwl-fwupdate/pwl_fwupdate.c:4849-4867 | success exactly when some eleven consecutive polls among the first fifty are answered with OKAY |

## Left out

- UsbTransport: the numbers of milliseconds and the error text of a transfer; a transfer either takes a number of bytes or fails.
- FastbootDriver.Engine.Program: waiting for a device to appear; a session without one is a session on which no transfer succeeds.
- FastbootDriver.Engine.Callback: the elapsed time in the OKAY text, which is a fixed text here, and the text of `strerror`.
- FastbootWire.ReasonKept: the number, or the text of `strerror`, in parentheses at the end of some error texts.
- FastbootEngine: the OP_DOWNLOAD, OP_QUERY and OP_NOTICE actions and their callbacks, which no path of the update queues.
- FlashLayout.Absorb: bytes that `strncpy` leaves behind an eight-letter partition name, and failing memory allocation.
- FlashUpdater.Updater.DownloadProcess: the steps before the device is looked for and after the last reboot (mode switch message, modem port, preferred carrier, OEM PRI reset); they enter as two flags.
- UsbDescriptors.FilterUsbDevice: reading the serial number from sysfs, which is a parameter, and the bytes behind the end of the buffer, where the walk of the model stops with `Outside`.
- StatusStore.Rewrite: negative values and failing memory allocation.
- RetryCounters: record accesses that fail or that the CR LF effect of `GetRefines` falsifies, and two updates at the same time; the PCIe busy flag is tested (pwl-fwupdate/pwl_fwupdate.c:1850, 3532) long before it is set (4941).
- EsimProfile: the same two assumptions about the record.
- SnImei.Services.StartUp: the uninitialised `retry` of post_message_queue_action (pwl-fwupdate/pwl_fwupdate.c:5248); whether a request is carried out is arbitrary instead. A backup that does not fit its message field ends the run of the model. The operating system may lose a written file with its cache; here what was written stays.
- PcieTable.GenerateTable: reading the XML files; partitions, images and checksums are lists and a lookup. Lines longer than the 256-byte buffer of the parser.
- PcieFlash.FlashOne: an answer to the data that never comes counts as a failure, although the code waits for ever.
- ModeSwitch: everything before the polling.
- D-Bus, GLib main loops, MBIM, zenity dialogs, GPIO and sysfs access, AT command texts, SKU and carrier tables: not part of this model.
- The sparse-image, upload and `-w` paths of fastboot, and FileMap.cpp, which the update does not use: not part of this model.
