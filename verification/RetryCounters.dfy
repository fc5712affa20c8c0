/**
  The counters in the firmware update record that bound hardware resets and update attempts:
  gpio_reset_method (pwl-core/pwl_core.c), and start_update_process, the retry thread and the
  PCIe retry loop (pwl-fwupdate/pwl_fwupdate.c).

  The record survives; everything else is lost whenever a service restarts.  Each access to the
  record is exact and takes effect at once, and one update runs at a time.
 */
module RetryCounters {

  const FW_UPDATE_RETRY_TH: nat := 1
  const HW_RESET_RETRY_TH: nat := 5

  const DOWNLOAD_PARAMETER_PARSING_FAILED: int := -1
  const SWITCHING_TO_DOWNLOAD_MODE_FAILED: int := -3

  /** Fw_update_retry_count, Do_hw_reset_count and whether Need_retry_fw_update is 1. */
  datatype Record = Record(retry: nat, resets: nat, flag: bool)

  const FRESH_RECORD: Record := Record(0, 0, false)

  predicate Blocked(r: Record) {
    r.retry > FW_UPDATE_RETRY_TH || r.resets > HW_RESET_RETRY_TH
  }

  // ----- USB updates -----

  /** What download_process returns: success, or one of its error codes. */
  predicate DownloadCode(code: int) {
    code == 1 || code == SWITCHING_TO_DOWNLOAD_MODE_FAILED || code == -4 || code == -6 || code == -8 || code == -9
  }

  datatype Write = Nothing | CountWritten | FlagWritten

  /**
    How an update goes once the guard has let it through: it stops before the download is set
    up, the setup fails, the download returns a code (and a reset it then asks for is served or
    not), or the process dies, perhaps just after one of its writes to the record.
   */
  datatype Course =
    | StopsEarly
    | SetupFails
    | Downloads(code: int, served: bool)
    | Dies(after: Write)

  predicate CourseOk(c: Course) {
    c.Downloads? ==> DownloadCode(c.code)
  }

  datatype Step =
    | Update(recovery: bool, course: Course)  // start_update_process
    | ResetRequest(dies: bool)                // gpio_reset_method; the service may die before the reset itself
    | MadptRestart                            // the message that turns the recorded flag into a retry
    | RetryTick(course: Course)               // one turn of monitor_retry_func
    | Restart                                 // the service starts anew

  predicate StepOk(s: Step) {
    (s.Update? || s.RetryTick?) ==> CourseOk(s.course)
  }

  /**
    What has happened so far: hw_reset entered, updates let through the guard, non-recovery
    updates that failed at or after the setup, reset requests nobody served, retries announced
    in the record, and retries started by the retry thread.
   */
  datatype History = History(entered: nat, started: nat, failed: nat, unserved: nat, flagged: nat, retried: nat)

  datatype Machine = Machine(record: Record, pending: bool, past: History)

  const FRESH: Machine := Machine(FRESH_RECORD, false, History(0, 0, 0, 0, 0, 0))

  function Reset(m: Machine, dies: bool): Machine {
    if m.record.resets > HW_RESET_RETRY_TH then m
    else m.(record := m.record.(resets := m.record.resets + 1),
            past := if dies then m.past else m.past.(entered := m.past.entered + 1))
  }

  function Counted(m: Machine): Machine {
    m.(record := m.record.(retry := m.record.retry + 1))
  }

  function Flagged(m: Machine): Machine {
    m.(record := m.record.(flag := true), past := m.past.(flagged := m.past.flagged + 1))
  }

  function Failing(m: Machine): Machine {
    m.(past := m.past.(failed := m.past.failed + 1))
  }

  function Unserved(m: Machine): Machine {
    m.(past := m.past.(unserved := m.past.unserved + 1))
  }

  function Attempt(m0: Machine, recovery: bool, c: Course): Machine {
    if Blocked(m0.record) then m0
    else
      var m := m0.(past := m0.past.(started := m0.past.started + 1));
      match c
      case StopsEarly => m
      case SetupFails => if recovery then Counted(m).(pending := false) else Failing(Counted(m))
      case Downloads(code, served) =>
        if recovery then m.(pending := false)
        else if code > 0 then m
        else
          var f := Flagged(Failing(m));
          if served then Reset(f, false) else Unserved(f)
      case Dies(after) =>
        (match after
         case Nothing => m
         case CountWritten => Counted(m)
         case FlagWritten => Flagged(m)).(pending := false)
  }

  function Apply(m: Machine, s: Step): Machine {
    match s
    case Update(recovery, course) => Attempt(m, recovery, course)
    case ResetRequest(dies) => Reset(m, dies)
    case MadptRestart => if m.record.flag then m.(record := m.record.(flag := false), pending := true) else m
    case RetryTick(course) =>
      if m.pending then Attempt(m.(pending := false, past := m.past.(retried := m.past.retried + 1)), false, course) else m
    case Restart => m.(pending := false)
  }

  function Run(m: Machine, steps: seq<Step>): Machine
    decreases |steps|
  {
    if steps == [] then m else Run(Apply(m, steps[0]), steps[1..])
  }

  /** The services' own variables and methods. */
  class Services {
    var record: Record
    var pending: bool
    ghost var past: History

    constructor ()
      ensures View() == FRESH
    {
      record, pending, past := FRESH_RECORD, false, History(0, 0, 0, 0, 0, 0);
    }

    ghost function View(): Machine
      reads this
    {
      Machine(record, pending, past)
    }

    method GpioReset(dies: bool)
      modifies this
      ensures View() == Reset(old(View()), dies)
    {
      var count := record.resets;
      if count <= HW_RESET_RETRY_TH {
        count := count + 1;
        record := record.(resets := count);
        if !dies {
          past := past.(entered := past.entered + 1);
        }
      }
    }

    /** The result is that of start_update_process, and `exits` whether the process is gone. */
    method StartUpdateProcess(recovery: bool, course: Course) returns (ret: int, exits: bool)
      requires CourseOk(course)
      modifies this
      ensures View() == Attempt(old(View()), recovery, course)
      ensures old(Blocked(record)) ==> ret == -1
      ensures !exits && course.Downloads? && !old(Blocked(record)) ==> ret == if course.code == 1 then 0 else course.code
    {
      exits := false;
      if record.retry > FW_UPDATE_RETRY_TH || record.resets > HW_RESET_RETRY_TH {
        return -1, false;
      }
      past := past.(started := past.started + 1);
      var gpioReset := false;
      match course {
        case StopsEarly =>
          return -1, false;
        case Dies(after) =>
          if after == CountWritten {
            record := record.(retry := record.retry + 1);
          } else if after == FlagWritten {
            record, past := record.(flag := true), past.(flagged := past.flagged + 1);
          }
          pending := false;
          return 0, true;
        case SetupFails =>
          record := record.(retry := record.retry + 1);
          ret := DOWNLOAD_PARAMETER_PARSING_FAILED;
        case Downloads(code, _) =>
          ret := code;
      }
      if recovery {
        pending := false;
        return ret, true;
      }
      if ret <= 0 {
        past := past.(failed := past.failed + 1);
      }
      if ret == SWITCHING_TO_DOWNLOAD_MODE_FAILED {
        gpioReset := true;
      } else if ret == DOWNLOAD_PARAMETER_PARSING_FAILED {
      } else if ret <= 0 {
        gpioReset := true;
      }
      if gpioReset {
        record, past := record.(flag := true), past.(flagged := past.flagged + 1);
        if course.served {
          GpioReset(false);
        } else {
          past := past.(unserved := past.unserved + 1);
        }
      }
      if ret >= 0 {
        ret := 0;
      }
    }

    method OnMadptRestart()
      modifies this
      ensures View() == Apply(old(View()), MadptRestart)
    {
      if record.flag {
        record := record.(flag := false);
        pending := true;
      }
    }

    method MonitorRetry(course: Course)
      requires CourseOk(course)
      modifies this
      ensures View() == Apply(old(View()), RetryTick(course))
    {
      if pending {
        pending := false;
        past := past.(retried := past.retried + 1);
        var ret, exits := StartUpdateProcess(false, course);
      }
    }
  }

  // ----- Bounds over every run -----

  predicate StepsOk(steps: seq<Step>) {
    forall s <- steps :: StepOk(s)
  }

  ghost predicate Inv(m: Machine) {
    var p := m.past;
    && m.record.resets <= HW_RESET_RETRY_TH + 1 && m.record.retry <= FW_UPDATE_RETRY_TH + 1
    && p.entered <= m.record.resets
    && p.failed <= p.unserved + m.record.retry + m.record.resets
    && p.failed <= p.unserved + FW_UPDATE_RETRY_TH + HW_RESET_RETRY_TH + 1
    && p.retried + (if m.record.flag then 1 else 0) + (if m.pending then 1 else 0) <= p.flagged
  }

  lemma InvStep(m: Machine, s: Step)
    requires Inv(m) && StepOk(s)
    ensures Inv(Apply(m, s))
  {
    match s
    case Update(recovery, course) => InvAttempt(m, recovery, course);
    case RetryTick(course) =>
      if m.pending {
        InvAttempt(m.(pending := false, past := m.past.(retried := m.past.retried + 1)), false, course);
      }
    case _ =>
  }

  lemma InvAttempt(m: Machine, recovery: bool, c: Course)
    requires Inv(m) && CourseOk(c)
    ensures Inv(Attempt(m, recovery, c))
  {
  }

  lemma {:induction false} InvRun(m: Machine, steps: seq<Step>)
    requires Inv(m) && StepsOk(steps)
    ensures Inv(Run(m, steps))
    decreases |steps|
  {
    if steps != [] {
      assert steps[0] in steps;
      InvStep(m, steps[0]);
      InvRun(Apply(m, steps[0]), steps[1..]);
    }
  }

  /** From a fresh record hw_reset is entered at most six times, whoever asks and whatever restarts. */
  lemma HwResetBound(steps: seq<Step>)
    requires StepsOk(steps)
    ensures Run(FRESH, steps).past.entered <= HW_RESET_RETRY_TH + 1
  {
    InvRun(FRESH, steps);
  }

  /** A request from which the service dies is counted, and hw_reset is not entered. */
  lemma DyingReset(m: Machine)
    requires m.record.resets <= 5
    ensures Apply(m, ResetRequest(true)) == m.(record := m.record.(resets := m.record.resets + 1))
  {
  }

  predicate NoneDies(steps: seq<Step>) {
    forall s <- steps :: s.ResetRequest? ==> !s.dies
  }

  /** If none does, the count of the record is the number of times hw_reset was entered. */
  lemma {:induction false} EnteredExactly(m: Machine, steps: seq<Step>)
    requires NoneDies(steps)
    ensures var u := Run(m, steps); u.past.entered - m.past.entered == u.record.resets - m.record.resets
    decreases |steps|
  {
    if steps != [] {
      assert steps[0] in steps;
      EnteredExactly(Apply(m, steps[0]), steps[1..]);
    }
  }

  /**
    At most seven updates fail whose reset request, if they made one, was served; once seven
    have, every further update is stopped at the guard.
   */
  lemma FailedUpdatesBound(steps: seq<Step>, more: seq<Step>)
    requires StepsOk(steps) && StepsOk(more)
    ensures var m := Run(FRESH, steps);
            && m.past.failed <= m.past.unserved + 7
            && (m.past.failed == m.past.unserved + 7 ==> Run(m, more).past.started == m.past.started)
  {
    InvRun(FRESH, steps);
    var m := Run(FRESH, steps);
    if m.past.failed == m.past.unserved + 7 {
      BlockedForGood(m, more);
    }
  }

  /** The retry thread starts no more updates than downloads announced a retry. */
  lemma RetriesAnnounced(steps: seq<Step>)
    requires StepsOk(steps)
    ensures Run(FRESH, steps).past.retried <= Run(FRESH, steps).past.flagged
  {
    InvRun(FRESH, steps);
  }

  /**
    The announced retry: when madpt restarts, the flag of the record becomes a pending retry, and
    the next turn of the retry thread starts exactly one update, unless the record blocks updates;
    the turn after that starts none.
   */
  lemma RetryTaken(m: Machine, c: Course, d: Course)
    requires m.record.flag && CourseOk(c)
    ensures var n := Apply(m, MadptRestart);
            var r := Apply(n, RetryTick(c));
            && !n.record.flag && n.pending && n.record.retry == m.record.retry && n.record.resets == m.record.resets
            && n.past == m.past
            && r.past.retried == m.past.retried + 1
            && r.past.started == m.past.started + (if Blocked(m.record) then 0 else 1)
            && (!Announces(c) && c != Dies(FlagWritten) ==> !r.record.flag)
            && Apply(r, RetryTick(d)) == r
  {
  }

  /** A service that restarts before that turn, or an update for a recovery, loses the retry: no turn starts anything then. */
  lemma RetryLost(m: Machine, s: Step, d: Course)
    requires m.pending && (s == Restart || (s.Update? && s.recovery && !Blocked(m.record) && (s.course.SetupFails? || s.course.Downloads?)))
    ensures Apply(Apply(m, s), RetryTick(d)) == Apply(m, s)
    ensures s == Restart ==> Apply(m, s) == m.(pending := false)
  {
  }

  /** A download that fails asks for a retry. */
  predicate Announces(c: Course) {
    c.Downloads? && c.code <= 0
  }

  /** No service restarts, no process dies, and no update is made for a recovery. */
  predicate Calm(steps: seq<Step>) {
    forall s <- steps :: StepOk(s) && !s.Restart? && ((s.Update? || s.RetryTick?) ==> !s.course.Dies?) && (s.Update? ==> !s.recovery)
  }

  /** A retry that is announced, or becomes pending, while another one already is. */
  function Merged(m: Machine, s: Step): nat {
    match s
    case Update(_, c) => if Announces(c) && !Blocked(m.record) && m.record.flag then 1 else 0
    case RetryTick(c) => if Announces(c) && !Blocked(m.record) && m.record.flag && m.pending then 1 else 0
    case MadptRestart => if m.record.flag && m.pending then 1 else 0
    case _ => 0
  }

  function AllMerged(m: Machine, steps: seq<Step>): nat
    decreases |steps|
  {
    if steps == [] then 0 else Merged(m, steps[0]) + AllMerged(Apply(m, steps[0]), steps[1..])
  }

  function Updates(m: Machine, s: Step): nat {
    match s
    case Update(_, c) => if Announces(c) && !Blocked(m.record) then 1 else 0
    case RetryTick(c) => if Announces(c) && !Blocked(m.record) && m.pending then 1 else 0
    case _ => 0
  }

  /** The downloads that failed. */
  function Announced(m: Machine, steps: seq<Step>): nat
    decreases |steps|
  {
    if steps == [] then 0 else Updates(m, steps[0]) + Announced(Apply(m, steps[0]), steps[1..])
  }

  /** Retries started, pending and announced in the record. */
  function Owed(m: Machine): nat {
    m.past.retried + (if m.pending then 1 else 0) + (if m.record.flag then 1 else 0)
  }

  lemma OwedStep(m: Machine, s: Step)
    requires Calm([s])
    ensures Owed(Apply(m, s)) + Merged(m, s) == Owed(m) + Updates(m, s)
    ensures Apply(m, s).past.flagged == m.past.flagged + Updates(m, s)
  {
    assert s in [s];
  }

  /**
    In a calm run no announced retry is lost: every failed download is a retry that was started,
    or is pending, or stands in the record, or was merged with one that was still waiting.
   */
  lemma {:induction false} RetriesAccounted(m: Machine, steps: seq<Step>)
    requires Calm(steps)
    ensures Owed(Run(m, steps)) + AllMerged(m, steps) == Owed(m) + Announced(m, steps)
    ensures Run(m, steps).past.flagged == m.past.flagged + Announced(m, steps)
    decreases |steps|
  {
    if steps != [] {
      assert steps[0] in steps;
      OwedStep(m, steps[0]);
      RetriesAccounted(Apply(m, steps[0]), steps[1..]);
    }
  }

  /** A record that blocks updates blocks them in every later run, and no update fails any more. */
  lemma {:induction false} BlockedForGood(m: Machine, steps: seq<Step>)
    requires Blocked(m.record)
    ensures var n := Run(m, steps);
            Blocked(n.record) && n.past.started == m.past.started && n.past.failed == m.past.failed
    decreases |steps|
  {
    if steps != [] {
      BlockedForGood(Apply(m, steps[0]), steps[1..]);
    }
  }

  /** `n` downloads that fail without their reset request being served. */
  function Unheard(n: nat): (steps: seq<Step>)
    ensures StepsOk(steps)
  {
    if n == 0 then [] else [Update(false, Downloads(-4, false))] + Unheard(n - 1)
  }

  /** The bound does depend on the requests being served: without that, any number of updates can fail. */
  lemma {:induction false} UnservedUnbounded(m: Machine, n: nat)
    requires !Blocked(m.record)
    ensures var u := Run(m, Unheard(n));
            u.past.failed == m.past.failed + n && u.past.unserved == m.past.unserved + n && !Blocked(u.record)
    decreases n
  {
    if n > 0 {
      assert Unheard(n)[1..] == Unheard(n - 1);
      UnservedUnbounded(Apply(m, Update(false, Downloads(-4, false))), n - 1);
    }
  }

  function Heard(n: nat): (steps: seq<Step>)
    ensures StepsOk(steps)
  {
    if n == 0 then [Update(false, SetupFails)] else [Update(false, Downloads(-4, true))] + Heard(n - 1)
  }

  lemma {:induction false} HeardRun(m: Machine, n: nat)
    requires n <= 5 && m.record.resets + n <= 5 && m.record.retry <= 1
    ensures Run(m, Heard(n)).past.failed == m.past.failed + n + 1
    ensures Run(m, Heard(n)).past.unserved == m.past.unserved
    decreases n
  {
    if n > 0 {
      assert Heard(n)[1..] == Heard(n - 1);
      HeardRun(Apply(m, Update(false, Downloads(-4, true))), n - 1);
    } else {
      assert Run(m, Heard(0)) == Run(Apply(m, Heard(0)[0]), []);
    }
  }

  /** Seven is reached: a failed setup, five failed downloads, and a failed setup again. */
  lemma SevenReached()
    ensures var steps := [Update(false, SetupFails)] + Heard(5);
            StepsOk(steps) && Run(FRESH, steps).past.failed == 7 && Run(FRESH, steps).past.unserved == 0
  {
    var first := Update(false, SetupFails);
    var steps := [first] + Heard(5);
    assert steps[1..] == Heard(5);
    HeardRun(Apply(FRESH, first), 5);
  }

  // ----- The PCIe retry loop -----

  /** How start_update_process_pcie goes once the guard has let it through. */
  datatype PcieCourse = Abandoned | FlashFails | NoPort | Completes

  /** The persisted count after an attempt, and whether it succeeded; `first` is increment-then-write, which the source does not do. */
  function PcieAttempt(count: nat, resets: nat, course: PcieCourse, first: bool): (nat, bool) {
    if count > FW_UPDATE_RETRY_TH || resets > HW_RESET_RETRY_TH then (count, false)
    else match course
      case Abandoned => (count, false)
      case Completes => (0, true)
      case _ => (if first then count + 1 else count, false)
  }

  /** Where the loop is after the courses given: still to go round, or left. */
  datatype Loop = Loop(count: nat, attempts: nat, over: bool, ok: bool)

  function Retrying(count: nat, resets: nat, courses: seq<PcieCourse>, first: bool): (l: Loop)
    ensures l.attempts <= |courses|
    decreases |courses|
  {
    if count >= FW_UPDATE_RETRY_TH then Loop(count, 0, true, false)
    else if courses == [] then Loop(count, 0, false, false)
    else
      var (next, ok) := PcieAttempt(count, resets, courses[0], first);
      if ok then Loop(next, 1, true, true)
      else
        var l := Retrying(next, resets, courses[1..], first);
        l.(attempts := l.attempts + 1)
  }

  /** The loop as it runs, with the process's own copy of the count. */
  method RetryLoop(persisted: nat, resets: nat, courses: seq<PcieCourse>) returns (count: nat, attempts: nat, over: bool, ok: bool)
    ensures Loop(count, attempts, over, ok) == Retrying(persisted, resets, courses, false)
  {
    count, attempts, ok := persisted, 0, false;
    var already := count;
    while already < FW_UPDATE_RETRY_TH && attempts < |courses|
      invariant attempts <= |courses| && already == count && !ok
      invariant var rest := Retrying(count, resets, courses[attempts..], false);
                Retrying(persisted, resets, courses, false) == rest.(attempts := rest.attempts + attempts)
      decreases |courses| - attempts
    {
      var retries := count;
      assert courses[attempts..][1..] == courses[attempts + 1..];
      var course := courses[attempts];
      attempts := attempts + 1;
      if retries > FW_UPDATE_RETRY_TH || resets > HW_RESET_RETRY_TH || course == Abandoned {
      } else if course == Completes {
        count := 0;
        return count, attempts, true, true;
      } else {
        count := retries;
        retries := retries + 1;
      }
      already := count;
    }
    over := already >= FW_UPDATE_RETRY_TH;
  }

  /**
    The count is written before it is incremented, so a failed attempt leaves it as it was: the
    loop is left exactly when an attempt succeeds or the count was at the threshold to begin with.
   */
  lemma {:induction false} CountNeverGrows(count: nat, resets: nat, courses: seq<PcieCourse>)
    ensures var l := Retrying(count, resets, courses, false);
            && (!l.ok ==> l.count == count)
            && (l.over <==> count >= FW_UPDATE_RETRY_TH || (resets <= HW_RESET_RETRY_TH && Completes in courses))
            && (!l.over ==> l.attempts == |courses|)
            && (l.ok <==> count < FW_UPDATE_RETRY_TH && resets <= HW_RESET_RETRY_TH && Completes in courses)
            && (l.ok ==> l.count == 0 && l.attempts > 0 && courses[l.attempts - 1] == Completes
                         && Completes !in courses[..l.attempts - 1])
  {
    if count < FW_UPDATE_RETRY_TH && courses != [] {
      CountNeverGrows(count, resets, courses[1..]);
      assert courses == [courses[0]] + courses[1..];
      var l, rest := Retrying(count, resets, courses, false), Retrying(count, resets, courses[1..], false);
      if l.ok && l.attempts > 1 {
        assert courses[..l.attempts - 1] == [courses[0]] + courses[1..][..rest.attempts - 1];
      }
    }
  }

  function Spent(courses: seq<PcieCourse>): nat {
    if courses == [] then 0 else (if courses[0].FlashFails? || courses[0].NoPort? then 1 else 0) + Spent(courses[1..])
  }

  /** With the increment first, the loop is left after as many failed flashes as the threshold allows. */
  lemma {:induction false} IncrementFirstBounds(count: nat, resets: nat, courses: seq<PcieCourse>)
    requires resets <= HW_RESET_RETRY_TH
    ensures var l := Retrying(count, resets, courses, true);
            && Spent(courses[..l.attempts]) <= FW_UPDATE_RETRY_TH
            && (Spent(courses) >= FW_UPDATE_RETRY_TH ==> l.over)
            && (!l.ok ==> l.count == count + Spent(courses[..l.attempts]))
    decreases |courses|
  {
    var l := Retrying(count, resets, courses, true);
    if count < FW_UPDATE_RETRY_TH && courses != [] {
      var (next, ok) := PcieAttempt(count, resets, courses[0], true);
      assert courses[..l.attempts][0] == courses[0];
      if ok {
        assert courses[..1][1..] == [];
      } else {
        IncrementFirstBounds(next, resets, courses[1..]);
        assert courses[..l.attempts][1..] == courses[1..][..l.attempts - 1];
      }
    }
  }
}
