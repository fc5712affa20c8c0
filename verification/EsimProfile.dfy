/**
  Removing the eSIM test profile (pwl-fwupdate/pwl_fwupdate.c): a counter and a verdict in the
  eSIM record, advanced by every update and restarted by a finished one.  An update is the list
  of its writes to the record and of its delete rounds; a process that dies leaves the effects
  of a prefix of that list.
 */
module EsimProfile {
  import opened CText

  const PWL_FW_UPDATE_RETRY_LIMIT: nat := 3
  const ESIM_PROFILE_DELETE_SUCCESS: int := 1

  /** Testprofile_Delete_Counter and Testprofile_Delete_Done. */
  datatype Store = Store(counter: nat, done: nat)

  const FRESH: Store := Store(0, 0)

  datatype Event = SetCounter(n: nat) | SetDone(n: nat) | Round

  function Effect(s: Store, e: Event): Store {
    match e
    case SetCounter(n) => s.(counter := n)
    case SetDone(n) => s.(done := n)
    case Round => s
  }

  function After(s: Store, events: seq<Event>): Store
    decreases |events|
  {
    if events == [] then s else After(Effect(s, events[0]), events[1..])
  }

  // ----- One update -----

  /** A wait for the modem: whether it timed out, and the check result the process then holds. */
  datatype Reply = Reply(err: bool, result: int)

  /** The retry loops: whether an answer came within the limit, and the result held at the end. */
  function Ask(replies: seq<Reply>, limit: nat, held: int): (bool, int)
    decreases limit
  {
    if limit == 0 || replies == [] then (false, held)
    else if replies[0].err || replies[0].result == -1 then Ask(replies[1..], limit - 1, replies[0].result)
    else (true, replies[0].result)
  }

  datatype Course = Course(events: seq<Event>, exits: bool)

  /** do_esim_test_profile_remove_command, and the restart it leads to. */
  function Remove(ok: bool): Course {
    if ok then Course([Round], true) else Course([Round, SetCounter(0), SetDone(2)], false)
  }

  /** How a failed check moves the counter. */
  function Counted(counter: nat): seq<Event> {
    if counter == 0 then [SetCounter(2)]
    else if counter == 1 then [SetCounter(0), SetDone(2)]
    else [SetCounter(counter - 1)]
  }

  /** check_esim_test_profile_process. */
  function Check(s: Store, replies: seq<Reply>, removal: seq<Reply>): Course {
    var result := Ask(replies, PWL_FW_UPDATE_RETRY_LIMIT, -1).1;
    if result == ESIM_PROFILE_DELETE_SUCCESS then Course([SetCounter(0), SetDone(1)], false)
    else
      var r := Remove(Ask(removal, PWL_FW_UPDATE_RETRY_LIMIT, result).0);
      Course(Counted(s.counter) + r.events, r.exits)
  }

  /** What the modem answers, whether the update gets as far as the second check, and whether its download finishes. */
  datatype Env = Env(early: seq<Reply>, earlyRemoval: seq<Reply>, reaches: bool,
                     late: seq<Reply>, lateRemoval: seq<Reply>, completes: bool)

  const NOTHING: Course := Course([], false)

  function EarlyCheck(s: Store, env: Env): Course {
    if s.counter != 0 then Check(s, env.early, env.earlyRemoval) else NOTHING
  }

  function LateCheck(s: Store, env: Env): Course {
    if env.reaches && s.done == 0 then Check(s, env.late, env.lateRemoval) else NOTHING
  }

  function Closing(s: Store, env: Env): seq<Event> {
    if env.completes && s.done == 2 then [SetDone(0)] else []
  }

  function Finishing(s: Store, env: Env): seq<Event> {
    var b := LateCheck(s, env);
    if b.exits then b.events else b.events + Closing(After(s, b.events), env)
  }

  /** start_update_process, as far as it concerns the record. */
  function Update(s: Store, env: Env): seq<Event> {
    var a := EarlyCheck(s, env);
    if a.exits then a.events
    else
      var s1 := After(s, a.events);
      a.events + Finishing(s1, env)
  }

  // ----- The process -----

  lemma {:induction false} AfterAppend(s: Store, a: seq<Event>, b: seq<Event>)
    ensures After(s, a + b) == After(After(s, a), b)
    decreases |a|
  {
    if a == [] {
      assert a + b == b;
    } else {
      assert (a + b)[1..] == a[1..] + b;
      AfterAppend(Effect(s, a[0]), a[1..], b);
    }
  }

  lemma AfterTwo(s: Store, d: Event, e: Event)
    ensures After(s, [d, e]) == Effect(Effect(s, d), e)
  {
    assert [d, e][1..] == [e] && [e][1..] == [];
    assert After(Effect(s, d), [e]) == Effect(Effect(s, d), e);
  }

  class Process {
    var record: Store
    var counter: nat
    var done: nat
    var held: int
    ghost var log: seq<Event>

    constructor (s: Store)
      ensures record == s && log == []
    {
      record, counter, done, held, log := s, s.counter, s.done, -1, [];
    }

    /** The variables are those last read from or written to the record. */
    ghost predicate Synced()
      reads this
    {
      counter == record.counter && done == record.done
    }

    method WriteCounter(n: nat)
      requires Synced()
      modifies this`counter, this`record, this`log
      ensures Synced() && record == Effect(old(record), SetCounter(n)) && log == old(log) + [SetCounter(n)]
    {
      counter := n;
      record := record.(counter := n);
      log := log + [SetCounter(n)];
    }

    method WriteDone(n: nat)
      requires Synced()
      modifies this`done, this`record, this`log
      ensures Synced() && record == Effect(old(record), SetDone(n)) && log == old(log) + [SetDone(n)]
    {
      done := n;
      record := record.(done := n);
      log := log + [SetDone(n)];
    }

    method AskModem(replies: seq<Reply>) returns (ok: bool)
      modifies this`held
      ensures (ok, held) == Ask(replies, PWL_FW_UPDATE_RETRY_LIMIT, old(held))
    {
      var retry := 0;
      assert replies[0..] == replies;
      while retry < PWL_FW_UPDATE_RETRY_LIMIT && retry < |replies|
        invariant 0 <= retry <= PWL_FW_UPDATE_RETRY_LIMIT && retry <= |replies|
        invariant Ask(replies, PWL_FW_UPDATE_RETRY_LIMIT, old(held)) == Ask(replies[retry..], PWL_FW_UPDATE_RETRY_LIMIT - retry, held)
      {
        assert replies[retry..][1..] == replies[retry + 1..];
        held := replies[retry].result;
        if replies[retry].err || held == -1 {
          retry := retry + 1;
          continue;
        }
        return true;
      }
      ok := false;
    }

    method RemoveProfile(removal: seq<Reply>) returns (exits: bool)
      requires Synced()
      modifies this
      ensures Synced()
      ensures var c := Remove(Ask(removal, PWL_FW_UPDATE_RETRY_LIMIT, old(held)).0);
              exits == c.exits && log == old(log) + c.events && record == After(old(record), c.events)
    {
      log := log + [Round];
      exits := AskModem(removal);
      if !exits {
        WriteCounter(0);
        WriteDone(2);
      }
    }

    method CountDown()
      requires Synced()
      modifies this`counter, this`done, this`record, this`log
      ensures Synced() && log == old(log) + Counted(old(record).counter) && record == After(old(record), Counted(old(record).counter))
    {
      if counter == 0 {
        WriteCounter(2);
      } else {
        WriteCounter(counter - 1);
        if counter == 0 {
          WriteDone(2);
          AfterTwo(old(record), SetCounter(0), SetDone(2));
        }
      }
    }

    method CheckProfile(replies: seq<Reply>, removal: seq<Reply>) returns (exits: bool)
      requires Synced()
      modifies this
      ensures Synced()
      ensures var c := Check(old(record), replies, removal);
              exits == c.exits && log == old(log) + c.events && record == After(old(record), c.events)
    {
      held := -1;
      var answered := AskModem(replies);
      if held == ESIM_PROFILE_DELETE_SUCCESS {
        WriteCounter(0);
        WriteDone(1);
        AfterTwo(old(record), SetCounter(0), SetDone(1));
        return false;
      }
      ghost var r := Remove(Ask(removal, PWL_FW_UPDATE_RETRY_LIMIT, held).0);
      AfterAppend(record, Counted(counter), r.events);
      CountDown();
      exits := RemoveProfile(removal);
    }

    /** One update; the variables are read anew at its start. */
    method RunUpdate(env: Env)
      modifies this
      ensures Synced() && log == old(log) + Update(old(record), env) && record == After(old(record), Update(old(record), env))
    {
      counter, done := record.counter, record.done;
      ghost var s, was := record, log;
      ghost var a := EarlyCheck(s, env);
      assert was + [] == was;
      if counter != 0 {
        var exits := CheckProfile(env.early, env.earlyRemoval);
        if exits {
          return;
        }
      }
      ghost var s1 := record;
      FinishUpdate(env);
      AfterAppend(s, a.events, Finishing(s1, env));
      Assoc(was, a.events, Finishing(s1, env));
    }

    /** The second check and the end of a finished download. */
    method FinishUpdate(env: Env)
      requires Synced()
      modifies this
      ensures Synced() && log == old(log) + Finishing(old(record), env) && record == After(old(record), Finishing(old(record), env))
    {
      ghost var s, was := record, log;
      assert was + [] == was;
      if env.reaches && done == 0 {
        var exits := CheckProfile(env.late, env.lateRemoval);
        if exits {
          return;
        }
      }
      ghost var b := LateCheck(s, env);
      AfterAppend(s, b.events, Closing(record, env));
      if env.completes && done == 2 {
        WriteDone(0);
      }
    }
  }

  // ----- Every run -----

  /** An update, cut off after some number of events if the process dies in it. */
  datatype Step = Step(env: Env, cut: nat, dies: bool)

  function Executed(s: Store, step: Step): seq<Event> {
    var all := Update(s, step.env);
    if step.dies && step.cut < |all| then all[..step.cut] else all
  }

  function Count(events: seq<Event>, e: Event): nat {
    if events == [] then 0 else (if events[0] == e then 1 else 0) + Count(events[1..], e)
  }

  /** The record in the end, and the rounds, restarts of the count and deaths on the way. */
  datatype Tally = Tally(store: Store, rounds: nat, resets: nat, deaths: nat)

  function Advance(t: Tally, step: Step): Tally {
    var events := Executed(t.store, step);
    Tally(After(t.store, events), t.rounds + Count(events, Round), t.resets + Count(events, SetDone(0)),
          t.deaths + if step.dies then 1 else 0)
  }

  function Run(t: Tally, steps: seq<Step>): Tally
    decreases |steps|
  {
    if steps == [] then t else Run(Advance(t, steps[0]), steps[1..])
  }

  predicate Good(s: Store) {
    s in {Store(0, 0), Store(2, 0), Store(1, 0), Store(0, 1), Store(0, 2)}
  }

  /** The delete rounds still to come before the count is used up. */
  function Left(s: Store): int {
    if s.done != 0 then 0 else if s.counter == 0 then 3 else s.counter
  }

  function Cost(e: Event): int {
    if e == Round then -1 else if e == SetDone(0) then 3 else 0
  }

  /**
    Every prefix of the events leaves a good record; the rounds left then exceed the budget by
    at most two, and not at all once the events are complete.
   */
  predicate Covered(s: Store, events: seq<Event>, budget: int)
    decreases |events|
  {
    && Good(s) && Left(s) <= budget + 2
    && if events == [] then Left(s) <= budget else Covered(Effect(s, events[0]), events[1..], budget + Cost(events[0]))
  }

  function Total(events: seq<Event>): int {
    if events == [] then 0 else Cost(events[0]) + Total(events[1..])
  }

  lemma {:induction false} TotalCounts(events: seq<Event>)
    ensures Total(events) == 3 * Count(events, SetDone(0)) - Count(events, Round)
  {
    if events != [] {
      TotalCounts(events[1..]);
    }
  }

  lemma {:induction false} CoveredAfter(s: Store, events: seq<Event>, budget: int)
    requires Covered(s, events, budget)
    ensures Good(After(s, events)) && Left(After(s, events)) <= budget + Total(events)
    decreases |events|
  {
    if events != [] {
      CoveredAfter(Effect(s, events[0]), events[1..], budget + Cost(events[0]));
    }
  }

  lemma {:induction false} CoveredPrefix(s: Store, events: seq<Event>, budget: int, k: nat)
    requires Covered(s, events, budget) && k <= |events|
    ensures Good(After(s, events[..k])) && Left(After(s, events[..k])) <= budget + Total(events[..k]) + 2
    decreases k
  {
    if k > 0 {
      assert events[..k][1..] == events[1..][..k - 1];
      CoveredPrefix(Effect(s, events[0]), events[1..], budget + Cost(events[0]), k - 1);
    }
  }

  lemma {:induction false} CoveredAppend(s: Store, a: seq<Event>, b: seq<Event>, budget: int, rest: int)
    requires Covered(s, a, budget) && Covered(After(s, a), b, rest) && rest <= budget + Total(a)
    ensures Covered(s, a + b, budget)
    decreases |a|
  {
    if a == [] {
      assert a + b == b;
      CoveredMore(s, b, rest, budget);
    } else {
      assert (a + b)[1..] == a[1..] + b;
      CoveredAppend(Effect(s, a[0]), a[1..], b, budget + Cost(a[0]), rest);
    }
  }

  lemma {:induction false} CoveredMore(s: Store, events: seq<Event>, budget: int, more: int)
    requires Covered(s, events, budget) && budget <= more
    ensures Covered(s, events, more)
    decreases |events|
  {
    if events != [] {
      CoveredMore(Effect(s, events[0]), events[1..], budget + Cost(events[0]), more + Cost(events[0]));
    }
  }

  lemma RemoveCovered(s: Store, ok: bool)
    requires Good(s)
    ensures Covered(s, Remove(ok).events, Left(s) + 1)
  {
    var e := Remove(ok).events;
    if !ok {
      assert e[1..] == [SetCounter(0), SetDone(2)] && e[1..][1..] == [SetDone(2)];
    }
  }

  lemma CountedCovered(s: Store)
    requires Good(s) && s.done == 0
    ensures Covered(s, Counted(s.counter), Left(s))
    ensures Left(After(s, Counted(s.counter))) == Left(s) - 1 && Total(Counted(s.counter)) == 0
  {
    var e := Counted(s.counter);
    if s.counter == 1 {
      assert e[1..] == [SetDone(2)] && Total([SetDone(2)]) == 0;
      AfterTwo(s, SetCounter(0), SetDone(2));
    }
  }

  lemma CheckCovered(s: Store, replies: seq<Reply>, removal: seq<Reply>)
    requires Good(s) && s.done == 0
    ensures Covered(s, Check(s, replies, removal).events, Left(s))
    ensures var c := Check(s, replies, removal); !c.exits ==> After(s, c.events) in {Store(0, 1), Store(0, 2)}
  {
    var result := Ask(replies, PWL_FW_UPDATE_RETRY_LIMIT, -1).1;
    if result == ESIM_PROFILE_DELETE_SUCCESS {
      assert [SetCounter(0), SetDone(1)][1..] == [SetDone(1)];
    } else {
      var e := Counted(s.counter);
      var s1 := After(s, e);
      var ok := Ask(removal, PWL_FW_UPDATE_RETRY_LIMIT, result).0;
      var d := Remove(ok).events;
      CountedCovered(s);
      CoveredAfter(s, e, Left(s));
      RemoveCovered(s1, ok);
      CoveredAppend(s, e, d, Left(s), Left(s));
      AfterAppend(s, e, d);
      if !ok {
        assert d[1..] == [SetCounter(0), SetDone(2)] && d[1..][1..] == [SetDone(2)];
      }
    }
  }

  lemma ClosingCovered(s: Store, env: Env)
    requires Good(s)
    ensures Covered(s, Closing(s, env), Left(s))
  {
  }

  lemma FinishingCovered(s: Store, env: Env)
    requires Good(s) && (s.counter != 0 ==> s.done != 0)
    ensures Covered(s, Finishing(s, env), Left(s))
  {
    var b := LateCheck(s, env);
    if env.reaches && s.done == 0 {
      CheckCovered(s, env.late, env.lateRemoval);
    }
    if !b.exits {
      CoveredAfter(s, b.events, Left(s));
      var s1 := After(s, b.events);
      ClosingCovered(s1, env);
      CoveredAppend(s, b.events, Closing(s1, env), Left(s), Left(s1));
    }
  }

  lemma UpdateCovered(s: Store, env: Env)
    requires Good(s)
    ensures Covered(s, Update(s, env), Left(s))
  {
    var a := EarlyCheck(s, env);
    if s.counter != 0 {
      CheckCovered(s, env.early, env.earlyRemoval);
    }
    if !a.exits {
      CoveredAfter(s, a.events, Left(s));
      var s1 := After(s, a.events);
      FinishingCovered(s1, env);
      CoveredAppend(s, a.events, Finishing(s1, env), Left(s), Left(s1));
    }
  }

  /**
    In every run, however its processes die, the record stays good, and the rounds are bounded:
    three until the count is restarted, three more for each restart, two more for each death.
   */
  lemma {:induction false} RoundsBound(t: Tally, steps: seq<Step>)
    requires Good(t.store)
    ensures var u := Run(t, steps);
            && Good(u.store)
            && u.rounds - t.rounds + Left(u.store) <= Left(t.store) + 3 * (u.resets - t.resets) + 2 * (u.deaths - t.deaths)
    decreases |steps|
  {
    if steps != [] {
      var events := Executed(t.store, steps[0]);
      var all := Update(t.store, steps[0].env);
      UpdateCovered(t.store, steps[0].env);
      if events == all {
        CoveredAfter(t.store, all, Left(t.store));
      } else {
        CoveredPrefix(t.store, all, Left(t.store), steps[0].cut);
      }
      TotalCounts(events);
      RoundsBound(Advance(t, steps[0]), steps[1..]);
    }
  }

  /** Without a death and without a restart of the count there are at most three delete rounds. */
  lemma ThreeRounds(t: Tally, steps: seq<Step>)
    requires Good(t.store)
    ensures var u := Run(t, steps); u.resets == t.resets && u.deaths == t.deaths ==> u.rounds <= t.rounds + 3
  {
    RoundsBound(t, steps);
  }

  /** A profile recorded as removed stays so, and nothing more is sent. */
  lemma {:induction false} RemovedForGood(t: Tally, steps: seq<Step>)
    requires Good(t.store) && t.store.done == 1
    ensures var u := Run(t, steps); u.store == t.store && u.rounds == t.rounds && u.resets == t.resets
    decreases |steps|
  {
    if steps != [] {
      assert Update(t.store, steps[0].env) == [];
      RemovedForGood(Advance(t, steps[0]), steps[1..]);
    }
  }

  /** The modem says, in the check that this update makes, that the profile is gone. */
  predicate Reported(s: Store, env: Env) {
    if s.counter != 0 then Ask(env.early, PWL_FW_UPDATE_RETRY_LIMIT, -1).1 == ESIM_PROFILE_DELETE_SUCCESS
    else s.done == 0 && env.reaches && Ask(env.late, PWL_FW_UPDATE_RETRY_LIMIT, -1).1 == ESIM_PROFILE_DELETE_SUCCESS
  }

  /** An update that is not cut short ends with the profile recorded as removed exactly when it was so before or the modem reports it now. */
  lemma RemovedExactly(s: Store, env: Env)
    requires Good(s)
    ensures After(s, Update(s, env)) == Store(0, 1) <==> s.done == 1 || Reported(s, env)
  {
    if s.counter != 0 {
      CheckDone(s, env.early, env.earlyRemoval);
      var a := Check(s, env.early, env.earlyRemoval);
      if !a.exits {
        var s1 := After(s, a.events);
        CheckCovered(s, env.early, env.earlyRemoval);
        ClosingDone(s1, env);
        AfterAppend(s, a.events, Finishing(s1, env));
        assert Finishing(s1, env) == Closing(s1, env);
      }
    } else if s.done == 0 && env.reaches {
      CheckDone(s, env.late, env.lateRemoval);
      var b := Check(s, env.late, env.lateRemoval);
      assert Update(s, env) == Finishing(s, env);
      if !b.exits {
        var s1 := After(s, b.events);
        CheckCovered(s, env.late, env.lateRemoval);
        ClosingDone(s1, env);
        AfterAppend(s, b.events, Closing(s1, env));
      }
    } else {
      ClosingDone(s, env);
      assert Update(s, env) == Closing(s, env);
    }
  }

  lemma CheckDone(s: Store, replies: seq<Reply>, removal: seq<Reply>)
    requires Good(s) && s.done == 0
    ensures After(s, Check(s, replies, removal).events) == Store(0, 1) <==>
            Ask(replies, PWL_FW_UPDATE_RETRY_LIMIT, -1).1 == ESIM_PROFILE_DELETE_SUCCESS
  {
    var result := Ask(replies, PWL_FW_UPDATE_RETRY_LIMIT, -1).1;
    if result == ESIM_PROFILE_DELETE_SUCCESS {
      AfterTwo(s, SetCounter(0), SetDone(1));
    } else {
      var ok := Ask(removal, PWL_FW_UPDATE_RETRY_LIMIT, result).0;
      AfterAppend(s, Counted(s.counter), Remove(ok).events);
      if s.counter == 1 {
        AfterTwo(s, SetCounter(0), SetDone(2));
      } else {
        CountOne(Counted(s.counter)[0]);
      }
      var s1 := After(s, Counted(s.counter));
      if ok {
        CountOne(Round);
      } else {
        assert Remove(ok).events[1..] == [SetCounter(0), SetDone(2)];
        AfterTwo(s1, SetCounter(0), SetDone(2));
      }
    }
  }

  lemma ClosingDone(s: Store, env: Env)
    ensures After(s, Closing(s, env)).done == 1 <==> s.done == 1
    ensures After(s, Closing(s, env)).counter == s.counter
  {
    CountOne(SetDone(0));
  }

  // ----- An update, written out -----

  /** An answer, and no failure of the modem to carry the command out. */
  predicate Answers(r: Reply) {
    !r.err && r.result != -1
  }

  /** Of the first three replies, number `i` is the first that answers. */
  ghost predicate Decides(replies: seq<Reply>, i: nat) {
    i < 3 && i < |replies| && Answers(replies[i]) && forall j :: 0 <= j < i ==> !Answers(replies[j])
  }

  /** None of the first three does, and `i` is the last of them. */
  ghost predicate Silent(replies: seq<Reply>, i: nat) {
    i < |replies| && (i == 2 || (i < 2 && i == |replies| - 1)) && forall j :: 0 <= j <= i ==> !Answers(replies[j])
  }

  /** The retry loop is answered exactly by the first of three replies that answers; what it holds is from the last reply it read. */
  lemma AskDecides(replies: seq<Reply>, held: int)
    ensures var (ok, result) := Ask(replies, PWL_FW_UPDATE_RETRY_LIMIT, held);
            && (ok <==> exists i: nat :: Decides(replies, i))
            && (forall i: nat :: Decides(replies, i) || Silent(replies, i) ==> result == replies[i].result)
            && (replies == [] ==> result == held)
  {
    AskFrom(replies, 0, held, replies);
    assert replies[0..] == replies;
  }

  lemma {:induction false} AskFrom(replies: seq<Reply>, k: nat, held: int, rest: seq<Reply>)
    requires k <= 3 && k <= |replies| && rest == replies[k..] && forall j :: 0 <= j < k ==> !Answers(replies[j])
    requires k > 0 ==> held == replies[k - 1].result
    ensures var (ok, result) := Ask(rest, 3 - k, held);
            && (ok <==> exists i: nat :: Decides(replies, i))
            && (forall i: nat :: Decides(replies, i) || Silent(replies, i) ==> result == replies[i].result)
            && (replies == [] ==> result == held)
    decreases 3 - k
  {
    if k < 3 && k < |replies| {
      if Answers(replies[k]) {
        assert Decides(replies, k);
      } else {
        assert rest[1..] == replies[k + 1..];
        AskFrom(replies, k + 1, replies[k].result, rest[1..]);
      }
    }
  }

  /** The modem reports the profile removed: in the reply that decides, or in the last one if none does. */
  ghost predicate Removed(replies: seq<Reply>) {
    exists i: nat :: (Decides(replies, i) || Silent(replies, i)) && replies[i].result == 1
  }

  ghost predicate Obeyed(replies: seq<Reply>) {
    exists i: nat :: Decides(replies, i)
  }

  /** A check that counts with `count`. */
  ghost function CheckedBy(count: seq<Event>, replies: seq<Reply>, removal: seq<Reply>, completes: bool): seq<Event> {
    if Removed(replies) then [SetCounter(0), SetDone(1)]
    else if Obeyed(removal) then count + [Round]
    else count + [Round, SetCounter(0), SetDone(2)] + if completes then [SetDone(0)] else []
  }

  lemma AskedFor(replies: seq<Reply>)
    ensures Ask(replies, PWL_FW_UPDATE_RETRY_LIMIT, -1).1 == 1 <==> Removed(replies)
  {
    AskDecides(replies, -1);
    if forall i: nat :: !Decides(replies, i) {
      if |replies| >= 3 {
        FirstAnswer(replies, 3);
        assert Silent(replies, 2);
      } else if replies != [] {
        FirstAnswer(replies, |replies|);
        assert Silent(replies, |replies| - 1);
      }
    }
  }

  lemma {:induction false} FirstAnswer(replies: seq<Reply>, n: nat)
    requires n <= 3 && n <= |replies| && forall i: nat :: !Decides(replies, i)
    ensures forall j :: 0 <= j < n ==> !Answers(replies[j])
  {
    if n > 0 {
      FirstAnswer(replies, n - 1);
      assert !Decides(replies, n - 1);
    }
  }

  /**
    Every update of a good record, written out.  A finished download with done = 2 restarts the
    count; a record that waits for nothing is left alone.
   */
  lemma UpdateExactly(s: Store, env: Env)
    requires Good(s)
    ensures Update(s, env) ==
            if s == Store(0, 0) then
              if env.reaches then CheckedBy([SetCounter(2)], env.late, env.lateRemoval, env.completes) else []
            else if s == Store(2, 0) then CheckedBy([SetCounter(1)], env.early, env.earlyRemoval, env.completes)
            else if s == Store(1, 0) then CheckedBy([SetCounter(0), SetDone(2)], env.early, env.earlyRemoval, env.completes)
            else if s == Store(0, 2) && env.completes then [SetDone(0)] else []
  {
    if s.counter != 0 {
      CheckExactly(s, env.early, env.earlyRemoval);
      var a := Check(s, env.early, env.earlyRemoval);
      ThenClosing(a, After(s, a.events), env);
      assert !a.exits ==> Finishing(After(s, a.events), env) == Closing(After(s, a.events), env);
    } else if s.done == 0 && env.reaches {
      CheckExactly(s, env.late, env.lateRemoval);
      var b := Check(s, env.late, env.lateRemoval);
      ThenClosing(b, After(s, b.events), env);
      assert Update(s, env) == Finishing(s, env);
    } else {
      assert Update(s, env) == Finishing(s, env) == Closing(s, env);
    }
  }

  lemma ThenClosing(c: Course, s: Store, env: Env)
    requires !c.exits ==> s == Store(0, 1) || s == Store(0, 2)
    ensures !c.exits ==> c.events + Closing(s, env) == c.events + if s.done == 2 && env.completes then [SetDone(0)] else []
    ensures c.events + [] == c.events
  {
  }

  lemma CheckExactly(s: Store, replies: seq<Reply>, removal: seq<Reply>)
    requires Good(s) && s.done == 0
    ensures var count := if s.counter == 0 then [SetCounter(2)] else if s.counter == 1 then [SetCounter(0), SetDone(2)] else [SetCounter(1)];
            var c := Check(s, replies, removal);
            && c.events == (if Removed(replies) then [SetCounter(0), SetDone(1)]
                            else if Obeyed(removal) then count + [Round] else count + [Round, SetCounter(0), SetDone(2)])
            && (c.exits <==> !Removed(replies) && Obeyed(removal))
            && (!c.exits ==> After(s, c.events) == if Removed(replies) then Store(0, 1) else Store(0, 2))
  {
    var result := Ask(replies, PWL_FW_UPDATE_RETRY_LIMIT, -1).1;
    AskedFor(replies);
    AskDecides(removal, result);
    CheckDone(s, replies, removal);
    CheckCovered(s, replies, removal);
  }

  // ----- Deaths do cost rounds -----

  const REFUSED: seq<Reply> := [Reply(false, 0)]
  const FAILS: Env := Env(REFUSED, REFUSED, true, REFUSED, REFUSED, false)

  function Cycles(n: nat): seq<Step> {
    if n == 0 then []
    else [Step(FAILS, 0, false), Step(FAILS, 0, false), Step(FAILS, 1, true)] + Cycles(n - 1)
  }

  lemma RefusedUpdate(s: Store)
    requires Good(s) && s.done == 0
    ensures Update(s, FAILS) == Counted(s.counter) + [Round]
  {
  }

  /** The first update of a cycle sets the counter ... */
  lemma CountSet(t: Tally)
    requires t.store == FRESH
    ensures Advance(t, Step(FAILS, 0, false)) == Tally(Store(2, 0), t.rounds + 1, t.resets, t.deaths)
  {
    RefusedUpdate(FRESH);
    AfterTwo(FRESH, SetCounter(2), Round);
    CountTwo(SetCounter(2));
  }

  /** ... the second counts it down ... */
  lemma CountedDown(t: Tally)
    requires t.store == Store(2, 0)
    ensures Advance(t, Step(FAILS, 0, false)) == Tally(Store(1, 0), t.rounds + 1, t.resets, t.deaths)
  {
    RefusedUpdate(Store(2, 0));
    AfterTwo(Store(2, 0), SetCounter(1), Round);
    CountTwo(SetCounter(1));
  }

  /** ... and the third dies between the two writes that end it. */
  lemma CountLost(t: Tally)
    requires t.store == Store(1, 0)
    ensures Advance(t, Step(FAILS, 1, true)) == Tally(FRESH, t.rounds, t.resets, t.deaths + 1)
  {
    RefusedUpdate(Store(1, 0));
    assert Executed(Store(1, 0), Step(FAILS, 1, true)) == [SetCounter(0)];
    CountOne(SetCounter(0));
  }

  /** One cycle: the counter is set, counted down, and lost. */
  lemma OneCycle(t: Tally)
    requires t.store == FRESH
    ensures var t1 := Advance(t, Step(FAILS, 0, false));
            var t2 := Advance(t1, Step(FAILS, 0, false));
            Advance(t2, Step(FAILS, 1, true)) == Tally(FRESH, t.rounds + 2, t.resets, t.deaths + 1)
  {
    CountSet(t);
    CountedDown(Tally(Store(2, 0), t.rounds + 1, t.resets, t.deaths));
    CountLost(Tally(Store(1, 0), t.rounds + 2, t.resets, t.deaths));
  }

  lemma CountOne(e: Event)
    ensures Count([e], Round) == (if e == Round then 1 else 0) && Count([e], SetDone(0)) == (if e == SetDone(0) then 1 else 0)
    ensures forall s :: After(s, [e]) == Effect(s, e)
  {
    assert [e][1..] == [];
  }

  lemma CountTwo(e: Event)
    requires e.SetCounter?
    ensures Count([e, Round], Round) == 1 && Count([e, Round], SetDone(0)) == 0
  {
    assert [e, Round][1..] == [Round];
    CountOne(Round);
  }

  /** Two rounds for each death, without a restart of the count. */
  lemma {:induction false} DeathsUnbounded(t: Tally, n: nat)
    requires t.store == FRESH
    ensures Run(t, Cycles(n)) == Tally(FRESH, t.rounds + 2 * n, t.resets, t.deaths + n)
    decreases n
  {
    if n > 0 {
      var c := Cycles(n);
      OneCycle(t);
      var t1 := Advance(t, c[0]);
      var t2 := Advance(t1, c[1]);
      var t3 := Advance(t2, c[2]);
      DeathsUnbounded(t3, n - 1);
      assert c[3..] == Cycles(n - 1);
      assert c[2..][1..] == c[3..] && c[1..][1..] == c[2..];
      assert Run(t1, c[1..]) == Run(t2, c[2..]);
      assert Run(t2, c[2..]) == Run(t3, c[3..]);
    }
  }
}
