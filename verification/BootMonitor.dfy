/**
  mbim_monitor_thread_func (pwl-core/pwl_core.c): at every boot, look for the modem's ports until
  the module is found well, found in its abnormal state, or given up; and the boot failure count
  that this keeps in the boot-up record.
 */
module BootMonitor {
  const MAX_RESCAN_FAILURE: nat := 3

  /** What one pass finds: the MBIM port, whether the module then answers, the abnormal port, and a flash data folder. */
  datatype Ports = Ports(mbim: bool, answers: bool, abnormal: bool, folder: bool)

  /** A folder recovery is announced after an abnormal port or after too many rescans. */
  datatype Action = Rescan | WriteCount(n: nat) | NoticeFlz | NoticeFolder(abnormal: bool)

  predicate Decided(p: Ports) {
    (p.mbim && p.answers) || p.abnormal
  }

  /** What a pass does that is the last one. */
  function Verdict(p: Ports, count: nat, limit: int): seq<Action> {
    if p.mbim && p.answers then [WriteCount(0), NoticeFlz]
    else if p.abnormal then [WriteCount(count + 1)] + if count + 1 <= limit && p.folder then [NoticeFolder(true)] else []
    else if p.folder then [NoticeFolder(false)] else []
  }

  /** The pass that ends the monitoring: the first that decides, or the fourth. */
  function LastPass(ports: nat -> Ports, from: nat := 0): (d: nat)
    requires from <= MAX_RESCAN_FAILURE
    ensures from <= d <= MAX_RESCAN_FAILURE
    ensures forall i: nat :: from <= i < d ==> !Decided(ports(i))
    ensures d < MAX_RESCAN_FAILURE ==> Decided(ports(d))
    decreases MAX_RESCAN_FAILURE - from
  {
    if from == MAX_RESCAN_FAILURE || Decided(ports(from)) then from else LastPass(ports, from + 1)
  }

  function Rescans(n: nat): (a: seq<Action>)
    ensures |a| == n && forall i :: 0 <= i < n ==> a[i] == Rescan
  {
    if n == 0 then [] else [Rescan] + Rescans(n - 1)
  }

  /** The count after the last pass. */
  function CountAfter(p: Ports, count: nat): nat {
    if p.mbim && p.answers then 0 else if p.abnormal then count + 1 else count
  }

  /** The whole of a boot's monitoring. */
  function Actions(ports: nat -> Ports, count: nat, limit: int): seq<Action> {
    Rescans(LastPass(ports)) + Verdict(ports(LastPass(ports)), count, limit)
  }

  // ----- The thread -----

  class Core {
    var record: nat        // Bootup_failure_count as it is persisted
    var failures: nat
    var rescans: nat
    var limit: int
    var recovering: bool
    ghost var log: seq<Action>

    constructor (persisted: nat, limit: int)
      ensures record == persisted && failures == persisted && rescans == 0 && !recovering && this.limit == limit && log == []
    {
      record, failures, rescans, recovering, log := persisted, persisted, 0, false, [];
      this.limit := limit;
    }

    method WriteFailures(n: nat)
      modifies this`failures, this`record, this`log
      ensures failures == n && record == n && log == old(log) + [WriteCount(n)]
    {
      failures := n;
      record := n;
      log := log + [WriteCount(n)];
    }

    /** One pass of the loop; `over` when it is left. */
    method Pass(p: Ports) returns (over: bool)
      requires failures == record && rescans <= MAX_RESCAN_FAILURE
      modifies this`failures, this`record, this`rescans, this`log
      ensures over == (Decided(p) || old(rescans) == MAX_RESCAN_FAILURE) && failures == record
      ensures over ==> log == old(log) + Verdict(p, old(record), limit) && record == CountAfter(p, old(record))
      ensures !over ==> log == old(log) + [Rescan] && record == old(record) && rescans == old(rescans) + 1
    {
      if p.mbim && p.answers {
        WriteFailures(0);
        log := log + [NoticeFlz];
        return true;
      }
      if p.abnormal {
        WriteFailures(failures + 1);
        if failures <= limit && p.folder {
          log := log + [NoticeFolder(true)];
        }
        return true;
      }
      rescans := rescans + 1;
      if rescans <= MAX_RESCAN_FAILURE {
        log := log + [Rescan];
        return false;
      }
      if p.folder {
        log := log + [NoticeFolder(false)];
      }
      return true;
    }

    /** The thread, for every behaviour of the ports, in a process that has just started. */
    method Monitor(ports: nat -> Ports) returns (passes: nat)
      requires rescans == 0 && failures == record && log == []
      modifies this
      ensures log == Actions(ports, old(record), limit) && limit == old(limit)
      ensures passes == LastPass(ports) + 1
      ensures !recovering && failures == record
      ensures record == CountAfter(ports(LastPass(ports)), old(record))
    {
      recovering := true;
      passes := 0;
      var over := false;
      while !over
        invariant !over ==> passes == rescans <= MAX_RESCAN_FAILURE && LastPass(ports) == LastPass(ports, passes)
        invariant !over ==> log == Rescans(passes) && record == old(record)
        invariant failures == record && limit == old(limit)
        invariant over ==> passes == LastPass(ports) + 1 && log == Actions(ports, old(record), limit)
        invariant over ==> record == CountAfter(ports(LastPass(ports)), old(record))
        decreases if over then 0 else 1 + MAX_RESCAN_FAILURE - passes
      {
        over := Pass(ports(passes));
        passes := passes + 1;
      }
      recovering := false;
    }
  }

  // ----- What a boot does -----

  predicate IsNotice(a: Action) {
    a.NoticeFlz? || a.NoticeFolder?
  }

  /** For every behaviour of the ports: at most three rescans, and at most one notice, which is the last thing done. */
  lemma BootBounds(ports: nat -> Ports, count: nat, limit: int)
    ensures var a := Actions(ports, count, limit);
            && (forall i :: MAX_RESCAN_FAILURE <= i < |a| ==> a[i] != Rescan)
            && (forall i :: 0 <= i < |a| - 1 ==> !IsNotice(a[i]))
  {
  }

  predicate Well(p: Ports) {
    p.mbim && p.answers
  }

  /** The pass that decides, if one of the first four does. */
  ghost predicate FirstDecided(ports: nat -> Ports, i: nat) {
    i <= MAX_RESCAN_FAILURE && Decided(ports(i)) && forall j: nat :: j < i ==> !Decided(ports(j))
  }

  ghost predicate NeverDecided(ports: nat -> Ports) {
    forall j: nat :: j <= MAX_RESCAN_FAILURE ==> !Decided(ports(j))
  }

  /**
    Which notice goes out: the package check exactly when the first deciding pass finds the
    module well; a recovery from the folder exactly when there is a folder and either that pass
    finds the abnormal port within the limit, or none of the four decides.
   */
  lemma NoticeExactly(ports: nat -> Ports, count: nat, limit: int)
    ensures var a := Actions(ports, count, limit);
            && (NoticeFlz in a <==> exists i: nat :: FirstDecided(ports, i) && Well(ports(i)))
            && (NoticeFolder(true) in a <==>
                  exists i: nat :: FirstDecided(ports, i) && !Well(ports(i)) && ports(i).folder && count + 1 <= limit)
            && (NoticeFolder(false) in a <==> NeverDecided(ports) && ports(MAX_RESCAN_FAILURE).folder)
  {
    var d := LastPass(ports);
    var v := Verdict(ports(d), count, limit);
    assert forall x :: x in Actions(ports, count, limit) <==> x in Rescans(d) || x in v;
    assert forall x :: x in Rescans(d) ==> x == Rescan;
    assert Decided(ports(d)) ==> FirstDecided(ports, d);
    assert forall i: nat :: FirstDecided(ports, i) ==> i == d;
  }

  /**
    All that a boot does: as many rescans as there are passes before the first that decides, or
    three if none of four does; then a well module resets the count and is announced, an abnormal
    port adds one to it and is announced for recovery within the limit, and otherwise the count
    stays as it is.
   */
  lemma BootExactly(ports: nat -> Ports, count: nat, limit: int)
    ensures var a := Actions(ports, count, limit);
            && (forall i: nat :: FirstDecided(ports, i) ==>
                  && |a| >= i && (forall k :: 0 <= k < i ==> a[k] == Rescan)
                  && a[i..] == if ports(i).mbim && ports(i).answers then [WriteCount(0), NoticeFlz]
                               else if ports(i).folder && count + 1 <= limit then [WriteCount(count + 1), NoticeFolder(true)]
                               else [WriteCount(count + 1)])
            && (NeverDecided(ports) ==>
                  a == [Rescan, Rescan, Rescan] + if ports(3).folder then [NoticeFolder(false)] else [])
  {
    var d := LastPass(ports);
    var a := Actions(ports, count, limit);
    assert a[d..] == Verdict(ports(d), count, limit);
    assert forall i: nat :: FirstDecided(ports, i) ==> i == d;
  }

  // ----- Across boots -----

  /** A boot; the process may die after any number of actions. */
  datatype Boot = Boot(ports: nat -> Ports, dies: bool, cut: nat)

  function Done(b: Boot, count: nat, limit: int): seq<Action> {
    var all := Actions(b.ports, count, limit);
    if b.dies && b.cut < |all| then all[..b.cut] else all
  }

  /** The persisted count, and the abnormal-port folder recoveries since a check last reset it. */
  datatype Tally = Tally(count: nat, recoveries: nat)

  function Note(t: Tally, a: Action): Tally {
    match a
    case WriteCount(n) => Tally(n, if n == 0 then 0 else t.recoveries)
    case NoticeFolder(abnormal) => if abnormal then t.(recoveries := t.recoveries + 1) else t
    case _ => t
  }

  function Account(t: Tally, actions: seq<Action>): Tally
    decreases |actions|
  {
    if actions == [] then t else Account(Note(t, actions[0]), actions[1..])
  }

  function Boots(t: Tally, boots: seq<Boot>, limit: int): Tally
    decreases |boots|
  {
    if boots == [] then t else Boots(Account(t, Done(boots[0], t.count, limit)), boots[1..], limit)
  }

  /** No more recoveries than counted failures, nor than the limit. */
  predicate Inv(t: Tally, limit: int) {
    t.recoveries <= t.count && (t.recoveries == 0 || t.recoveries <= limit)
  }

  lemma {:induction false} AccountRescans(t: Tally, n: nat, rest: seq<Action>, k: nat)
    requires k <= n + |rest|
    ensures Account(t, (Rescans(n) + rest)[..k]) == if k <= n then t else Account(t, rest[..k - n])
    decreases n
  {
    var all := Rescans(n) + rest;
    if n == 0 {
      assert all == rest;
    } else if k > 0 {
      assert all[..k][0] == Rescan;
      assert all[..k][1..] == (Rescans(n - 1) + rest)[..k - 1];
      AccountRescans(t, n - 1, rest, k - 1);
    }
  }

  lemma AccountVerdict(t: Tally, p: Ports, limit: int, k: nat)
    requires Inv(t, limit) && k <= |Verdict(p, t.count, limit)|
    ensures Inv(Account(t, Verdict(p, t.count, limit)[..k]), limit)
    ensures k == |Verdict(p, t.count, limit)| ==> Account(t, Verdict(p, t.count, limit)).count == CountAfter(p, t.count)
  {
    var all := Verdict(p, t.count, limit);
    var v := all[..k];
    assert k == |all| ==> v == all;
    if k >= 1 {
      var t1 := Note(t, v[0]);
      assert Account(t, v) == Account(t1, v[1..]);
      if k == 2 {
        assert Account(t1, v[1..]) == Account(Note(t1, v[1]), v[1..][1..]);
      }
    }
  }

  /** The count that a whole boot leaves: 0 if the first pass that decides finds the module well, one more if it finds it abnormal. */
  lemma CountAfterBoot(t: Tally, b: Boot, limit: int)
    requires Inv(t, limit) && !b.dies
    ensures var n := Account(t, Done(b, t.count, limit)).count;
            && (forall i: nat :: FirstDecided(b.ports, i) ==> n == if Well(b.ports(i)) then 0 else t.count + 1)
            && (NeverDecided(b.ports) ==> n == t.count)
  {
    var d := LastPass(b.ports);
    var v, all := Verdict(b.ports(d), t.count, limit), Actions(b.ports, t.count, limit);
    assert all == all[..|all|] && v == v[..|v|];
    AccountRescans(t, d, v, |all|);
    AccountVerdict(t, b.ports(d), limit, |v|);
    assert forall i: nat :: FirstDecided(b.ports, i) ==> i == d;
  }

  lemma BootKeeps(t: Tally, b: Boot, limit: int)
    requires Inv(t, limit)
    ensures Inv(Account(t, Done(b, t.count, limit)), limit)
  {
    var n := LastPass(b.ports);
    var v := Verdict(b.ports(n), t.count, limit);
    var all := Actions(b.ports, t.count, limit);
    var k := if b.dies && b.cut < |all| then b.cut else |all|;
    assert Done(b, t.count, limit) == all[..k];
    AccountRescans(t, n, v, k);
    if k > n {
      AccountVerdict(t, b.ports(n), limit, k - n);
    }
  }

  /** Over all boots, whenever they are cut short: at most `limit` recoveries until a passing check resets the count. */
  lemma {:induction false} RecoveriesBound(t: Tally, boots: seq<Boot>, limit: int)
    requires Inv(t, limit)
    ensures Inv(Boots(t, boots, limit), limit)
    decreases |boots|
  {
    if boots != [] {
      BootKeeps(t, boots[0], limit);
      RecoveriesBound(Account(t, Done(boots[0], t.count, limit)), boots[1..], limit);
    }
  }

  /** A boot that finds the abnormal port at once, and a folder. */
  const ABNORMAL: Boot := Boot(i => Ports(false, false, true, true), false, 0)

  function AllAbnormal(n: nat): (boots: seq<Boot>)
    ensures |boots| == n
  {
    if n == 0 then [] else [ABNORMAL] + AllAbnormal(n - 1)
  }

  lemma AbnormalActions(ports: nat -> Ports, count: nat, limit: int)
    requires ports(0) == Ports(false, false, true, true)
    ensures Actions(ports, count, limit) ==
            if count + 1 <= limit then [WriteCount(count + 1), NoticeFolder(true)] else [WriteCount(count + 1)]
  {
    assert LastPass(ports) == 0 && Rescans(0) == [];
  }

  lemma AccountOne(t: Tally, a: Action)
    ensures Account(t, [a]) == Note(t, a)
  {
    assert [a][1..] == [];
  }

  lemma AccountTwo(t: Tally, a: Action, b: Action)
    ensures Account(t, [a, b]) == Note(Note(t, a), b)
  {
    assert [a, b][1..] == [b];
    AccountOne(Note(t, a), b);
  }

  /** One such boot counts, and within the limit it recovers. */
  lemma AbnormalBoot(t: Tally, limit: int)
    ensures Account(t, Done(ABNORMAL, t.count, limit)) ==
            Tally(t.count + 1, if t.count + 1 <= limit then t.recoveries + 1 else t.recoveries)
  {
    AbnormalActions(ABNORMAL.ports, t.count, limit);
    AccountOne(t, WriteCount(t.count + 1));
    AccountTwo(t, WriteCount(t.count + 1), NoticeFolder(true));
  }

  /** The bound is reached: from a fresh record, that many boots in a row recover `limit` times and then no more. */
  lemma {:induction false} RecoveriesReached(t: Tally, n: nat, limit: nat)
    requires t.recoveries == if t.count <= limit then t.count else limit
    ensures var u := Boots(t, AllAbnormal(n), limit);
            u.count == t.count + n && u.recoveries == if t.count + n <= limit then t.count + n else limit
    decreases n
  {
    if n > 0 {
      AbnormalBoot(t, limit);
      assert AllAbnormal(n)[1..] == AllAbnormal(n - 1);
      RecoveriesReached(Account(t, Done(ABNORMAL, t.count, limit)), n - 1, limit);
    }
  }
}
