/** The failure window that slows down password guessing. */
module Throttle {
  import opened Lists
  import opened Outcomes

  /** A call on the throttle, with the reading of the monotonic clock at that moment. */
  datatype Call =
    | Check(key: string, now: real)
    | Fail(key: string, now: real)
    | Clear(key: string, now: real)

  type Table = map<string, seq<real>>

  function Get(failures: Table, key: string): seq<real> {
    if key in failures then failures[key] else []
  }

  /** The stamps still inside the window. */
  function Recent(stamps: seq<real>, now: real, window: real): seq<real> {
    Filter(stamps, (stamp: real) => now - stamp < window)
  }

  function Pruned(failures: Table, key: string, now: real, window: real): Table {
    var stamps := Recent(Get(failures, key), now, window);
    if stamps != [] then failures[key := stamps] else failures - {key}
  }

  function Apply(failures: Table, call: Call, window: real): Table {
    match call
    case Check(key, now) => Pruned(failures, key, now, window)
    case Fail(key, now) => failures[key := Recent(Get(failures, key), now, window) + [now]]
    case Clear(key, now) => failures - {key}
  }

  /** The table after a sequence of calls. */
  function After(log: seq<Call>, window: real): Table {
    if log == [] then map[] else Apply(After(log[..|log| - 1], window), log[|log| - 1], window)
  }

  /** Reference: every failure of the key since it was last cleared, never pruned. */
  function History(log: seq<Call>, key: string): seq<real> {
    if log == [] then []
    else
      var before, call := History(log[..|log| - 1], key), log[|log| - 1];
      if call.key != key then before
      else
        match call
        case Check(_, _) => before
        case Fail(_, now) => before + [now]
        case Clear(_, _) => []
  }

  /** The moment is no earlier than the last call. */
  ghost predicate NotBefore(now: real, log: seq<Call>) {
    log == [] || log[|log| - 1].now <= now
  }

  /** The clock readings of the calls do not go back. */
  ghost predicate Clocked(log: seq<Call>) {
    log == [] || (Clocked(log[..|log| - 1]) && NotBefore(log[|log| - 1].now, log[..|log| - 1]))
  }

  lemma ClockedSnoc(log: seq<Call>, call: Call)
    requires Clocked(log) && NotBefore(call.now, log)
    ensures Clocked(log + [call]) && NotBefore(call.now, log + [call])
  {
    assert (log + [call])[..|log|] == log;
  }

  /** Pruning at an earlier moment loses nothing that a later moment still counts. */
  lemma PruneThenPrune(stamps: seq<real>, earlier: real, later: real, window: real)
    requires earlier <= later
    ensures Recent(Recent(stamps, earlier, window), later, window) == Recent(stamps, later, window)
  {
    FilterTwice(stamps, (stamp: real) => earlier - stamp < window, (stamp: real) => later - stamp < window,
                (stamp: real) => later - stamp < window);
  }

  lemma RecentSnoc(stamps: seq<real>, stamp: real, now: real, window: real)
    ensures Recent(stamps + [stamp], now, window)
         == Recent(stamps, now, window) + (if now - stamp < window then [stamp] else [])
  {
    FilterSnoc(stamps, stamp, (stamp: real) => now - stamp < window);
  }

  /** The positions of the stamps that lie less than a window before now. */
  ghost function Within(stamps: seq<real>, now: real, window: real): set<int> {
    set i | 0 <= i < |stamps| && now - stamps[i] < window
  }

  /** What is left after pruning is as many stamps as lie inside the window. */
  lemma {:induction false} RecentCount(stamps: seq<real>, now: real, window: real)
    ensures |Recent(stamps, now, window)| == |Within(stamps, now, window)|
    ensures forall stamp :: stamp in Recent(stamps, now, window) <==> stamp in stamps && now - stamp < window
  {
    forall stamp { FilterMember(stamps, (stamp: real) => now - stamp < window, stamp); }
    if stamps != [] {
      var k := |stamps| - 1;
      var front := stamps[..k];
      RecentCount(front, now, window);
      assert Within(stamps, now, window) == Within(front, now, window) + if now - stamps[k] < window then {k} else {};
      assert k !in Within(front, now, window);
    }
  }

  /** Over every run with a clock that does not go back, the pruned table and the full history agree on
      the failures inside the window, for every key and every present moment. */
  lemma {:induction false} PrunedTableFaithful(log: seq<Call>, key: string, now: real, window: real)
    requires Clocked(log) && NotBefore(now, log)
    ensures Recent(Get(After(log, window), key), now, window) == Recent(History(log, key), now, window)
  {
    if log != [] {
      var n := |log| - 1;
      var init, call := log[..n], log[n];
      var table, history := After(init, window), History(init, key);
      PrunedTableFaithful(init, key, now, window);
      if call.key == key {
        var stamps := Get(table, key);
        PruneThenPrune(stamps, call.now, now, window);
        match call
        case Check(_, _) =>
          assert Get(After(log, window), key) == Recent(stamps, call.now, window);
        case Fail(_, t) =>
          RecentSnoc(Recent(stamps, t, window), t, now, window);
          RecentSnoc(history, t, now, window);
        case Clear(_, _) =>
      } else {
        assert Get(After(log, window), key) == Get(table, key);
      }
    }
  }

  class AttemptThrottle {
    const maxFailures: int
    const window: real
    var failures: Table
    ghost var log: seq<Call>

    ghost predicate Valid() reads this {
      Clocked(log) && failures == After(log, window)
    }

    /** Whether the clock reading is no earlier than any before it. */
    ghost predicate ClockAt(now: real) reads this {
      NotBefore(now, log)
    }

    constructor (maxFailures: int, window: real)
      ensures Valid() && log == [] && this.maxFailures == maxFailures && this.window == window
    {
      this.maxFailures, this.window := maxFailures, window;
      failures, log := map[], [];
    }

    method Prune(key: string, now: real) returns (stamps: seq<real>)
      modifies this`failures
      ensures stamps == Recent(Get(old(failures), key), now, window)
      ensures failures == Pruned(old(failures), key, now, window)
    {
      stamps := [];
      var all := Get(failures, key);
      for i := 0 to |all|
        invariant stamps == Recent(all[..i], now, window)
        invariant failures == old(failures)
      {
        assert all[..i + 1] == all[..i] + [all[i]];
        RecentSnoc(all[..i], all[i], now, window);
        if now - all[i] < window { stamps := stamps + [all[i]]; }
      }
      assert all[..|all|] == all;
      if stamps != [] {
        failures := failures[key := stamps];
      } else {
        failures := failures - {key};
      }
    }

    /** Blocked exactly when the key has that many unpardoned failures inside the window. */
    method Blocked(key: string, now: real) returns (blocked: bool)
      requires Valid() && ClockAt(now)
      modifies this
      ensures Valid() && log == old(log) + [Check(key, now)]
      ensures blocked <==> |Recent(History(old(log), key), now, window)| >= maxFailures
      ensures blocked <==> |Within(History(old(log), key), now, window)| >= maxFailures
    {
      RecentCount(History(log, key), now, window);
      var stamps := Prune(key, now);
      PrunedTableFaithful(log, key, now, window);
      blocked := |stamps| >= maxFailures;
      ClockedSnoc(log, Check(key, now));
      log := log + [Check(key, now)];
      assert log[..|log| - 1] == old(log);
    }

    method RecordFailure(key: string, now: real)
      requires Valid() && ClockAt(now)
      modifies this
      ensures Valid() && log == old(log) + [Fail(key, now)]
    {
      var stamps := Prune(key, now);
      failures := failures[key := stamps + [now]];
      ClockedSnoc(log, Fail(key, now));
      log := log + [Fail(key, now)];
      assert log[..|log| - 1] == old(log);
      assert failures == Apply(old(failures), Fail(key, now), window);
    }

    method Forgive(key: string, ghost now: real)
      requires Valid() && ClockAt(now)
      modifies this
      ensures Valid() && log == old(log) + [Clear(key, now)]
    {
      failures := failures - {key};
      ClockedSnoc(log, Clear(key, now));
      log := log + [Clear(key, now)];
      assert log[..|log| - 1] == old(log);
    }
  }

  // ----- password changes behind the throttle

  datatype Outcome = CredentialsRejected | ChangeRefused | Changed

  /** One password change: the clock when the throttle is asked, and when the outcome is known. */
  datatype Attempt = Attempt(key: string, asked: real, answered: real, outcome: Outcome)

  predicate IsBlocked(log: seq<Call>, key: string, now: real, window: real, maxFailures: int) {
    |Recent(Get(After(log, window), key), now, window)| >= maxFailures
  }

  /** What an attempt tells the throttle after asking it: nothing when blocked, or when the credentials
      were right but setting the new password was refused. */
  function Report(a: Attempt, blocked: bool): (r: Option<Call>)
    ensures r.Some? ==> r.value.key == a.key && r.value.now == a.answered
  {
    if blocked || a.outcome.ChangeRefused? then None
    else if a.outcome.CredentialsRejected? then Some(Fail(a.key, a.answered))
    else Some(Clear(a.key, a.answered))
  }

  function Extend(log: seq<Call>, report: Option<Call>): seq<Call> {
    if report.None? then log else log + [report.value]
  }

  /** The throttle calls of a sequence of attempts. */
  function LogOf(attempts: seq<Attempt>, window: real, maxFailures: int): seq<Call> {
    if attempts == [] then []
    else
      var a, log := attempts[|attempts| - 1], LogOf(attempts[..|attempts| - 1], window, maxFailures);
      Extend(log + [Check(a.key, a.asked)], Report(a, IsBlocked(log, a.key, a.asked, window, maxFailures)))
  }

  ghost predicate AllAnsweredBy(attempts: seq<Attempt>, now: real) {
    attempts == [] || attempts[|attempts| - 1].answered <= now
  }

  /** Attempts run one after the other, each atomically. */
  ghost predicate Sequential(attempts: seq<Attempt>) {
    attempts == [] ||
      var init, last := attempts[..|attempts| - 1], attempts[|attempts| - 1];
      Sequential(init) && AllAnsweredBy(init, last.asked) && last.asked <= last.answered
  }

  /** Each stamp is at least a window later than the one `maxFailures` before it. */
  ghost predicate Spaced(stamps: seq<real>, window: real, maxFailures: int) {
    forall i, j :: 0 <= i && j == i + maxFailures && i < j < |stamps| ==> stamps[j] - stamps[i] >= window
  }

  ghost predicate Rising(stamps: seq<real>) {
    forall i, j :: 0 <= i < j < |stamps| ==> stamps[i] <= stamps[j]
  }

  ghost predicate UpTo(stamps: seq<real>, now: real) {
    forall i :: 0 <= i < |stamps| ==> stamps[i] <= now
  }

  lemma {:induction false} FilterSuffix(stamps: seq<real>, m: nat, keep: real -> bool)
    requires m <= |stamps| && forall i :: m <= i < |stamps| ==> keep(stamps[i])
    ensures |Filter(stamps, keep)| >= |stamps| - m
  {
    if m < |stamps| { FilterSuffix(stamps[..|stamps| - 1], m, keep); }
  }

  /** A rising history that does not block has its `maxFailures`-th last stamp outside the window. */
  lemma UnblockedSpacing(stamps: seq<real>, asked: real, answered: real, window: real, maxFailures: int)
    requires Rising(stamps) && UpTo(stamps, asked) && asked <= answered
    requires Spaced(stamps, window, maxFailures) && |Recent(stamps, asked, window)| < maxFailures
    ensures Spaced(stamps + [answered], window, maxFailures) && Rising(stamps + [answered])
  {
    var m := |stamps| - maxFailures;
    if m >= 0 && asked - stamps[m] < window {
      FilterSuffix(stamps, m, (stamp: real) => asked - stamp < window);
      assert false;
    }
  }

  lemma {:induction false} LogIsClocked(attempts: seq<Attempt>, window: real, maxFailures: int, now: real)
    requires Sequential(attempts) && AllAnsweredBy(attempts, now)
    ensures Clocked(LogOf(attempts, window, maxFailures)) && NotBefore(now, LogOf(attempts, window, maxFailures))
  {
    if attempts != [] {
      var n := |attempts| - 1;
      var a, log := attempts[n], LogOf(attempts[..n], window, maxFailures);
      LogIsClocked(attempts[..n], window, maxFailures, a.asked);
      var asked := log + [Check(a.key, a.asked)];
      ClockedSnoc(log, Check(a.key, a.asked));
      var report := Report(a, IsBlocked(log, a.key, a.asked, window, maxFailures));
      if report.Some? { ClockedSnoc(asked, report.value); }
    }
  }

  lemma HistorySnoc(log: seq<Call>, call: Call, key: string)
    ensures History(log + [call], key)
         == if call.key != key || call.Check? then History(log, key)
            else if call.Fail? then History(log, key) + [call.now]
            else []
  {
    assert (log + [call])[..|log|] == log;
  }

  /** Between two successful changes of a key, any `maxFailures` + 1 recorded failures span a full window. */
  lemma {:induction false} FailuresAreSpaced(attempts: seq<Attempt>, key: string, window: real, maxFailures: int, now: real)
    requires Sequential(attempts) && AllAnsweredBy(attempts, now)
    ensures var h := History(LogOf(attempts, window, maxFailures), key);
            Spaced(h, window, maxFailures) && Rising(h) && UpTo(h, now)
  {
    if attempts != [] {
      var n := |attempts| - 1;
      var a, log := attempts[n], LogOf(attempts[..n], window, maxFailures);
      FailuresAreSpaced(attempts[..n], key, window, maxFailures, a.asked);
      LogIsClocked(attempts[..n], window, maxFailures, a.asked);
      PrunedTableFaithful(log, a.key, a.asked, window);
      var asked := log + [Check(a.key, a.asked)];
      var blocked := IsBlocked(log, a.key, a.asked, window, maxFailures);
      HistorySnoc(log, Check(a.key, a.asked), key);
      ReportEffect(asked, a, key, blocked);
      HistoryStep(History(log, key), History(Extend(asked, Report(a, blocked)), key), a.asked, a.answered, window, maxFailures, now);
    }
  }

  /** What an attempt may do to the history of a key: a failure reported after an open check, or a clearing. */
  lemma ReportEffect(asked: seq<Call>, a: Attempt, key: string, blocked: bool)
    ensures var h, h' := History(asked, key), History(Extend(asked, Report(a, blocked)), key);
            h' == h || h' == [] || (a.key == key && !blocked && h' == h + [a.answered])
  {
    var report := Report(a, blocked);
    if report.Some? { HistorySnoc(asked, report.value, key); }
  }

  lemma HistoryStep(h: seq<real>, h': seq<real>, asked: real, answered: real, window: real, maxFailures: int, now: real)
    requires Spaced(h, window, maxFailures) && Rising(h) && UpTo(h, asked) && asked <= answered <= now
    requires h' == h || h' == [] || (h' == h + [answered] && |Recent(h, asked, window)| < maxFailures)
    ensures Spaced(h', window, maxFailures) && Rising(h') && UpTo(h', now)
  {
    if h' == h + [answered] { UnblockedSpacing(h, asked, answered, window, maxFailures); }
  }
}
