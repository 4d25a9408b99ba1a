/** Login lockout: each request checks the account, verifies the password and
    then writes the account in separate statements, so requests interleave. */
module LoginLockout {

  const THRESHOLD := 10

  /** The columns of the identity row that a login reads or writes. */
  datatype Account = Account(locked: bool, enabled: bool, hasPassword: bool, badPasswords: nat, logons: nat)

  function AfterFailure(a: Account): Account {
    a.(badPasswords := a.badPasswords + 1)
  }

  function AfterLockCheck(a: Account): Account {
    if a.badPasswords >= THRESHOLD then a.(locked := true) else a
  }

  function AfterSuccess(a: Account): Account {
    a.(badPasswords := 0, logons := a.logons + 1)
  }

  // ---------------------------------------------------------------------
  // One request at a time
  // ---------------------------------------------------------------------

  datatype Response = Refused | LockedOut | LoggedIn

  /** A whole request with nothing in between. */
  function Attempt(a: Account, correct: bool): Account {
    if a.locked || !a.enabled || !a.hasPassword then a
    else if correct then AfterSuccess(a)
    else AfterLockCheck(AfterFailure(a))
  }

  class Identity {
    var locked: bool
    var enabled: bool
    var hasPassword: bool
    var badPasswords: nat
    var logons: nat

    function Row(): Account
      reads this
    {
      Account(locked, enabled, hasPassword, badPasswords, logons)
    }

    method RecordLoginFailure()
      modifies this`badPasswords
      ensures Row() == AfterFailure(old(Row()))
    {
      badPasswords := badPasswords + 1;
    }

    method LockIdentityIfThresholdExceeded(threshold: nat)
      modifies this`locked
      ensures threshold == THRESHOLD ==> Row() == AfterLockCheck(old(Row()))
      ensures locked <==> old(locked) || badPasswords >= threshold
    {
      if badPasswords >= threshold {
        locked := true;
      }
    }

    method RecordLoginSuccess()
      modifies this`badPasswords, this`logons
      ensures Row() == AfterSuccess(old(Row()))
    {
      badPasswords := 0;
      logons := logons + 1;
    }

    method LoginSubmit(correct: bool) returns (r: Response)
      modifies this
      ensures Row() == Attempt(old(Row()), correct)
      ensures r == LockedOut <==> old(locked)
      ensures r == LoggedIn <==> correct && !old(locked) && enabled && hasPassword
    {
      if locked {
        return LockedOut;
      }
      if !enabled || !hasPassword {
        return Refused;
      }
      if !correct {
        RecordLoginFailure();
        LockIdentityIfThresholdExceeded(THRESHOLD);
        return Refused;
      }
      RecordLoginSuccess();
      return LoggedIn;
    }
  }

  const FRESH := Account(false, true, true, 0, 0)

  /** The account after requests that came one after the other. */
  function After(history: seq<bool>): Account {
    if history == [] then FRESH
    else Attempt(After(history[..|history| - 1]), history[|history| - 1])
  }

  /** Somewhere THRESHOLD wrong passwords in a row. */
  predicate HasLosingStreak(history: seq<bool>) {
    exists i :: 0 <= i <= |history| - THRESHOLD && IsStreak(history, i)
  }

  predicate IsStreak(history: seq<bool>, i: nat)
    requires i + THRESHOLD <= |history|
  {
    forall j :: i <= j < i + THRESHOLD ==> !history[j]
  }

  /** The number of wrong passwords since the last correct one. */
  function Trailing(history: seq<bool>): (n: nat)
    ensures n <= |history|
    ensures forall j :: |history| - n <= j < |history| ==> !history[j]
    ensures n < |history| ==> history[|history| - n - 1]
  {
    if history == [] || history[|history| - 1] then 0 else Trailing(history[..|history| - 1]) + 1
  }

  /** The streak that the last request completes is the trailing one. */
  lemma FirstStreakIsTrailing(history: seq<bool>)
    requires history != [] && !HasLosingStreak(history[..|history| - 1])
    ensures HasLosingStreak(history) <==> Trailing(history) >= THRESHOLD
  {
    var front := history[..|history| - 1];
    assert forall i :: 0 <= i <= |front| - THRESHOLD && IsStreak(history, i) ==> IsStreak(front, i);
    if HasLosingStreak(history) {
      var i :| 0 <= i <= |history| - THRESHOLD && IsStreak(history, i);
      assert i + THRESHOLD == |history|;
    }
    if Trailing(history) >= THRESHOLD {
      assert IsStreak(history, |history| - THRESHOLD);
    }
  }

  /** For requests that do not overlap, the account is locked exactly when
      there were THRESHOLD wrong passwords in a row, and until then it counts
      the wrong passwords since the last correct one. */
  lemma {:induction false} LocksExactlyOnStreaks(history: seq<bool>)
    ensures After(history).locked <==> HasLosingStreak(history)
    ensures !After(history).locked ==> After(history).badPasswords == Trailing(history) < THRESHOLD
    ensures After(history).enabled && After(history).hasPassword
  {
    if history == [] {
    } else {
      var front := history[..|history| - 1];
      LocksExactlyOnStreaks(front);
      if HasLosingStreak(front) {
        var i :| 0 <= i <= |front| - THRESHOLD && IsStreak(front, i);
        assert IsStreak(history, i);
      } else {
        FirstStreakIsTrailing(history);
      }
    }
  }

  // ---------------------------------------------------------------------
  // Interleaved requests
  // ---------------------------------------------------------------------

  /** Where a request stands: before its check; past the check; with a wrong
      password not yet counted; counted but not yet followed by the lock
      statement; with a correct password not yet recorded; done. */
  datatype Phase = Arriving | Checked | Wrong | Counted | Correct | Finished

  datatype System = System(account: Account, requests: seq<Phase>)

  /** One statement of one request; `correct` matters for the password step only. */
  datatype Step = Step(request: nat, correct: bool)

  function Next(s: System, step: Step): System {
    if step.request >= |s.requests| then s
    else
      var r := step.request;
      match s.requests[r]
      case Arriving =>
        var admitted := !s.account.locked && s.account.enabled;
        s.(requests := s.requests[r := if admitted then Checked else Finished])
      case Checked =>
        s.(requests := s.requests[r := if !s.account.hasPassword then Finished else if step.correct then Correct else Wrong])
      case Wrong => System(AfterFailure(s.account), s.requests[r := Counted])
      case Counted => System(AfterLockCheck(s.account), s.requests[r := Finished])
      case Correct => System(AfterSuccess(s.account), s.requests[r := Finished])
      case Finished => s
  }

  function Run(s: System, steps: seq<Step>): System {
    if steps == [] then s else Next(Run(s, steps[..|steps| - 1]), steps[|steps| - 1])
  }

  /** A request whose steps follow each other does to the account what `Attempt`
      says, for every account and both answers. */
  lemma UndisturbedLogin(s: System, r: nat, correct: bool)
    requires r < |s.requests| && s.requests[r] == Arriving
    ensures var step := Step(r, correct);
            var t := Next(Next(Next(Next(s, step), step), step), step);
            t.account == Attempt(s.account, correct) && t.requests == s.requests[r := Finished]
  {
  }

  /** Each statement writes its own columns: counting a failure never locks, the
      lock statement never counts, and the checks write nothing. */
  lemma StatementsAreSeparate(s: System, step: Step)
    requires step.request < |s.requests|
    ensures var a, b := s.account, Next(s, step).account;
            match s.requests[step.request]
            case Wrong => b == a.(badPasswords := a.badPasswords + 1)
            case Counted => b == a.(locked := a.locked || a.badPasswords >= 10)
            case Correct => b == a.(badPasswords := 0, logons := a.logons + 1)
            case _ => b == a
    ensures forall q :: 0 <= q < |s.requests| && q != step.request ==> Next(s, step).requests[q] == s.requests[q]
  {
  }

  /** When the `i`-th step runs, its request stands at `phase`. */
  predicate RunsAt(s: System, steps: seq<Step>, i: int, phase: Phase) {
    0 <= i < |steps| && steps[i].request < |Run(s, steps[..i]).requests|
    && Run(s, steps[..i]).requests[steps[i].request] == phase
  }

  /** The failure statements from step `j` on. */
  function FailuresFrom(s: System, steps: seq<Step>, j: nat): nat {
    if |steps| <= j then 0
    else FailuresFrom(s, steps[..|steps| - 1], j) + if RunsAt(s, steps, |steps| - 1, Wrong) then 1 else 0
  }

  lemma RunsAtFront(s: System, steps: seq<Step>, i: int, phase: Phase)
    requires 0 <= i < |steps| - 1
    ensures RunsAt(s, steps[..|steps| - 1], i, phase) <==> RunsAt(s, steps, i, phase)
  {
    assert steps[..|steps| - 1][..i] == steps[..i];
  }

  /** In every interleaving the count is the number of failure statements since
      the last success statement, which the first `j` steps end with. */
  lemma {:induction false} CountSinceSuccess(s: System, steps: seq<Step>, j: nat)
    requires j <= |steps| && (j > 0 ==> RunsAt(s, steps, j - 1, Correct))
    requires forall i :: j <= i < |steps| ==> !RunsAt(s, steps, i, Correct)
    ensures Run(s, steps).account.badPasswords
         == (if j == 0 then s.account.badPasswords else 0) + FailuresFrom(s, steps, j)
    decreases |steps|
  {
    if steps == [] {
    } else {
      var last := |steps| - 1;
      if j < |steps| {
        forall i | j <= i < last ensures !RunsAt(s, steps[..last], i, Correct) {
          RunsAtFront(s, steps, i, Correct);
        }
        if j > 0 {
          RunsAtFront(s, steps, j - 1, Correct);
        }
        CountSinceSuccess(s, steps[..last], j);
        assert !RunsAt(s, steps, last, Correct);
      }
    }
  }

  function Weigh(requests: seq<Phase>, weight: Phase -> nat): nat {
    if requests == [] then 0
    else Weigh(requests[..|requests| - 1], weight) + weight(requests[|requests| - 1])
  }

  function IsPending(p: Phase): nat { if p == Counted then 1 else 0 }

  function MayCount(p: Phase): nat { if p == Checked || p == Wrong then 1 else 0 }

  function IsInFlight(p: Phase): nat { if p == Arriving || p == Finished then 0 else 1 }

  /** Requests admitted and not finished. */
  function InFlight(s: System): nat { Weigh(s.requests, IsInFlight) }

  lemma {:induction false} WeighAfterUpdate(requests: seq<Phase>, weight: Phase -> nat, r: nat, p: Phase)
    requires r < |requests|
    ensures Weigh(requests[r := p], weight) + weight(requests[r]) == Weigh(requests, weight) + weight(p)
    decreases |requests|
  {
    var last := |requests| - 1;
    if r == last {
      assert requests[r := p][..last] == requests[..last];
    } else {
      WeighAfterUpdate(requests[..last], weight, r, p);
      assert requests[r := p][..last] == requests[..last][r := p];
    }
  }

  lemma {:induction false} InFlightSplits(requests: seq<Phase>)
    ensures Weigh(requests, MayCount) + Weigh(requests, IsPending) <= Weigh(requests, IsInFlight) <= |requests|
  {
    if requests == [] {
    } else {
      InFlightSplits(requests[..|requests| - 1]);
    }
  }

  /** While the account is open the count exceeds the threshold only by lock
      statements still to come; once it is locked, only requests that were
      admitted before can still count. */
  predicate Bounded(s: System, k: nat) {
    if s.account.locked
    then s.account.badPasswords + Weigh(s.requests, MayCount) <= THRESHOLD - 1 + k
    else s.account.badPasswords <= THRESHOLD - 1 + Weigh(s.requests, IsPending)
  }

  /** What a change of phase does to the two sums in the bound. */
  lemma PhaseChange(requests: seq<Phase>, r: nat, p: Phase)
    requires r < |requests|
    ensures Weigh(requests[r := p], MayCount) + MayCount(requests[r]) == Weigh(requests, MayCount) + MayCount(p)
    ensures Weigh(requests[r := p], IsPending) + IsPending(requests[r]) == Weigh(requests, IsPending) + IsPending(p)
    ensures Weigh(requests, MayCount) + Weigh(requests, IsPending) <= Weigh(requests, IsInFlight)
  {
    WeighAfterUpdate(requests, MayCount, r, p);
    WeighAfterUpdate(requests, IsPending, r, p);
    InFlightSplits(requests);
  }

  /** Admitting a request and verifying its password: the account stays as it is. */
  lemma ReadKeepsBound(s: System, r: nat, p: Phase, k: nat)
    requires Bounded(s, k) && r < |s.requests|
    requires (s.requests[r] == Arriving && !s.account.locked && p == Checked)
             || (s.requests[r] == Arriving && p == Finished)
             || (s.requests[r] == Checked && (p == Finished || p == Correct || p == Wrong))
    ensures Bounded(s.(requests := s.requests[r := p]), k)
  {
    PhaseChange(s.requests, r, p);
  }

  /** Counting a failure, the lock statement, and recording a success. */
  lemma WriteKeepsBound(s: System, r: nat, correct: bool, k: nat)
    requires Bounded(s, k) && InFlight(s) <= k && r < |s.requests|
    requires s.requests[r] == Wrong || s.requests[r] == Counted || s.requests[r] == Correct
    ensures Bounded(Next(s, Step(r, correct)), k)
  {
    PhaseChange(s.requests, r, if s.requests[r] == Wrong then Counted else Finished);
  }

  lemma NextKeepsBound(s: System, step: Step, k: nat)
    requires Bounded(s, k) && InFlight(s) <= k
    ensures Bounded(Next(s, step), k)
  {
    var r := step.request;
    if r < |s.requests| {
      match s.requests[r] {
        case Arriving => ReadKeepsBound(s, r, Next(s, step).requests[r], k);
        case Checked => ReadKeepsBound(s, r, Next(s, step).requests[r], k);
        case Finished =>
        case _ => WriteKeepsBound(s, r, step.correct, k);
      }
    }
  }

  /** Never more than `k` requests in flight at once. */
  predicate AtMostInFlight(s: System, steps: seq<Step>, k: nat) {
    InFlight(Run(s, steps)) <= k && (steps != [] ==> AtMostInFlight(s, steps[..|steps| - 1], k))
  }

  lemma {:induction false} RunKeepsBound(s: System, steps: seq<Step>, k: nat)
    requires Bounded(s, k) && AtMostInFlight(s, steps, k)
    ensures Bounded(Run(s, steps), k)
  {
    if steps == [] {
    } else {
      var front := steps[..|steps| - 1];
      RunKeepsBound(s, front, k);
      assert InFlight(Run(s, front)) <= k by {
        assert AtMostInFlight(s, front, k);
      }
      NextKeepsBound(Run(s, front), steps[|steps| - 1], k);
    }
  }

  /** A system in which no request has started on an open account. */
  predicate Initial(s: System) {
    !s.account.locked && s.account.badPasswords < THRESHOLD
    && forall r :: 0 <= r < |s.requests| ==> s.requests[r] == Arriving
  }

  /** However many requests come and however they interleave, if at most `k`
      are in flight at once the count of wrong passwords never exceeds
      THRESHOLD - 1 + k; and when no lock statement is outstanding, an account
      whose count has reached the threshold is locked. */
  lemma LockoutBound(s: System, steps: seq<Step>, k: nat)
    requires Initial(s) && AtMostInFlight(s, steps, k)
    ensures Run(s, steps).account.badPasswords <= THRESHOLD - 1 + k
    ensures Weigh(Run(s, steps).requests, IsPending) == 0 && Run(s, steps).account.badPasswords >= THRESHOLD
            ==> Run(s, steps).account.locked
  {
    RunKeepsBound(s, steps, k);
    InFlightSplits(Run(s, steps).requests);
    assert InFlight(Run(s, steps)) <= k;
  }

  /** With `n` requests in all, the count never exceeds THRESHOLD - 1 + n. */
  lemma LockoutBoundForRequests(s: System, steps: seq<Step>)
    requires Initial(s)
    ensures Run(s, steps).account.badPasswords <= THRESHOLD - 1 + |s.requests|
  {
    FewInFlight(s, steps);
    LockoutBound(s, steps, |s.requests|);
  }

  lemma {:induction false} FewInFlight(s: System, steps: seq<Step>)
    ensures |Run(s, steps).requests| == |s.requests|
    ensures AtMostInFlight(s, steps, |s.requests|)
  {
    if steps == [] {
    } else {
      FewInFlight(s, steps[..|steps| - 1]);
    }
    InFlightSplits(Run(s, steps).requests);
  }

  /** Once an account is locked it stays locked, and a request that had not
      been admitted by then never gets to verify a password. */
  lemma {:induction false} LockedAdmitsNobody(s: System, steps: seq<Step>, r: nat)
    requires s.account.locked && r < |s.requests| && s.requests[r] == Arriving
    ensures var t := Run(s, steps);
            t.account.locked && |t.requests| == |s.requests| && (t.requests[r] == Arriving || t.requests[r] == Finished)
  {
    if steps == [] {
    } else {
      LockedAdmitsNobody(s, steps[..|steps| - 1], r);
    }
  }

  // ---------------------------------------------------------------------
  // The bound is reached
  // ---------------------------------------------------------------------

  /** `k` requests of which the first `i` stand at `p` and the others at `q`. */
  function Split(k: nat, i: nat, p: Phase, q: Phase): (requests: seq<Phase>)
    requires i <= k
    ensures |requests| == k
  {
    seq(k, r => if r < i then p else q)
  }

  function Sweep(i: nat): seq<Step> {
    if i == 0 then [] else Sweep(i - 1) + [Step(i - 1, false)]
  }

  lemma RunStep(s: System, steps: seq<Step>, step: Step)
    ensures Run(s, steps + [step]) == Next(Run(s, steps), step)
  {
    assert (steps + [step])[..|steps|] == steps;
  }

  /** A phase that a wrong password takes without locking, and the next one. */
  predicate Follows(p: Phase, q: Phase) {
    (p == Arriving && q == Checked) || (p == Checked && q == Wrong) || (p == Wrong && q == Counted)
  }

  /** The account after `i` requests have taken the phase `p`. */
  function Counting(a: Account, p: Phase, i: nat): Account {
    a.(badPasswords := a.badPasswords + if p == Wrong then i else 0)
  }

  /** A system in which `i` of `k` requests have moved on from `p` to `q`. */
  function Swept(a: Account, k: nat, i: nat, p: Phase, q: Phase): System
    requires i <= k
  {
    System(Counting(a, p, i), Split(k, i, q, p))
  }

  lemma SweepStep(a: Account, k: nat, i: nat, p: Phase, q: Phase)
    requires i < k && !a.locked && a.enabled && a.hasPassword && Follows(p, q)
    ensures Next(Swept(a, k, i, p, q), Step(i, false)) == Swept(a, k, i + 1, p, q)
  {
    assert Split(k, i, q, p)[i] == p;
    assert Split(k, i, q, p)[i := q] == Split(k, i + 1, q, p);
  }

  /** One step of each of the first `i` requests, all standing at the same phase. */
  lemma {:induction false} SweepAdvances(a: Account, k: nat, i: nat, p: Phase, q: Phase)
    requires i <= k && !a.locked && a.enabled && a.hasPassword && Follows(p, q)
    ensures Run(Swept(a, k, 0, p, q), Sweep(i)) == Swept(a, k, i, p, q)
  {
    if i == 0 {
    } else {
      SweepAdvances(a, k, i - 1, p, q);
      RunStep(Swept(a, k, 0, p, q), Sweep(i - 1), Step(i - 1, false));
      SweepStep(a, k, i - 1, p, q);
    }
  }

  lemma {:induction false} RunConcat(s: System, a: seq<Step>, b: seq<Step>)
    ensures Run(s, a + b) == Run(Run(s, a), b)
  {
    if b == [] {
      assert a + b == a;
    } else {
      assert (a + b)[..|a + b| - 1] == a + b[..|b| - 1];
      RunConcat(s, a, b[..|b| - 1]);
    }
  }

  /** For every `k` some run of `k` requests takes the count to the bound. */
  lemma BoundIsReached(k: nat) returns (s: System, steps: seq<Step>)
    ensures Initial(s) && |s.requests| == k
    ensures Run(s, steps).account.badPasswords == THRESHOLD - 1 + k
  {
    var a := FRESH.(badPasswords := THRESHOLD - 1);
    s := System(a, Split(k, 0, Checked, Arriving));
    var sweep := Sweep(k);
    steps := sweep + sweep + sweep;
    SweepAdvances(a, k, k, Arriving, Checked);
    assert Split(k, k, Checked, Arriving) == Split(k, 0, Wrong, Checked);
    SweepAdvances(a, k, k, Checked, Wrong);
    assert Split(k, k, Wrong, Checked) == Split(k, 0, Counted, Wrong);
    SweepAdvances(a, k, k, Wrong, Counted);
    RunConcat(s, sweep, sweep);
    RunConcat(s, sweep + sweep, sweep);
  }
}
