/**
 * The connection set-up of the current service (`PostgresDatabase`): the role names, the
 * bounded retry of the data-source creation with doubling waits, and the walk along an
 * exception's cause chain that decides whether a failure is a socket timeout.
 */
module PostgresDatabase {
  import opened Wrappers

  const MaxRetries: nat := 5
  const InitialDelay: nat := 1000
  const SocketTimeout: string := "java.net.SocketTimeoutException"
  const JavaException: string := "java.lang.Exception"

  // ---------------------------------------------------------------- role names

  function RoleBase(target: bool, dbName: string, targetDbName: string): string {
    if target then targetDbName else dbName
  }

  function AdminRole(target: bool, dbName: string, targetDbName: string): string {
    RoleBase(target, dbName, targetDbName) + "-admin"
  }

  function UserRole(target: bool, dbName: string, targetDbName: string): string {
    RoleBase(target, dbName, targetDbName) + "-user"
  }

  /**
   * Both roles start with the name of the chosen database (the target one when `target`
   * is set), end in "-admin" and "-user", are never the same role, and name the database
   * they were built from.
   */
  lemma RoleNames(target: bool, dbName: string, targetDbName: string)
    ensures var base := if target then targetDbName else dbName;
      && AdminRole(target, dbName, targetDbName)[..|base|] == base
      && UserRole(target, dbName, targetDbName)[..|base|] == base
      && AdminRole(target, dbName, targetDbName)[|base|..] == "-admin"
      && UserRole(target, dbName, targetDbName)[|base|..] == "-user"
      && AdminRole(target, dbName, targetDbName) != UserRole(target, dbName, targetDbName)
  {
    var base := RoleBase(target, dbName, targetDbName);
    var admin, user := AdminRole(target, dbName, targetDbName), UserRole(target, dbName, targetDbName);
    assert |admin| == |base| + 6 && |user| == |base| + 5;
  }

  /** Equal admin roles come from the same database name, so they go with the same user role. */
  lemma AdminRoleNamesDatabase(t1: bool, a1: string, b1: string, t2: bool, a2: string, b2: string)
    requires AdminRole(t1, a1, b1) == AdminRole(t2, a2, b2)
    ensures RoleBase(t1, a1, b1) == RoleBase(t2, a2, b2)
    ensures UserRole(t1, a1, b1) == UserRole(t2, a2, b2)
  {
    var x, y := RoleBase(t1, a1, b1), RoleBase(t2, a2, b2);
    assert |x| == |y|;
    assert x == AdminRole(t1, a1, b1)[..|x|] && y == AdminRole(t2, a2, b2)[..|y|];
  }

  // ---------------------------------------------------------------- cause chains

  /** A thrown exception: the classes it is an instance of, and its cause. */
  datatype Throwable = Throwable(classes: set<string>, cause: Option<Throwable>)

  /** The exception followed by its causes, outermost first. */
  function Chain(e: Throwable): (r: seq<Throwable>)
    ensures 1 <= |r| && r[0] == e
    decreases e
  {
    [e] + (if e.cause.Some? then Chain(e.cause.value) else [])
  }

  /** Each element of the chain is caused by the next one, and the last one has no cause. */
  lemma {:induction false} ChainLinks(e: Throwable)
    ensures var c := Chain(e);
      && (forall i :: 0 <= i < |c| - 1 ==> c[i].cause == Some(c[i + 1]))
      && c[|c| - 1].cause.None?
    decreases e
  {
    if e.cause.Some? {
      ChainLinks(e.cause.value);
      var rest := Chain(e.cause.value);
      assert Chain(e) == [e] + rest;
      assert forall i :: 1 <= i < |rest| + 1 ==> Chain(e)[i] == rest[i - 1];
    }
  }

  /** Some element of the chain, starting with the exception itself, is an instance of the class. */
  ghost predicate CausedBy(e: Throwable, causeClass: string) {
    exists i :: 0 <= i < |Chain(e)| && causeClass in Chain(e)[i].classes
  }

  lemma CausedByUnfold(e: Throwable, causeClass: string)
    ensures CausedBy(e, causeClass) <==>
      causeClass in e.classes || (e.cause.Some? && CausedBy(e.cause.value, causeClass))
  {
    var c := Chain(e);
    if e.cause.Some? {
      var rest := Chain(e.cause.value);
      assert c == [e] + rest;
      if CausedBy(e, causeClass) && causeClass !in e.classes {
        var i :| 0 <= i < |c| && causeClass in c[i].classes;
        assert c[i] == rest[i - 1];
      }
      if CausedBy(e.cause.value, causeClass) {
        var i :| 0 <= i < |rest| && causeClass in rest[i].classes;
        assert c[i + 1] == rest[i];
      }
    } else {
      assert c == [e];
    }
  }

  /** `hasCauseOfType`: walk the cause chain until an instance of the class turns up. */
  method HasCauseOfType(e: Throwable, causeClass: string) returns (r: bool)
    ensures r <==> CausedBy(e, causeClass)
  {
    var currentCause: Option<Throwable> := Some(e);
    while currentCause.Some?
      invariant CausedBy(e, causeClass) <==> (currentCause.Some? && CausedBy(currentCause.value, causeClass))
      decreases currentCause
    {
      CausedByUnfold(currentCause.value, causeClass);
      if causeClass in currentCause.value.classes {
        return true;
      }
      currentCause := currentCause.value.cause;
    }
    return false;
  }

  // ---------------------------------------------------------------- retry

  /** What one call of the Vault-backed data-source factory does: create a source, or throw. */
  datatype Attempt = Created(dataSource: int) | Failed(error: Throwable)

  /** An instance of `java.lang.Exception`, which `catch (e: Exception)` catches; an `Error` is not. */
  predicate IsException(e: Throwable) {
    JavaException in e.classes
  }

  /** A failure that is caught and is caused by a socket timeout, so another call may follow. */
  ghost predicate TimedOut(a: Attempt) {
    a.Failed? && IsException(a.error) && CausedBy(a.error, SocketTimeout)
  }

  function Pow2(n: nat): (r: nat)
    ensures 1 <= r
  {
    if n == 0 then 1 else 2 * Pow2(n - 1)
  }

  /**
   * `dataSource`: call the factory (the i-th call answers `attempt(i)`) until it creates a
   * source, at most five times. A Throwable that is not an Exception is not caught and leaves
   * at once; a caught failure that is not caused by a socket timeout is rethrown at once; a timeout is followed by a wait, 1000 ms doubling each time, unless it was the
   * fifth, which is rethrown. `sleeps` are the waits in order, `calls` the number of calls.
   */
  method DataSource(attempt: nat -> Attempt) returns (r: Result<int, Throwable>, sleeps: seq<nat>, calls: nat)
    ensures 1 <= calls <= MaxRetries
    ensures forall i :: 0 <= i < calls - 1 ==> TimedOut(attempt(i))
    ensures r.Ok? <==> attempt(calls - 1).Created?
    ensures r.Ok? ==> r.value == attempt(calls - 1).dataSource
    ensures r.Err? ==> r.error == attempt(calls - 1).error
    ensures r.Err? && TimedOut(attempt(calls - 1)) ==> calls == MaxRetries
    ensures |sleeps| == calls - 1
    ensures forall i :: 0 <= i < |sleeps| ==> sleeps[i] == InitialDelay * Pow2(i)
  {
    var currentRetry := 0;
    var delayBetweenRetries := InitialDelay;
    sleeps := [];
    calls := 0;
    while currentRetry < MaxRetries
      invariant currentRetry < MaxRetries && calls == currentRetry
      invariant forall i :: 0 <= i < currentRetry ==> TimedOut(attempt(i))
      invariant |sleeps| == currentRetry
      invariant forall i :: 0 <= i < |sleeps| ==> sleeps[i] == InitialDelay * Pow2(i)
      invariant delayBetweenRetries == InitialDelay * Pow2(|sleeps|)
    {
      var outcome := attempt(currentRetry);
      calls := calls + 1;
      if outcome.Created? {
        return Ok(outcome.dataSource), sleeps, calls;
      }
      if !IsException(outcome.error) {
        return Err(outcome.error), sleeps, calls;
      }
      currentRetry := currentRetry + 1;
      var timeout := HasCauseOfType(outcome.error, SocketTimeout);
      if timeout {
        if currentRetry < MaxRetries {
          sleeps := sleeps + [delayBetweenRetries];
          delayBetweenRetries := delayBetweenRetries * 2;
        } else {
          return Err(outcome.error), sleeps, calls;
        }
      } else {
        return Err(outcome.error), sleeps, calls;
      }
    }
    // The fallback throw after the loop: every way out of the loop has returned already.
    assert false;
    r := Err(Throwable({}, None));
  }

  /** The waits are 1000, 2000, 4000 and 8000 ms, 15 seconds in all at most. */
  lemma RetrySchedule()
    ensures seq(MaxRetries - 1, i requires 0 <= i < MaxRetries - 1 => InitialDelay * Pow2(i))
         == [1000, 2000, 4000, 8000]
  {
    assert Pow2(1) == 2 && Pow2(2) == 4 && Pow2(3) == 8;
  }
}
