/**
 * One tick of the collector's main loop (src/main.rs): for each configured
 * user in order, query the time-accounting service, extract the observation,
 * serialise it and publish it; then flush the bus connection once.
 *
 * The D-Bus call, the publish and the flush are not executed: their results
 * are given per user as an oracle. Their effects are recorded as a trace of
 * events. A failed query (`?`) or a failed extraction (`.expect`) ends the
 * process, which the trace records as a final `Abort` event.
 */
module Collector {
  import opened Observations
  import opened Topics
  import opened Wrappers

  /** What `get_user_information` returned; only the property bag is used. */
  datatype Query = QueryError | QueryOk(bag: Bag)

  /** The outside world's answers for one user in one cycle. */
  datatype UserOracle = UserOracle(query: Query, publishOk: bool)

  datatype AbortCause =
    | QueryFailed(user: string)
    | ExtractFailed(user: string, error: ExtractError)

  /** An observable effect of the cycle. A failed publish or flush is only logged. */
  datatype Event =
    | Publish(topic: string, payload: Payload, accepted: bool)
    | Flush(ok: bool)
    | Abort(cause: AbortCause)

  /** The user's query succeeds and its bag extracts. */
  predicate Publishable(o: UserOracle) {
    o.query.QueryOk? && Extract(o.query.bag).Ok?
  }

  /** The event one user contributes: a publish, or the abort that ends the run. */
  function UserEvent(host: string, user: string, o: UserOracle): Event {
    match o.query
    case QueryError => Abort(QueryFailed(user))
    case QueryOk(bag) =>
      match Extract(bag)
      case Err(e) => Abort(ExtractFailed(user, e))
      case Ok(obs) => Publish(Topic(host, user), Encode(obs), o.publishOk)
  }

  /** The event each user would contribute if the loop reached it. */
  function Events(host: string, users: seq<string>, oracle: seq<UserOracle>): (evs: seq<Event>)
    requires |oracle| == |users|
  {
    seq(|users|, k requires 0 <= k < |users| => UserEvent(host, users[k], oracle[k]))
  }

  /** A run of events cut after the first abort: the process ends there. */
  function UntilAbort(evs: seq<Event>): seq<Event> {
    if evs == [] then []
    else if evs[0].Abort? then [evs[0]]
    else [evs[0]] + UntilAbort(evs[1..])
  }

  /** The events of a whole cycle: the loop's, then one flush unless the run aborted. */
  function CycleTrace(host: string, users: seq<string>, oracle: seq<UserOracle>, flushOk: bool): seq<Event>
    requires |oracle| == |users|
  {
    WithFlush(UntilAbort(Events(host, users, oracle)), flushOk)
  }

  /** The loop's events followed by the flush, which an aborted run never reaches. */
  function WithFlush(t: seq<Event>, flushOk: bool): seq<Event> {
    if t != [] && t[|t| - 1].Abort? then t else t + [Flush(flushOk)]
  }

  /**
   * One pass of the per-user loop body: query, extract, serialise, build the
   * topic and publish. An `Abort` result means the process ends here.
   */
  method SampleUser(host: string, user: string, o: UserOracle) returns (e: Event)
    ensures e == UserEvent(host, user, o)
    ensures o.query.QueryError? ==> e == Abort(QueryFailed(user))
    ensures e.Publish? <==>
      o.query.QueryOk? && forall k :: k in FieldKeys ==> k in o.query.bag && IsInt32(o.query.bag[k])
    ensures o.query.QueryOk? && !e.Publish? ==>
      e.Abort? && e.cause.ExtractFailed? && e.cause.user == user
    ensures e.Publish? ==>
      && e.topic == "time.obs." + host + "." + user
      && e.accepted == o.publishOk
      && e.payload.Keys == (set k | k in FieldKeys)
      && forall k :: k in FieldKeys ==> o.query.bag[k] == Int(e.payload[k])
  {
    match o.query {
      case QueryError =>
        e := Abort(QueryFailed(user));
      case QueryOk(properties) =>
        ExtractOkIff(properties);
        match Extract(properties) {
          case Err(err) =>
            e := Abort(ExtractFailed(user, err));
          case Ok(observation) =>
            PayloadRepublishesBag(properties, observation);
            var payload := Encode(observation);
            var topic := Topic(host, user);
            e := Publish(topic, payload, o.publishOk);
        }
    }
  }

  /** The body of the collector's `loop`, run once. */
  method RunCycle(host: string, users: seq<string>, oracle: seq<UserOracle>, flushOk: bool)
    returns (trace: seq<Event>)
    requires |oracle| == |users|
    ensures trace == CycleTrace(host, users, oracle, flushOk)
  {
    ghost var evs := Events(host, users, oracle);
    trace := [];
    var i := 0;
    while i < |users|
      invariant 0 <= i <= |users|
      invariant trace == evs[..i]
      invariant forall k :: 0 <= k < i ==> !evs[k].Abort?
    {
      var e := SampleUser(host, users[i], oracle[i]);
      trace := trace + [e];
      if e.Abort? {
        UntilAbortCutsAt(evs, i);
        return;
      }
      i := i + 1;
    }
    UntilAbortShape(evs);
    trace := trace + [Flush(flushOk)];
  }

  // ---------------------------------------------------------------------
  // Properties of a cycle

  /** The event of a user whose query succeeded and whose bag extracted. */
  function PublishOf(host: string, user: string, o: UserOracle): Event
    requires Publishable(o)
  {
    Publish(Topic(host, user), Encode(Extract(o.query.bag).value), o.publishOk)
  }

  /** The event of a user whose query failed or whose bag did not extract. */
  function AbortOf(user: string, o: UserOracle): Event
    requires !Publishable(o)
  {
    match o.query
    case QueryError => Abort(QueryFailed(user))
    case QueryOk(bag) => Abort(ExtractFailed(user, Extract(bag).error))
  }

  /** Splits `UserEvent` into its two cases, for the cycle lemmas below. */
  lemma UserEventKind(host: string, user: string, o: UserOracle)
    ensures Publishable(o) ==> UserEvent(host, user, o) == PublishOf(host, user, o)
    ensures !Publishable(o) ==> UserEvent(host, user, o) == AbortOf(user, o)
  {
  }

  /**
   * A run cut at its first abort is a prefix of the run that holds no abort
   * except possibly its last event, which is an abort exactly when the run has one.
   */
  lemma {:induction false} UntilAbortShape(evs: seq<Event>)
    ensures var t := UntilAbort(evs);
      && |t| <= |evs| && t == evs[..|t|]
      && (forall k :: 0 <= k < |t| - 1 ==> !t[k].Abort?)
      && (t != [] && t[|t| - 1].Abort? <==> exists k :: 0 <= k < |evs| && evs[k].Abort?)
      && ((forall k :: 0 <= k < |evs| ==> !evs[k].Abort?) ==> t == evs)
  {
    if evs != [] && !evs[0].Abort? {
      UntilAbortShape(evs[1..]);
      var t := UntilAbort(evs);
      var rest := UntilAbort(evs[1..]);
      assert t == [evs[0]] + rest;
      if exists k :: 0 <= k < |evs| && evs[k].Abort? {
        var k :| 0 <= k < |evs| && evs[k].Abort?;
        assert evs[1..][k - 1].Abort?;
      }
    }
  }

  /** A run whose first abort is event `i` is cut right after it. */
  lemma {:induction false} UntilAbortCutsAt(evs: seq<Event>, i: nat)
    requires i < |evs| && evs[i].Abort?
    requires forall k :: 0 <= k < i ==> !evs[k].Abort?
    ensures UntilAbort(evs) == evs[..i + 1]
  {
    if i > 0 {
      UntilAbortCutsAt(evs[1..], i - 1);
      assert evs[..i + 1] == [evs[0]] + evs[1..][..i];
    }
  }

  /**
   * When every query succeeds and every bag extracts, the cycle publishes once
   * per user, in list order, whether or not the client accepts each publish, and
   * then flushes exactly once.
   */
  lemma CycleWithoutFailure(host: string, users: seq<string>, oracle: seq<UserOracle>, flushOk: bool)
    requires |oracle| == |users|
    requires forall k :: 0 <= k < |users| ==> Publishable(oracle[k])
    ensures var t := CycleTrace(host, users, oracle, flushOk);
      && |t| == |users| + 1
      && (forall k :: 0 <= k < |users| ==> t[k] == PublishOf(host, users[k], oracle[k]))
      && t[|users|] == Flush(flushOk)
  {
    var evs := Events(host, users, oracle);
    forall k | 0 <= k < |users| ensures evs[k] == PublishOf(host, users[k], oracle[k]) {
      UserEventKind(host, users[k], oracle[k]);
    }
    UntilAbortShape(evs);
  }

  /**
   * When user `k` is the first whose query fails or whose bag does not
   * extract, the cycle publishes for users `0..k-1` in order, then records
   * the abort for user `k`: no later user is published and there is no flush.
   */
  lemma CycleAbortsAtFirstFailure(host: string, users: seq<string>, oracle: seq<UserOracle>, flushOk: bool, k: nat)
    requires |oracle| == |users|
    requires k < |users| && !Publishable(oracle[k])
    requires forall j :: 0 <= j < k ==> Publishable(oracle[j])
    ensures var t := CycleTrace(host, users, oracle, flushOk);
      && |t| == k + 1
      && (forall j :: 0 <= j < k ==> t[j] == PublishOf(host, users[j], oracle[j]))
      && t[k] == AbortOf(users[k], oracle[k])
      && (forall j :: 0 <= j < |t| ==> !t[j].Flush?)
  {
    var evs := Events(host, users, oracle);
    forall j | 0 <= j < k ensures evs[j] == PublishOf(host, users[j], oracle[j]) {
      UserEventKind(host, users[j], oracle[j]);
    }
    UserEventKind(host, users[k], oracle[k]);
    UntilAbortCutsAt(evs, k);
    assert CycleTrace(host, users, oracle, flushOk) == evs[..k + 1];
  }

  /** Flushes happen only as a cycle's last event, and one happens exactly when no user aborts the run. */
  lemma CycleFlushPlacement(host: string, users: seq<string>, oracle: seq<UserOracle>, flushOk: bool)
    requires |oracle| == |users|
    ensures var t := CycleTrace(host, users, oracle, flushOk);
      && (forall j :: 0 <= j < |t| - 1 ==> t[j].Publish?)
      && ((exists j :: 0 <= j < |t| && t[j].Flush?) <==> forall k :: 0 <= k < |users| ==> Publishable(oracle[k]))
  {
    var evs := Events(host, users, oracle);
    UntilAbortShape(evs);
    if exists k :: 0 <= k < |users| && !Publishable(oracle[k]) {
      var k := FirstFailure(oracle);
      CycleAbortsAtFirstFailure(host, users, oracle, flushOk, k);
    } else {
      CycleWithoutFailure(host, users, oracle, flushOk);
    }
  }

  /** Index of the first user whose query fails or whose bag does not extract. */
  function FirstFailure(oracle: seq<UserOracle>): (k: nat)
    requires exists k :: 0 <= k < |oracle| && !Publishable(oracle[k])
    ensures k < |oracle| && !Publishable(oracle[k])
    ensures forall j :: 0 <= j < k ==> Publishable(oracle[j])
  {
    if !Publishable(oracle[0]) then 0
    else
      assert exists k :: 0 <= k < |oracle[1..]| && !Publishable(oracle[1..][k]) by {
        var k :| 0 <= k < |oracle| && !Publishable(oracle[k]);
        assert oracle[1..][k - 1] == oracle[k];
      }
      1 + FirstFailure(oracle[1..])
  }

  /** An event with its publish or flush outcome forgotten. */
  function Attempt(e: Event): Event {
    match e
    case Publish(topic, payload, _) => Publish(topic, payload, true)
    case Flush(_) => Flush(true)
    case Abort(cause) => Abort(cause)
  }

  /** Two oracles that agree on every query; their publish outcomes may differ. */
  predicate SameQueries(oracle: seq<UserOracle>, oracle': seq<UserOracle>) {
    |oracle| == |oracle'| && forall k :: 0 <= k < |oracle| ==> oracle[k].query == oracle'[k].query
  }

  /** A user's event depends on the publish outcome only through its `accepted` flag. */
  lemma SameQuerySameAttempt(host: string, user: string, o: UserOracle, o': UserOracle)
    requires o.query == o'.query
    ensures Attempt(UserEvent(host, user, o)) == Attempt(UserEvent(host, user, o'))
  {
  }

  /** Two runs that differ only in publish outcomes are cut at the same place. */
  lemma {:induction false} UntilAbortIgnoresOutcomes(evs: seq<Event>, evs': seq<Event>)
    requires |evs| == |evs'| && forall k :: 0 <= k < |evs| ==> Attempt(evs[k]) == Attempt(evs'[k])
    ensures var t, t' := UntilAbort(evs), UntilAbort(evs');
      |t| == |t'| && forall j :: 0 <= j < |t| ==> Attempt(t[j]) == Attempt(t'[j])
  {
    if evs != [] {
      assert evs[0].Abort? == evs'[0].Abort? by {
        assert Attempt(evs[0]) == Attempt(evs'[0]);
      }
      if !evs[0].Abort? {
        UntilAbortIgnoresOutcomes(evs[1..], evs'[1..]);
        var rest, rest' := UntilAbort(evs[1..]), UntilAbort(evs'[1..]);
        assert UntilAbort(evs) == [evs[0]] + rest;
        assert UntilAbort(evs') == [evs'[0]] + rest';
      }
    }
  }

  /** Adding the flush keeps two runs equal up to publish and flush outcomes. */
  lemma WithFlushIgnoresOutcomes(t: seq<Event>, t': seq<Event>, flushOk: bool, flushOk': bool)
    requires |t| == |t'| && forall j :: 0 <= j < |t| ==> Attempt(t[j]) == Attempt(t'[j])
    ensures var c, c' := WithFlush(t, flushOk), WithFlush(t', flushOk');
      |c| == |c'| && forall j :: 0 <= j < |c| ==> Attempt(c[j]) == Attempt(c'[j])
  {
    if t != [] {
      assert Attempt(t[|t| - 1]) == Attempt(t'[|t| - 1]);
    }
  }

  /**
   * Publish and flush failures are only logged: they change no other event,
   * so the same publishes are attempted in the same order and the flush is
   * still reached.
   */
  lemma OutcomesDoNotSteerCycle(host: string, users: seq<string>, oracle: seq<UserOracle>, oracle': seq<UserOracle>, flushOk: bool, flushOk': bool)
    requires |oracle| == |users| && SameQueries(oracle, oracle')
    ensures var t, t' := CycleTrace(host, users, oracle, flushOk), CycleTrace(host, users, oracle', flushOk');
      |t| == |t'| && forall j :: 0 <= j < |t| ==> Attempt(t[j]) == Attempt(t'[j])
  {
    var evs, evs' := Events(host, users, oracle), Events(host, users, oracle');
    forall k | 0 <= k < |evs| ensures Attempt(evs[k]) == Attempt(evs'[k]) {
      SameQuerySameAttempt(host, users[k], oracle[k], oracle'[k]);
    }
    UntilAbortIgnoresOutcomes(evs, evs');
    WithFlushIgnoresOutcomes(UntilAbort(evs), UntilAbort(evs'), flushOk, flushOk');
  }

  /** The bag the time-accounting service returns in the sample scenario. */
  function SampleBag(): Bag {
    map[KeyLeftDay := Int(3600), KeySpentBalance := Int(0), KeySpentMonth := Int(18000),
        KeySpentWeek := Int(7200), KeySpentDay := Int(3600)]
  }

  /**
   * One user, one cycle, a successful query: one publish to
   * "time.obs.<host>.<user>" carrying the five counters, then one flush.
   */
  lemma SingleUserScenario()
    ensures CycleTrace("h1", ["alice"], [UserOracle(QueryOk(SampleBag()), true)], true) == [
      Publish("time.obs.h1.alice", Encode(Observation(3600, 0, 18000, 7200, 3600)), true),
      Flush(true)]
  {
    var bag := SampleBag();
    assert Extract(bag) == Ok(Observation(3600, 0, 18000, 7200, 3600)) by {
      ExtractOkIff(bag);
      ExtractFieldsExact(bag, Extract(bag).value);
    }
    var oracle := [UserOracle(QueryOk(bag), true)];
    CycleWithoutFailure("h1", ["alice"], oracle, true);
    var t := CycleTrace("h1", ["alice"], oracle, true);
    assert Topic("h1", "alice") == "time.obs.h1.alice";
    assert t[0] == Publish("time.obs.h1.alice", Encode(Observation(3600, 0, 18000, 7200, 3600)), true);
  }

  /**
   * Failures are not isolated per user: with three users whose second query
   * fails, only the first is published, the loop never reaches the third, and
   * the cycle has no flush.
   */
  lemma FailedQueryEndsCycle(bag: Bag)
    requires Extract(bag).Ok?
    ensures var oracle := [UserOracle(QueryOk(bag), true), UserOracle(QueryError, true), UserOracle(QueryOk(bag), true)];
      CycleTrace("h1", ["a", "b", "c"], oracle, true) == [
        Publish("time.obs.h1.a", Encode(Extract(bag).value), true),
        Abort(QueryFailed("b"))]
  {
    var oracle := [UserOracle(QueryOk(bag), true), UserOracle(QueryError, true), UserOracle(QueryOk(bag), true)];
    CycleAbortsAtFirstFailure("h1", ["a", "b", "c"], oracle, true, 1);
    var t := CycleTrace("h1", ["a", "b", "c"], oracle, true);
    assert Topic("h1", "a") == "time.obs.h1.a";
    assert t[0] == Publish("time.obs.h1.a", Encode(Extract(bag).value), true);
  }
}
