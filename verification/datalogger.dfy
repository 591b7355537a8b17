/** The polling engine: one `logData` cycle queries the inverter through a new
    session, moves the four-state machine, adapts the waiting time and decides
    which record, if any, goes to the message bus. */
module DataLogger {
  import opened Text
  import opened Catalog
  import opened Codec
  import opened Communication
  import opened Arith

  datatype LoggerState = Uninitialized | Sleeping | Logging | LoggingLast

  /** The `LOGGER` and `MQTT` settings the cycle reads. `queryList` is the raw
      `LogQueryList` entry. */
  datatype Config = Config(
    stepMin: int,
    stepMax: int,
    testMode: bool,
    topicPrefix: string,
    queryList: string)

  /** A configuration whose backoff window is a non-empty range of positive
      waits. */
  predicate ValidConfig(c: Config) {
    0 < c.stepMin <= c.stepMax
  }

  /** The codes queried every cycle: the whole table for `All`, otherwise the
      comma-separated list as given. Never empty, so `query` always has a
      status to return. */
  function Commands(c: Config): (cmds: seq<string>)
    ensures |cmds| > 0
    ensures c.queryList == "All" ==> cmds == Codes
    ensures c.queryList != "All" ==> Join(cmds, ',') == c.queryList && forall i :: 0 <= i < |cmds| ==> ',' !in cmds[i]
  {
    if c.queryList == "All" then Codes else Split(c.queryList, ',')
  }

  /** The device type every session reports. */
  const DeviceType: string := "sm13MT2"

  /** The mutable part of a `dataLogger`. */
  datatype Logger = Logger(config: Config, waitingTime: int, count: int, state: LoggerState)

  /** A logger as the constructor leaves it. */
  function NewLogger(config: Config): (l: Logger)
    ensures l.config == config && l.state == Uninitialized
    ensures l.waitingTime == config.stepMin && l.count == 0
    ensures ValidConfig(config) ==> Invariant(l)
  {
    Logger(config, config.stepMin, 0, Uninitialized)
  }

  /** What holds of every logger reachable from the constructor: the wait lies
      in the configured window, the test counter in 0..5, and the zero-forced
      state is never current. */
  predicate Invariant(l: Logger) {
    && ValidConfig(l.config)
    && l.config.stepMin <= l.waitingTime <= l.config.stepMax
    && 0 <= l.count <= 5
    && l.state != LoggingLast
  }

  // --------------------------------------------------------------- backoff

  /** `_increase_waiting_time`: double, then cap at the maximum. */
  function IncreaseWaitingTime(w: int, stepMax: int): (w': int)
    ensures w' <= stepMax
    ensures 2 * w <= stepMax ==> w' == 2 * w
    ensures 2 * w > stepMax ==> w' == stepMax
  {
    if 2 * w > stepMax then stepMax else 2 * w
  }

  /** The wait never shrinks on a failure and stays within the window. */
  lemma IncreaseStaysInWindow(stepMin: int, stepMax: int, w: int)
    requires 0 < stepMin <= w <= stepMax
    ensures w <= IncreaseWaitingTime(w, stepMax)
    ensures stepMin <= IncreaseWaitingTime(w, stepMax) <= stepMax
  {
  }

  /** The wait after `n` consecutive failures. */
  function Increases(w: int, stepMax: int, n: nat): int {
    if n == 0 then w else IncreaseWaitingTime(Increases(w, stepMax, n - 1), stepMax)
  }

  function Pow2(n: nat): (p: nat)
    ensures p >= 1
  {
    if n == 0 then 1 else 2 * Pow2(n - 1)
  }

  /** After `n` failures from the minimum the wait is the minimum doubled `n`
      times, or the maximum once that is reached. */
  lemma {:induction false} IncreasesClosedForm(stepMin: int, stepMax: int, n: nat)
    requires 0 < stepMin <= stepMax
    ensures Increases(stepMin, stepMax, n) == Min(stepMin * Pow2(n), stepMax)
  {
    if n > 0 {
      IncreasesClosedForm(stepMin, stepMax, n - 1);
      var p := Pow2(n - 1);
      assert stepMin * Pow2(n) == 2 * (stepMin * p);
      assert p * stepMin >= stepMin by { MulGrows(p, stepMin); }
    }
  }

  /** With a window of 5 to 60 seconds the failures wait 10, 20, 40, 60, 60. */
  lemma BackoffExample()
    ensures Increases(5, 60, 1) == 10
    ensures Increases(5, 60, 2) == 20
    ensures Increases(5, 60, 3) == 40
    ensures Increases(5, 60, 4) == 60
    ensures Increases(5, 60, 5) == 60
  {
  }

  // ------------------------------------------------------------- test mode

  /** `_test_mode`: count the call; from the third call on the status is forced
      to failure, and after the sixth the counter starts over. */
  function TestMode(count: int, status: bool): (r: (int, bool))
    ensures r.1 ==> status
    ensures count + 1 <= 2 ==> r == (count + 1, status)
    ensures count + 1 > 2 ==> !r.1
    ensures 0 <= count <= 5 ==> r.0 == (count + 1) % 6
  {
    var c := count + 1;
    if c > 2 then (if c > 5 then 0 else c, false) else (c, status)
  }

  /** Test mode applied to a run of query results. */
  function TestModeRun(count: int, statuses: seq<bool>): (r: (int, seq<bool>))
    ensures |r.1| == |statuses|
    decreases |statuses|
  {
    if |statuses| == 0 then (count, [])
    else
      var step := TestMode(count, statuses[0]);
      var rest := TestModeRun(step.0, statuses[1..]);
      (rest.0, [step.1] + rest.1)
  }

  /** From any counter value in 0..5 the forced pattern repeats every six
      calls: a call passes its status through exactly when it is among the
      first two of its group of six. */
  lemma {:induction false} TestModePattern(count: int, statuses: seq<bool>)
    requires 0 <= count <= 5
    ensures TestModeRun(count, statuses).0 == (count + |statuses|) % 6
    ensures forall i :: 0 <= i < |statuses| ==>
      TestModeRun(count, statuses).1[i] == (statuses[i] && (count + i) % 6 < 2)
    decreases |statuses|
  {
    if |statuses| > 0 {
      var step := TestMode(count, statuses[0]);
      TestModePattern(step.0, statuses[1..]);
      var run := TestModeRun(count, statuses);
      var rest := TestModeRun(step.0, statuses[1..]);
      forall i | 0 <= i < |statuses|
        ensures run.1[i] == (statuses[i] && (count + i) % 6 < 2)
      {
        if i > 0 {
          assert run.1[i] == rest.1[i - 1];
          assert statuses[1..][i - 1] == statuses[i];
          assert (step.0 + (i - 1)) % 6 == (count + i) % 6;
        }
      }
    }
  }

  /** Six calls from a fresh counter: pass, pass, then four forced failures,
      and the counter is back at zero. */
  lemma TestModeSixCalls(s: seq<bool>)
    requires |s| == 6
    ensures TestModeRun(0, s) == (0, [s[0], s[1], false, false, false, false])
  {
    TestModePattern(0, s);
    var r := TestModeRun(0, s);
    assert r.1[0] == s[0] && r.1[1] == s[1];
    assert !r.1[2] && !r.1[3] && !r.1[4] && !r.1[5];
    assert r.1 == [s[0], s[1], false, false, false, false];
  }

  // ------------------------------------------------------- state transition

  /** The state update of `_query`. On failure the two checks run one after
      the other, so a logger that was logging passes through the zero-forced
      state and lands in sleeping within the same call. */
  function NextState(state: LoggerState, status: bool): (s: LoggerState)
    ensures status ==> s == Logging
    ensures !status ==> s == Sleeping
  {
    if status then Logging
    else
      var marked := if state == Logging then LoggingLast else state;
      if marked == Uninitialized || marked == LoggingLast then Sleeping
      else assert marked.Sleeping?; marked
  }

  /** The status `_query` acts on: the query's own, filtered by test mode
      when that is on. */
  function Effective(l: Logger, queried: bool): (r: (int, bool))
    ensures r.1 ==> queried
    ensures !l.config.testMode ==> r == (l.count, queried)
    ensures l.config.testMode ==> r == TestMode(l.count, queried)
  {
    if l.config.testMode then TestMode(l.count, queried) else (l.count, queried)
  }

  /** `_query` after `con.query` returned `queried`. */
  function Poll(l: Logger, queried: bool): (r: Logger)
    ensures r.config == l.config
    ensures r.count == Effective(l, queried).0
    ensures r.state == if Effective(l, queried).1 then Logging else Sleeping
    ensures r.state != LoggingLast
    ensures Effective(l, queried).1 ==> r.waitingTime == l.config.stepMin
    ensures !Effective(l, queried).1 ==> r.waitingTime == IncreaseWaitingTime(l.waitingTime, l.config.stepMax)
    ensures Invariant(l) ==> Invariant(r)
  {
    var e := Effective(l, queried);
    var w := if e.1 then l.config.stepMin else IncreaseWaitingTime(l.waitingTime, l.config.stepMax);
    Logger(l.config, w, e.0, NextState(l.state, e.1))
  }

  /** Test mode on a fresh counter with an inverter that always answers: two
      cycles log, the next four sleep, and the counter is back at zero. */
  lemma TestModeSixPolls(l: Logger)
    requires l.config.testMode && l.count == 0
    ensures var l1 := Poll(l, true);
      var l2 := Poll(l1, true);
      var l3 := Poll(l2, true);
      var l4 := Poll(l3, true);
      var l5 := Poll(l4, true);
      var l6 := Poll(l5, true);
      && l1.state == Logging && l2.state == Logging
      && l3.state == Sleeping && l4.state == Sleeping
      && l5.state == Sleeping && l6.state == Sleeping
      && l6.count == 0
  {
  }

  /** Consecutive polls. */
  function Polls(l: Logger, results: seq<bool>): Logger
    decreases |results|
  {
    if |results| == 0 then l else Polls(Poll(l, results[0]), results[1..])
  }

  /** However the queries turn out, the logger keeps its invariant; in
      particular no cycle ever starts or ends in the zero-forced state. */
  lemma {:induction false} PollsKeepInvariant(l: Logger, results: seq<bool>)
    requires Invariant(l)
    ensures Invariant(Polls(l, results))
    decreases |results|
  {
    if |results| > 0 {
      PollsKeepInvariant(Poll(l, results[0]), results[1..]);
    }
  }

  /** Outside test mode, `n` failures after starting up leave the wait at the
      minimum doubled `n` times, capped at the maximum. */
  lemma {:induction false} FailuresBackOff(l: Logger, n: nat)
    requires !l.config.testMode && ValidConfig(l.config)
    requires l.waitingTime == l.config.stepMin
    ensures Polls(l, seq(n, _ => false)).waitingTime == Min(l.config.stepMin * Pow2(n), l.config.stepMax)
  {
    FailureWaits(l, n);
    IncreasesClosedForm(l.config.stepMin, l.config.stepMax, n);
  }

  lemma {:induction false} FailureWaits(l: Logger, n: nat)
    requires !l.config.testMode
    ensures Polls(l, seq(n, _ => false)).waitingTime == Increases(l.waitingTime, l.config.stepMax, n)
    ensures Polls(l, seq(n, _ => false)).config == l.config
    decreases n
  {
    if n > 0 {
      var next := Poll(l, false);
      assert seq(n, _ => false)[1..] == seq(n - 1, _ => false);
      FailureWaits(next, n - 1);
      IncreasesShift(l.waitingTime, l.config.stepMax, n);
    }
  }

  /** The `n` failures can be counted from the front. */
  lemma {:induction false} IncreasesShift(w: int, stepMax: int, n: nat)
    requires n > 0
    ensures Increases(w, stepMax, n) == Increases(IncreaseWaitingTime(w, stepMax), stepMax, n - 1)
  {
    if n > 1 {
      IncreasesShift(w, stepMax, n - 1);
    }
  }

  // --------------------------------------------------------------- emission

  /** A message for the bus: topic and record. */
  datatype Emission = Emission(topic: string, record: Snapshot)

  /** The marker added to a record sent as received. */
  const Unmodified: Field := Field(Number(0.0), "non modified")

  /** The marker added to a zero-forced record. */
  const ForcedToZero: Field := Field(Number(1.0), "momentaries forced to zero")

  /** The value `_forceZero` leaves under `k`, the timestamp overwrite aside. */
  function ZeroedValue(k: string, v: FieldValue, clearDailys: bool): FieldValue {
    if k in Momentaries || (clearDailys && k in Dailys) then Number(0.0) else v
  }

  /** `_forceZero`. A present overwrite stands for a truthy argument. */
  function ForceZero(data: Snapshot, clearDailys: bool, sdatOverwrite: Option<FieldValue>): (r: Snapshot)
    ensures r.Keys == data.Keys
    ensures forall k :: k in data ==> r[k].description == data[k].description
    ensures forall k :: k in data && k in Momentaries ==> r[k].value == Number(0.0)
    ensures forall k :: k in data && k in Dailys ==> r[k].value == if clearDailys then Number(0.0) else data[k].value
    ensures "SDAT" in data ==> r["SDAT"].value == if sdatOverwrite.Some? then sdatOverwrite.value else data["SDAT"].value
    ensures forall k :: k in data && k !in Momentaries && k !in Dailys && k != "SDAT" ==> r[k] == data[k]
  {
    DailysAreScaled();
    var zeroed := map k | k in data :: Field(ZeroedValue(k, data[k].value, clearDailys), data[k].description);
    if sdatOverwrite.Some? && "SDAT" in zeroed then
      zeroed["SDAT" := Field(sdatOverwrite.value, zeroed["SDAT"].description)]
    else zeroed
  }

  /** Forcing to zero a second time with the same arguments changes nothing. */
  lemma ForceZeroIdempotent(data: Snapshot, clearDailys: bool, sdatOverwrite: Option<FieldValue>)
    ensures ForceZero(ForceZero(data, clearDailys, sdatOverwrite), clearDailys, sdatOverwrite)
      == ForceZero(data, clearDailys, sdatOverwrite)
  {
    DailysAreScaled();
    var once := ForceZero(data, clearDailys, sdatOverwrite);
    var twice := ForceZero(once, clearDailys, sdatOverwrite);
    forall k | k in once ensures twice[k] == once[k] {
      if k == "SDAT" {
      } else if k in Momentaries {
      } else if k in Dailys {
      }
    }
  }

  /** `m` goes to `topic` and carries `snap` with the modification marker
      `MOD` set to `marker`. */
  predicate Publishes(m: Emission, topic: string, snap: Snapshot, marker: Field) {
    && m.topic == topic
    && m.record.Keys == snap.Keys + {"MOD"}
    && m.record["MOD"] == marker
    && forall k :: k in snap && k != "MOD" ==> m.record[k] == snap[k]
  }

  /** What `logData` sends in the state the query left behind: the snapshot
      as received in `Logging`, the previous snapshot forced to zero in
      `LoggingLast`, nothing otherwise. */
  function Emit(state: LoggerState, session: Session, topic: string): (m: Option<Emission>)
    ensures m.Some? <==> state == Logging || state == LoggingLast
    ensures m.Some? ==> m.value.topic == topic
    ensures state == Logging ==> Publishes(m.value, topic, session.decoded, Unmodified)
    ensures state == LoggingLast ==>
      && m.value.record.Keys == session.decodedLast.Keys + {"MOD"}
      && m.value.record["MOD"] == ForcedToZero
      && forall k :: k in session.decodedLast && k in Momentaries ==> m.value.record[k].value == Number(0.0)
    ensures state == LoggingLast ==>
      m.value.record == ForceZero(session.decodedLast, false, None)["MOD" := ForcedToZero]
  {
    match state
    case Logging => Some(Emission(topic, session.decoded["MOD" := Unmodified]))
    case LoggingLast =>
      Some(Emission(topic, ForceZero(session.decodedLast, false, None)["MOD" := ForcedToZero]))
    case _ => None
  }

  /** One `logData` cycle: the result of the fresh session's query, the
      logger afterwards, and the message sent, if any. */
  datatype Cycle = Cycle(query: QueryResult, logger: Logger, emitted: Option<Emission>)

  /** The topic records go to. */
  function Topic(c: Config): string {
    c.topicPrefix + "-" + DeviceType
  }

  /** The part of `logData` after the query: `_query`'s update of the logger
      for the query's status, then what the new state publishes. */
  function Respond(l: Logger, q: QueryResult): (c: Cycle)
    ensures c.query == q
    ensures c.logger == Poll(l, q.ok)
    ensures c.logger.state == if Effective(l, q.ok).1 then Logging else Sleeping
    ensures !l.config.testMode ==> (c.logger.state == Logging <==> q.ok)
    ensures c.emitted.Some? <==> c.logger.state == Logging
    ensures c.emitted.Some? ==> Publishes(c.emitted.value, Topic(l.config), q.session.decoded, Unmodified)
    ensures Invariant(l) ==> Invariant(c.logger)
  {
    var next := Poll(l, q.ok);
    Cycle(q, next, Emit(next.state, q.session, Topic(l.config)))
  }

  /** `logData`. The session is new each cycle: `connected` is whether its
      constructor reached the inverter and `replies` are the socket's answers,
      one per chunk of twenty codes. */
  function LogData(l: Logger, connected: bool, replies: seq<Reply>): (c: Cycle)
    requires |replies| == |Chunk(Commands(l.config), 20)|
    ensures c.query == Query(NewSession(connected), Commands(l.config), replies)
    ensures c.logger == Poll(l, c.query.ok)
    ensures c.query.session.decodedLast == map[]
    ensures c.logger.state == if Effective(l, c.query.ok).1 then Logging else Sleeping
    ensures !l.config.testMode ==> (c.logger.state == Logging <==> c.query.ok)
    ensures c.emitted.Some? <==> c.logger.state == Logging
    ensures c.emitted.Some? ==> Publishes(c.emitted.value, Topic(l.config), c.query.session.decoded, Unmodified)
    ensures Invariant(l) ==> Invariant(c.logger)
  {
    Respond(l, Query(NewSession(connected), Commands(l.config), replies))
  }

  /** Two cycles without a connection starting from `Logging`: both end
      sleeping and neither sends anything, so the zero-forced record the
      `LoggingLast` branch would build is never published. */
  lemma TwoFailuresFromLogging(l: Logger, first: seq<Reply>, second: seq<Reply>)
    requires l.state == Logging
    requires |first| == |Chunk(Commands(l.config), 20)| == |second|
    ensures LogData(l, false, first).logger.state == Sleeping
    ensures LogData(l, false, first).emitted.None?
    ensures LogData(LogData(l, false, first).logger, false, second).logger.state == Sleeping
    ensures LogData(LogData(l, false, first).logger, false, second).emitted.None?
  {
    var c := LogData(l, false, first);
    assert c.logger.config == l.config;
  }
}
