/** The actuator controller: the move loop that commands a target position
    until the desk reaches it or stalls, and the status loop. The USB device
    is abstracted as the finite sequence of raw status reports it would
    return, one per status request; what the controller sends and receives
    is recorded as a trace of events. */
module Controller {
  import opened Reports

  /** The number of no-progress readings the move loop tolerates. */
  const RetryBudget: int := 3

  /** One exchange with the device. */
  datatype Event = Sent(report: seq<byte>) | Received(report: seq<byte>)

  /** How a move ends. `ReadingsExhausted` stands for a device that gives no
      further reading (the source would block or keep going). */
  datatype MoveOutcome = Reached | Stalled | ReadingsExhausted | Malformed

  datatype Run = Run(outcome: MoveOutcome, trace: seq<Event>)

  /** What one round of the move loop decides after its status read. */
  datatype Step = Stop(outcome: MoveOutcome) | Continue(retries: int, previous: int)

  /** The decision on one raw reading, with `retries` left and the last
      reading `previous`: stop on a malformed report or on the target;
      otherwise a reading equal to the previous one spends a retry, and the
      loop stops when none is left. */
  function RoundStep(target: nat, raw: seq<byte>, retries: int, previous: int): Step {
    match DecodeStatus(raw)
    case Err(_) => Stop(Malformed)
    case Ok(report) =>
      if report.position == target then Stop(Reached)
      else
        var retries' := if previous == report.position then retries - 1 else retries;
        if retries' == 0 then Stop(Stalled) else Continue(retries', report.position)
  }

  /** The move loop from a state with `retries` left and the last reading
      `previous`, against the remaining device readings. Each round sends
      the move command and reads one status report. */
  function MoveFrom(target: nat, readings: seq<seq<byte>>, retries: int, previous: int): (r: Run)
    requires target < 0x1_0000
    ensures 1 <= |r.trace| <= 2 * |readings| + 1
    ensures r.outcome == ReadingsExhausted <==> |r.trace| == 2 * |readings| + 1
    ensures r.outcome != ReadingsExhausted ==> |r.trace| % 2 == 0
    decreases |readings|
  {
    var command := Sent(MoveReport(target));
    if readings == [] then Run(ReadingsExhausted, [command])
    else
      var round := [command, Received(readings[0])];
      match RoundStep(target, readings[0], retries, previous)
      case Stop(outcome) => Run(outcome, round)
      case Continue(retries', previous') =>
        var rest := MoveFrom(target, readings[1..], retries', previous');
        Run(rest.outcome, round + rest.trace)
  }

  /** The move loop from its initial state: three retries, previous position 0. */
  function MoveSpec(target: nat, readings: seq<seq<byte>>): Run
    requires target < 0x1_0000
  {
    MoveFrom(target, readings, RetryBudget, 0)
  }

  /** The number of status reports a run read. */
  function ReadCount(r: Run): nat {
    |r.trace| / 2
  }

  lemma AppendAssoc<T>(a: seq<T>, b: seq<T>, c: seq<T>)
    ensures (a + b) + c == a + (b + c)
  {
  }

  /** One round of the move loop, unfolded. */
  lemma MoveFromRound(target: nat, pending: seq<seq<byte>>, retries: int, previous: int)
    requires target < 0x1_0000 && pending != []
    ensures var r := MoveFrom(target, pending, retries, previous);
      var round := [Sent(MoveReport(target)), Received(pending[0])];
      match RoundStep(target, pending[0], retries, previous)
      case Stop(outcome) => r == Run(outcome, round)
      case Continue(retries', previous') =>
        var rest := MoveFrom(target, pending[1..], retries', previous');
        r == Run(rest.outcome, round + rest.trace)
  {
  }

  /** The move loop. The device's readings are consumed from the front of
      `pending`, one per status request. */
  method Move(target: nat, readings: seq<seq<byte>>) returns (outcome: MoveOutcome, trace: seq<Event>)
    requires target < 0x1_0000
    ensures Run(outcome, trace) == MoveSpec(target, readings)
  {
    ghost var spec := MoveSpec(target, readings);
    var retryCount := RetryBudget;
    var previousPosition := 0;
    var pending := readings;
    trace := [];
    while true
      invariant var r := MoveFrom(target, pending, retryCount, previousPosition);
        r.outcome == spec.outcome && trace + r.trace == spec.trace
      invariant 0 < retryCount <= RetryBudget && 0 <= previousPosition < 0x1_0000
      decreases |pending|
    {
      ghost var before := trace;
      var command := EncodeMove(target);
      trace := trace + [Sent(command)];
      if pending == [] {
        outcome := ReadingsExhausted;
        return;
      }
      MoveFromRound(target, pending, retryCount, previousPosition);
      ghost var step := RoundStep(target, pending[0], retryCount, previousPosition);
      var raw := pending[0];
      pending := pending[1..];
      trace := trace + [Received(raw)];
      ghost var round := [Sent(command), Received(raw)];
      assert trace == before + round;
      var status := DecodeStatus(raw);
      if status.Err? {
        outcome := Malformed;
        return;
      }
      var report := status.value;
      if report.position == target {
        outcome := Reached;
        return;
      }
      if previousPosition == report.position {
        retryCount := retryCount - 1;
      }
      previousPosition := report.position;
      if retryCount == 0 {
        outcome := Stalled;
        return;
      }
      assert step == Continue(retryCount, previousPosition);
      AppendAssoc(before, round, MoveFrom(target, pending, retryCount, previousPosition).trace);
    }
  }

  /** Event `k` of a run: even events are the move command for the target,
      odd event `2j + 1` is the receipt of reading `j`. */
  lemma {:induction false} MoveTraceAt(target: nat, readings: seq<seq<byte>>, retries: int, previous: int, k: nat)
    requires target < 0x1_0000
    requires k < |MoveFrom(target, readings, retries, previous).trace|
    ensures k % 2 == 1 ==> k / 2 < |readings|
    ensures MoveFrom(target, readings, retries, previous).trace[k]
            == if k % 2 == 0 then Sent(MoveReport(target)) else Received(readings[k / 2])
  {
    var r := MoveFrom(target, readings, retries, previous);
    if readings != [] {
      MoveFromRound(target, readings, retries, previous);
    }
    if k >= 2 {
      var step := RoundStep(target, readings[0], retries, previous);
      var rest := MoveFrom(target, readings[1..], step.retries, step.previous);
      assert r.trace == [Sent(MoveReport(target)), Received(readings[0])] + rest.trace;
      MoveTraceAt(target, readings[1..], step.retries, step.previous, k - 2);
      assert r.trace[k] == rest.trace[k - 2];
    }
  }

  /** Every round sends exactly one move command for the target, and then
      reads exactly one status report, the readings being taken in order. */
  lemma MoveSendsOneCommandPerRead(target: nat, readings: seq<seq<byte>>)
    requires target < 0x1_0000
    ensures var t := MoveSpec(target, readings).trace;
      forall k :: 0 <= k < |t| ==>
        (k % 2 == 0 ==> t[k] == Sent(MoveReport(target))) &&
        (k % 2 == 1 ==> k / 2 < |readings| && t[k] == Received(readings[k / 2]))
  {
    var t := MoveSpec(target, readings).trace;
    forall k | 0 <= k < |t|
      ensures k % 2 == 0 ==> t[k] == Sent(MoveReport(target))
      ensures k % 2 == 1 ==> k / 2 < |readings| && t[k] == Received(readings[k / 2])
    {
      MoveTraceAt(target, readings, RetryBudget, 0, k);
    }
  }

  /** What each outcome says about the last reading, and that every reading
      before the last one decoded to a position other than the target. A run
      ends `Malformed` exactly when the last report it read is too short;
      the reports of every other run all decode. */
  lemma {:induction false} MoveOutcomeSound(target: nat, readings: seq<seq<byte>>, retries: int, previous: int)
    requires target < 0x1_0000
    ensures var r := MoveFrom(target, readings, retries, previous);
      var n := ReadCount(r);
      && n <= |readings|
      && (r.outcome == ReadingsExhausted ==> n == |readings|)
      && (r.outcome == Malformed <==> 0 < n && |readings[n - 1]| < 7)
      && (r.outcome != Malformed ==> forall k :: 0 <= k < n ==> |readings[k]| >= 7)
      && (r.outcome == ReadingsExhausted ==> forall k :: 0 <= k < n ==>
            DecodeStatus(readings[k]).Ok? && DecodeStatus(readings[k]).value.position != target)
      && (r.outcome == Reached ==>
            0 < n && DecodeStatus(readings[n - 1]).Ok? && DecodeStatus(readings[n - 1]).value.position == target)
      && (r.outcome == Stalled ==>
            0 < n && DecodeStatus(readings[n - 1]).Ok? && DecodeStatus(readings[n - 1]).value.position != target)
      && (forall k :: 0 <= k < n - 1 ==>
            DecodeStatus(readings[k]).Ok? && DecodeStatus(readings[k]).value.position != target)
  {
    var r := MoveFrom(target, readings, retries, previous);
    if readings != [] {
      MoveFromRound(target, readings, retries, previous);
    }
    if readings != [] && RoundStep(target, readings[0], retries, previous).Continue? {
      var step := RoundStep(target, readings[0], retries, previous);
      var rest := MoveFrom(target, readings[1..], step.retries, step.previous);
      MoveOutcomeSound(target, readings[1..], step.retries, step.previous);
      assert r.trace == [Sent(MoveReport(target)), Received(readings[0])] + rest.trace;
      assert ReadCount(r) == ReadCount(rest) + 1;
      forall k | 0 <= k < ReadCount(r)
        ensures 0 < k ==> readings[k] == readings[1..][k - 1]
      {
      }
    }
  }

  // ---- Characterising when the loop stops, in terms of decoded positions ----

  ghost predicate WellFormed(readings: seq<seq<byte>>) {
    forall k :: 0 <= k < |readings| ==> |readings[k]| >= 7
  }

  /** The decoded positions of well-formed readings. */
  function Positions(readings: seq<seq<byte>>): (ps: seq<nat>)
    requires WellFormed(readings)
    ensures |ps| == |readings|
    ensures forall k :: 0 <= k < |ps| ==> DecodeStatus(readings[k]).Ok? && ps[k] == DecodeStatus(readings[k]).value.position
  {
    seq(|readings|, k requires 0 <= k < |readings| => DecodeStatus(readings[k]).value.position)
  }

  /** The decoded positions of rounds 0..n, when those readings decode. */
  ghost function ReadPositions(readings: seq<seq<byte>>, n: nat): (ps: seq<nat>)
    requires n < |readings| && WellFormed(readings[..n + 1])
    ensures |ps| == n + 1
  {
    Positions(readings[..n + 1])
  }

  /** How many readings equal the reading before them, the first one being
      compared with `previous`. */
  function Repeats(previous: int, ps: seq<int>): nat
    decreases |ps|
  {
    if ps == [] then 0
    else (if ps[0] == previous then 1 else 0) + Repeats(ps[0], ps[1..])
  }

  /** Round `k` ends the loop: its reading is the target, or it is the
      repeat that uses up the retry budget. */
  ghost predicate StopsAt(target: int, ps: seq<int>, retries: int, previous: int, k: nat)
    requires k < |ps|
  {
    ps[k] == target || Repeats(previous, ps[..k + 1]) == retries
  }

  lemma RepeatsShift(previous: int, ps: seq<int>, k: nat)
    requires k < |ps|
    ensures Repeats(previous, ps[..k + 1])
            == (if ps[0] == previous then 1 else 0) + Repeats(ps[0], ps[1..][..k])
  {
    assert ps[..k + 1][1..] == ps[1..][..k];
  }

  /** Round `k + 1` from the current state is round `k` from the next one. */
  lemma StopsAtShift(target: int, ps: seq<int>, retries: int, previous: int, k: nat)
    requires k + 1 < |ps|
    ensures StopsAt(target, ps, retries, previous, k + 1)
            == StopsAt(target, ps[1..], if ps[0] == previous then retries - 1 else retries, ps[0], k)
  {
    RepeatsShift(previous, ps, k + 1);
  }

  lemma PositionsShift(readings: seq<seq<byte>>)
    requires WellFormed(readings) && readings != []
    ensures WellFormed(readings[1..]) && Positions(readings[1..]) == Positions(readings)[1..]
  {
    assert WellFormed(readings[1..]) by {
      forall k | 0 <= k < |readings[1..]| ensures |readings[1..][k]| >= 7 {
        assert readings[1..][k] == readings[k + 1];
      }
    }
    var a, b := Positions(readings[1..]), Positions(readings)[1..];
    forall k | 0 <= k < |a| ensures a[k] == b[k] {
      assert readings[1..][k] == readings[k + 1];
    }
  }

  /** One round of the move loop on a reading that decodes, in terms of its position. */
  lemma MoveFromPositionRound(target: nat, readings: seq<seq<byte>>, retries: int, previous: int)
    requires target < 0x1_0000 && readings != [] && |readings[0]| >= 7
    ensures var p := DecodeStatus(readings[0]).value.position;
      var retries' := if previous == p then retries - 1 else retries;
      var r := MoveFrom(target, readings, retries, previous);
      var rest := MoveFrom(target, readings[1..], retries', p);
      && (p == target ==> r.outcome == Reached && ReadCount(r) == 1)
      && (p != target && retries' == 0 ==> r.outcome == Stalled && ReadCount(r) == 1)
      && (p != target && retries' != 0 ==> r.outcome == rest.outcome && ReadCount(r) == ReadCount(rest) + 1)
  {
    MoveFromRound(target, readings, retries, previous);
  }

  /** The loop never looks past the reading it stops on: a run that stops
      within the first `m` readings is the whole run. */
  lemma {:induction false} MoveFromPrefix(target: nat, readings: seq<seq<byte>>, retries: int, previous: int, m: nat)
    requires target < 0x1_0000 && m <= |readings|
    requires MoveFrom(target, readings[..m], retries, previous).outcome != ReadingsExhausted
    ensures MoveFrom(target, readings, retries, previous) == MoveFrom(target, readings[..m], retries, previous)
  {
    var pre := readings[..m];
    if m > 0 {
      assert pre[0] == readings[0];
      MoveFromRound(target, readings, retries, previous);
      MoveFromRound(target, pre, retries, previous);
      var step := RoundStep(target, readings[0], retries, previous);
      if step.Continue? {
        assert readings[1..][..m - 1] == pre[1..];
        MoveFromPrefix(target, readings[1..], step.retries, step.previous, m - 1);
      }
    }
  }

  /** The loop stops exactly at the first round that reaches the target or
      spends the last retry, with `Reached` in the first case and `Stalled`
      in the second, after that many reads. Only the readings up to that
      round need to decode; what the device would report later is never read. */
  lemma {:induction false} MoveStopsAtFirstStop(target: nat, readings: seq<seq<byte>>, retries: int, previous: int, n: nat)
    requires target < 0x1_0000 && n < |readings| && WellFormed(readings[..n + 1])
    requires StopsAt(target, ReadPositions(readings, n), retries, previous, n)
    requires forall k :: 0 <= k < n ==> !StopsAt(target, ReadPositions(readings, n), retries, previous, k)
    ensures MoveFrom(target, readings, retries, previous).outcome
            == if ReadPositions(readings, n)[n] == target then Reached else Stalled
    ensures ReadCount(MoveFrom(target, readings, retries, previous)) == n + 1
  {
    var pre := readings[..n + 1];
    var ps := Positions(pre);
    assert pre[0] == readings[0];
    RepeatsShift(previous, ps, 0);
    assert ps[1..][..0] == [];
    var retries' := if previous == ps[0] then retries - 1 else retries;
    MoveFromPositionRound(target, readings, retries, previous);
    if n > 0 {
      assert !StopsAt(target, ps, retries, previous, 0);
      PositionsShift(pre);
      assert readings[1..][..n] == pre[1..];
      var ps' := Positions(pre[1..]);
      forall k | 0 <= k < n
        ensures StopsAt(target, ps, retries, previous, k + 1) == StopsAt(target, ps', retries', ps[0], k)
      {
        StopsAtShift(target, ps, retries, previous, k);
      }
      MoveStopsAtFirstStop(target, readings[1..], retries', ps[0], n - 1);
    }
  }

  /** When no round stops the loop, it uses up every reading. */
  lemma {:induction false} MoveRunsOutWithoutStop(target: nat, readings: seq<seq<byte>>, retries: int, previous: int)
    requires target < 0x1_0000 && WellFormed(readings)
    requires forall k :: 0 <= k < |readings| ==> !StopsAt(target, Positions(readings), retries, previous, k)
    ensures MoveFrom(target, readings, retries, previous).outcome == ReadingsExhausted
    ensures ReadCount(MoveFrom(target, readings, retries, previous)) == |readings|
  {
    if readings != [] {
      var ps := Positions(readings);
      RepeatsShift(previous, ps, 0);
      assert ps[1..][..0] == [];
      assert !StopsAt(target, ps, retries, previous, 0);
      var retries' := if previous == ps[0] then retries - 1 else retries;
      MoveFromPositionRound(target, readings, retries, previous);
      PositionsShift(readings);
      var ps' := Positions(readings[1..]);
      forall k | 0 <= k < |ps'|
        ensures !StopsAt(target, ps', retries', ps[0], k)
      {
        assert !StopsAt(target, ps, retries, previous, k + 1);
        StopsAtShift(target, ps, retries, previous, k);
      }
      MoveRunsOutWithoutStop(target, readings[1..], retries', ps[0]);
    }
  }

  /** A short report read before any round stops the loop ends it: the run
      is `Malformed` after reading that report (the source's IndexError). */
  lemma {:induction false} MalformedAtFirstShort(target: nat, readings: seq<seq<byte>>, retries: int, previous: int, m: nat)
    requires target < 0x1_0000 && m < |readings| && WellFormed(readings[..m]) && |readings[m]| < 7
    requires forall k :: 0 <= k < m ==> !StopsAt(target, Positions(readings[..m]), retries, previous, k)
    ensures MoveFrom(target, readings, retries, previous).outcome == Malformed
    ensures ReadCount(MoveFrom(target, readings, retries, previous)) == m + 1
  {
    MoveFromRound(target, readings, retries, previous);
    if m > 0 {
      var pre := readings[..m];
      var ps := Positions(pre);
      assert pre[0] == readings[0];
      RepeatsShift(previous, ps, 0);
      assert ps[1..][..0] == [];
      assert !StopsAt(target, ps, retries, previous, 0);
      var retries' := if previous == ps[0] then retries - 1 else retries;
      MoveFromPositionRound(target, readings, retries, previous);
      PositionsShift(pre);
      assert readings[1..][..m - 1] == pre[1..];
      var ps' := Positions(pre[1..]);
      forall k | 0 <= k < m - 1
        ensures !StopsAt(target, ps', retries', ps[0], k)
      {
        assert !StopsAt(target, ps, retries, previous, k + 1);
        StopsAtShift(target, ps, retries, previous, k);
      }
      MalformedAtFirstShort(target, readings[1..], retries', ps[0], m - 1);
    }
  }

  lemma {:induction false} RepeatsOfConstant(previous: int, ps: seq<int>, c: int)
    requires forall k :: 0 <= k < |ps| ==> ps[k] == c
    ensures Repeats(previous, ps) == if ps != [] && c != previous then |ps| - 1 else |ps|
    decreases |ps|
  {
    if ps != [] {
      RepeatsOfConstant(c, ps[1..], c);
    }
  }

  /** A desk that never moves from `c`, away from the target, stalls: after
      four rounds, or after three when `c` is 0 (the initial previous
      position, so that the first reading already counts as a repeat).
      Only the readings of those rounds matter. */
  lemma ConstantReadingStalls(target: nat, readings: seq<seq<byte>>, c: nat)
    requires target < 0x1_0000 && c != target
    requires |readings| >= (if c == 0 then 3 else 4)
    requires var rounds := if c == 0 then 3 else 4;
      WellFormed(readings[..rounds]) && forall k :: 0 <= k < rounds ==> Positions(readings[..rounds])[k] == c
    ensures MoveSpec(target, readings).outcome == Stalled
    ensures ReadCount(MoveSpec(target, readings)) == if c == 0 then 3 else 4
  {
    var n := if c == 0 then 2 else 3;
    var ps := ReadPositions(readings, n);
    forall m | 1 <= m <= n + 1
      ensures Repeats(0, ps[..m]) == if c == 0 then m else m - 1
    {
      RepeatsOfConstant(0, ps[..m], c);
    }
    MoveStopsAtFirstStop(target, readings, RetryBudget, 0, n);
  }

  function Distance(a: int, b: int): nat {
    if a >= b then a - b else b - a
  }

  lemma {:induction false} RepeatsAtMostFirst(previous: int, ps: seq<int>)
    requires forall k :: 0 < k < |ps| ==> ps[k] != ps[k - 1]
    ensures Repeats(previous, ps) <= 1
    ensures ps != [] && ps[0] != previous ==> Repeats(previous, ps) == 0
    decreases |ps|
  {
    if ps != [] {
      RepeatsAtMostFirst(ps[0], ps[1..]);
    }
  }

  lemma {:induction false} ApproachingNotYet(ps: seq<int>, target: int, n: nat, k: nat)
    requires k <= n < |ps|
    requires forall j :: 0 < j <= n ==> Distance(ps[j], target) < Distance(ps[j - 1], target)
    ensures Distance(ps[k], target) >= Distance(ps[n], target) + (n - k)
    decreases n - k
  {
    if k < n {
      ApproachingNotYet(ps, target, n, k + 1);
    }
  }

  /** Convergence: while every reading is strictly closer to the target than
      the one before, the loop does not give up, and it reports `Reached` in
      the round whose reading is the target. */
  lemma ApproachingReachesTarget(target: nat, readings: seq<seq<byte>>, n: nat)
    requires target < 0x1_0000 && n < |readings| && WellFormed(readings[..n + 1])
    requires ReadPositions(readings, n)[n] == target
    requires forall j :: 0 < j <= n ==>
      Distance(ReadPositions(readings, n)[j], target) < Distance(ReadPositions(readings, n)[j - 1], target)
    ensures MoveSpec(target, readings).outcome == Reached
    ensures ReadCount(MoveSpec(target, readings)) == n + 1
  {
    var ps := ReadPositions(readings, n);
    forall k | 0 <= k < n
      ensures !StopsAt(target, ps, RetryBudget, 0, k)
    {
      ApproachingNotYet(ps, target, n, k);
      RepeatsAtMostFirst(0, ps[..k + 1]);
    }
    MoveStopsAtFirstStop(target, readings, RetryBudget, 0, n);
  }

  // ---- The status loop ----

  /** How the status loop ends: after its single reading, because the device
      gave no further reading (the stand-in for the user's interrupt), or on
      a report too short to decode. */
  datatype PollEnd = Done | Stopped | Failed

  /** The status loop: read and decode reports, once or, with `loop`, until
      stopped. `requests` is the number of status requests made. */
  method GetPosition(loop: bool, readings: seq<seq<byte>>) returns (reports: seq<StatusReport>, requests: nat, end: PollEnd)
    ensures requests <= |readings|
    ensures |reports| == if end == Failed then requests - 1 else requests
    ensures forall k :: 0 <= k < |reports| ==> DecodeStatus(readings[k]) == Ok(reports[k])
    ensures end == Failed ==> 0 < requests && |readings[requests - 1]| < 7
    ensures end == Stopped ==> requests == |readings|
    ensures end == Done ==> !loop && requests == 1
    ensures !loop ==> requests == if readings == [] then 0 else 1
    ensures !loop && readings != [] && |readings[0]| >= 7 ==> end == Done
    ensures loop && WellFormed(readings) ==> end == Stopped && |reports| == |readings|
  {
    reports := [];
    requests := 0;
    while true
      invariant requests <= |readings| && |reports| == requests
      invariant forall k :: 0 <= k < requests ==> DecodeStatus(readings[k]) == Ok(reports[k])
      invariant !loop ==> requests == 0
      decreases |readings| - requests
    {
      if requests == |readings| {
        end := Stopped;
        return;
      }
      var status := DecodeStatus(readings[requests]);
      requests := requests + 1;
      if status.Err? {
        end := Failed;
        return;
      }
      reports := reports + [status.value];
      if !loop {
        end := Done;
        return;
      }
    }
  }
}
