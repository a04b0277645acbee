/**
 * The load tester object (`SSHstress`): the rotating username cycle it
 * owns, the admission-control loop that runs one round (`_hammer`), and
 * the runner that repeats rounds and hands them to the statistics
 * (`stress_sftp`, `stress_ssh`).
 *
 * The asynchronous scheduler is not modelled. Waiting for "the first
 * completed" attempts becomes a choice of an arbitrary non-empty subset of
 * the outstanding attempts, so every property proved below holds for
 * every completion order. What an attempt reports is supplied by an
 * abstract function from the call it was launched with to its outcome.
 */
module Stress {
  import opened Records
  import opened Ordering
  import opened RoundNames
  import opened Stats

  /** How many ids 1..n there are; `range(n)` is empty for n below 1. */
  function RangeLen(n: int): nat {
    if n < 0 then 0 else n
  }

  /** The dictionary the runner passes to the statistics: round i + 1 is
      filed as `round_<i + 1>` with its results in ascending id order. */
  function RoundsByName(results: seq<map<int, Record>>): (r: seq<(string, RoundData)>)
    ensures |r| == |results|
  {
    if |results| == 0 then []
    else RoundsByName(results[..|results| - 1])
         + [(RoundName(|results|), ByAscendingId(results[|results| - 1]))]
  }

  /** Entry i of the dictionary is round i + 1, under its name. */
  lemma {:induction false} RoundsByNameAt(results: seq<map<int, Record>>, i: nat)
    requires i < |results|
    ensures RoundsByName(results)[i] == (RoundName(i + 1), ByAscendingId(results[i]))
  {
    if i < |results| - 1 {
      var front := results[..|results| - 1];
      RoundsByNameAt(front, i);
      assert front[i] == results[i];
    }
  }

  /** Filing one more round appends it under the next round name. */
  lemma RoundsByNameSnoc(results: seq<map<int, Record>>, times: map<int, Record>)
    ensures RoundsByName(results + [times])
         == RoundsByName(results) + [(RoundName(|results| + 1), ByAscendingId(times))]
  {
    assert (results + [times])[..|results|] == results;
  }

  /** The name of entry i is the name of round i + 1. */
  lemma {:induction false} RoundsByNameNameAt(results: seq<map<int, Record>>, i: nat)
    requires i < |results|
    ensures RoundsByName(results)[i].0 == RoundName(i + 1)
  {
    RoundsByNameAt(results, i);
  }

  /** Every round is filed under a name of its own, so none overwrites
      another. */
  lemma {:induction false} RoundsByNameDistinct(results: seq<map<int, Record>>)
    ensures forall i, j :: 0 <= i < j < |RoundsByName(results)| ==> RoundsByName(results)[i].0 != RoundsByName(results)[j].0
  {
    var r := RoundsByName(results);
    forall i | 0 <= i < |r|
      ensures r[i].0 == RoundName(i + 1)
    {
      RoundsByNameNameAt(results, i);
    }
    NumberedNamesDistinct(r);
  }

  /** Entries named after their positions have distinct names. */
  lemma NumberedNamesDistinct<V>(r: seq<(string, V)>)
    requires forall i :: 0 <= i < |r| ==> r[i].0 == RoundName(i + 1)
    ensures forall i, j :: 0 <= i < j < |r| ==> r[i].0 != r[j].0
  {
    forall i, j | 0 <= i < j < |r|
      ensures r[i].0 != r[j].0
    {
      RoundNamesDiffer(i + 1, j + 1);
    }
  }

  /** How many users the first i rounds of n attempts each draw from the
      cycle, counted round by round as the runner plays them; the proofs
      about a run unfold it one round at a time, and RoundOffsetIsProduct
      shows it is i * n. */
  function RoundOffset(i: nat, n: nat): nat {
    if i == 0 then 0 else RoundOffset(i - 1, n) + n
  }

  lemma {:induction false} RoundOffsetIsProduct(i: nat, n: nat)
    ensures RoundOffset(i, n) == i * n
  {
    if i > 0 {
      RoundOffsetIsProduct(i - 1, n);
      assert i * n == (i - 1) * n + n;
    }
  }

  /** Where a cycle over n items stands after k draws: k with whole turns of
      the cycle taken away, that is, k modulo n. */
  function CyclePos(k: nat, n: nat): (p: nat)
    requires n > 0
    ensures p < n
  {
    if k < n then k else CyclePos(k - n, n)
  }

  /** One draw advances the cycle by one place and wraps back to the front
      after the last item. */
  lemma {:induction false} CyclePosStep(k: nat, n: nat)
    requires n > 0
    ensures CyclePos(k + 1, n) == if CyclePos(k, n) + 1 == n then 0 else CyclePos(k, n) + 1
  {
    if k + 1 > n {
      CyclePosStep(k - n, n);
    }
  }

  /** The cycle hands out the items in list order and starts again from
      the front after the last: after k draws it stands at k modulo n. */
  lemma {:induction false} CyclePosIsModulo(k: nat, n: nat)
    requires n > 0
    ensures CyclePos(k, n) == k % n
    decreases k
  {
    if k >= n {
      CyclePosIsModulo(k - n, n);
      var q, r := (k - n) / n, (k - n) % n;
      assert k == n * (q + 1) + r;
      ModUnique(k, n, q + 1, r);
    }
  }

  /** Euclidean division is unique: a remainder in 0..n-1 is the one. */
  lemma ModUnique(k: int, n: int, q: int, r: int)
    requires n > 0 && 0 <= r < n && k == n * q + r
    ensures k % n == r
  {
    var q', r' := k / n, k % n;
    assert n * (q - q') == r' - r;
    SmallMultiple(n, q - q');
  }

  /** The only multiple of n strictly between -n and n is 0. */
  lemma SmallMultiple(n: int, d: int)
    requires n > 0 && -n < n * d < n
    ensures d == 0
  {
    MultipleBound(n, d);
  }

  lemma MultipleBound(n: int, d: int)
    requires n > 0
    ensures d >= 1 ==> n * d >= n
    ensures d <= -1 ==> n * d <= -n
  {
  }

  /** A cardinality fact the reap step needs: completing a non-empty set of
      outstanding attempts leaves fewer outstanding. */
  lemma ReapShrinks(tasks: map<int, Call>, done: set<int>)
    requires done <= tasks.Keys && done != {}
    ensures (tasks - done).Keys == tasks.Keys - done
    ensures |tasks - done| < |tasks|
  {
    Inhabited(done);
    var x :| x in done;
    var rest := tasks.Keys - done;
    assert rest <= tasks.Keys - {x};
    SubsetCardinality(rest, tasks.Keys - {x});
    assert |(tasks - done).Keys| == |tasks - done|;
  }

  lemma {:induction false} SubsetCardinality(a: set<int>, b: set<int>)
    requires a <= b
    ensures |a| <= |b|
    decreases |b|
  {
    if a != {} {
      Inhabited(a);
      var x :| x in a;
      SubsetCardinality(a - {x}, b - {x});
    }
  }

  /** The loop after each wait in `_hammer`: every completed attempt's
      record is filed under its id, next to the records filed before. */
  method FileResults(done: set<int>, finished: map<int, Call>, outcomeOf: Call -> Outcome,
                     perfTimes: map<int, Record>)
    returns (filed: map<int, Record>)
    requires done <= finished.Keys
    requires forall k :: k in done ==> finished[k].id == k
    ensures filed.Keys == perfTimes.Keys + done
    ensures forall k :: k in filed ==>
      filed[k] == if k in done then Attempt(outcomeOf, finished[k]) else perfTimes[k]
  {
    filed := perfTimes;
    var rest := done;
    while rest != {}
      invariant rest <= done
      invariant filed.Keys == perfTimes.Keys + (done - rest)
      invariant forall k :: k in filed ==>
        filed[k] == if k in done - rest then Attempt(outcomeOf, finished[k]) else perfTimes[k]
      decreases rest
    {
      Inhabited(rest);
      var task :| task in rest;
      var results := Attempt(outcomeOf, finished[task]);
      filed := filed[results.id := results];
      rest := rest - {task};
    }
  }


  /** The pacing sleeps taken after n launches, each of `loopSpeed`
      seconds. */
  function Pauses(loopSpeed: real, n: nat): (r: seq<real>)
    ensures |r| == n
  {
    if n == 0 then [] else Pauses(loopSpeed, n - 1) + [loopSpeed]
  }

  /** Every pacing sleep lasts `loopSpeed`. */
  lemma {:induction false} PausesAt(loopSpeed: real, n: nat, i: nat)
    requires i < n
    ensures Pauses(loopSpeed, n)[i] == loopSpeed
  {
    if i < n - 1 {
      PausesAt(loopSpeed, n - 1, i);
    }
  }

  /** The dictionary `_hammer` fills when the attempts launched with
      `calls` have all completed: each attempt's record under its position
      in `calls`, counted from 1. */
  function Filed(outcomeOf: Call -> Outcome, calls: seq<Call>): map<int, Record> {
    if |calls| == 0 then map[]
    else Filed(outcomeOf, calls[..|calls| - 1])[|calls| := Attempt(outcomeOf, calls[|calls| - 1])]
  }

  /** The dictionary has an entry for each id 1..|calls| and no other; the
      entry for id is the record of the attempt launched with call id. */
  lemma {:induction false} FiledAt(outcomeOf: Call -> Outcome, calls: seq<Call>, id: int)
    ensures id in Filed(outcomeOf, calls) <==> 1 <= id <= |calls|
    ensures id in Filed(outcomeOf, calls) ==> Filed(outcomeOf, calls)[id] == Attempt(outcomeOf, calls[id - 1])
  {
    if |calls| > 0 && id != |calls| {
      var front := calls[..|calls| - 1];
      FiledAt(outcomeOf, front, id);
      if 1 <= id < |calls| {
        assert front[id - 1] == calls[id - 1];
      }
    }
  }

  /** One step of `_hammer` on (attempts launched, ids outstanding): a
      wait completes a non-empty subset of the outstanding attempts, or a
      launch adds the next id, which was not outstanding. */
  predicate AdmissionStep(a: (nat, set<int>), b: (nat, set<int>)) {
    || (b.0 == a.0 && b.1 < a.1)
    || (b.0 == a.0 + 1 && b.0 !in a.1 && b.1 == a.1 + {b.0})
  }

  /** A run of the admission loop from its start, with nothing launched and
      nothing outstanding, that never has more than `ceiling` outstanding. */
  predicate AdmissionRun(trace: seq<(nat, set<int>)>, ceiling: int) {
    && |trace| >= 1 && trace[0] == (0, {})
    && (forall i :: 0 <= i < |trace| ==> |trace[i].1| <= ceiling)
    && (forall i :: 0 < i < |trace| ==> AdmissionStep(trace[i - 1], trace[i]))
  }

  /** A further step within the ceiling extends a run. */
  lemma AdmissionRunSnoc(trace: seq<(nat, set<int>)>, ceiling: int, s: (nat, set<int>))
    requires AdmissionRun(trace, ceiling)
    requires AdmissionStep(trace[|trace| - 1], s) && |s.1| <= ceiling
    ensures AdmissionRun(trace + [s], ceiling)
  {
    var t := trace + [s];
    forall i | 0 < i < |t|
      ensures AdmissionStep(t[i - 1], t[i])
    {
      if i < |trace| {
        assert t[i - 1] == trace[i - 1] && t[i] == trace[i];
      }
    }
  }

  /** Launching id c, the next one, on top of the outstanding ids `ks`
      extends a run when the ceiling leaves room for it. */
  lemma AdmitLaunch(trace: seq<(nat, set<int>)>, ceiling: int, c: nat, ks: set<int>)
    requires AdmissionRun(trace, ceiling) && c >= 1 && trace[|trace| - 1] == (c - 1, ks)
    requires c !in ks && |ks| < ceiling
    ensures AdmissionRun(trace + [(c, ks + {c})], ceiling)
  {
    AdmissionRunSnoc(trace, ceiling, (c, ks + {c}));
  }

  /** The ids outstanding once ids count0 + 1 .. count have been launched
      on top of the outstanding ids `ks`. This is `Launched(...).Keys` of
      the tester (LaunchedKeys), stated on ids alone so that the admission
      trace does not depend on the users of the cycle. */
  function Opened(ks: set<int>, count0: nat, count: nat): set<int>
    requires count0 <= count
    decreases count - count0
  {
    if count == count0 then ks else Opened(ks, count0, count - 1) + {count}
  }

  /** Launching on top of outstanding ids that are all at most count0 adds
      ids above them, one per launch. */
  lemma {:induction false} OpenedFresh(ks: set<int>, count0: nat, count: nat)
    requires count0 <= count
    requires forall k :: k in ks ==> k <= count0
    ensures forall k :: k in Opened(ks, count0, count) ==> k <= count
    ensures |Opened(ks, count0, count)| == |ks| + (count - count0)
    decreases count - count0
  {
    if count > count0 {
      OpenedFresh(ks, count0, count - 1);
    }
  }

  /** The states the refill step of `_hammer` passes through while it
      launches ids count0 + 1 .. count on top of the outstanding ids `ks`. */
  function Launches(ks: set<int>, count0: nat, count: nat): (t: seq<(nat, set<int>)>)
    requires count0 <= count
    ensures |t| == count - count0
    decreases count - count0
  {
    if count == count0 then []
    else Launches(ks, count0, count - 1) + [(count, Opened(ks, count0, count))]
  }

  /** Each launch of the refill step is a step of the admission loop: it
      adds the next id, which was not outstanding, and stays within the
      ceiling when the refill does. */
  lemma {:induction false} LaunchesAdmitted(trace: seq<(nat, set<int>)>, ceiling: int, ks: set<int>,
                                            count0: nat, count: nat)
    requires count0 <= count
    requires forall k :: k in ks ==> k <= count0
    requires AdmissionRun(trace, ceiling) && trace[|trace| - 1] == (count0, ks)
    requires |ks| + (count - count0) <= ceiling
    ensures AdmissionRun(trace + Launches(ks, count0, count), ceiling)
    ensures (trace + Launches(ks, count0, count))[|trace| + (count - count0) - 1] == (count, Opened(ks, count0, count))
    decreases count - count0
  {
    if count > count0 {
      LaunchesAdmitted(trace, ceiling, ks, count0, count - 1);
      OpenedFresh(ks, count0, count - 1);
      var t := trace + Launches(ks, count0, count - 1);
      var prev := Opened(ks, count0, count - 1);
      assert t[|t| - 1] == (count - 1, prev);
      AdmitLaunch(t, ceiling, count, prev);
      assert trace + Launches(ks, count0, count) == t + [(count, prev + {count})];
    }
  }

  /** In a run of the admission loop, every outstanding id is one already
      launched: an id in 1..count, where count is the launches so far. */
  lemma {:induction false} OutstandingLaunched(trace: seq<(nat, set<int>)>, ceiling: int, i: nat)
    requires AdmissionRun(trace, ceiling) && i < |trace|
    ensures forall k :: k in trace[i].1 ==> 1 <= k <= trace[i].0
  {
    if i > 0 {
      OutstandingLaunched(trace, ceiling, i - 1);
      assert AdmissionStep(trace[i - 1], trace[i]);
    }
  }

  /** In a run of the admission loop the launch count never goes back, and
      grows by one launch at a time. */
  lemma {:induction false} LaunchesInOrder(trace: seq<(nat, set<int>)>, ceiling: int, i: nat, j: nat)
    requires AdmissionRun(trace, ceiling) && i <= j < |trace|
    ensures trace[i].0 <= trace[j].0 <= trace[i].0 + (j - i)
    decreases j - i
  {
    if i < j {
      LaunchesInOrder(trace, ceiling, i, j - 1);
    }
  }

  /** Two distinct points of an admission run are distinct states: the launch
      count grows, or stays while the outstanding set shrinks. */
  lemma {:induction false} AdmissionStatesDistinct(trace: seq<(nat, set<int>)>, ceiling: int, i: nat, j: nat)
    requires AdmissionRun(trace, ceiling) && i < j < |trace|
    ensures trace[i].0 < trace[j].0 || (trace[i].0 == trace[j].0 && trace[j].1 < trace[i].1)
    ensures trace[i] != trace[j]
    decreases j - i
  {
    assert AdmissionStep(trace[j - 1], trace[j]);
    if i < j - 1 {
      AdmissionStatesDistinct(trace, ceiling, i, j - 1);
    }
  }

  /** The scheduler behind `asyncio.wait(tasks, return_when=FIRST_COMPLETED)`:
      from the number of attempts launched and the ids outstanding, the ids
      the wait reports as done, a non-empty subset of the outstanding ones.
      No state of a round recurs (AdmissionStatesDistinct), so every order of
      completion is given by some such function. */
  ghost predicate Scheduler(completes: (nat, set<int>) -> set<int>) {
    forall count: nat, ks: set<int> :: ks != {} ==> completes(count, ks) != {} && completes(count, ks) <= ks
  }

  /** A scheduler for each round of a run. */
  ghost predicate RoundScheduler(schedule: (nat, nat, set<int>) -> set<int>) {
    forall round: nat, count: nat, ks: set<int> ::
      ks != {} ==> schedule(round, count, ks) != {} && schedule(round, count, ks) <= ks
  }

  /** The ids still outstanding after the wait at the top of the loop, which
      only waits when something is outstanding. */
  function Reaped(completes: (nat, set<int>) -> set<int>, count: nat, ks: set<int>): set<int> {
    if ks == {} then ks else ks - completes(count, ks)
  }

  /** Taking ids away shrinks a set. */
  lemma SetShrinks(ks: set<int>, done: set<int>)
    requires done <= ks && done != {}
    ensures |ks - done| < |ks|
  {
    Inhabited(done);
    var x :| x in done;
    SubsetCardinality(ks - done, ks - {x});
  }

  /** The launch count at which the refill step stops, from `count`
      launched and n outstanding: it launches while fewer than conns have
      been launched and fewer than ceiling are outstanding. */
  function RefillTo(conns: int, ceiling: int, count: nat, n: nat): (r: nat)
    ensures r >= count
    ensures r > count ==> r <= conns && n + (r - count) <= ceiling
    ensures r >= conns || n + (r - count) >= ceiling
    decreases conns - count
  {
    if count < conns && n < ceiling then RefillTo(conns, ceiling, count + 1, n + 1) else count
  }

  /** A launch count that never passed conns or the ceiling on the way and
      at which the refill condition fails is the one RefillTo gives. */
  lemma {:induction false} RefillToStops(conns: int, ceiling: int, count0: nat, n: nat, count: nat)
    requires count0 <= count
    requires count == count0 || (count <= conns && n + (count - count0) <= ceiling)
    requires count >= conns || n + (count - count0) >= ceiling
    ensures count == RefillTo(conns, ceiling, count0, n)
    decreases count - count0
  {
    if count > count0 {
      RefillToStops(conns, ceiling, count0 + 1, n + 1, count);
    }
  }

  /** The state after one pass of the admission loop from `count` launched
      and `ks` outstanding: the wait, then the refill. */
  function LoopStep(completes: (nat, set<int>) -> set<int>, conns: int, ceiling: int, count: nat, ks: set<int>)
    : (s: (nat, set<int>))
    ensures s.0 >= count
  {
    var ks1 := Reaped(completes, count, ks);
    var c := RefillTo(conns, ceiling, count, |ks1|);
    (c, Opened(ks1, count, c))
  }

  /** With a ceiling of at least one, every pass of the loop launches an
      attempt, never passing conns, or completes one. */
  lemma StepProgresses(completes: (nat, set<int>) -> set<int>, conns: int, ceiling: int, count: nat, ks: set<int>)
    requires Scheduler(completes) && ceiling >= 1
    requires count < conns || ks != {}
    ensures var s := LoopStep(completes, conns, ceiling, count, ks);
      (count < s.0 <= conns) || (s.0 == count && |s.1| < |ks|)
  {
    if ks != {} {
      SetShrinks(ks, completes(count, ks));
    }
  }

  /** With a ceiling below one the loop never launches: a pass from the
      start leaves the state as it was, while the loop condition still
      holds, so `_hammer` spins without ever awaiting. */
  lemma ZeroCeilingSpins(completes: (nat, set<int>) -> set<int>, conns: int, ceiling: int)
    requires ceiling <= 0 && conns >= 1
    ensures LoopStep(completes, conns, ceiling, 0, {}) == (0, {})
  {
  }

  /** The states the admission loop goes through from `count` launched and
      `ks` outstanding at the top of the loop until it ends: the wait's
      state when something is outstanding, then one state per launch. */
  ghost function Rest(completes: (nat, set<int>) -> set<int>, conns: int, ceiling: int, count: nat, ks: set<int>)
    : seq<(nat, set<int>)>
    requires Scheduler(completes) && ceiling >= 1
    decreases conns - count, |ks|
  {
    if count >= conns && ks == {} then []
    else
      StepProgresses(completes, conns, ceiling, count, ks);
      var ks1 := Reaped(completes, count, ks);
      var s := LoopStep(completes, conns, ceiling, count, ks);
      (if ks == {} then [] else [(count, ks1)]) + Launches(ks1, count, s.0) + Rest(completes, conns, ceiling, s.0, s.1)
  }

  /** The states of one round of the admission loop under a scheduler,
      from nothing launched and nothing outstanding. */
  ghost function AdmissionTrace(completes: (nat, set<int>) -> set<int>, conns: int, ceiling: int)
    : seq<(nat, set<int>)>
    requires Scheduler(completes) && ceiling >= 1
  {
    [(0, {})] + Rest(completes, conns, ceiling, 0, {})
  }

  /** A wait that completes some of the outstanding ids is a step of the
      admission loop. */
  lemma WaitAdmitted(trace: seq<(nat, set<int>)>, ceiling: int, count: nat, ks: set<int>, ks1: set<int>)
    requires AdmissionRun(trace, ceiling) && trace[|trace| - 1] == (count, ks)
    requires ks1 <= ks && |ks1| < |ks|
    ensures AdmissionRun(trace + [(count, ks1)], ceiling)
  {
    assert |trace[|trace| - 1].1| <= ceiling;
    assert ks1 != ks;
    AdmissionRunSnoc(trace, ceiling, (count, ks1));
  }

  /** Whatever the scheduler does, the rest of the loop continues an
      admission run and ends with everything launched and nothing
      outstanding. */
  lemma {:induction false} RestAdmitted(trace: seq<(nat, set<int>)>, completes: (nat, set<int>) -> set<int>,
                                        conns: int, ceiling: int, count: nat, ks: set<int>)
    requires Scheduler(completes) && ceiling >= 1
    requires AdmissionRun(trace, ceiling) && trace[|trace| - 1] == (count, ks)
    requires forall k :: k in ks ==> k <= count
    ensures AdmissionRun(trace + Rest(completes, conns, ceiling, count, ks), ceiling)
    ensures var t := trace + Rest(completes, conns, ceiling, count, ks);
      t[|t| - 1] == (if count < conns then conns else count, {})
    decreases conns - count, |ks|
  {
    if count >= conns && ks == {} {
      assert trace + Rest(completes, conns, ceiling, count, ks) == trace;
    } else {
      StepProgresses(completes, conns, ceiling, count, ks);
      var ks1 := Reaped(completes, count, ks);
      var s := LoopStep(completes, conns, ceiling, count, ks);
      var wait: seq<(nat, set<int>)> := if ks == {} then [] else [(count, ks1)];
      if ks != {} {
        SetShrinks(ks, completes(count, ks));
        WaitAdmitted(trace, ceiling, count, ks, ks1);
      }
      var t1 := trace + wait;
      assert t1[|t1| - 1] == (count, ks1);
      LaunchesAdmitted(t1, ceiling, ks1, count, s.0);
      OpenedFresh(ks1, count, s.0);
      var t2 := t1 + Launches(ks1, count, s.0);
      RestAdmitted(t2, completes, conns, ceiling, s.0, s.1);
      Associative(trace, wait + Launches(ks1, count, s.0), Rest(completes, conns, ceiling, s.0, s.1));
      Associative(trace, wait, Launches(ks1, count, s.0));
    }
  }

  /** The trace of a round is an admission run within the ceiling that ends
      with every attempt launched and none outstanding. */
  lemma AdmissionTraceIsRun(completes: (nat, set<int>) -> set<int>, conns: int, ceiling: int)
    requires Scheduler(completes) && ceiling >= 1
    ensures AdmissionRun(AdmissionTrace(completes, conns, ceiling), ceiling)
    ensures var t := AdmissionTrace(completes, conns, ceiling); t[|t| - 1] == (RangeLen(conns), {})
  {
    RestAdmitted([(0, {})], completes, conns, ceiling, 0, {});
  }

  /** One pass of the loop, the wait and the refill, moves its states from
      the rest of the trace to the part already recorded. */
  lemma RestUnfolds(completes: (nat, set<int>) -> set<int>, conns: int, ceiling: int, count: nat, ks: set<int>,
                    mid: set<int>, wait: seq<(nat, set<int>)>, count': nat,
                    done: seq<(nat, set<int>)>, next: seq<(nat, set<int>)>)
    requires Scheduler(completes) && ceiling >= 1 && (count < conns || ks != {})
    requires mid == Reaped(completes, count, ks) && count' == RefillTo(conns, ceiling, count, |mid|)
    requires wait == if ks == {} then [] else [(count, mid)]
    requires next == done + wait + Launches(mid, count, count')
    ensures next + Rest(completes, conns, ceiling, count', Opened(mid, count, count'))
         == done + Rest(completes, conns, ceiling, count, ks)
  {
    var rest := Rest(completes, conns, ceiling, count', Opened(mid, count, count'));
    Associative(done, wait + Launches(mid, count, count'), rest);
    Associative(done, wait, Launches(mid, count, count'));
  }

  /** Two lists with the same continuation are the same. */
  lemma SamePrefix<T>(x: seq<T>, y: seq<T>, z: seq<T>)
    requires x + z == y + z
    ensures x == y
  {
    assert |x| == |y|;
    forall i | 0 <= i < |x|
      ensures x[i] == y[i]
    {
      assert x[i] == (x + z)[i] && y[i] == (y + z)[i];
    }
  }

  class StressTester {
    /** The usernames the cycle rotates through. */
    const users: seq<string>
    /** The ceiling on outstanding attempts. */
    const maxConcurrentTasks: int
    /** Where the cycle stands: the index of the next user it hands out. */
    var cursor: nat
    /** How many users the cycle has handed out over the object's life. */
    ghost var drawn: nat

    ghost predicate Valid()
      reads this
    {
      && maxConcurrentTasks >= 1
      && (if |users| == 0 then cursor == 0 else cursor == CyclePos(drawn, |users|))
    }

    /** `__init__`: the cycle is created once, here, and lives as long as the
        object. */
    constructor (targetUsers: seq<string>, maxConcurrentTasks: int)
      requires maxConcurrentTasks >= 1
      ensures Valid()
      ensures users == targetUsers && this.maxConcurrentTasks == maxConcurrentTasks
      ensures drawn == 0
    {
      users := targetUsers;
      this.maxConcurrentTasks := maxConcurrentTasks;
      cursor := 0;
      drawn := 0;
    }

    /** The user handed out j draws after draw number `start` (draws are
        counted from 0 over the object's life). */
    function UserAt(start: nat, j: nat): string
      requires |users| > 0
    {
      users[CyclePos(start + j, |users|)]
    }

    /** `next(self.user)`: the next user of the cycle, or the error a cycle
        over an empty list raises. */
    method NextUser() returns (u: Result<string>)
      requires Valid()
      modifies this
      ensures Valid()
      ensures |users| == 0 ==> u == Failure(UserCycleExhausted) && drawn == old(drawn)
      ensures |users| > 0 ==> u == Success(users[CyclePos(old(drawn), |users|)]) && drawn == old(drawn) + 1
    {
      if |users| == 0 {
        return Failure(UserCycleExhausted);
      }
      u := Success(users[cursor]);
      CyclePosStep(drawn, |users|);
      cursor := if cursor + 1 == |users| then 0 else cursor + 1;
      drawn := drawn + 1;
    }

    /** The calls of attempts 1..count of a round whose users are drawn from
        the cycle from draw number `start` on. */
    ghost function Dealt(start: nat, mode: Mode, count: nat, connWait: int): (calls: seq<Call>)
      requires count == 0 || |users| > 0
      ensures |calls| == count
    {
      if count == 0 then []
      else Dealt(start, mode, count - 1, connWait) + [Call(mode, count, UserAt(start, count - 1), connWait)]
    }

    /** Call j (from 0) carries id j + 1 and the user handed out j draws
        after `start`. */
    lemma {:induction false} DealtAt(start: nat, mode: Mode, count: nat, connWait: int, j: nat)
      requires |users| > 0 && j < count
      ensures Dealt(start, mode, count, connWait)[j] == Call(mode, j + 1, UserAt(start, j), connWait)
    {
      if j < count - 1 {
        DealtAt(start, mode, count - 1, connWait, j);
      }
    }

    /** What `_hammer` keeps true between steps: `count` attempts launched so
        far with the next users of the cycle, each id 1..count either
        outstanding in `tasks` or filed in `perfTimes` (never both), and a
        pacing sleep after each launch. */
    ghost predicate InFlight(start: nat, mode: Mode, connWait: int, outcomeOf: Call -> Outcome, loopSpeed: real,
                             count: nat, calls: seq<Call>, sleeps: seq<real>,
                             tasks: map<int, Call>, perfTimes: map<int, Record>)
    {
      && (count > 0 ==> |users| > 0)
      && calls == Dealt(start, mode, count, connWait)
      && sleeps == Pauses(loopSpeed, count)
      && (forall k :: k in tasks ==> 1 <= k <= count && k !in perfTimes && tasks[k] == calls[k - 1] && tasks[k].id == k)
      && (forall k :: k in perfTimes ==> 1 <= k <= count && perfTimes[k] == Attempt(outcomeOf, calls[k - 1]))
      && (forall k :: 1 <= k <= count ==> k in tasks || k in perfTimes)
    }

    /** Once every attempt has been launched and none is outstanding, the
        bookkeeping says what the round did. */
    lemma FinishedRound(start: nat, mode: Mode, conns: int, connWait: int, outcomeOf: Call -> Outcome,
                        loopSpeed: real, count: nat, calls: seq<Call>, sleeps: seq<real>,
                        tasks: map<int, Call>, perfTimes: map<int, Record>)
      requires InFlight(start, mode, connWait, outcomeOf, loopSpeed, count, calls, sleeps, tasks, perfTimes)
      requires |tasks| == 0 && count == RangeLen(conns)
      ensures RangeLen(conns) == 0 || |users| > 0
      ensures perfTimes == Filed(outcomeOf, Dealt(start, mode, RangeLen(conns), connWait))
      ensures sleeps == Pauses(loopSpeed, RangeLen(conns))
    {
      var filed := Filed(outcomeOf, calls);
      forall k
        ensures k in perfTimes <==> k in filed
        ensures k in perfTimes ==> perfTimes[k] == filed[k]
      {
        FiledAt(outcomeOf, calls, k);
        if 1 <= k <= count {
          assert k !in tasks by {
            assert |tasks.Keys| == |tasks|;
          }
        }
      }
    }

    /** The wait at the top of the loop of `_hammer`: when attempts are
        outstanding, `asyncio.wait(tasks, return_when=FIRST_COMPLETED)`
        followed by filing each completed attempt's record under its id.
        Which attempts have completed is the scheduler's choice,
        `completes`. The ghost trace gains the state the wait leaves. */
    method Reap(ghost start: nat, ghost mode: Mode, ghost connWait: int, outcomeOf: Call -> Outcome,
                completes: (nat, set<int>) -> set<int>, ghost loopSpeed: real, count: nat,
                ghost calls: seq<Call>, ghost sleeps: seq<real>,
                tasks: map<int, Call>, perfTimes: map<int, Record>, ghost trace0: seq<(nat, set<int>)>)
      returns (pending: map<int, Call>, filed: map<int, Record>, ghost trace: seq<(nat, set<int>)>)
      requires Scheduler(completes)
      requires InFlight(start, mode, connWait, outcomeOf, loopSpeed, count, calls, sleeps, tasks, perfTimes)
      ensures InFlight(start, mode, connWait, outcomeOf, loopSpeed, count, calls, sleeps, pending, filed)
      ensures pending.Keys == Reaped(completes, count, tasks.Keys)
      ensures |tasks| == 0 ==> pending == tasks && filed == perfTimes
      ensures |tasks| > 0 ==> pending.Keys < tasks.Keys && |pending| < |tasks|
      ensures trace == trace0 + if tasks.Keys == {} then [] else [(count, pending.Keys)]
    {
      assert |tasks.Keys| == |tasks|;
      if |tasks| == 0 {
        return tasks, perfTimes, trace0;
      }
      var done := completes(count, tasks.Keys);
      ReapShrinks(tasks, done);
      pending := tasks - done;
      filed := FileResults(done, tasks, outcomeOf, perfTimes);
      ReapKeepsInFlight(start, mode, connWait, outcomeOf, loopSpeed, count, calls, sleeps, tasks, perfTimes, done, filed);
      trace := trace0 + [(count, pending.Keys)];
    }

    /** Filing the records of the completed attempts `done` and dropping
        them from the outstanding ones keeps the bookkeeping. */
    lemma ReapKeepsInFlight(start: nat, mode: Mode, connWait: int, outcomeOf: Call -> Outcome, loopSpeed: real,
                            count: nat, calls: seq<Call>, sleeps: seq<real>,
                            tasks: map<int, Call>, perfTimes: map<int, Record>, done: set<int>, filed: map<int, Record>)
      requires InFlight(start, mode, connWait, outcomeOf, loopSpeed, count, calls, sleeps, tasks, perfTimes)
      requires done <= tasks.Keys
      requires filed.Keys == perfTimes.Keys + done
      requires forall k :: k in filed ==>
        filed[k] == if k in done then Attempt(outcomeOf, tasks[k]) else perfTimes[k]
      ensures InFlight(start, mode, connWait, outcomeOf, loopSpeed, count, calls, sleeps, tasks - done, filed)
    {
      forall k | k in filed
        ensures 1 <= k <= count && filed[k] == Attempt(outcomeOf, calls[k - 1])
      {
        if k in done {
          assert tasks[k] == calls[k - 1];
        }
      }
    }

    /** The outstanding attempts once attempts count0 + 1 .. count have been
        launched, on top of `tasks0`, with the next users of the cycle. */
    ghost function Launched(start: nat, mode: Mode, connWait: int, tasks0: map<int, Call>, count0: nat, count: nat)
      : map<int, Call>
      requires count0 <= count && (count == 0 || |users| > 0)
      decreases count - count0
    {
      if count == count0 then tasks0
      else Launched(start, mode, connWait, tasks0, count0, count - 1)[count := Call(mode, count, UserAt(start, count - 1), connWait)]
    }

    /** Launching attempt `count` with the next user of the cycle keeps the
        bookkeeping, and adds an attempt that was not outstanding. */
    lemma LaunchKeepsInFlight(start: nat, mode: Mode, connWait: int, outcomeOf: Call -> Outcome, loopSpeed: real,
                              tasks0: map<int, Call>, perfTimes: map<int, Record>, count0: nat, count: nat)
      requires count0 < count && |users| > 0
      requires InFlight(start, mode, connWait, outcomeOf, loopSpeed, count - 1, Dealt(start, mode, count - 1, connWait),
                        Pauses(loopSpeed, count - 1), Launched(start, mode, connWait, tasks0, count0, count - 1), perfTimes)
      ensures count !in Launched(start, mode, connWait, tasks0, count0, count - 1)
      ensures InFlight(start, mode, connWait, outcomeOf, loopSpeed, count, Dealt(start, mode, count, connWait),
                       Pauses(loopSpeed, count), Launched(start, mode, connWait, tasks0, count0, count), perfTimes)
    {
      var calls, calls' := Dealt(start, mode, count - 1, connWait), Dealt(start, mode, count, connWait);
      var tasks, tasks' := Launched(start, mode, connWait, tasks0, count0, count - 1),
                           Launched(start, mode, connWait, tasks0, count0, count);
      forall k | k in tasks'
        ensures 1 <= k <= count && k !in perfTimes && tasks'[k] == calls'[k - 1] && tasks'[k].id == k
      {
        if k != count {
          assert k in tasks;
        }
      }
      forall k | k in perfTimes
        ensures 1 <= k <= count && perfTimes[k] == Attempt(outcomeOf, calls'[k - 1])
      {
        assert calls'[k - 1] == calls[k - 1];
      }
    }

    /** Launching attempts count0 + 1 .. count, one after the other, keeps the
        bookkeeping, and each launch adds one outstanding attempt. */
    lemma {:induction false} LaunchesKeepInFlight(start: nat, mode: Mode, connWait: int, outcomeOf: Call -> Outcome,
                                                  loopSpeed: real, tasks0: map<int, Call>, perfTimes: map<int, Record>,
                                                  count0: nat, count: nat)
      requires count0 <= count && (count == 0 || |users| > 0)
      requires InFlight(start, mode, connWait, outcomeOf, loopSpeed, count0, Dealt(start, mode, count0, connWait),
                        Pauses(loopSpeed, count0), tasks0, perfTimes)
      ensures InFlight(start, mode, connWait, outcomeOf, loopSpeed, count, Dealt(start, mode, count, connWait),
                       Pauses(loopSpeed, count), Launched(start, mode, connWait, tasks0, count0, count), perfTimes)
      ensures |Launched(start, mode, connWait, tasks0, count0, count)| == |tasks0| + (count - count0)
      decreases count - count0
    {
      if count > count0 {
        LaunchesKeepInFlight(start, mode, connWait, outcomeOf, loopSpeed, tasks0, perfTimes, count0, count - 1);
        LaunchKeepsInFlight(start, mode, connWait, outcomeOf, loopSpeed, tasks0, perfTimes, count0, count);
      }
    }

    /** The refill step of `_hammer`: launch attempts count0 + 1, count0 + 2,
        ... with the next users of the cycle, sleeping after each launch,
        until `conns` have been launched or `maxConcurrentTasks` are
        outstanding. Reports `exhausted` when the cycle has no user to hand
        out. */
    method Refill(ghost start: nat, conns: int, connWait: int, mode: Mode, loopSpeed: real,
                  count0: int, ghost calls0: seq<Call>, ghost sleeps0: seq<real>, tasks0: map<int, Call>)
      returns (exhausted: bool, count: int, ghost calls: seq<Call>, ghost sleeps: seq<real>,
               tasks: map<int, Call>)
      requires Valid() && drawn == start + count0
      requires 0 <= count0 && (count0 <= conns || count0 == 0) && (count0 == 0 || |users| > 0)
      requires calls0 == Dealt(start, mode, count0, connWait) && sleeps0 == Pauses(loopSpeed, count0)
      requires |tasks0| <= maxConcurrentTasks
      modifies this
      ensures Valid()
      ensures exhausted ==> |users| == 0 && count0 == 0 && count0 < conns && drawn == old(drawn)
      ensures !exhausted ==>
        && drawn == start + count && count0 <= count && (count <= conns || count == 0) && (count == 0 || |users| > 0)
        && calls == Dealt(start, mode, count, connWait) && sleeps == Pauses(loopSpeed, count)
        && tasks == Launched(start, mode, connWait, tasks0, count0, count)
        && |tasks| <= maxConcurrentTasks
        && (count >= conns || |tasks| >= maxConcurrentTasks)
    {
      exhausted, count, calls, sleeps, tasks := false, count0, calls0, sleeps0, tasks0;
      while !exhausted && count < conns && |tasks| < maxConcurrentTasks
        invariant Valid() && drawn == start + count
        invariant count0 <= count && (count <= conns || count == 0) && (count == 0 || |users| > 0)
        invariant calls == Dealt(start, mode, count, connWait) && sleeps == Pauses(loopSpeed, count)
        invariant tasks == Launched(start, mode, connWait, tasks0, count0, count)
        invariant |tasks| <= maxConcurrentTasks
        invariant exhausted ==> |users| == 0 && count < conns
        decreases conns - count, if exhausted then 0 else 1
      {
        var user := NextUser();
        if user.Failure? {
          exhausted := true;
        } else {
          var call := Call(mode, count + 1, user.value, connWait);
          assert call == Call(mode, count + 1, UserAt(start, count), connWait);
          assert Launched(start, mode, connWait, tasks0, count0, count + 1) == tasks[count + 1 := call];
          tasks := tasks[count + 1 := call];
          calls := calls + [call];
          count := count + 1;
          // the pacing sleep after each launch
          sleeps := sleeps + [loopSpeed];
        }
      }
    }

    /** `_hammer`: launch attempts 1..conns, never more than
        maxConcurrentTasks outstanding, reaping completed ones before each
        refill, and return every attempt's record keyed by its id. The
        ghost results are the pacing sleeps taken and the trace of
        (launched, outstanding ids) states the loop went through. */
    method Hammer(conns: int, connWait: int, connsPerSec: real, mode: Mode, outcomeOf: Call -> Outcome,
                  completes: (nat, set<int>) -> set<int>)
      returns (r: Result<map<int, Record>>, ghost sleeps: seq<real>, ghost trace: seq<(nat, set<int>)>)
      requires Valid() && Scheduler(completes)
      modifies this
      ensures Valid()
      ensures connsPerSec == 0.0 ==> r == Failure(DivisionByZero)
      ensures connsPerSec != 0.0 && conns >= 1 && |users| == 0 ==> r == Failure(UserCycleExhausted)
      ensures connsPerSec != 0.0 && (conns <= 0 || |users| > 0) ==> r.Success?
      ensures r.Failure? ==> drawn == old(drawn) && trace == [(0, {})]
      ensures AdmissionRun(trace, maxConcurrentTasks)
      ensures r.Success? ==>
        && (RangeLen(conns) == 0 || |users| > 0)
        && r.value == Filed(outcomeOf, Dealt(old(drawn), mode, RangeLen(conns), connWait))
        && drawn == old(drawn) + RangeLen(conns)
        && sleeps == Pauses(1.0 / connsPerSec, RangeLen(conns))
        && trace == AdmissionTrace(completes, conns, maxConcurrentTasks)
        && trace[|trace| - 1] == (RangeLen(conns), {})
    {
      if connsPerSec == 0.0 {
        return Failure(DivisionByZero), [], [(0, {})];
      }
      var loopSpeed := 1.0 / connsPerSec;
      var exhausted, perfTimes;
      exhausted, perfTimes, sleeps, trace := AdmissionLoop(drawn, conns, connWait, mode, outcomeOf, completes, loopSpeed);
      if exhausted {
        return Failure(UserCycleExhausted), sleeps, trace;
      }
      AdmissionTraceIsRun(completes, conns, maxConcurrentTasks);
      r := Success(perfTimes);
    }

    /** The loop of `_hammer` once the pacing delay is known: reap, then
        refill, until conns attempts have been launched and none is
        outstanding. Reports `exhausted` when the cycle has no user to hand
        out. The ghost trace records every state the loop goes through. */
    method AdmissionLoop(ghost start: nat, conns: int, connWait: int, mode: Mode, outcomeOf: Call -> Outcome,
                         completes: (nat, set<int>) -> set<int>, loopSpeed: real)
      returns (exhausted: bool, perfTimes: map<int, Record>, ghost sleeps: seq<real>,
               ghost trace: seq<(nat, set<int>)>)
      requires Valid() && drawn == start && Scheduler(completes)
      modifies this
      ensures Valid()
      ensures exhausted ==> conns >= 1 && |users| == 0 && drawn == start && trace == [(0, {})]
      ensures !exhausted ==>
        && (RangeLen(conns) == 0 || |users| > 0)
        && perfTimes == Filed(outcomeOf, Dealt(start, mode, RangeLen(conns), connWait))
        && drawn == start + RangeLen(conns)
        && sleeps == Pauses(loopSpeed, RangeLen(conns))
        && trace == AdmissionTrace(completes, conns, maxConcurrentTasks)
    {
      sleeps, trace := [], [(0, {})];
      ghost var calls: seq<Call> := [];
      var count := 0;
      var tasks: map<int, Call> := map[];
      perfTimes := map[];
      while count < conns || |tasks| > 0
        invariant Valid() && drawn == start + count
        invariant 0 <= count && (count <= conns || count == 0)
        invariant InFlight(start, mode, connWait, outcomeOf, loopSpeed, count, calls, sleeps, tasks, perfTimes)
        invariant |tasks| <= maxConcurrentTasks
        invariant trace + Rest(completes, conns, maxConcurrentTasks, count, tasks.Keys)
               == AdmissionTrace(completes, conns, maxConcurrentTasks)
        decreases 2 * (conns - count) + |tasks|
      {
        exhausted, count, calls, sleeps, tasks, perfTimes, trace :=
          Pass(start, conns, connWait, mode, outcomeOf, completes, loopSpeed, count, calls, sleeps, tasks, perfTimes, trace);
        if exhausted {
          return;
        }
      }
      exhausted := false;
      FinishedRound(start, mode, conns, connWait, outcomeOf, loopSpeed, count, calls, sleeps, tasks, perfTimes);
      assert tasks.Keys == {} by {
        assert |tasks.Keys| == |tasks|;
      }
      assert trace + [] == trace;
    }

    /** One pass of the loop of `_hammer`: wait for some outstanding
        attempts to complete, when there are any, then refill. The pass
        keeps the bookkeeping and the ceiling, records its states in the
        ghost trace, and brings the loop closer to its end. */
    method Pass(ghost start: nat, conns: int, connWait: int, mode: Mode, outcomeOf: Call -> Outcome,
                completes: (nat, set<int>) -> set<int>, loopSpeed: real, count0: int, ghost calls0: seq<Call>,
                ghost sleeps0: seq<real>, tasks0: map<int, Call>, perfTimes0: map<int, Record>,
                ghost trace0: seq<(nat, set<int>)>)
      returns (exhausted: bool, count: int, ghost calls: seq<Call>, ghost sleeps: seq<real>,
               tasks: map<int, Call>, perfTimes: map<int, Record>, ghost trace: seq<(nat, set<int>)>)
      requires Valid() && drawn == start + count0 && Scheduler(completes)
      requires 0 <= count0 && (count0 <= conns || count0 == 0) && (count0 < conns || |tasks0| > 0)
      requires InFlight(start, mode, connWait, outcomeOf, loopSpeed, count0, calls0, sleeps0, tasks0, perfTimes0)
      requires |tasks0| <= maxConcurrentTasks
      requires trace0 + Rest(completes, conns, maxConcurrentTasks, count0, tasks0.Keys)
            == AdmissionTrace(completes, conns, maxConcurrentTasks)
      modifies this
      ensures Valid()
      ensures exhausted ==> conns >= 1 && |users| == 0 && drawn == start && trace == [(0, {})]
      ensures !exhausted ==>
        && drawn == start + count && 0 <= count && (count <= conns || count == 0)
        && InFlight(start, mode, connWait, outcomeOf, loopSpeed, count, calls, sleeps, tasks, perfTimes)
        && |tasks| <= maxConcurrentTasks
        && trace + Rest(completes, conns, maxConcurrentTasks, count, tasks.Keys)
           == AdmissionTrace(completes, conns, maxConcurrentTasks)
        && 2 * (conns - count) + |tasks| < 2 * (conns - count0) + |tasks0|
    {
      ghost var keys := tasks0.Keys;
      var waiting;
      ghost var waited;
      waiting, perfTimes, waited :=
        Reap(start, mode, connWait, outcomeOf, completes, loopSpeed, count0, calls0, sleeps0, tasks0, perfTimes0, trace0);
      exhausted, count, calls, sleeps, tasks, trace :=
        Replenish(start, conns, connWait, mode, outcomeOf, loopSpeed, count0, calls0, sleeps0, waiting, perfTimes, waited);
      if exhausted {
        assert keys == {} by {
          forall k | k in keys
            ensures 1 <= k <= count0
          {
          }
        }
        SamePrefix(trace0, [(0, {})], Rest(completes, conns, maxConcurrentTasks, 0, {}));
        return;
      }
      ghost var launched: nat := count0;
      ghost var wait: seq<(nat, set<int>)> := if keys == {} then [] else [(launched, waiting.Keys)];
      RestUnfolds(completes, conns, maxConcurrentTasks, launched, keys, waiting.Keys, wait, count, trace0, trace);
    }

    /** The refill step of `_hammer` together with what it does to the
        bookkeeping: the launches keep it, each adds one outstanding
        attempt, the launch count is the one RefillTo gives, and the ghost
        trace gains one state per launch. */
    method Replenish(ghost start: nat, conns: int, connWait: int, mode: Mode, ghost outcomeOf: Call -> Outcome,
                     loopSpeed: real, count0: int, ghost calls0: seq<Call>, ghost sleeps0: seq<real>,
                     tasks0: map<int, Call>, ghost perfTimes: map<int, Record>, ghost trace0: seq<(nat, set<int>)>)
      returns (exhausted: bool, count: int, ghost calls: seq<Call>, ghost sleeps: seq<real>,
               tasks: map<int, Call>, ghost trace: seq<(nat, set<int>)>)
      requires Valid() && drawn == start + count0
      requires 0 <= count0 && (count0 <= conns || count0 == 0)
      requires InFlight(start, mode, connWait, outcomeOf, loopSpeed, count0, calls0, sleeps0, tasks0, perfTimes)
      requires |tasks0| <= maxConcurrentTasks
      modifies this
      ensures Valid()
      ensures exhausted ==> |users| == 0 && count0 == 0 && count0 < conns && drawn == old(drawn) && trace == trace0
      ensures !exhausted ==>
        && drawn == start + count && count0 <= count && (count <= conns || count == 0)
        && InFlight(start, mode, connWait, outcomeOf, loopSpeed, count, calls, sleeps, tasks, perfTimes)
        && |tasks| <= maxConcurrentTasks && |tasks| == |tasks0| + (count - count0)
        && (|tasks0| == 0 && count0 < conns ==> count > count0)
        && count == RefillTo(conns, maxConcurrentTasks, count0, |tasks0.Keys|)
        && tasks.Keys == Opened(tasks0.Keys, count0, count)
        && trace == trace0 + Launches(tasks0.Keys, count0, count)
    {
      trace := trace0;
      exhausted, count, calls, sleeps, tasks :=
        Refill(start, conns, connWait, mode, loopSpeed, count0, calls0, sleeps0, tasks0);
      if !exhausted {
        LaunchesKeepInFlight(start, mode, connWait, outcomeOf, loopSpeed, tasks0, perfTimes, count0, count);
        LaunchedKeys(start, mode, connWait, tasks0, count0, count);
        assert |tasks0.Keys| == |tasks0|;
        RefillToStops(conns, maxConcurrentTasks, count0, |tasks0.Keys|, count);
        trace := trace0 + Launches(tasks0.Keys, count0, count);
      }
    }

    /** The ids outstanding after the refill step are the ones before it
        and the ids it launched. */
    lemma {:induction false} LaunchedKeys(start: nat, mode: Mode, connWait: int, tasks0: map<int, Call>,
                                          count0: nat, count: nat)
      requires count0 <= count && (count == 0 || |users| > 0)
      ensures Launched(start, mode, connWait, tasks0, count0, count).Keys == Opened(tasks0.Keys, count0, count)
      decreases count - count0
    {
      if count > count0 {
        LaunchedKeys(start, mode, connWait, tasks0, count0, count - 1);
      }
    }

    /** The records of round i + 1 of `conns` attempts whose users were
        drawn from the cycle from draw number `first` on: a record under
        each id 1..conns and under nothing else, the record for id being
        the outcome, in round i + 1, of the attempt with that id and the
        user handed out id - 1 draws after `first`. */
    ghost predicate RoundRan(first: nat, i: nat, mode: Mode, conns: int, connWait: int, env: (nat, Call) -> Outcome,
                             times: map<int, Record>)
    {
      && (RangeLen(conns) == 0 || |users| > 0)
      && (forall id :: id in times <==> 1 <= id <= conns)
      && (forall id :: id in times ==>
            times[id] == Record(id, env(i + 1, Call(mode, id, UserAt(first, id - 1), connWait))))
    }

    /** A round's result is keyed by exactly the ids 1..conns, and re-keying
        it lists them as 1, 2, ..., conns, each with its own record. */
    lemma RoundKeys(first: nat, i: nat, mode: Mode, conns: int, connWait: int, env: (nat, Call) -> Outcome,
                    times: map<int, Record>)
      requires RoundRan(first, i, mode, conns, connWait, env, times)
      ensures times.Keys == Ids(conns)
      ensures |ByAscendingId(times)| == RangeLen(conns)
      ensures forall j :: 0 <= j < RangeLen(conns) ==> ByAscendingId(times)[j] == (j + 1, times[j + 1])
    {
      ByAscendingIdOfIds(times, RangeLen(conns));
      ByAscendingIdEntries(times);
    }

    /** The rounds of a run, one result per round: each round draws its
        users where the round before it left the cycle, the first from draw
        number `start` on. */
    ghost predicate RoundsRan(start: nat, mode: Mode, conns: int, connWait: int, env: (nat, Call) -> Outcome,
                              results: seq<map<int, Record>>)
      decreases |results|
    {
      |results| > 0 ==>
        var k := |results| - 1;
        && RoundsRan(start, mode, conns, connWait, env, results[..k])
        && RoundRan(start + RoundOffset(k, RangeLen(conns)), k, mode, conns, connWait, env, results[k])
    }

    /** Round i + 1 of the run is what it should be: it drew its users from
        draw number start + i * conns on. */
    lemma {:induction false} RoundsRanAt(start: nat, mode: Mode, conns: int, connWait: int, env: (nat, Call) -> Outcome,
                                         results: seq<map<int, Record>>, i: nat)
      requires RoundsRan(start, mode, conns, connWait, env, results)
      requires i < |results|
      ensures RoundRan(start + i * RangeLen(conns), i, mode, conns, connWait, env, results[i])
    {
      var k := |results| - 1;
      if i < k {
        RoundsRanAt(start, mode, conns, connWait, env, results[..k], i);
        assert results[..k][i] == results[i];
      } else {
        RoundOffsetIsProduct(i, RangeLen(conns));
      }
    }

    /** What `_hammer` returns for round k + 1 is that round. */
    lemma HammeredRound(first: nat, k: nat, mode: Mode, conns: int, connWait: int, env: (nat, Call) -> Outcome,
                        outcomeOf: Call -> Outcome, times: map<int, Record>)
      requires forall c :: outcomeOf(c) == env(k + 1, c)
      requires RangeLen(conns) == 0 || |users| > 0
      requires times == Filed(outcomeOf, Dealt(first, mode, RangeLen(conns), connWait))
      ensures RoundRan(first, k, mode, conns, connWait, env, times)
    {
      var calls := Dealt(first, mode, RangeLen(conns), connWait);
      forall id
        ensures id in times <==> 1 <= id <= conns
        ensures id in times ==>
          times[id] == Record(id, env(k + 1, Call(mode, id, UserAt(first, id - 1), connWait)))
      {
        FiledAt(outcomeOf, calls, id);
        if 1 <= id <= conns {
          DealtAt(first, mode, RangeLen(conns), connWait, id - 1);
        }
      }
    }

    /** A further round, run from where the earlier rounds left the cycle,
        extends the rounds run so far. */
    lemma RoundsRanSnoc(start: nat, first: nat, mode: Mode, conns: int, connWait: int, k: nat, env: (nat, Call) -> Outcome,
                        results: seq<map<int, Record>>, times: map<int, Record>)
      requires RoundsRan(start, mode, conns, connWait, env, results) && |results| == k
      requires first == start + RoundOffset(k, RangeLen(conns))
      requires RoundRan(first, k, mode, conns, connWait, env, times)
      ensures RoundsRan(start, mode, conns, connWait, env, results + [times])
    {
      assert (results + [times])[..k] == results;
    }

    /** One round of the runner: `_hammer` with round number k + 1 wired
        into what each attempt reports. The round draws its users where the
        k rounds before it (`results`, run from draw number `start` on) left
        the cycle, and extends them. */
    method PlayRound(ghost start: nat, k: nat, mode: Mode, conns: int, connWait: int, connsPerSec: real,
                     env: (nat, Call) -> Outcome, schedule: (nat, nat, set<int>) -> set<int>,
                     ghost results: seq<map<int, Record>>)
      returns (r: Result<map<int, Record>>)
      requires Valid() && RoundScheduler(schedule)
      requires RoundsRan(start, mode, conns, connWait, env, results) && |results| == k
      requires drawn == start + RoundOffset(k, RangeLen(conns))
      modifies this
      ensures Valid()
      ensures connsPerSec == 0.0 ==> r == Failure(DivisionByZero)
      ensures connsPerSec != 0.0 && conns >= 1 && |users| == 0 ==> r == Failure(UserCycleExhausted)
      ensures connsPerSec != 0.0 && (conns <= 0 || |users| > 0) ==> r.Success?
      ensures r.Failure? ==> drawn == old(drawn)
      ensures r.Success? ==>
        && RoundsRan(start, mode, conns, connWait, env, results + [r.value])
        && drawn == start + RoundOffset(k + 1, RangeLen(conns))
    {
      ghost var first := drawn;
      var roundNo := k + 1;
      var outcomeOf := c => env(roundNo, c);
      var completes := (count: nat, ks: set<int>) => schedule(roundNo, count, ks);
      var times, _, _ := Hammer(conns, connWait, connsPerSec, mode, outcomeOf, completes);
      if times.Success? {
        HammeredRound(first, k, mode, conns, connWait, env, outcomeOf, times.value);
        RoundsRanSnoc(start, first, mode, conns, connWait, k, env, results, times.value);
      }
      r := times;
    }

    /** The loop `stress_sftp` and `stress_ssh` share: run `rounds` rounds
        one after the other, re-key each round's result in ascending id
        order and file it as `round_<n>`. An error in a round escapes the
        whole run. */
    method PlayRounds(mode: Mode, conns: int, connWait: int, connsPerSec: real, rounds: int,
                      env: (nat, Call) -> Outcome, schedule: (nat, nat, set<int>) -> set<int>)
      returns (r: Result<seq<(string, RoundData)>>, ghost results: seq<map<int, Record>>)
      requires Valid() && RoundScheduler(schedule)
      modifies this
      ensures Valid()
      ensures rounds >= 1 && connsPerSec == 0.0 ==> r == Failure(DivisionByZero)
      ensures rounds >= 1 && connsPerSec != 0.0 && conns >= 1 && |users| == 0 ==> r == Failure(UserCycleExhausted)
      ensures rounds <= 0 || (connsPerSec != 0.0 && (conns <= 0 || |users| > 0)) ==> r.Success?
      ensures r.Failure? ==> drawn == old(drawn)
      ensures r.Success? ==>
        && RoundsRan(old(drawn), mode, conns, connWait, env, results) && |results| == RangeLen(rounds)
        && drawn == old(drawn) + RoundOffset(RangeLen(rounds), RangeLen(conns))
        && r.value == RoundsByName(results)
    {
      var perfTimes: seq<(string, RoundData)> := [];
      results := [];
      ghost var start := drawn;
      ghost var n := RangeLen(conns);
      var stressRound := 0;
      while stressRound < rounds
        invariant Valid()
        invariant 0 <= stressRound && (stressRound <= rounds || stressRound == 0)
        invariant stressRound > 0 ==> connsPerSec != 0.0 && (conns <= 0 || |users| > 0)
        invariant drawn == start + RoundOffset(stressRound, n)
        invariant RoundsRan(start, mode, conns, connWait, env, results) && |results| == stressRound
        invariant perfTimes == RoundsByName(results)
      {
        var times := PlayRound(start, stressRound, mode, conns, connWait, connsPerSec, env, schedule, results);
        if times.Failure? {
          return Failure(times.error), results;
        }
        RoundsByNameSnoc(results, times.value);
        results := results + [times.value];
        perfTimes := perfTimes + [(RoundName(stressRound + 1), ByAscendingId(times.value))];
        stressRound := stressRound + 1;
      }
      r := Success(perfTimes);
    }

    /** `stress_sftp` and `stress_ssh` without their choice of protocol: play
        the rounds, then reduce them to a report. */
    method RunRounds(mode: Mode, stressType: string, conns: int, connWait: int, globalWait: int,
                     connsPerSec: real, rounds: int, env: (nat, Call) -> Outcome,
                     schedule: (nat, nat, set<int>) -> set<int>)
      returns (r: Result<Report>, ghost results: seq<map<int, Record>>)
      requires Valid() && RoundScheduler(schedule)
      modifies this
      ensures Valid()
      ensures rounds >= 1 && connsPerSec == 0.0 ==> r == Failure(DivisionByZero)
      ensures rounds >= 1 && connsPerSec != 0.0 && conns >= 1 && |users| == 0 ==> r == Failure(UserCycleExhausted)
      ensures rounds <= 0 || (connsPerSec != 0.0 && (conns <= 0 || |users| > 0)) ==> r.Success?
      ensures r.Failure? ==> drawn == old(drawn)
      ensures r.Success? ==>
        && RoundsRan(old(drawn), mode, conns, connWait, env, results) && |results| == RangeLen(rounds)
        && drawn == old(drawn) + RangeLen(rounds) * RangeLen(conns)
        && r.value == ReportOf(RoundsByName(results), conns, rounds, connsPerSec, connWait, globalWait, stressType)
    {
      var perfTimes;
      perfTimes, results := PlayRounds(mode, conns, connWait, connsPerSec, rounds, env, schedule);
      if perfTimes.Failure? {
        return Failure(perfTimes.error), results;
      }
      RoundsByNameDistinct(results);
      RoundOffsetIsProduct(RangeLen(rounds), RangeLen(conns));
      var report := CalculateStats(perfTimes.value, conns, rounds, connsPerSec, connWait, globalWait, stressType);
      r := Success(report);
    }

    /** `stress_sftp`: rounds of SFTP listings of `path`. */
    method StressSftp(conns: int, connWait: int, globalWait: int, path: string, connsPerSec: real,
                      rounds: int, env: (nat, Call) -> Outcome, schedule: (nat, nat, set<int>) -> set<int>)
      returns (r: Result<Report>, ghost results: seq<map<int, Record>>)
      requires Valid() && RoundScheduler(schedule)
      modifies this
      ensures Valid()
      ensures rounds >= 1 && connsPerSec == 0.0 ==> r == Failure(DivisionByZero)
      ensures rounds >= 1 && connsPerSec != 0.0 && conns >= 1 && |users| == 0 ==> r == Failure(UserCycleExhausted)
      ensures rounds <= 0 || (connsPerSec != 0.0 && (conns <= 0 || |users| > 0)) ==> r.Success?
      ensures r.Failure? ==> drawn == old(drawn)
      ensures r.Success? ==>
        && RoundsRan(old(drawn), Sftp(path), conns, connWait, env, results) && |results| == RangeLen(rounds)
        && drawn == old(drawn) + RangeLen(rounds) * RangeLen(conns)
        && r.value == ReportOf(RoundsByName(results), conns, rounds, connsPerSec, connWait, globalWait, "SFTP")
    {
      r, results := RunRounds(Sftp(path), "SFTP", conns, connWait, globalWait, connsPerSec, rounds, env, schedule);
    }

    /** `stress_ssh`: rounds of one remote command each. */
    method StressSsh(conns: int, connWait: int, globalWait: int, connsPerSec: real,
                     rounds: int, env: (nat, Call) -> Outcome, schedule: (nat, nat, set<int>) -> set<int>)
      returns (r: Result<Report>, ghost results: seq<map<int, Record>>)
      requires Valid() && RoundScheduler(schedule)
      modifies this
      ensures Valid()
      ensures rounds >= 1 && connsPerSec == 0.0 ==> r == Failure(DivisionByZero)
      ensures rounds >= 1 && connsPerSec != 0.0 && conns >= 1 && |users| == 0 ==> r == Failure(UserCycleExhausted)
      ensures rounds <= 0 || (connsPerSec != 0.0 && (conns <= 0 || |users| > 0)) ==> r.Success?
      ensures r.Failure? ==> drawn == old(drawn)
      ensures r.Success? ==>
        && RoundsRan(old(drawn), Ssh, conns, connWait, env, results) && |results| == RangeLen(rounds)
        && drawn == old(drawn) + RangeLen(rounds) * RangeLen(conns)
        && r.value == ReportOf(RoundsByName(results), conns, rounds, connsPerSec, connWait, globalWait, "SSH")
    {
      r, results := RunRounds(Ssh, "SSH", conns, connWait, globalWait, connsPerSec, rounds, env, schedule);
    }
  }
}
