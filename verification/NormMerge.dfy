/** How the workers of the infinity-norm check merge their maxima: each loads the shared maximum and, when its own is
    larger, tries once to exchange it. */
module NormMerge {

  /** The number of workers, and whether the machine's weak exchange may fail without cause. */
  datatype Threads = Threads(nofWorkers: nat, spurious: bool) {
    predicate Single() {
      nofWorkers == 1 && !spurious
    }
  }

  datatype Phase = Waiting | Loaded(current: nat) | Finished

  datatype Merge = Merge(largest: nat, phases: seq<Phase>)

  /** An atomic step of a worker: its load, then its exchange. The exchange is the weak one, which may fail although
      the shared maximum is the one loaded. */
  datatype Step = Step(worker: nat, spurious: bool)

  function Start(n: nat): (m: Merge)
    ensures m.largest == 0 && |m.phases| == n && forall w :: 0 <= w < n ==> m.phases[w].Waiting?
  {
    Merge(0, seq(n, w => Waiting))
  }

  function Next(locals: seq<nat>, m: Merge, s: Step): (r: Merge)
    requires |m.phases| == |locals|
    ensures |r.phases| == |locals|
  {
    if s.worker >= |locals| then m
    else match m.phases[s.worker]
      case Waiting => m.(phases := m.phases[s.worker := Loaded(m.largest)])
      case Loaded(current) =>
        var exchanged := locals[s.worker] > current && m.largest == current && !s.spurious;
        Merge(if exchanged then locals[s.worker] else m.largest, m.phases[s.worker := Finished])
      case Finished => m
  }

  /** The state after the steps of a schedule. */
  function After(locals: seq<nat>, steps: seq<Step>): (r: Merge)
    ensures |r.phases| == |locals|
  {
    if |steps| == 0 then Start(|locals|)
    else Next(locals, After(locals, steps[..|steps| - 1]), steps[|steps| - 1])
  }

  /** Every worker has made its exchange or found nothing to exchange. */
  ghost predicate Complete(locals: seq<nat>, steps: seq<Step>) {
    forall w :: 0 <= w < |locals| ==> After(locals, steps).phases[w].Finished?
  }

  ghost predicate NeverSpurious(steps: seq<Step>) {
    forall i :: 0 <= i < |steps| ==> !steps[i].spurious
  }

  ghost predicate AllBelow(locals: seq<nat>, bound: nat) {
    forall w :: 0 <= w < |locals| ==> locals[w] < bound
  }

  /** The verdict of some schedule of the machine's workers. */
  ghost predicate SomeVerdict(locals: seq<nat>, bound: nat, th: Threads, ok: bool) {
    exists steps: seq<Step> :: Complete(locals, steps) && (th.spurious || NeverSpurious(steps))
                               && ok == (After(locals, steps).largest < bound)
  }

  /** Every worker takes its two steps, in an order that the scheduler chooses. */
  method MergeMaxima(locals: seq<nat>, th: Threads, ghost bound: nat) returns (largest: nat)
    ensures SomeVerdict(locals, bound, th, largest < bound)
  {
    hide After;
    var m := Start(|locals|);
    var todo, waiting := Workers(|locals|), Workers(|locals|);
    ghost var steps: seq<Step> := [];
    NoSteps(locals);
    while todo != {}
      invariant m == After(locals, steps) && (th.spurious || NeverSpurious(steps))
      invariant waiting <= todo <= Workers(|locals|)
      invariant forall w :: 0 <= w < |locals| ==> (w in todo <==> !m.phases[w].Finished?)
      invariant forall w :: 0 <= w < |locals| ==> (w in waiting <==> m.phases[w].Waiting?)
      decreases todo, waiting
    {
      var w: nat :| w in todo;
      var fails: bool := *;
      var step := Step(w, fails && th.spurious);
      OneMoreStep(locals, steps, step);
      m, steps := Next(locals, m, step), steps + [step];
      if w in waiting { waiting := waiting - {w}; } else { todo := todo - {w}; }
    }
    assert Complete(locals, steps);
    return m.largest;
  }

  function Workers(n: nat): (r: set<nat>)
    ensures forall w :: w in r <==> 0 <= w < n
  {
    if n == 0 then {} else Workers(n - 1) + {n - 1}
  }

  lemma NoSteps(locals: seq<nat>)
    ensures After(locals, []) == Start(|locals|)
  {}

  lemma OneMoreStep(locals: seq<nat>, steps: seq<Step>, s: Step)
    ensures After(locals, steps + [s]) == Next(locals, After(locals, steps), s)
  {
    assert (steps + [s])[..|steps|] == steps;
  }

  /** The shared maximum is zero or some worker's, and no loaded value is above it. */
  lemma {:induction false} MaximumOfSome(locals: seq<nat>, steps: seq<Step>)
    ensures var m := After(locals, steps);
      && (m.largest == 0 || m.largest in locals)
      && forall w :: 0 <= w < |locals| && m.phases[w].Loaded? ==> m.phases[w].current <= m.largest
  {
    if |steps| > 0 {
      MaximumOfSome(locals, steps[..|steps| - 1]);
    }
  }

  /** Without spurious failures a worker with a positive maximum does not finish before the shared one is positive. */
  lemma {:induction false} PositiveStored(locals: seq<nat>, steps: seq<Step>, w: nat)
    requires NeverSpurious(steps) && w < |locals| && locals[w] > 0 && After(locals, steps).phases[w].Finished?
    ensures After(locals, steps).largest > 0
  {
    if |steps| > 0 {
      var before := steps[..|steps| - 1];
      MaximumOfSome(locals, before);
      if After(locals, before).phases[w].Finished? { PositiveStored(locals, before, w); }
    }
  }

  /** Loads of the first n workers, one after the other. */
  function Loads(n: nat): (steps: seq<Step>)
    ensures |steps| == n && forall i :: 0 <= i < n ==> steps[i] == Step(i, false)
  {
    seq(n, i requires i >= 0 => Step(i, false))
  }

  lemma {:induction false} AllLoaded(locals: seq<nat>, n: nat)
    requires n <= |locals|
    ensures After(locals, Loads(n)).largest == 0
    ensures forall w :: 0 <= w < |locals| ==>
      After(locals, Loads(n)).phases[w] == if w < n then Loaded(0) else Waiting
  {
    if n > 0 {
      AllLoaded(locals, n - 1);
      assert Loads(n) == Loads(n - 1) + [Step(n - 1, false)];
      OneMoreStep(locals, Loads(n - 1), Step(n - 1, false));
    }
  }

  /** After all loads, a first exchange that succeeds makes all others fail. */
  lemma {:induction false} OthersFail(locals: seq<nat>, v: nat, n: nat)
    requires v < |locals| && locals[v] > 0 && n <= |locals|
    ensures var m := After(locals, Loads(|locals|) + [Step(v, false)] + Loads(n));
      && m.largest == locals[v]
      && forall w :: 0 <= w < |locals| ==> m.phases[w] == if w < n || w == v then Finished else Loaded(0)
  {
    var first := Loads(|locals|) + [Step(v, false)];
    if n == 0 {
      AllLoaded(locals, |locals|);
      OneMoreStep(locals, Loads(|locals|), Step(v, false));
      assert first + Loads(0) == first;
    } else {
      OthersFail(locals, v, n - 1);
      assert first + Loads(n) == (first + Loads(n - 1)) + [Step(n - 1, false)];
      OneMoreStep(locals, first + Loads(n - 1), Step(n - 1, false));
    }
  }

  /** Any worker's positive maximum can be the one that stays. */
  lemma AnyMayStay(locals: seq<nat>, v: nat) returns (steps: seq<Step>)
    requires v < |locals| && locals[v] > 0
    ensures Complete(locals, steps) && NeverSpurious(steps) && After(locals, steps).largest == locals[v]
  {
    steps := Loads(|locals|) + [Step(v, false)] + Loads(|locals|);
    OthersFail(locals, v, |locals|);
  }

  /** The verdict is right on every schedule in which no exchange fails without cause. */
  ghost predicate AlwaysRight(locals: seq<nat>, bound: nat) {
    forall steps: seq<Step> :: Complete(locals, steps) && NeverSpurious(steps) ==>
      (After(locals, steps).largest < bound <==> AllBelow(locals, bound))
  }

  /** That is so exactly when all maxima are below the bound or none but zeros are. */
  lemma AlwaysRightIff(locals: seq<nat>, bound: nat)
    requires |locals| >= 1
    ensures AlwaysRight(locals, bound) <==>
      AllBelow(locals, bound) || forall w :: 0 <= w < |locals| ==> locals[w] == 0 || locals[w] >= bound
  {
    if AllBelow(locals, bound) {
      forall steps: seq<Step> ensures After(locals, steps).largest < bound { InBoundAccepted(locals, bound, steps); }
    } else if forall w :: 0 <= w < |locals| ==> locals[w] == 0 || locals[w] >= bound {
      forall steps: seq<Step> | Complete(locals, steps) && NeverSpurious(steps)
        ensures After(locals, steps).largest >= bound
      {
        MaximumOfSome(locals, steps);
        if bound > 0 {
          var w :| 0 <= w < |locals| && locals[w] >= bound;
          PositiveStored(locals, steps, w);
        }
      }
    } else {
      var v :| 0 <= v < |locals| && 0 < locals[v] < bound;
      var steps := AnyMayStay(locals, v);
      assert !(After(locals, steps).largest < bound <==> AllBelow(locals, bound));
    }
  }

  /** Maxima below the bound are accepted on every schedule, whatever fails. */
  lemma InBoundAccepted(locals: seq<nat>, bound: nat, steps: seq<Step>)
    requires |locals| >= 1 && AllBelow(locals, bound)
    ensures After(locals, steps).largest < bound
  {
    MaximumOfSome(locals, steps);
    assert locals[0] < bound;
  }

  /** What every verdict keeps: maxima below the bound are accepted, and a worker on its own is exact. */
  lemma VerdictMeans(locals: seq<nat>, bound: nat, th: Threads, ok: bool)
    requires |locals| >= 1 && SomeVerdict(locals, bound, th, ok)
    ensures AllBelow(locals, bound) ==> ok
    ensures |locals| == 1 && !th.spurious ==> (ok <==> AllBelow(locals, bound))
  {
    var steps :| Complete(locals, steps) && (th.spurious || NeverSpurious(steps))
                 && ok == (After(locals, steps).largest < bound);
    if AllBelow(locals, bound) { InBoundAccepted(locals, bound, steps); }
    AlwaysRightIff(locals, bound);
  }

  /** With the maxima 5 and 3 there is a schedule on which bound 4 accepts. */
  lemma LostUpdate() returns (steps: seq<Step>)
    ensures Complete([5, 3], steps) && NeverSpurious(steps)
    ensures After([5, 3], steps).largest < 4 && !AllBelow([5, 3], 4)
  {
    steps := AnyMayStay([5, 3], 1);
    assert [5, 3][0] == 5;
  }

  /** Exchanges of the first n workers that all fail without cause. */
  function Failures(n: nat): (steps: seq<Step>)
    ensures |steps| == n && forall i :: 0 <= i < n ==> steps[i] == Step(i, true)
  {
    seq(n, i requires i >= 0 => Step(i, true))
  }

  lemma {:induction false} NothingStored(locals: seq<nat>, n: nat)
    requires n <= |locals|
    ensures var m := After(locals, Loads(|locals|) + Failures(n));
      && m.largest == 0
      && forall w :: 0 <= w < |locals| ==> m.phases[w] == if w < n then Finished else Loaded(0)
  {
    var first := Loads(|locals|);
    if n == 0 {
      AllLoaded(locals, |locals|);
      assert first + Failures(0) == first;
    } else {
      NothingStored(locals, n - 1);
      assert first + Failures(n) == (first + Failures(n - 1)) + [Step(n - 1, true)];
      OneMoreStep(locals, first + Failures(n - 1), Step(n - 1, true));
    }
  }

  /** Where exchanges may fail without cause, the verdict is right on all schedules only if every maximum is below the
      bound or the bound is zero. */
  lemma RightDespiteFailuresIff(locals: seq<nat>, bound: nat)
    requires |locals| >= 1
    ensures (forall steps: seq<Step> :: Complete(locals, steps) ==>
               (After(locals, steps).largest < bound <==> AllBelow(locals, bound)))
       <==> (AllBelow(locals, bound) || bound == 0)
  {
    if AllBelow(locals, bound) {
      forall steps: seq<Step> ensures After(locals, steps).largest < bound { InBoundAccepted(locals, bound, steps); }
    } else if bound > 0 {
      var steps := Loads(|locals|) + Failures(|locals|);
      NothingStored(locals, |locals|);
      assert Complete(locals, steps) && After(locals, steps).largest < bound;
    }
  }
}
