/**
 * The iterative root finders of `Function`: Newton, chord, secant,
 * finite-difference Newton, Steffensen and simple iteration, and the sampled
 * minimum used by simple iteration.
 *
 * Every finder records its start as (x0, 0), then computes x1 from x0, stops
 * the first time |x1 − x0| < eps without recording x1, and otherwise records
 * (x1, n) and carries on from x1.  The source loops without bound; here each
 * finder takes at most `maxIter` update steps.  A zero denominator ends the run
 * with `DivisionByZero` instead of a Python exception.
 */
module RootFinding {
  import opened Wrappers
  import opened Reals

  /** One entry of a trace: an iterate and its step number. */
  datatype Record = Record(value: real, index: nat)

  datatype Status =
    | Converged       // the next iterate was closer than eps to the last one
    | DivisionByZero  // the update rule divided by zero
    | NoConvergence   // `maxIter` update steps were taken without stopping
    | NotApplicable   // simple iteration: the sampled minimum of f′ is not positive

  /** What a finder returns: its recorded trace and how it ended. */
  datatype Outcome = Outcome(trace: seq<Record>, status: Status)

  /** The one-point update rules; each carries the constants it fixes before the loop. */
  datatype Rule =
    | Newton
    | Chord(ab: real)             // the fixed far end of the chord
    | FiniteDifference(h: real)   // the fixed difference step (b − a) / step
    | Steffensen                  // corrected: a root is kept (see Findings)
    | UncorrectedSteffensen       // the update as written, failing at every root
    | SimpleIteration(t: real)    // the fixed factor 1 / min f′

  class Function {
    const a: real
    const b: real
    const eps: real
    /** f, f′ and f″ on the reals. */
    const fun: real -> real
    const df: real -> real
    const ddf: real -> real

    /** The interval [start, end], the function with its two derivatives, and the tolerance. */
    constructor (start: real, end: real, f: real -> real, fPrime: real -> real, fSecond: real -> real,
                 eps: real := 0.0000001)
      ensures a == start && b == end && this.eps == eps
      ensures fun == f && df == fPrime && ddf == fSecond
    {
      a := start;
      b := end;
      fun := f;
      df := fPrime;
      ddf := fSecond;
      this.eps := eps;
    }

    /** The next iterate after x under a rule; None where its denominator is zero. */
    function Next(rule: Rule, x: real): (r: Option<real>)
      ensures rule.SimpleIteration? ==> r.Some?
    {
      match rule
      case Newton =>
        if df(x) == 0.0 then None else Some(x - fun(x) / df(x))
      case Chord(ab) =>
        if fun(ab) - fun(x) == 0.0 then None else Some(x - fun(x) * (ab - x) / (fun(ab) - fun(x)))
      case FiniteDifference(h) =>
        var f1 := fun(x) * h;
        var f2 := fun(x + h) - fun(x);
        if f2 == 0.0 then None else Some(x - f1 / f2)
      case Steffensen =>
        if fun(x) == 0.0 then Some(x) else SteffensenAsWritten(x)
      case UncorrectedSteffensen =>
        SteffensenAsWritten(x)
      case SimpleIteration(t) =>
        Some(x - t * fun(x))
    }

    /**
     * Steffensen's update exactly as the source writes it: at a root the
     * denominator f(x + f(x)) − f(x) is f(x) − f(x) = 0.
     */
    function SteffensenAsWritten(x: real): Option<real> {
      var d := fun(x + fun(x)) - fun(x);
      if d == 0.0 then None else Some(x - fun(x) * fun(x) / d)
    }

    /**
     * `trace` starts with (x0, 0), its step numbers run 0, 1, 2, …, each entry
     * is the update of the one before it, and no two neighbours are closer
     * than eps.
     */
    predicate Recorded(trace: seq<Record>, x0: real, rule: Rule) {
      |trace| >= 1 && trace[0] == Record(x0, 0) &&
      (forall k :: 0 <= k < |trace| ==> trace[k].index == k) &&
      forall k :: 1 <= k < |trace| ==> Step(trace, rule, k)
    }

    /** Entry k of a trace is the update of entry k − 1 and at least eps away from it. */
    predicate Step(trace: seq<Record>, rule: Rule, k: nat)
      requires 1 <= k < |trace|
    {
      Next(rule, trace[k - 1].value) == Some(trace[k].value) &&
      Abs(trace[k].value - trace[k - 1].value) >= eps
    }

    /**
     * How a run of `rule` with at most `maxIter` steps ends: the update of the
     * last recorded iterate is within eps of it (not recorded), or divides by
     * zero, or all `maxIter` steps were taken and recorded.
     */
    predicate Finished(r: Outcome, rule: Rule, maxIter: nat)
      requires |r.trace| >= 1
    {
      var last := r.trace[|r.trace| - 1].value;
      match r.status
      case Converged =>
        |r.trace| <= maxIter && Next(rule, last).Some? && Abs(Next(rule, last).value - last) < eps
      case DivisionByZero =>
        |r.trace| <= maxIter && Next(rule, last).None?
      case NoConvergence =>
        |r.trace| == maxIter + 1
      case NotApplicable =>
        false
    }

    /** Recording the update of the last entry, when it is at least eps away, extends a trace. */
    lemma RecordedExtend(trace: seq<Record>, x0: real, rule: Rule, x1: real)
      requires Recorded(trace, x0, rule)
      requires Next(rule, trace[|trace| - 1].value) == Some(x1)
      requires Abs(x1 - trace[|trace| - 1].value) >= eps
      ensures Recorded(trace + [Record(x1, |trace|)], x0, rule)
    {
      var t := trace + [Record(x1, |trace|)];
      forall k | 1 <= k < |t|
        ensures Step(t, rule, k)
      {
        if k < |trace| {
          assert Step(trace, rule, k);
        }
      }
    }

    /** The loop shared by the one-point finders, run from x0 under `rule`. */
    method Iterate(x0: real, rule: Rule, maxIter: nat) returns (r: Outcome)
      ensures Recorded(r.trace, x0, rule) && Finished(r, rule, maxIter)
    {
      var x := x0;
      var result := [Record(x0, 0)];
      var n := 1;
      while n <= maxIter
        invariant 1 <= n <= maxIter + 1
        invariant |result| == n && Recorded(result, x0, rule) && x == result[n - 1].value
      {
        var next := Next(rule, x);
        if next.None? {
          return Outcome(result, DivisionByZero);
        }
        var x1 := next.value;
        if Abs(x1 - x) < eps {
          return Outcome(result, Converged);
        }
        RecordedExtend(result, x0, rule, x1);
        result := result + [Record(x1, n)];
        x := x1;
        n := n + 1;
      }
      return Outcome(result, NoConvergence);
    }

    /** Entry k of a recorded trace is the update of entry k − 1, at least eps away. */
    lemma StepAt(trace: seq<Record>, x0: real, rule: Rule, k: nat)
      requires Recorded(trace, x0, rule) && 1 <= k < |trace|
      ensures Next(rule, trace[k - 1].value) == Some(trace[k].value)
      ensures Abs(trace[k].value - trace[k - 1].value) >= eps
    {
      assert Step(trace, rule, k);
    }

    /** Two traces recorded from the same start under the same rule agree as far as both go. */
    lemma {:induction false} RecordedAgree(t1: seq<Record>, t2: seq<Record>, x0: real, rule: Rule, k: nat)
      requires Recorded(t1, x0, rule) && Recorded(t2, x0, rule)
      requires k < |t1| && k < |t2|
      ensures t1[k] == t2[k]
    {
      if k > 0 {
        RecordedAgree(t1, t2, x0, rule, k - 1);
        assert Step(t1, rule, k) && Step(t2, rule, k);
      }
    }

    /** A recorded trace that a finished run stops at is never a proper prefix of another recorded trace. */
    lemma NotExtended(r1: Outcome, r2: Outcome, x0: real, rule: Rule, maxIter: nat)
      requires Recorded(r1.trace, x0, rule) && Finished(r1, rule, maxIter)
      requires Recorded(r2.trace, x0, rule) && Finished(r2, rule, maxIter)
      ensures |r1.trace| >= |r2.trace|
    {
      var n := |r1.trace|;
      if n < |r2.trace| {
        RecordedAgree(r1.trace, r2.trace, x0, rule, n - 1);
        if r1.status != NoConvergence {
          StepAt(r2.trace, x0, rule, n);
        }
      }
    }

    /**
     * The outcome of a run is determined by its start, rule and bound: any two
     * outcomes meeting `Recorded` and `Finished` are equal.
     */
    lemma TraceDetermined(r1: Outcome, r2: Outcome, x0: real, rule: Rule, maxIter: nat)
      requires Recorded(r1.trace, x0, rule) && Finished(r1, rule, maxIter)
      requires Recorded(r2.trace, x0, rule) && Finished(r2, rule, maxIter)
      ensures r1 == r2
    {
      NotExtended(r1, r2, x0, rule, maxIter);
      NotExtended(r2, r1, x0, rule, maxIter);
      forall k | 0 <= k < |r1.trace|
        ensures r1.trace[k] == r2.trace[k]
      {
        RecordedAgree(r1.trace, r2.trace, x0, rule, k);
      }
      assert r1.trace == r2.trace;
    }

    /**
     * A start that the rule maps to itself stops at once, for eps > 0 and at
     * least one step: the trace is [(x0, 0)] and the run converged.
     */
    lemma FixedStartStops(r: Outcome, x0: real, rule: Rule, maxIter: nat)
      requires 0.0 < eps && 1 <= maxIter && Next(rule, x0) == Some(x0)
      requires Recorded(r.trace, x0, rule) && Finished(r, rule, maxIter)
      ensures r == Outcome([Record(x0, 0)], Converged)
    {
      var s := Outcome([Record(x0, 0)], Converged);
      assert Abs(x0 - x0) == 0.0;
      TraceDetermined(r, s, x0, rule, maxIter);
    }

    /** Newton's update leaves a simple root where it is. */
    lemma NewtonFixesRoot(x: real)
      requires fun(x) == 0.0 && df(x) != 0.0
      ensures Next(Newton, x) == Some(x)
    {
    }

    /** As written, Steffensen's update divides by zero at every root. */
    lemma SteffensenAsWrittenFailsAtRoot(x: real)
      requires fun(x) == 0.0
      ensures SteffensenAsWritten(x) == None
    {
    }

    /** Newton's update fails at a root where f′ also vanishes. */
    lemma NewtonFailsAtMultipleRoot(x: real)
      requires fun(x) == 0.0 && df(x) == 0.0
      ensures Next(Newton, x) == None
    {
    }

    /** The chord update keeps a root unless f also vanishes at the far end. */
    lemma ChordFixesRoot(ab: real, x: real)
      requires fun(x) == 0.0
      ensures Next(Chord(ab), x) == (if fun(ab) == 0.0 then None else Some(x))
    {
    }

    /** The finite-difference update keeps a root unless f also vanishes at x + h. */
    lemma FiniteDifferenceFixesRoot(h: real, x: real)
      requires fun(x) == 0.0
      ensures Next(FiniteDifference(h), x) == (if fun(x + h) == 0.0 then None else Some(x))
    {
    }

    /**
     * The corrected Steffensen update moves every point that is not a root:
     * its fixed points are exactly the roots of f.
     */
    lemma SteffensenFixesExactlyRoots(x: real)
      ensures Next(Steffensen, x) == Some(x) <==> fun(x) == 0.0
    {
      if fun(x) != 0.0 {
        var d := fun(x + fun(x)) - fun(x);
        if d != 0.0 {
          QuotientNonzero(fun(x), fun(x), d);
        }
      }
    }

    /**
     * Two traces from the same start, one under the corrected Steffensen update
     * and one under the update as written, agree as far as both go (eps > 0).
     */
    lemma {:induction false} SteffensenTracesAgree(t1: seq<Record>, t2: seq<Record>, x0: real, k: nat)
      requires 0.0 < eps
      requires Recorded(t1, x0, Steffensen) && Recorded(t2, x0, UncorrectedSteffensen)
      requires k < |t1| && k < |t2|
      ensures t1[k] == t2[k]
    {
      if k > 0 {
        SteffensenTracesAgree(t1, t2, x0, k - 1);
        StepAt(t1, x0, Steffensen, k);
        StepAt(t2, x0, UncorrectedSteffensen, k);
      }
    }

    /** In a trace of either Steffensen rule, only the last entry can be a root (eps > 0). */
    lemma SteffensenRootIsLast(trace: seq<Record>, x0: real, rule: Rule, k: nat)
      requires 0.0 < eps && (rule == Steffensen || rule == UncorrectedSteffensen)
      requires Recorded(trace, x0, rule) && 1 <= k < |trace|
      ensures fun(trace[k - 1].value) != 0.0
    {
      StepAt(trace, x0, rule, k);
    }

    /**
     * Runs of the corrected and the as-written Steffensen update from the same
     * start with the same bound record the same trace.  Their status differs
     * only when the last recorded iterate is a root with a step still allowed:
     * there the as-written run ends in `DivisionByZero` and the corrected run
     * in `Converged`.
     */
    lemma SteffensenCorrectionOnlyAtRoot(r1: Outcome, r2: Outcome, x0: real, maxIter: nat)
      requires 0.0 < eps
      requires Recorded(r1.trace, x0, Steffensen) && Finished(r1, Steffensen, maxIter)
      requires Recorded(r2.trace, x0, UncorrectedSteffensen) && Finished(r2, UncorrectedSteffensen, maxIter)
      ensures r1.trace == r2.trace
      ensures var last := r1.trace[|r1.trace| - 1].value;
        if fun(last) == 0.0 && |r1.trace| <= maxIter
        then r1.status == Converged && r2.status == DivisionByZero
        else r1.status == r2.status
    {
      var n1, n2 := |r1.trace|, |r2.trace|;
      if n1 < n2 {
        SteffensenTracesAgree(r1.trace, r2.trace, x0, n1 - 1);
        SteffensenRootIsLast(r2.trace, x0, UncorrectedSteffensen, n1);
        StepAt(r2.trace, x0, UncorrectedSteffensen, n1);
      } else if n2 < n1 {
        SteffensenTracesAgree(r1.trace, r2.trace, x0, n2 - 1);
        SteffensenRootIsLast(r1.trace, x0, Steffensen, n2);
        StepAt(r1.trace, x0, Steffensen, n2);
      } else {
        forall k | 0 <= k < n1
          ensures r1.trace[k] == r2.trace[k]
        {
          SteffensenTracesAgree(r1.trace, r2.trace, x0, k);
        }
        assert r1.trace == r2.trace;
      }
    }

    /**
     * As written, Steffensen's method started at a root ends at once on a zero
     * denominator, with trace [(x0, 0)] (at least one step allowed).
     */
    lemma SteffensenAsWrittenRunFails(r: Outcome, x0: real, maxIter: nat)
      requires 1 <= maxIter && fun(x0) == 0.0
      requires Recorded(r.trace, x0, UncorrectedSteffensen) && Finished(r, UncorrectedSteffensen, maxIter)
      ensures r == Outcome([Record(x0, 0)], DivisionByZero)
    {
      SteffensenAsWrittenFailsAtRoot(x0);
      TraceDetermined(r, Outcome([Record(x0, 0)], DivisionByZero), x0, UncorrectedSteffensen, maxIter);
    }

    /**
     * With the corrected update, Steffensen's method started at a root stops
     * at once (eps > 0, at least one step allowed).
     */
    lemma SteffensenStopsAtRoot(r: Outcome, x0: real, maxIter: nat)
      requires 0.0 < eps && 1 <= maxIter && fun(x0) == 0.0
      requires Recorded(r.trace, x0, Steffensen) && Finished(r, Steffensen, maxIter)
      ensures r == Outcome([Record(x0, 0)], Converged)
    {
      FixedStartStops(r, x0, Steffensen, maxIter);
    }

    /** Newton's method from a when f(a)·f″(a) > 0, and from b otherwise. */
    method NewtonMethod(maxIter: nat) returns (r: Outcome)
      ensures var x0 := if fun(a) * ddf(a) > 0.0 then a else b;
        Recorded(r.trace, x0, Newton) && Finished(r, Newton, maxIter)
    {
      var x0 := if fun(a) * ddf(a) > 0.0 then a else b;
      r := Iterate(x0, Newton, maxIter);
    }

    /**
     * The chord method: from a with far end b when f(b)·f″(b) > 0, otherwise
     * from b with far end a; the far end stays fixed.
     */
    method ChordMethod(maxIter: nat) returns (r: Outcome)
      ensures var (x0, ab) := if fun(b) * ddf(b) > 0.0 then (a, b) else (b, a);
        Recorded(r.trace, x0, Chord(ab)) && Finished(r, Chord(ab), maxIter)
    {
      var x0, ab := a, b;
      if !(fun(b) * ddf(b) > 0.0) {
        x0, ab := b, a;
      }
      r := Iterate(x0, Chord(ab), maxIter);
    }

    /** Newton's method with f′ replaced by a forward difference over h = (b − a) / step, from a. */
    method FiniteDifferenceNewtonMethod(maxIter: nat, step: int := 1000) returns (r: Outcome)
      ensures step == 0 ==> r == Outcome([Record(a, 0)], DivisionByZero)
      ensures step != 0 ==>
        Recorded(r.trace, a, FiniteDifference((b - a) / step as real)) &&
        Finished(r, FiniteDifference((b - a) / step as real), maxIter)
    {
      if step == 0 {
        return Outcome([Record(a, 0)], DivisionByZero);
      }
      var h := (b - a) / step as real;
      r := Iterate(a, FiniteDifference(h), maxIter);
    }

    /** Steffensen's method from a, with the update kept at a root (see `SteffensenCorrectionOnlyAtRoot`). */
    method SteffensenMethod(maxIter: nat) returns (r: Outcome)
      ensures Recorded(r.trace, a, Steffensen) && Finished(r, Steffensen, maxIter)
    {
      r := Iterate(a, Steffensen, maxIter);
    }

    /**
     * The smallest value of f over the candidates a, samples[0], samples[1], …
     * (the value only; which point attains it is settled by `FindMinFun`).
     */
    function SampledMin(g: real -> real, samples: seq<real>): (m: real)
      ensures m <= g(a)
      ensures forall i :: 0 <= i < |samples| ==> m <= g(samples[i])
      ensures m == g(a) || exists i :: 0 <= i < |samples| && m == g(samples[i])
    {
      if |samples| == 0 then g(a)
      else
        var m := SampledMin(g, samples[..|samples| - 1]);
        var last := samples[|samples| - 1];
        if m > g(last) then g(last) else m
    }

    /**
     * The sampled minimum of g and the first candidate (a, then the samples in
     * order) where it is reached: a later point replaces the current one only
     * when its value is strictly smaller.
     */
    method FindMinFun(samples: seq<real>, g: real -> real) returns (minFx: real, point: real)
      ensures minFx == SampledMin(g, samples) && minFx == g(point)
      ensures (point == a && minFx == g(a)) ||
        exists i :: 0 <= i < |samples| && point == samples[i] && minFx < g(a) &&
          forall j :: 0 <= j < i ==> minFx < g(samples[j])
    {
      point := a;
      minFx := g(point);
      for k := 0 to |samples|
        invariant minFx == SampledMin(g, samples[..k]) && minFx == g(point)
        invariant (point == a && minFx == g(a)) ||
          exists i :: 0 <= i < k && point == samples[i] && minFx < g(a) &&
            forall j :: 0 <= j < i ==> minFx < g(samples[j])
      {
        assert samples[..k + 1][..k] == samples[..k];
        if minFx > g(samples[k]) {
          minFx, point := g(samples[k]), samples[k];
        }
      }
      assert samples[..|samples|] == samples;
    }

    /**
     * Simple iteration x1 = x0 − f(x0) / m from a, where m is the sampled
     * minimum of f′; when m ≤ 0 the trace is just [(a, 0)].
     */
    method SimpleIterationMethod(samples: seq<real>, maxIter: nat) returns (r: Outcome)
      ensures var m := SampledMin(df, samples);
        (m > 0.0 ==> Recorded(r.trace, a, SimpleIteration(1.0 / m)) && Finished(r, SimpleIteration(1.0 / m), maxIter)) &&
        (m <= 0.0 ==> r == Outcome([Record(a, 0)], NotApplicable))
    {
      var minDf, _ := FindMinFun(samples, df);
      if minDf > 0.0 {
        var t := 1.0 / minDf;
        r := Iterate(a, SimpleIteration(t), maxIter);
      } else {
        r := Outcome([Record(a, 0)], NotApplicable);
      }
    }

    /** Simple iteration never stops on a zero denominator. */
    lemma SimpleIterationNeverDivides(r: Outcome, t: real, maxIter: nat)
      requires Recorded(r.trace, a, SimpleIteration(t)) && Finished(r, SimpleIteration(t), maxIter)
      ensures r.status != DivisionByZero
    {
    }

    /** The secant update from the two latest iterates; None where f(x1) = f(x0). */
    function SecantNext(x0: real, x1: real): Option<real> {
      var d := fun(x1) - fun(x0);
      if d == 0.0 then None else Some(x1 - fun(x1) * (x1 - x0) / d)
    }

    /**
     * A secant trace: (a, 0), (b, 0), then entries numbered 1, 2, …, each the
     * secant update of the two before it and no closer than eps to the one
     * just before.
     */
    predicate SecantRecorded(trace: seq<Record>) {
      |trace| >= 2 && trace[0] == Record(a, 0) && trace[1] == Record(b, 0) &&
      forall k :: 2 <= k < |trace| ==> SecantStep(trace, k)
    }

    /** Entry k (k ≥ 2) is numbered k − 1, is the secant update of the two before it, and is at least eps from the last. */
    predicate SecantStep(trace: seq<Record>, k: nat)
      requires 2 <= k < |trace|
    {
      trace[k].index == k - 1 &&
      SecantNext(trace[k - 2].value, trace[k - 1].value) == Some(trace[k].value) &&
      Abs(trace[k].value - trace[k - 1].value) >= eps
    }

    /** How a secant run with at most `maxIter` steps ends, judged on its last two entries. */
    predicate SecantFinished(r: Outcome, maxIter: nat)
      requires |r.trace| >= 2
    {
      var x0 := r.trace[|r.trace| - 2].value;
      var x1 := r.trace[|r.trace| - 1].value;
      match r.status
      case Converged =>
        |r.trace| <= maxIter + 1 && SecantNext(x0, x1).Some? && Abs(SecantNext(x0, x1).value - x1) < eps
      case DivisionByZero =>
        |r.trace| <= maxIter + 1 && SecantNext(x0, x1).None?
      case NoConvergence =>
        |r.trace| == maxIter + 2
      case NotApplicable =>
        false
    }

    /** Recording the secant update of the last two entries, when it is at least eps away, extends a trace. */
    lemma SecantExtend(trace: seq<Record>, x2: real)
      requires SecantRecorded(trace)
      requires SecantNext(trace[|trace| - 2].value, trace[|trace| - 1].value) == Some(x2)
      requires Abs(x2 - trace[|trace| - 1].value) >= eps
      ensures SecantRecorded(trace + [Record(x2, |trace| - 1)])
    {
      var t := trace + [Record(x2, |trace| - 1)];
      forall k | 2 <= k < |t|
        ensures SecantStep(t, k)
      {
        if k < |trace| {
          assert SecantStep(trace, k);
        }
      }
    }

    /** The secant method from a and b; each step shifts (x0, x1) to (x1, x2). */
    method SecantMethod(maxIter: nat) returns (r: Outcome)
      ensures SecantRecorded(r.trace) && SecantFinished(r, maxIter)
    {
      var x0 := a;
      var x1 := b;
      var result := [Record(x0, 0), Record(x1, 0)];
      var n := 1;
      while n <= maxIter
        invariant 1 <= n <= maxIter + 1
        invariant |result| == n + 1 && SecantRecorded(result)
        invariant x0 == result[n - 1].value && x1 == result[n].value
      {
        var next := SecantNext(x0, x1);
        if next.None? {
          return Outcome(result, DivisionByZero);
        }
        var x2 := next.value;
        if Abs(x2 - x1) < eps {
          return Outcome(result, Converged);
        }
        SecantExtend(result, x2);
        result := result + [Record(x2, n)];
        x0 := x1;
        x1 := x2;
        n := n + 1;
      }
      return Outcome(result, NoConvergence);
    }

    /** Entry k (k ≥ 2) of a secant trace is the secant update of the two before it, at least eps from the last. */
    lemma SecantStepAt(trace: seq<Record>, k: nat)
      requires SecantRecorded(trace) && 2 <= k < |trace|
      ensures SecantNext(trace[k - 2].value, trace[k - 1].value) == Some(trace[k].value)
      ensures Abs(trace[k].value - trace[k - 1].value) >= eps
    {
      assert SecantStep(trace, k);
    }

    /** Two secant traces agree as far as both go. */
    lemma {:induction false} SecantAgree(t1: seq<Record>, t2: seq<Record>, k: nat)
      requires SecantRecorded(t1) && SecantRecorded(t2)
      requires k < |t1| && k < |t2|
      ensures t1[k] == t2[k]
    {
      if k >= 2 {
        SecantAgree(t1, t2, k - 1);
        SecantAgree(t1, t2, k - 2);
        assert SecantStep(t1, k) && SecantStep(t2, k);
      }
    }

    /** A finished secant run is never a proper prefix of another secant trace. */
    lemma SecantNotExtended(r1: Outcome, r2: Outcome, maxIter: nat)
      requires SecantRecorded(r1.trace) && SecantFinished(r1, maxIter)
      requires SecantRecorded(r2.trace) && SecantFinished(r2, maxIter)
      ensures |r1.trace| >= |r2.trace|
    {
      var n := |r1.trace|;
      if n < |r2.trace| {
        SecantAgree(r1.trace, r2.trace, n - 1);
        SecantAgree(r1.trace, r2.trace, n - 2);
        if r1.status != NoConvergence {
          SecantStepAt(r2.trace, n);
        }
      }
    }

    /** The outcome of a secant run is determined by the bound alone. */
    lemma SecantDetermined(r1: Outcome, r2: Outcome, maxIter: nat)
      requires SecantRecorded(r1.trace) && SecantFinished(r1, maxIter)
      requires SecantRecorded(r2.trace) && SecantFinished(r2, maxIter)
      ensures r1 == r2
    {
      SecantNotExtended(r1, r2, maxIter);
      SecantNotExtended(r2, r1, maxIter);
      forall k | 0 <= k < |r1.trace|
        ensures r1.trace[k] == r2.trace[k]
      {
        SecantAgree(r1.trace, r2.trace, k);
      }
      assert r1.trace == r2.trace;
    }
  }
}
