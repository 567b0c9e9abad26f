/** The K-best timer (fcyc.c): the buffer of the smallest measurements and the rule that stops the
    measuring.  Measurements are reals; the rounding of doubles plays no part. */
module Fcyc {

  // ---------- Reference: sort everything, keep a prefix ----------

  /** `x` put into a sorted list, behind the elements equal to it. */
  function Insert(s: seq<real>, x: real): (r: seq<real>)
    ensures |r| == |s| + 1
  {
    if s == [] || s[|s| - 1] <= x then s + [x]
    else Insert(s[..|s| - 1], x) + [s[|s| - 1]]
  }

  function Sort(s: seq<real>): (r: seq<real>)
    ensures |r| == |s|
  {
    if s == [] then [] else Insert(Sort(s[..|s| - 1]), s[|s| - 1])
  }

  ghost predicate Sorted(s: seq<real>) {
    forall i, j :: 0 <= i < j < |s| ==> s[i] <= s[j]
  }

  lemma {:induction false} InsertAdds(s: seq<real>, x: real)
    ensures multiset(Insert(s, x)) == multiset(s) + multiset{x}
  {
    if s != [] && s[|s| - 1] > x {
      var init := s[..|s| - 1];
      InsertAdds(init, x);
      assert s == init + [s[|s| - 1]];
    }
  }

  lemma {:induction false} InsertSorts(s: seq<real>, x: real)
    requires Sorted(s)
    ensures Sorted(Insert(s, x))
  {
    if s != [] && s[|s| - 1] > x {
      var init, last := s[..|s| - 1], s[|s| - 1];
      InsertSorts(init, x);
      InsertAdds(init, x);
      forall i | 0 <= i < |s| ensures Insert(init, x)[i] <= last {
        assert Insert(init, x)[i] in multiset(Insert(init, x));
      }
    }
  }

  lemma {:induction false} SortSorts(s: seq<real>)
    ensures Sorted(Sort(s)) && multiset(Sort(s)) == multiset(s)
  {
    if s != [] {
      var init := s[..|s| - 1];
      SortSorts(init);
      InsertSorts(Sort(init), s[|s| - 1]);
      InsertAdds(Sort(init), s[|s| - 1]);
      assert s == init + [s[|s| - 1]];
    }
  }

  /** The k smallest after one more sample come from the k smallest before and that sample. */
  lemma {:induction false} InsertTake(s: seq<real>, x: real, k: nat)
    requires Sorted(s) && k <= |s|
    ensures Insert(s, x)[..k] == Insert(s[..k], x)[..k]
    decreases |s|
  {
    if k == |s| {
      assert s[..k] == s;
    } else if s[|s| - 1] > x {
      var init := s[..|s| - 1];
      InsertTake(init, x, k);
      assert init[..k] == s[..k];
    }
  }

  function Smallest(samples: seq<real>, k: nat): seq<real> {
    if k <= |samples| then Sort(samples)[..k] else Sort(samples)
  }

  /** What the prefix of the sorted stream is: kept values in order, each no larger than any of the
      samples that were dropped, and nothing lost or made up. */
  lemma SmallestMeans(samples: seq<real>, k: nat) returns (kept: seq<real>, dropped: seq<real>)
    ensures kept == Smallest(samples, k) && |kept| == (if k <= |samples| then k else |samples|)
    ensures Sorted(kept) && multiset(kept) + multiset(dropped) == multiset(samples)
    ensures forall i, j :: 0 <= i < |kept| && 0 <= j < |dropped| ==> kept[i] <= dropped[j]
  {
    SortSorts(samples);
    var s := Sort(samples);
    hide Sort;
    kept := Smallest(samples, k);
    dropped := s[|kept|..];
    assert s == kept + dropped;
    forall i, j | 0 <= i < |kept| && 0 <= j < |dropped| ensures kept[i] <= dropped[j] {
      assert kept[i] == s[i] && dropped[j] == s[|kept| + j];
    }
  }

  lemma Spliced(v: seq<real>, s: seq<real>, x: real, pos: nat)
    requires pos <= |s| && |v| == |s| + 1 && v[pos] == x
    requires (forall i :: 0 <= i < pos ==> v[i] == s[i]) && forall i :: pos <= i < |s| ==> v[i + 1] == s[i]
    ensures v == s[..pos] + [x] + s[pos..]
  {
  }

  /** Where Insert puts `x`: below exactly the elements that exceed it. */
  lemma {:induction false} InsertAt(s: seq<real>, x: real, pos: nat)
    requires pos <= |s| && (pos == 0 || s[pos - 1] <= x) && forall i :: pos <= i < |s| ==> s[i] > x
    ensures Insert(s, x) == s[..pos] + [x] + s[pos..]
    decreases |s|
  {
    if pos < |s| {
      var init := s[..|s| - 1];
      InsertAt(init, x, pos);
      assert init[..pos] == s[..pos] && init[pos..] + [s[|s| - 1]] == s[pos..];
    }
  }

  lemma InsertLast(t: seq<real>, x: real)
    requires t != []
    ensures t[|t| - 1] <= x ==> Insert(t, x)[..|t|] == t
    ensures t[|t| - 1] > x ==> Insert(t, x)[..|t|] == Insert(t[..|t| - 1], x)
  {
  }

  lemma SortStep(samples: seq<real>, x: real)
    ensures Sort(samples + [x]) == Insert(Sort(samples), x)
  {
    assert (samples + [x])[..|samples|] == samples;
  }

  lemma SmallestStep(samples: seq<real>, x: real, k: nat)
    requires k > 0
    ensures |samples| < k ==> Smallest(samples + [x], k) == Insert(Smallest(samples, k), x)
    ensures |samples| >= k && x < Smallest(samples, k)[k - 1] ==>
              Smallest(samples + [x], k) == Insert(Smallest(samples, k)[..k - 1], x)
    ensures |samples| >= k && x >= Smallest(samples, k)[k - 1] ==> Smallest(samples + [x], k) == Smallest(samples, k)
  {
    SortStep(samples, x);
    SortSorts(samples);
    hide Insert, Sort;
    var s := Sort(samples);
    if |samples| < k {
      assert Insert(s, x)[..|s| + 1] == Insert(s, x);
    } else {
      InsertTake(s, x, k);
      InsertLast(s[..k], x);
    }
  }

  // ---------- The sampler ----------

  predicate Within(least: real, most: real, epsilon: real) { (1.0 + epsilon) * least >= most }

  /** has_converged: enough samples, and the kbest smallest within a factor of 1 + epsilon. */
  ghost predicate Converged(samples: seq<real>, k: nat, epsilon: real)
    requires k > 0
  {
    |samples| >= k && Within(Smallest(samples, k)[0], Smallest(samples, k)[k - 1], epsilon)
  }

  /** The test on the samples themselves: some `k` of them are no larger than any other, and the
      largest of those is at most 1 + epsilon times the smallest. */
  lemma ConvergedMeans(samples: seq<real>, k: nat, epsilon: real) returns (kept: seq<real>, dropped: seq<real>)
    requires k > 0
    ensures Sorted(kept) && multiset(kept) + multiset(dropped) == multiset(samples)
    ensures forall i, j :: 0 <= i < |kept| && 0 <= j < |dropped| ==> kept[i] <= dropped[j]
    ensures |kept| == (if k <= |samples| then k else |samples|)
    ensures Converged(samples, k, epsilon) <==> |samples| >= k && kept[k - 1] <= (1.0 + epsilon) * kept[0]
  {
    kept, dropped := SmallestMeans(samples, k);
  }

  class Sampler {
    const kbest: nat
    const values: array<real>
    var samplecount: nat
    ghost var samples: seq<real>  // everything ever added

    ghost predicate Valid()
      reads this, values
    {
      && 0 < kbest == values.Length && samplecount == |samples|
      && values[..if samplecount < kbest then samplecount else kbest] == Smallest(samples, kbest)
    }

    /** init_sampler. */
    constructor (kbest: nat)
      requires kbest > 0
      ensures Valid() && this.kbest == kbest && samples == [] && fresh(values)
    {
      this.kbest := kbest;
      values := new real[kbest](_ => 0.0);
      samplecount := 0;
      samples := [];
    }

    /** The insertion sort: the element at `pos` sinks to its place among those below it. */
    method Sink(start: nat)
      requires start < values.Length
      modifies values
      ensures values[..start + 1] == Insert(old(values[..start]), old(values[start]))
      ensures values[start + 1..] == old(values[start + 1..])
    {
      hide Insert;
      ghost var below, x := values[..start], values[start];
      var pos := start;
      while pos > 0 && values[pos - 1] > values[pos]
        invariant 0 <= pos <= start && values[pos] == x
        invariant forall i :: 0 <= i < pos ==> values[i] == below[i]
        invariant forall i :: pos <= i < start ==> values[i + 1] == below[i] > x
        invariant forall i :: start < i < values.Length ==> values[i] == old(values[i])
      {
        var temp := values[pos - 1];
        values[pos - 1] := values[pos];
        values[pos] := temp;
        pos := pos - 1;
      }
      InsertAt(below, x, pos);
      Spliced(values[..start + 1], below, x, pos);
    }

    /** add_sample. */
    method AddSample(val: real)
      requires Valid()
      modifies this, values
      ensures Valid() && samples == old(samples) + [val]
    {
      SmallestStep(samples, val, kbest);
      ghost var kept := values[..if samplecount < kbest then samplecount else kbest];
      var pos := 0;
      if samplecount < kbest {
        pos := samplecount;
        values[pos] := val;
        assert values[..pos] == kept;
      } else if val < values[kbest - 1] {
        pos := kbest - 1;
        values[pos] := val;
        assert values[..pos] == kept[..pos];
      }
      samplecount := samplecount + 1;
      samples := samples + [val];
      Sink(pos);
    }

    method HasConverged(epsilon: real) returns (yes: bool)
      requires Valid()
      ensures yes <==> Converged(samples, kbest, epsilon)
      ensures yes <==> |samples| >= kbest && Smallest(samples, kbest)[kbest - 1] <= (1.0 + epsilon) * Smallest(samples, kbest)[0]
    {
      yes := samplecount >= kbest && Within(values[0], values[kbest - 1], epsilon);
      if samplecount >= kbest {
        ghost var kept := values[..kbest];
        assert kept == Smallest(samples, kbest);
        assert kept[0] == values[0] && kept[kbest - 1] == values[kbest - 1];
      }
    }
  }

  /** The measuring has no reason to stop before the `n`th sample. */
  ghost predicate GoesOn(costs: seq<real>, n: nat, kbest: nat, epsilon: real, maxsamples: nat)
    requires n <= |costs| && kbest > 0
  {
    forall m: nat :: 1 <= m < n ==> !Converged(costs[..m], kbest, epsilon) && m < maxsamples
  }

  /** fcyc: measures until the kbest smallest agree or maxsamples are spent, at least once, and
      answers with the smallest measurement of all.  `costs` are the measurements to come. */
  method Measure(costs: seq<real>, kbest: nat, epsilon: real, maxsamples: nat) returns (result: real, n: nat)
    requires kbest > 0 && |costs| >= 1 && |costs| >= maxsamples
    ensures 1 <= n <= |costs|
    ensures result in costs[..n] && forall i :: 0 <= i < n ==> result <= costs[i]
    ensures Converged(costs[..n], kbest, epsilon) || n >= maxsamples
    ensures GoesOn(costs, n, kbest, epsilon, maxsamples)
  {
    hide Converged, Insert, Sort, GoesOn;
    GoesOnFrom(costs, 0, kbest, epsilon, maxsamples);
    var sampler := new Sampler(kbest);
    sampler.AddSample(costs[0]);
    n := 1;
    var done := sampler.HasConverged(epsilon);
    while !done && n < maxsamples
      invariant 1 <= n <= |costs| && sampler.Valid() && sampler.samples == costs[..n] && sampler.kbest == kbest
      invariant done <==> Converged(costs[..n], kbest, epsilon)
      invariant GoesOn(costs, n, kbest, epsilon, maxsamples)
    {
      GoesOnFrom(costs, n, kbest, epsilon, maxsamples);
      sampler.AddSample(costs[n]);
      n := n + 1;
      done := sampler.HasConverged(epsilon);
    }
    result := sampler.values[0];
    FirstIsLeast(costs[..n], kbest);
  }

  lemma GoesOnFrom(costs: seq<real>, n: nat, kbest: nat, epsilon: real, maxsamples: nat)
    requires n < |costs| && kbest > 0
    requires n > 0 ==> GoesOn(costs, n, kbest, epsilon, maxsamples)
    requires n > 0 ==> !Converged(costs[..n], kbest, epsilon) && n < maxsamples
    ensures GoesOn(costs, n + 1, kbest, epsilon, maxsamples)
  {
    hide Converged;
  }

  lemma FirstIsLeast(samples: seq<real>, k: nat)
    requires samples != [] && k > 0
    ensures Smallest(samples, k)[0] in samples && forall i :: 0 <= i < |samples| ==> Smallest(samples, k)[0] <= samples[i]
  {
    var s := Sort(samples);
    SortSorts(samples);
    assert s[0] in multiset(samples);
    forall i | 0 <= i < |samples| ensures s[0] <= samples[i] {
      assert samples[i] in multiset(s);
    }
  }
}
