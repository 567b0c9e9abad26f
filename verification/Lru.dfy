/** What csim.c simulates, on values: one set of a cache with E lines and least-recently-used
    replacement, compared with the sequence of all accesses. */
module Lru {

  ghost predicate NoDup(s: seq<int>) {
    forall i, j :: 0 <= i < j < |s| ==> s[i] != s[j]
  }

  /** `s` without its elements equal to `x`. */
  function Without(s: seq<int>, x: int): seq<int> {
    if s == [] then []
    else Without(s[..|s| - 1], x) + (if s[|s| - 1] == x then [] else [s[|s| - 1]])
  }

  /** search_cache on a set whose tags, oldest first, are `q` (lines 122-149). */
  function Access(q: seq<int>, x: int, E: int): seq<int> {
    if x in q then Without(q, x) + [x]
    else if E < |q| + 1 then (q + [x])[1..]
    else q + [x]
  }

  /** The set after the accesses `t`, starting empty. */
  function Run(t: seq<int>, E: int): seq<int> {
    if t == [] then [] else Access(Run(t[..|t| - 1], E), t[|t| - 1], E)
  }

  function Hits(t: seq<int>, E: int): nat {
    if t == [] then 0
    else Hits(t[..|t| - 1], E) + (if t[|t| - 1] in Run(t[..|t| - 1], E) then 1 else 0)
  }

  function Misses(t: seq<int>, E: int): nat {
    if t == [] then 0
    else Misses(t[..|t| - 1], E) + (if t[|t| - 1] in Run(t[..|t| - 1], E) then 0 else 1)
  }

  function Evictions(t: seq<int>, E: int): nat {
    if t == [] then 0
    else
      var q, x := Run(t[..|t| - 1], E), t[|t| - 1];
      Evictions(t[..|t| - 1], E) + (if x !in q && E < |q| + 1 then 1 else 0)
  }

  /** The reference: all tags ever used, each once, ordered by last use, oldest first. */
  function Recency(t: seq<int>): seq<int> {
    if t == [] then [] else Without(Recency(t[..|t| - 1]), t[|t| - 1]) + [t[|t| - 1]]
  }

  /** The last `n` elements, or all of them. */
  function Last(s: seq<int>, n: nat): seq<int> {
    if |s| <= n then s else s[|s| - n..]
  }

  /** The part of `s` after the last occurrence of `x`. */
  function AfterLast(s: seq<int>, x: int): seq<int>
    requires x in s
  {
    if s[|s| - 1] == x then [] else AfterLast(s[..|s| - 1], x) + [s[|s| - 1]]
  }

  function Elements(s: seq<int>): set<int> { set x | x in s }

  // ---------- Removing a value ----------

  lemma {:induction false} WithoutMembers(s: seq<int>, x: int)
    ensures forall y :: y in Without(s, x) <==> y in s && y != x
    decreases |s|
  {
    if s != [] {
      var p, l := s[..|s| - 1], s[|s| - 1];
      WithoutMembers(p, x);
      assert s == p + [l];
    }
  }

  lemma {:induction false} WithoutConcat(a: seq<int>, b: seq<int>, x: int)
    ensures Without(a + b, x) == Without(a, x) + Without(b, x)
    decreases |b|
  {
    if b == [] {
      assert a + b == a;
    } else {
      var p := b[..|b| - 1];
      assert (a + b)[..|a + b| - 1] == a + p;
      WithoutConcat(a, p, x);
    }
  }

  lemma {:induction false} WithoutAbsent(s: seq<int>, x: int)
    requires x !in s
    ensures Without(s, x) == s
    decreases |s|
  {
    if s != [] {
      assert s == s[..|s| - 1] + [s[|s| - 1]];
      WithoutAbsent(s[..|s| - 1], x);
    }
  }

  lemma {:induction false} WithoutNoDup(s: seq<int>, x: int)
    requires NoDup(s)
    ensures NoDup(Without(s, x))
    decreases |s|
  {
    if s != [] {
      var p := s[..|s| - 1];
      WithoutNoDup(p, x);
      WithoutMembers(p, x);
      assert forall i :: 0 <= i < |p| ==> p[i] != s[|s| - 1];
      assert s[|s| - 1] !in p;
    }
  }

  /** Removing one element of a duplicate-free sequence. */
  lemma {:induction false} WithoutAt(s: seq<int>, i: int)
    requires NoDup(s) && 0 <= i < |s|
    ensures Without(s, s[i]) == s[..i] + s[i + 1..]
  {
    hide Without;
    var x, a, b := s[i], s[..i], s[i + 1..];
    assert s == a + ([x] + b);
    WithoutConcat(a, [x] + b, x);
    WithoutConcat([x], b, x);
    WithoutSelf(x);
    WithoutAbsent(a, x);
    WithoutAbsent(b, x);
    assert [] + b == b;
  }

  /** A hit moves its tag to the end. */
  lemma AccessAt(s: seq<int>, i: int, E: int)
    requires NoDup(s) && 0 <= i < |s|
    ensures Access(s, s[i], E) == s[..i] + s[i + 1..] + [s[i]]
  {
    WithoutAt(s, i);
  }

  lemma {:induction false} WithoutSelf(x: int)
    ensures Without([x], x) == []
  {
  }

  lemma {:induction false} RecencyFacts(t: seq<int>)
    ensures NoDup(Recency(t)) && forall y :: y in Recency(t) <==> y in t
    decreases |t|
  {
    if t != [] {
      var p, x := t[..|t| - 1], t[|t| - 1];
      RecencyFacts(p);
      var r := Without(Recency(p), x);
      WithoutMembers(Recency(p), x);
      WithoutNoDup(Recency(p), x);
      forall i | 0 <= i < |r| ensures r[i] != x { assert r[i] in r; }
      assert t == p + [x] && Recency(t) == r + [x];
    }
  }

  // ---------- The set holds the E most recently used tags ----------

  /** Which elements of a duplicate-free sequence are among its last `n`. */
  lemma {:induction false} LastAt(s: seq<int>, n: nat, i: int)
    requires NoDup(s) && 0 <= i < |s|
    ensures s[i] in Last(s, n) <==> |s| - n <= i
  {
    var q := Last(s, n);
    var d := |s| - |q|;
    if s[i] in q {
      var j :| 0 <= j < |q| && q[j] == s[i];
      assert q[j] == s[d + j];
    }
    if |s| - n <= i {
      assert q[i - d] == s[i];
    }
  }

  lemma {:induction false} LastSubset(s: seq<int>, n: nat, x: int)
    requires x in Last(s, n)
    ensures x in s
  {
    var j :| 0 <= j < |Last(s, n)| && Last(s, n)[j] == x;
    assert s[|s| - |Last(s, n)| + j] == x;
  }

  lemma {:induction false} LastNoDup(s: seq<int>, n: nat)
    requires NoDup(s)
    ensures NoDup(Last(s, n))
  {
  }

  lemma {:induction false} SliceMoved(s: seq<int>, i: int, d: int, x: int)
    requires 0 <= d <= i < |s|
    ensures (s[..i] + s[i + 1..] + [x])[d..] == s[d..][..i - d] + s[d..][i - d + 1..] + [x]
  {
  }

  /** Moving the tag at `i` to the end, when it is among the last E. */
  lemma {:induction false} AccessHit(s: seq<int>, i: int, E: nat)
    requires NoDup(s) && 0 <= i < |s| && |s| - E <= i
    ensures Access(Last(s, E), s[i], E) == Last(Without(s, s[i]) + [s[i]], E)
  {
    hide Without, NoDup, Access, Last;
    var x, d := s[i], if |s| <= E then 0 else |s| - E;
    var q := s[d..];
    LastFrom(s, E, d);
    LastNoDup(s, E);
    WithoutAt(s, i);
    WithoutAt(q, i - d);
    assert q[i - d] == x;
    AccessPresent(q, x, E);
    SliceMoved(s, i, d, x);
    LastFrom(s[..i] + s[i + 1..] + [x], E, d);
  }

  lemma LastFrom(s: seq<int>, n: nat, d: nat)
    requires d == if |s| <= n then 0 else |s| - n
    ensures Last(s, n) == s[d..]
  {
  }

  lemma AccessPresent(q: seq<int>, x: int, E: nat)
    requires x in q
    ensures Access(q, x, E) == Without(q, x) + [x]
  {
  }

  /** A tag used before that is not among the last E any more. */
  lemma {:induction false} AccessStale(s: seq<int>, i: int, E: nat)
    requires NoDup(s) && 0 <= i < |s| - E && E >= 1
    ensures Access(Last(s, E), s[i], E) == Last(Without(s, s[i]) + [s[i]], E)
  {
    var q, x := Last(s, E), s[i];
    LastAt(s, E, i);
    WithoutAt(s, i);
    assert (q + [x])[1..] == s[|s| - E + 1..] + [x];
    assert s[..i] + s[i + 1..] + [x] == (s[..i] + s[i + 1..|s| - E + 1]) + (s[|s| - E + 1..] + [x]);
  }

  lemma {:induction false} AccessNew(s: seq<int>, x: int, E: nat)
    requires x !in s && E >= 1
    ensures Access(Last(s, E), x, E) == Last(Without(s, x) + [x], E)
  {
    WithoutAbsent(s, x);
    if x in Last(s, E) { LastSubset(s, E, x); }
    if |s| >= E {
      assert (Last(s, E) + [x])[1..] == (s + [x])[|s| + 1 - E..];
    }
  }

  lemma {:induction false} AccessLast(s: seq<int>, x: int, E: nat)
    requires NoDup(s) && E >= 1
    ensures Access(Last(s, E), x, E) == Last(Without(s, x) + [x], E)
  {
    if x in s {
      var i :| 0 <= i < |s| && s[i] == x;
      if |s| - E <= i {
        AccessHit(s, i, E);
      } else {
        AccessStale(s, i, E);
      }
    } else {
      AccessNew(s, x, E);
    }
  }

  /** After any accesses, a set of E lines holds exactly the last E tags of the recency order,
      oldest first. */
  lemma {:induction false} StackProperty(t: seq<int>, E: nat)
    requires E >= 1
    ensures Run(t, E) == Last(Recency(t), E)
    decreases |t|
  {
    if t != [] {
      var p := t[..|t| - 1];
      StackProperty(p, E);
      RecencyFacts(p);
      AccessLast(Recency(p), t[|t| - 1], E);
    }
  }

  /** A bigger set always holds everything a smaller one holds. */
  lemma {:induction false} InclusionAt(t: seq<int>, E: nat, E': nat, y: int)
    requires 1 <= E <= E'
    ensures y in Run(t, E) ==> y in Run(t, E')
  {
    hide Run, Recency;
    StackProperty(t, E);
    StackProperty(t, E');
    RecencyFacts(t);
    var r := Recency(t);
    if y in Last(r, E) {
      LastSubset(r, E, y);
      var i :| 0 <= i < |r| && r[i] == y;
      LastAt(r, E, i);
      LastAt(r, E', i);
    }
  }

  /** More lines never cost a hit: the miss count does not increase with E. */
  lemma {:induction false} MissesMonotone(t: seq<int>, E: nat, E': nat)
    requires 1 <= E <= E'
    ensures Misses(t, E') <= Misses(t, E) && Hits(t, E) <= Hits(t, E')
    decreases |t|
  {
    if t != [] {
      hide Run;
      MissesMonotone(t[..|t| - 1], E, E');
      InclusionAt(t[..|t| - 1], E, E', t[|t| - 1]);
    }
  }

  // ---------- When an access hits ----------

  lemma {:induction false} AfterLastConcat(a: seq<int>, b: seq<int>, x: int)
    requires x in a && x !in b
    ensures AfterLast(a + b, x) == AfterLast(a, x) + b
    decreases |b|
  {
    if b == [] {
      assert a + b == a;
    } else {
      var p, l := b[..|b| - 1], b[|b| - 1];
      assert (a + b)[..|a + b| - 1] == a + p;
      assert l in b;
      AfterLastConcat(a, p, x);
      assert AfterLast(a, x) + b == (AfterLast(a, x) + p) + [l];
    }
  }

  lemma {:induction false} AfterLastWithout(s: seq<int>, x: int, y: int)
    requires x in s && x != y
    ensures x in Without(s, y) && AfterLast(Without(s, y), x) == Without(AfterLast(s, x), y)
    decreases |s|
  {
    WithoutMembers(s, y);
    var p, l := s[..|s| - 1], s[|s| - 1];
    assert s == p + [l];
    if l != x {
      AfterLastWithout(p, x, y);
      WithoutMembers(p, y);
      WithoutConcat(AfterLast(p, x), [l], y);
      if l != y {
        AfterLastConcat(Without(p, y), [l], x);
        assert Without([l], y) == [l];
      } else {
        assert Without([l], y) == [];
        assert Without(s, y) == Without(p, y);
      }
    }
  }

  /** One more access to another tag adds that tag to those more recent than `x`. */
  lemma {:induction false} RecentStep(r: seq<int>, x: int, y: int)
    requires x in r && x != y
    ensures var r' := Without(r, y) + [y];
            x in r' && Elements(AfterLast(r', x)) == Elements(AfterLast(r, x)) + {y}
  {
    hide AfterLast, Without;
    AfterLastWithout(r, x, y);
    WithoutMembers(r, y);
    AfterLastConcat(Without(r, y), [y], x);
    var a := AfterLast(r, x);
    WithoutMembers(a, y);
    forall z ensures z in Without(a, y) + [y] <==> z in a || z == y { }
  }

  /** The tags more recent than `x` are those accessed after the last access to `x`. */
  lemma {:induction false} RecentSince(t: seq<int>, x: int)
    requires x in t
    ensures x in Recency(t) && Elements(AfterLast(Recency(t), x)) == Elements(AfterLast(t, x))
    decreases |t|
  {
    RecencyFacts(t);
    var p, y := t[..|t| - 1], t[|t| - 1];
    assert t == p + [y];
    if y != x {
      RecentSince(p, x);
      RecentStep(Recency(p), x, y);
      assert Elements(AfterLast(p, x) + [y]) == Elements(AfterLast(p, x)) + {y};
    }
  }

  lemma {:induction false} NoDupSize(s: seq<int>)
    requires NoDup(s)
    ensures |Elements(s)| == |s|
    decreases |s|
  {
    if s != [] {
      var p, l := s[..|s| - 1], s[|s| - 1];
      NoDupSize(p);
      assert l !in p;
      assert s == p + [l];
      assert Elements(s) == Elements(p) + {l};
    }
  }

  lemma {:induction false} AfterLastAt(s: seq<int>, i: int)
    requires NoDup(s) && 0 <= i < |s|
    ensures AfterLast(s, s[i]) == s[i + 1..]
    decreases |s|
  {
    if i < |s| - 1 {
      var p := s[..|s| - 1];
      AfterLastAt(p, i);
      assert p[i + 1..] + [s[|s| - 1]] == s[i + 1..];
    }
  }

  /** The next access to `x` hits exactly when `x` has been used and fewer than E different tags
      have been used since. */
  lemma {:induction false} HitExactly(t: seq<int>, x: int, E: nat)
    requires E >= 1
    ensures x in Run(t, E) <==> x in t && |Elements(AfterLast(t, x))| < E
  {
    StackProperty(t, E);
    RecencyFacts(t);
    var r := Recency(t);
    if x in t {
      RecentSince(t, x);
      var i :| 0 <= i < |r| && r[i] == x;
      LastAt(r, E, i);
      AfterLastAt(r, i);
      assert NoDup(r[i + 1..]);
      NoDupSize(r[i + 1..]);
    } else if x in Last(r, E) {
      LastSubset(r, E, x);
    }
  }

  // ---------- Counting ----------

  lemma {:induction false} RunFits(t: seq<int>, E: nat)
    requires E >= 1
    ensures |Run(t, E)| <= E && NoDup(Run(t, E))
    ensures t != [] ==> t[|t| - 1] in Run(t, E)
  {
    StackProperty(t, E);
    RecencyFacts(t);
    if t != [] {
      var r := Run(t, E);
      assert r[|r| - 1] == t[|t| - 1];
    }
  }

  /** Every access is a hit or a miss, and every missing line is still there or was evicted. */
  lemma {:induction false} CountsAddUp(t: seq<int>, E: nat)
    requires E >= 1
    ensures Hits(t, E) + Misses(t, E) == |t|
    ensures Evictions(t, E) + |Run(t, E)| == Misses(t, E)
    decreases |t|
  {
    if t != [] {
      var p, x := t[..|t| - 1], t[|t| - 1];
      CountsAddUp(p, E);
      var q := Run(p, E);
      RunFits(p, E);
      if x in q {
        var i :| 0 <= i < |q| && q[i] == x;
        WithoutAt(q, i);
      }
    }
  }
}
