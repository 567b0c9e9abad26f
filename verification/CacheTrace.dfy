/** Whole traces through a cache of 2^s sets (csim.c): how an address picks its set and tag, and
    what the three counters add up to. */
module CacheTrace {
  import opened DivMod
  import Lru

  /** One access: the set it goes to and the tag it looks for. */
  datatype Ref = Ref(set_: int, tag: int)

  /** parse_adress_bit: bits b..b+s-1 of the address are the set, the bits above them the tag. */
  function Parse(address: nat, s: nat, b: nat): Ref {
    Pow2Positive(s);
    Pow2Positive(b);
    Pow2Positive(s + b);
    Ref(address / Pow2(b) % Pow2(s), address / Pow2(s + b))
  }

  /** A line of the trace: a data access, or a line that does not start with a space. */
  datatype TraceLine = Data(id: char, address: nat) | Skipped

  /** execute_line: a modify is two accesses, any other data line is one (lines 97-114). */
  function Refs(line: TraceLine, s: nat, b: nat): seq<Ref> {
    match line
    case Skipped => []
    case Data(id, address) =>
      if id == 'M' then [Parse(address, s, b), Parse(address, s, b)] else [Parse(address, s, b)]
  }

  function Expand(lines: seq<TraceLine>, s: nat, b: nat): seq<Ref> {
    if lines == [] then [] else Expand(lines[..|lines| - 1], s, b) + Refs(lines[|lines| - 1], s, b)
  }

  lemma ExpandNothing(s: nat, b: nat)
    ensures Expand([], s, b) == []
  {
  }

  lemma ExpandStep(lines: seq<TraceLine>, k: nat, s: nat, b: nat)
    requires k < |lines|
    ensures Expand(lines[..k + 1], s, b) == Expand(lines[..k], s, b) + Refs(lines[k], s, b)
  {
    assert lines[..k + 1][..k] == lines[..k];
  }

  /** The data lines of a trace, and those among them that are modifies. */
  function DataLines(lines: seq<TraceLine>): nat {
    if lines == [] then 0 else DataLines(lines[..|lines| - 1]) + (if lines[|lines| - 1].Data? then 1 else 0)
  }

  predicate IsModify(line: TraceLine) { line.Data? && line.id == 'M' }

  function Modifies(lines: seq<TraceLine>): nat {
    if lines == [] then 0 else Modifies(lines[..|lines| - 1]) + (if IsModify(lines[|lines| - 1]) then 1 else 0)
  }

  /** `t` is made of one access per data line and a second one per modify, each to the address of its
      own line, in the order of the lines. */
  ghost predicate AccessesOf(t: seq<Ref>, lines: seq<TraceLine>, s: nat, b: nat) {
    && |t| == DataLines(lines) + Modifies(lines)
    && forall k :: 0 <= k < |lines| && lines[k].Data? ==> AccessesAt(t, lines, k, s, b)
  }

  ghost predicate AccessesAt(t: seq<Ref>, lines: seq<TraceLine>, k: nat, s: nat, b: nat)
    requires k < |lines| && lines[k].Data?
  {
    var n := DataLines(lines[..k]) + Modifies(lines[..k]);
    && n < |t| && t[n] == Parse(lines[k].address, s, b)
    && (lines[k].id == 'M' ==> n + 1 < |t| && t[n + 1] == Parse(lines[k].address, s, b))
  }

  /** A further line changes nothing about the accesses of those before it. */
  lemma AccessesStay(t: seq<Ref>, u: seq<Ref>, lines: seq<TraceLine>, l: TraceLine, k: nat, s: nat, b: nat)
    requires k < |lines| && lines[k].Data? && AccessesAt(t, lines, k, s, b)
    ensures AccessesAt(t + u, lines + [l], k, s, b)
  {
    hide Parse, DataLines, Modifies;
    assert (lines + [l])[..k] == lines[..k];
  }

  lemma CountLine(lines: seq<TraceLine>, l: TraceLine)
    ensures DataLines(lines + [l]) == DataLines(lines) + (if l.Data? then 1 else 0)
    ensures Modifies(lines + [l]) == Modifies(lines) + (if IsModify(l) then 1 else 0)
  {
    assert (lines + [l])[..|lines|] == lines;
  }

  lemma AccessesNext(t: seq<Ref>, lines: seq<TraceLine>, l: TraceLine, s: nat, b: nat)
    requires AccessesOf(t, lines, s, b)
    ensures AccessesOf(t + Refs(l, s, b), lines + [l], s, b)
  {
    hide Parse, DataLines, Modifies, AccessesAt;
    CountLine(lines, l);
    var ls := lines + [l];
    forall k | 0 <= k < |ls| && ls[k].Data? ensures AccessesAt(t + Refs(l, s, b), ls, k, s, b) {
      if k < |lines| {
        AccessesStay(t, Refs(l, s, b), lines, l, k, s, b);
      } else {
        AccessesLast(t, lines, l, s, b);
      }
    }
  }

  lemma AccessesLast(t: seq<Ref>, lines: seq<TraceLine>, l: TraceLine, s: nat, b: nat)
    requires |t| == DataLines(lines) + Modifies(lines) && l.Data?
    ensures AccessesAt(t + Refs(l, s, b), lines + [l], |lines|, s, b)
  {
    hide Parse, DataLines, Modifies;
    assert (lines + [l])[..|lines|] == lines;
  }

  /** What the accesses of a whole trace are. */
  lemma {:induction false} ExpandMeans(lines: seq<TraceLine>, s: nat, b: nat)
    ensures AccessesOf(Expand(lines, s, b), lines, s, b)
    decreases |lines|
  {
    hide AccessesAt, Refs;
    if lines != [] {
      var init, l := lines[..|lines| - 1], lines[|lines| - 1];
      ExpandMeans(init, s, b);
      AccessesNext(Expand(init, s, b), init, l, s, b);
      assert lines == init + [l];
    }
  }

  /** The tags looked for in set `i`, in order. */
  function Project(t: seq<Ref>, i: int): seq<int> {
    if t == [] then []
    else Project(t[..|t| - 1], i) + (if t[|t| - 1].set_ == i then [t[|t| - 1].tag] else [])
  }

  /** The contents of set `i` after the accesses `t`. */
  function SetAfter(t: seq<Ref>, i: int, E: nat): seq<int> { Lru.Run(Project(t, i), E) }

  predicate IsHit(t: seq<Ref>, r: Ref, E: nat) { r.tag in SetAfter(t, r.set_, E) }

  predicate IsEviction(t: seq<Ref>, r: Ref, E: nat) { !IsHit(t, r, E) && E < |SetAfter(t, r.set_, E)| + 1 }

  function Hits(t: seq<Ref>, E: nat): nat {
    if t == [] then 0 else Hits(t[..|t| - 1], E) + (if IsHit(t[..|t| - 1], t[|t| - 1], E) then 1 else 0)
  }

  function Misses(t: seq<Ref>, E: nat): nat {
    if t == [] then 0 else Misses(t[..|t| - 1], E) + (if IsHit(t[..|t| - 1], t[|t| - 1], E) then 0 else 1)
  }

  function Evictions(t: seq<Ref>, E: nat): nat {
    if t == [] then 0 else Evictions(t[..|t| - 1], E) + (if IsEviction(t[..|t| - 1], t[|t| - 1], E) then 1 else 0)
  }

  /** The lines held by the first `n` sets. */
  function Resident(t: seq<Ref>, n: nat, E: nat): nat {
    if n == 0 then 0 else Resident(t, n - 1, E) + |SetAfter(t, n - 1, E)|
  }

  // ---------- Addresses ----------

  /** Set and tag together are the block number: two addresses meet in the cache exactly when
      they lie in the same block of 2^b bytes. */
  lemma {:induction false} SameLineSameBlock(x: nat, y: nat, s: nat, b: nat)
    ensures Pow2(b) > 0 && (Parse(x, s, b) == Parse(y, s, b) <==> x / Pow2(b) == y / Pow2(b))
    ensures 0 <= Parse(x, s, b).set_ < Pow2(s)
  {
    hide Pow2;
    Pow2Positive(s);
    Pow2Positive(b);
    BlockNumber(x, s, b);
    BlockNumber(y, s, b);
  }

  /** The tag is the quotient and the set the remainder of the block number. */
  lemma {:induction false} BlockNumber(x: nat, s: nat, b: nat)
    requires Pow2(b) > 0 && Pow2(s) > 0
    ensures x / Pow2(b) == Pow2(s) * Parse(x, s, b).tag + Parse(x, s, b).set_
    ensures 0 <= Parse(x, s, b).set_ < Pow2(s)
  {
    Pow2Add(b, s);
    assert s + b == b + s;
    DivDiv(x, Pow2(b), Pow2(s));
  }

  // ---------- Traces ----------

  lemma {:induction false} ProjectAppend(t: seq<Ref>, r: Ref, i: int)
    ensures Project(t + [r], i) == Project(t, i) + (if r.set_ == i then [r.tag] else [])
  {
    assert (t + [r])[..|t|] == t;
  }

  /** One more access changes its own set by one LRU step and no other set. */
  lemma {:induction false} SetAfterAppend(t: seq<Ref>, r: Ref, i: int, E: nat)
    ensures SetAfter(t + [r], i, E) == if r.set_ == i then Lru.Access(SetAfter(t, i, E), r.tag, E) else SetAfter(t, i, E)
  {
    ProjectAppend(t, r, i);
    if r.set_ == i {
      assert (Project(t, i) + [r.tag])[..|Project(t, i)|] == Project(t, i);
    } else {
      assert Project(t, i) + [] == Project(t, i);
    }
  }

  lemma {:induction false} CountsAppend(t: seq<Ref>, r: Ref, E: nat)
    ensures Hits(t + [r], E) == Hits(t, E) + (if IsHit(t, r, E) then 1 else 0)
    ensures Misses(t + [r], E) == Misses(t, E) + (if IsHit(t, r, E) then 0 else 1)
    ensures Evictions(t + [r], E) == Evictions(t, E) + (if IsEviction(t, r, E) then 1 else 0)
  {
    assert (t + [r])[..|t|] == t;
  }

  lemma {:induction false} ResidentAppend(t: seq<Ref>, r: Ref, n: nat, E: nat)
    requires E >= 1
    ensures Resident(t + [r], n, E) == Resident(t, n, E)
            + (if 0 <= r.set_ < n && !IsHit(t, r, E) && !IsEviction(t, r, E) then 1 else 0)
  {
    hide SetAfter, IsHit, IsEviction;
    if n > 0 {
      ResidentAppend(t, r, n - 1, E);
      SizeAppend(t, r, n - 1, E);
    }
  }

  lemma {:induction false} SizeAppend(t: seq<Ref>, r: Ref, i: int, E: nat)
    requires E >= 1
    ensures |SetAfter(t + [r], i, E)| == |SetAfter(t, i, E)|
            + (if r.set_ == i && !IsHit(t, r, E) && !IsEviction(t, r, E) then 1 else 0)
  {
    SetAfterAppend(t, r, i, E);
    if r.set_ == i {
      AccessSize(Project(t, i), r.tag, E);
    }
  }

  lemma {:induction false} AccessSize(p: seq<int>, x: int, E: nat)
    requires E >= 1
    ensures var q := Lru.Run(p, E);
            |Lru.Access(q, x, E)| == if x in q || E < |q| + 1 then |q| else |q| + 1
  {
    var q := Lru.Run(p, E);
    Lru.RunFits(p, E);
    if x in q {
      var i :| 0 <= i < |q| && q[i] == x;
      Lru.WithoutAt(q, i);
    }
  }

  /** Over every trace: each access is a hit or a miss, and each line brought in is still resident
      or has been evicted. */
  lemma {:induction false} CountsAddUp(t: seq<Ref>, n: nat, E: nat)
    requires E >= 1 && forall k :: 0 <= k < |t| ==> 0 <= t[k].set_ < n
    ensures Hits(t, E) + Misses(t, E) == |t|
    ensures Evictions(t, E) + Resident(t, n, E) == Misses(t, E)
    decreases |t|
  {
    if t == [] {
      EmptyResident(n, E);
    } else {
      var p, r := t[..|t| - 1], t[|t| - 1];
      assert t == p + [r];
      CountsAddUp(p, n, E);
      CountsAppend(p, r, E);
      ResidentAppend(p, r, n, E);
    }
  }

  lemma {:induction false} EmptyResident(n: nat, E: nat)
    ensures Resident([], n, E) == 0
  {
    if n > 0 { EmptyResident(n - 1, E); }
  }

  /** A cache with more lines per set never misses more often. */
  lemma {:induction false} MissesMonotone(t: seq<Ref>, E: nat, E': nat)
    requires 1 <= E <= E'
    ensures Misses(t, E') <= Misses(t, E) && Hits(t, E) <= Hits(t, E')
    decreases |t|
  {
    if t != [] {
      hide SetAfter;
      var p, r := t[..|t| - 1], t[|t| - 1];
      MissesMonotone(p, E, E');
      HitStaysHit(p, r, E, E');
    }
  }

  lemma {:induction false} HitStaysHit(t: seq<Ref>, r: Ref, E: nat, E': nat)
    requires 1 <= E <= E'
    ensures IsHit(t, r, E) ==> IsHit(t, r, E')
  {
    Lru.InclusionAt(Project(t, r.set_), E, E', r.tag);
  }

  /** Which access hits: the block has been used, and since then fewer than E other blocks of the
      same set have been. */
  lemma {:induction false} HitExactly(t: seq<Ref>, r: Ref, E: nat)
    requires E >= 1
    ensures var p := Project(t, r.set_);
            IsHit(t, r, E) <==> r.tag in p && |Lru.Elements(Lru.AfterLast(p, r.tag))| < E
  {
    Lru.HitExactly(Project(t, r.set_), r.tag, E);
  }

  /** The second access of a modify always hits. */
  lemma {:induction false} ModifyHits(t: seq<Ref>, r: Ref, E: nat)
    requires E >= 1
    ensures IsHit(t + [r], r, E)
  {
    ProjectAppend(t, r, r.set_);
    Lru.RunFits(Project(t + [r], r.set_), E);
  }
}
