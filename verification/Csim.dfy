/** The cache simulator itself (csim.c): linked queues of cache lines, relinked in place, proved to
    compute what CacheTrace says. */
module Csim {
  import opened DivMod
  import Lru
  import opened CacheTrace

  class Line {
    var v: int
    var tag: int
    var next: Line?

    /** The set this line was allocated for. */
    ghost const home: CacheSet

    constructor (ghost home: CacheSet)
      ensures v == 0 && tag == 0 && next == null && this.home == home
    {
      this.home := home;
      v := 0;
      tag := 0;
      next := null;
    }
  }

  /** One set: a queue of lines from the least to the most recently used. */
  class CacheSet {
    var cnt: int
    var head: Line?
    var tail: Line?

    /** The queue, head first. */
    ghost var lines: seq<Line>

    constructor ()
      ensures Linked() && lines == []
    {
      cnt := 0;
      head := null;
      tail := null;
      lines := [];
    }

    /** The pointers spell out `lines`; `tail` means nothing when the queue is empty. */
    ghost predicate Linked()
      reads this, lines
    {
      && cnt == |lines|
      && (forall l :: l in lines ==> l.home == this)
      && (forall i, j {:trigger lines[i], lines[j]} :: 0 <= i < j < |lines| ==> lines[i] != lines[j])
      && head == (if lines == [] then null else lines[0])
      && (lines != [] ==> tail == lines[|lines| - 1])
      && forall i {:trigger lines[i].next} :: 0 <= i < |lines| ==>
           lines[i].next == (if i + 1 < |lines| then lines[i + 1] else null)
    }

    /** The set holds the tags `q`, each in a valid line. */
    ghost predicate Holds(q: seq<int>)
      reads this, lines
    {
      && Linked() && |q| == |lines|
      && forall i {:trigger lines[i].tag} {:trigger lines[i].v} :: 0 <= i < |lines| ==> lines[i].v == 1 && lines[i].tag == q[i]
    }

    /** add_tail (lines 175-193). */
    method AddTail() returns (newt: Line)
      requires Linked()
      modifies this, lines
      ensures Linked() && fresh(newt) && lines == old(lines) + [newt]
      ensures newt.v == 0 && newt.tag == 0
      ensures forall l :: l in old(lines) ==> l.v == old(l.v) && l.tag == old(l.tag)
    {
      newt := new Line(this);
      if head == null {
        tail := newt;
        head := newt;
      } else {
        tail.next := newt;
        tail := newt;
      }
      cnt := cnt + 1;
      lines := lines + [newt];
    }

    /** rmv_head (lines 195-203). */
    method RmvHead()
      requires Linked()
      modifies this
      ensures Linked() && lines == if old(lines) == [] then [] else old(lines)[1..]
    {
      if head != null {
        var newh := head.next;
        ghost var ls := lines;
        assert forall i :: 0 <= i < |ls| - 1 ==> ls[1..][i] == ls[i + 1];
        assert ls[0].next == if 1 < |ls| then ls[1] else null;
        head := newh;
        cnt := cnt - 1;
        lines := lines[1..];
      }
    }

    /** move_node_to_tail (lines 205-226); `k` is the position of the node after `prev`. */
    method MoveNodeToTail(prev: Line?, ghost k: nat)
      requires Linked() && k < |lines| && prev == (if k == 0 then null else lines[k - 1])
      modifies this, lines
      ensures Linked() && lines == old(lines)[..k] + old(lines)[k + 1..] + [old(lines)[k]]
      ensures forall l :: l in lines ==> l.v == old(l.v) && l.tag == old(l.tag)
    {
      ghost var ls := lines;
      var newt: Line;
      if prev != null {
        newt := prev.next;
        if newt.next == null {
          assert k == |ls| - 1;
          assert ls == ls[..k] + ls[k + 1..] + [ls[k]];
          return;
        }
        prev.next := newt.next;
      } else {
        newt := head;
        if newt.next != null {
          head := newt.next;
        }
      }
      tail.next := newt;
      tail := newt;
      newt.next := null;
      lines := ls[..k] + ls[k + 1..] + [ls[k]];
    }

    /** Lines 130-140: a new line for `tag`, and the oldest one goes if there are too many now. */
    method Miss(E: nat, tag: int, ghost q: seq<int>) returns (evicted: bool)
      requires E >= 1 && Holds(q) && tag !in q
      modifies this, lines
      ensures Holds(Lru.Access(q, tag, E))
      ensures evicted <==> E < |q| + 1
      ensures forall l :: l in lines ==> l in old(lines) || fresh(l)
    {
      evicted := false;
      var p := AddTail();
      p.v := 1;
      p.tag := tag;
      assert Holds(q + [tag]);
      if E < cnt {
        RmvHead();
        evicted := true;
        assert (q + [tag])[1..] == Lru.Access(q, tag, E);
      }
    }

    /** search_cache (lines 122-149), reporting instead of counting: the set takes one LRU step.
        The branch for a line that is linked but not valid (lines 141-144) is never taken. */
    method SearchCache(E: nat, tag: int, ghost q: seq<int>) returns (hit: bool, evicted: bool)
      requires E >= 1 && Holds(q) && Lru.NoDup(q)
      modifies this, lines
      ensures Holds(Lru.Access(q, tag, E))
      ensures hit <==> tag in q
      ensures evicted <==> tag !in q && E < |q| + 1
      ensures forall l :: l in lines ==> l in old(lines) || fresh(l)
    {
      hide Lru.Access, Lru.NoDup;
      var p, prev := head, null;
      ghost var k := 0;
      while p != null && p.tag != tag
        invariant 0 <= k <= |lines|
        invariant p == (if k < |lines| then lines[k] else null)
        invariant prev == (if k == 0 then null else lines[k - 1])
        invariant forall i {:trigger q[i]} :: 0 <= i < k ==> q[i] != tag
        decreases |lines| - k
      {
        prev := p;
        p := p.next;
        k := k + 1;
      }
      hit, evicted := false, false;
      if p == null {
        evicted := Miss(E, tag, q);
      } else if p.v == 0 {
        assert false;
      } else {
        Lru.AccessAt(q, k, E);
        MoveNodeToTail(prev, k);
        hit := true;
      }
    }
  }

  /** The whole cache with its counters; `trace` records every access so far. */
  class Cache {
    const s: nat
    const E: nat
    const b: nat
    const sets: seq<CacheSet>
    var hit: int
    var miss: int
    var eviction: int
    ghost var trace: seq<Ref>

    /** Every line allocated so far. */
    ghost var pool: set<Line>

    /** Set `i` consists of lines of the pool and holds what the trace leaves in it. */
    ghost predicate SetOk(i: int)
      requires 0 <= i < |sets|
      reads `trace, `pool, sets, pool
    {
      && (forall l :: l in sets[i].lines ==> l in pool)
      && sets[i].Holds(SetAfter(trace, i, E))
    }

    ghost predicate Counted()
      reads this
    {
      hit == Hits(trace, E) && miss == Misses(trace, E) && eviction == Evictions(trace, E)
    }

    ghost predicate Valid()
      reads this, sets, pool
    {
      && E >= 1 && |sets| == Pow2(s)
      && (forall i, j :: 0 <= i < j < |sets| ==> sets[i] != sets[j])
      && (forall i {:trigger SetOk(i)} :: 0 <= i < |sets| ==> SetOk(i))
      && (forall k :: 0 <= k < |trace| ==> 0 <= trace[k].set_ < |sets|)
      && Counted()
    }

    /** 2^s empty sets (main, lines 71-74). */
    constructor (s: nat, E: nat, b: nat)
      requires E >= 1
      ensures Valid() && trace == [] && this.s == s && this.E == E && this.b == b
      ensures forall i :: 0 <= i < |sets| ==> fresh(sets[i])
      ensures pool == {}
    {
      var cs: seq<CacheSet> := [];
      while |cs| < Pow2(s)
        invariant |cs| <= Pow2(s)
        invariant forall i :: 0 <= i < |cs| ==> fresh(cs[i]) && cs[i].Linked() && cs[i].lines == []
        invariant forall i, j :: 0 <= i < j < |cs| ==> cs[i] != cs[j]
        decreases Pow2(s) - |cs|
      {
        var c := new CacheSet();
        cs := cs + [c];
      }
      this.s := s;
      this.E := E;
      this.b := b;
      sets := cs;
      hit, miss, eviction := 0, 0, 0;
      trace := [];
      pool := {};
    }

    /** execute_line (lines 97-114), from a parsed line on. */
    method ExecuteLine(line: TraceLine)
      requires Valid()
      modifies this, sets, pool
      ensures Valid() && trace == old(trace) + Refs(line, s, b)
      ensures |trace| == |old(trace)| + (if line.Skipped? then 0 else if line.id == 'M' then 2 else 1)
      ensures forall k :: |old(trace)| <= k < |trace| ==> line.Data? && trace[k] == Parse(line.address, s, b)
      ensures fresh(pool - old(pool))
    {
      hide Hits, Misses, Evictions, SetAfter, Parse, Counted;
      if line.Data? {
        var r := Parse(line.address, s, b);
        SameLineSameBlock(line.address, line.address, s, b);
        assert SetOk(r.set_);
        Access(r, r.set_, r.tag);
        if line.id == 'M' {
          assert SetOk(r.set_);
          Access(r, r.set_, r.tag);
        }
      }
    }

    /** The loop of main (lines 75-79): the printed summary is the LRU counts of the trace, which has
        one access per data line and one more per modify. */
    method Simulate(input: seq<TraceLine>)
      requires Valid() && trace == []
      modifies this, sets, pool
      ensures Valid() && trace == Expand(input, s, b)
      ensures hit == Hits(Expand(input, s, b), E) && miss == Misses(Expand(input, s, b), E)
      ensures eviction == Evictions(Expand(input, s, b), E)
      ensures AccessesOf(trace, input, s, b)
      ensures hit + miss == DataLines(input) + Modifies(input)
      ensures eviction + Resident(trace, |sets|, E) == miss
    {
      hide Hits, Misses, Evictions, Expand, SetOk, AccessesAt;
      ExpandNothing(s, b);
      var k := 0;
      while k < |input|
        invariant 0 <= k <= |input| && Valid()
        invariant trace == Expand(input[..k], s, b)
        invariant fresh(pool - old(pool))
      {
        ExecuteLine(input[k]);
        ExpandStep(input, k, s, b);
        k := k + 1;
      }
      assert input[..k] == input;
      ExpandMeans(input, s, b);
      CountsAddUp(trace, |sets|, E);
    }

    /** The search in set `i`: the other sets keep their lines. */
    method Search(i: nat, tag: int) returns (h: bool, e: bool)
      requires Valid() && i < |sets|
      modifies sets[i], sets[i].lines
      ensures sets[i].Holds(Lru.Access(SetAfter(trace, i, E), tag, E))
      ensures h <==> tag in SetAfter(trace, i, E)
      ensures e <==> tag !in SetAfter(trace, i, E) && E < |SetAfter(trace, i, E)| + 1
      ensures forall j :: 0 <= j < |sets| && j != i ==> SetOk(j)
      ensures forall l :: l in sets[i].lines ==> l in pool || fresh(l)
    {
      hide SetAfter, Hits, Misses, Evictions, Counted;
      SetFits(trace, i, E);
      assert SetOk(i);
      label before:
      h, e := sets[i].SearchCache(E, tag, SetAfter(trace, i, E));
      forall j | 0 <= j < |sets| && j != i ensures SetOk(j) {
        assert old@before(SetOk(j)) && sets[j] != sets[i];
        assert forall l :: l in sets[j].lines ==> l.home == sets[j];
        assert forall l :: l in old@before(sets[i].lines) ==> l.home == sets[i];
        assert sets[j].lines == old@before(sets[j].lines) && sets[j].cnt == old@before(sets[j].cnt);
        assert sets[j].head == old@before(sets[j].head) && sets[j].tail == old@before(sets[j].tail);
        assert forall l :: l in sets[j].lines ==> l.v == old@before(l.v);
        assert forall l :: l in sets[j].lines ==> l.tag == old@before(l.tag) && l.next == old@before(l.next);
      }
    }

    /** One access, with the counting of inc_res (lines 136-147 and 152-173). */
    method Access(ghost r: Ref, i: nat, tag: int)
      requires Valid() && r == Ref(i, tag) && i < |sets|
      modifies this, sets[i], sets[i].lines
      ensures Valid() && trace == old(trace) + [r]
      ensures fresh(pool - old(pool))
    {
      hide SetAfter, IsHit, IsEviction, Hits, Misses, Evictions;
      ghost var t := trace;
      var h, e := Search(i, tag);
      HitMeans(t, r, E);
      Count(r, h, e);
      label counted:
      forall j | 0 <= j < |sets| ensures sets[j].Holds(SetAfter(t + [r], j, E)) {
        SetAfterAppend(t, r, j, E);
        assert j != i ==> SetOk(j);
      }
      trace := t + [r];
      pool := pool + set l | l in sets[i].lines;
      forall j | 0 <= j < |sets| ensures SetOk(j) {
        assert sets[j].Holds(SetAfter(trace, j, E));
        assert j != i ==> old@counted(SetOk(j));
      }
    }

    /** inc_res after a search that reports a hit, or a miss and an eviction. */
    method Count(ghost r: Ref, h: bool, e: bool)
      requires Counted() && (h <==> IsHit(trace, r, E)) && (e <==> IsEviction(trace, r, E))
      modifies `hit, `miss, `eviction
      ensures hit == Hits(trace + [r], E) && miss == Misses(trace + [r], E) && eviction == Evictions(trace + [r], E)
    {
      CountsAppend(trace, r, E);
      if h {
        hit := hit + 1;
      } else {
        miss := miss + 1;
        if e {
          eviction := eviction + 1;
        }
      }
    }

    lemma {:induction false} SetFits(t: seq<Ref>, i: int, E: nat)
      requires E >= 1
      ensures Lru.NoDup(SetAfter(t, i, E))
    {
      Lru.RunFits(Project(t, i), E);
    }

    lemma {:induction false} HitMeans(t: seq<Ref>, r: Ref, E: nat)
      ensures IsHit(t, r, E) <==> r.tag in SetAfter(t, r.set_, E)
      ensures IsEviction(t, r, E) <==> r.tag !in SetAfter(t, r.set_, E) && E < |SetAfter(t, r.set_, E)| + 1
    {
    }
  }
}
