/** The linked queue of strings (queue.c), its elements, strings and header all living in blocks of
    the counting allocator. */
module Queue {
  import opened Harness

  ghost predicate Element(v: View, i: nat)
    requires i < |v.nodes| == |v.strs| == |v.texts|
    reads v.nodes`payload, v.strs`payload
  {
    && v.nodes[i].payload == Ele(v.strs[i], if i + 1 < |v.nodes| then v.nodes[i + 1] else null)
    && v.strs[i].payload == Str(v.texts[i])
  }

  /** The blocks of a queue: its header, its elements and their strings ... */
  ghost predicate Owns(q: Block, v: View, b: Block) { b == q || b in v.nodes || b in v.strs }

  /** ... which are all different. */
  ghost predicate Separate(q: Block, v: View) {
    && q !in v.nodes && q !in v.strs && NoDup(v.nodes) && NoDup(v.strs)
    && forall b :: b in v.nodes ==> b !in v.strs
  }

  ghost predicate Chained(v: View, from: nat)
    requires |v.nodes| == |v.strs| == |v.texts|
    reads v.nodes`payload, v.strs`payload
  {
    forall i: nat :: from <= i < |v.nodes| ==> Element(v, i)
  }

  ghost predicate Ends(q: Block, v: View)
    reads q`payload
  {
    q.payload == if v.nodes == [] then Que(null, null, 0) else Que(v.nodes[0], v.nodes[|v.nodes| - 1], |v.nodes|)
  }

  lemma SeparateHead(q: Block, v: View, e: Block, str: Block, s: string)
    requires Separate(q, v) && e != q && str != q && e != str
    requires e !in v.nodes && e !in v.strs && str !in v.nodes && str !in v.strs
    ensures Separate(q, View([e] + v.nodes, [str] + v.strs, [s] + v.texts))
    ensures Separate(q, View(v.nodes + [e], v.strs + [str], v.texts + [s]))
  {
  }

  ghost predicate QueueOk(h: Heap, q: Block)
    reads h`blocks, q`payload, q`view, q.view.nodes`payload, q.view.strs`payload
  {
    var v := q.view;
    && |v.nodes| == |v.strs| == |v.texts|
    && Separate(q, v) && q in h.blocks
    && (forall b :: b in v.nodes ==> b in h.blocks) && (forall b :: b in v.strs ==> b in h.blocks)
    && Ends(q, v)
    && Chained(v, 0)
  }

  /** The live blocks that are no part of the queue. */
  ghost function Others(h: Heap, q: Block): set<Block>
    reads h`blocks, q`view
  {
    set b | b in h.blocks && !Owns(q, q.view, b)
  }

  /** q_new. */
  method New(h: Heap) returns (q: Block?)
    requires h.Valid()
    modifies h, h.blocks
    ensures h.Valid() && h.fates == Later(old(h.fates))
    ensures q == null <==> Fails(old(h.fates))
    ensures q == null ==> h.blocks == old(h.blocks)
    ensures q != null ==> fresh(q) && QueueOk(h, q) && q.view.texts == [] && h.blocks == [q] + old(h.blocks)
    ensures forall b :: b in old(h.blocks) ==> b.payload == old(b.payload) && b.view == old(b.view)
  {
    q := h.Malloc();
    if q == null {
      return;
    }
    q.payload := Que(null, null, 0);
    q.view := View([], [], []);
  }

  /** The allocations an insertion makes: the second only if the first succeeds. */
  function Spent(fates: seq<bool>): seq<bool> { if Fails(fates) then Later(fates) else Later(Later(fates)) }

  /** A string in an element, or nothing when either allocation fails. */
  method NewElement(h: Heap, s: string) returns (e: Block?, ghost str: Block?)
    requires h.Valid()
    modifies h, h.blocks`next, h.blocks`prev
    ensures h.Valid()
    ensures e == null <==> Fails(old(h.fates)) || Fails(Later(old(h.fates)))
    ensures h.fates == Spent(old(h.fates))
    ensures e == null ==> h.blocks == old(h.blocks)
    ensures e != null ==> str != null && fresh(e) && fresh(str) && h.blocks == [str, e] + old(h.blocks) && str != e
    ensures e != null ==> e.payload == Ele(str, null) && str.payload == Str(s)
  {
    str := null;
    e := h.Malloc();
    if e == null {
      return;
    }
    var value := h.Malloc();
    if value == null {
      h.Free(e);
      e := null;
      return;
    }
    value.payload := Str(s);
    e.payload := Ele(value, null);
    str := value;
  }

  /** The pointer updates of q_insert_head. */
  method LinkHead(h: Heap, q: Block, newh: Block, ghost str: Block, ghost s: string)
    requires QueueOk(h, q) && newh in Others(h, q) && str in Others(h, q) && newh != str
    requires newh.payload == Ele(str, null) && str.payload == Str(s)
    modifies q`payload, q`view, newh`payload
    ensures QueueOk(h, q)
    ensures var v := old(q.view); q.view == View([newh] + v.nodes, [str] + v.strs, [s] + v.texts)
    ensures Others(h, q) == old(Others(h, q)) - {newh, str}
  {
    ghost var v := q.view;
    newh.payload := newh.payload.(next := q.payload.head);
    if q.payload.tail == null {
      q.payload := q.payload.(tail := newh);
    }
    q.payload := q.payload.(head := newh);
    q.payload := q.payload.(size := q.payload.size + 1);
    SeparateHead(q, v, newh, str, s);
    q.view := View([newh] + v.nodes, [str] + v.strs, [s] + v.texts);
    forall i: nat | i < |q.view.nodes| ensures Element(q.view, i) {
      assert i > 0 ==> old(Element(v, i - 1));
    }
  }

  /** q_insert_head. */
  method InsertHead(h: Heap, q: Block?, s: string) returns (ok: bool)
    requires h.Valid() && (q != null ==> QueueOk(h, q))
    modifies h, h.blocks
    ensures h.Valid() && (q != null ==> QueueOk(h, q) && Others(h, q) == old(Others(h, q)))
    ensures forall b :: b in h.blocks ==> b in old(h.blocks) || fresh(b)
    ensures ok <==> q != null && !Fails(old(h.fates)) && !Fails(Later(old(h.fates)))
    ensures h.fates == if q == null then old(h.fates) else Spent(old(h.fates))
    ensures ok ==> q.view.texts == [s] + old(q.view.texts) && q.view.nodes[1..] == old(q.view.nodes)
    ensures !ok ==> h.blocks == old(h.blocks) && (q != null ==> q.view == old(q.view))
    ensures q != null ==> forall b :: b in old(Others(h, q)) ==> b.payload == old(b.payload) && b.view == old(b.view)
  {
    hide Heap.Valid, Separate, Fails, NoDup, Ends, Chained, Spent;
    ok := false;
    if q != null {
      ghost var v := q.view;
      var newh, str := NewElement(h, s);
      if newh != null {
        LinkHead(h, q, newh, str, s);
        ok := true;
      }
    }
  }

  /** The pointer updates of q_insert_tail. */
  method LinkTail(h: Heap, q: Block, newt: Block, ghost str: Block, ghost s: string)
    requires QueueOk(h, q) && newt in Others(h, q) && str in Others(h, q) && newt != str
    requires newt.payload == Ele(str, null) && str.payload == Str(s)
    modifies q`payload, q`view, q.view.nodes`payload
    ensures QueueOk(h, q)
    ensures var v := old(q.view); q.view == View(v.nodes + [newt], v.strs + [str], v.texts + [s])
    ensures Others(h, q) == old(Others(h, q)) - {newt, str}
  {
    ghost var v := q.view;
    var tail := q.payload.tail;
    if q.payload.head == null {
      q.payload := q.payload.(head := newt);
    } else {
      assert Element(v, |v.nodes| - 1);
      tail.payload := tail.payload.(next := newt);
    }
    q.payload := q.payload.(tail := newt);
    q.payload := q.payload.(size := q.payload.size + 1);
    SeparateHead(q, v, newt, str, s);
    q.view := View(v.nodes + [newt], v.strs + [str], v.texts + [s]);
    forall i: nat | i < |q.view.nodes| ensures Element(q.view, i) {
      assert i < |v.nodes| ==> old(Element(v, i));
    }
  }

  /** q_insert_tail. */
  method InsertTail(h: Heap, q: Block?, s: string) returns (ok: bool)
    requires h.Valid() && (q != null ==> QueueOk(h, q))
    modifies h, h.blocks
    ensures h.Valid() && (q != null ==> QueueOk(h, q) && Others(h, q) == old(Others(h, q)))
    ensures forall b :: b in h.blocks ==> b in old(h.blocks) || fresh(b)
    ensures ok <==> q != null && !Fails(old(h.fates)) && !Fails(Later(old(h.fates)))
    ensures h.fates == if q == null then old(h.fates) else Spent(old(h.fates))
    ensures ok ==> q.view.texts == old(q.view.texts) + [s] && q.view.nodes[..|q.view.nodes| - 1] == old(q.view.nodes)
    ensures !ok ==> h.blocks == old(h.blocks) && (q != null ==> q.view == old(q.view))
    ensures q != null ==> forall b :: b in old(Others(h, q)) ==> b.payload == old(b.payload) && b.view == old(b.view)
  {
    hide Heap.Valid, Separate, Fails, NoDup, Ends, Chained, Spent;
    ok := false;
    if q != null {
      ghost var v := q.view;
      var newt, str := NewElement(h, s);
      if newt != null {
        assert q.view == v && forall i :: 0 <= i < |v.nodes| ==> v.nodes[i] in old(h.blocks);
        LinkTail(h, q, newt, str, s);
        ok := true;
      }
    }
  }

  ghost function Tail(v: View): View
    requires v.nodes != [] && |v.nodes| == |v.strs| == |v.texts|
  {
    View(v.nodes[1..], v.strs[1..], v.texts[1..])
  }

  lemma SeparateTail(q: Block, v: View)
    requires Separate(q, v) && v.nodes != [] && |v.strs| == |v.nodes| == |v.texts|
    ensures Separate(q, Tail(v)) && v.nodes[0] != v.strs[0]
    ensures !Owns(q, Tail(v), v.nodes[0]) && !Owns(q, Tail(v), v.strs[0])
    ensures forall b :: Owns(q, v, b) <==> Owns(q, Tail(v), b) || b == v.nodes[0] || b == v.strs[0]
  {
    assert v.nodes == [v.nodes[0]] + Tail(v).nodes && v.strs == [v.strs[0]] + Tail(v).strs;
    assert v.nodes[0] in v.nodes && v.strs[0] in v.strs;
    assert forall b :: b in Tail(v).strs ==> b in v.strs;
    assert forall b :: b in Tail(v).nodes ==> b in v.nodes;
  }

  /** A buffer of which `n` bytes may be used, after `text` was copied in: as many characters as
      fit, a 0, and the rest as it was. */
  function Filled(was: seq<char>, text: string, n: nat): seq<char>
    requires 0 < n <= |was|
  {
    var k := if |text| < n then |text| else n - 1;
    text[..k] + ['\0'] + was[k + 1..]
  }

  /** The first `n` places of `v` hold `text` as far as it fits with a terminating 0, and what lies
      behind that is as in `was`. */
  ghost predicate CopiedText(v: seq<char>, was: seq<char>, text: string, n: nat)
    requires 0 < n <= |was| == |v|
  {
    && (forall j :: 0 <= j < n - 1 && j < |text| ==> v[j] == text[j])
    && (if |text| < n then v[|text|] == '\0' else v[n - 1] == '\0')
    && forall j :: 0 <= j < |v| && (j > |text| || j >= n) ==> v[j] == was[j]
  }

  lemma FilledCopies(was: seq<char>, text: string, n: nat)
    requires 0 < n <= |was|
    ensures |Filled(was, text, n)| == |was| && CopiedText(Filled(was, text, n), was, text, n)
  {
  }

  lemma FilledBy(v: seq<char>, was: seq<char>, text: string, n: nat)
    requires 0 < n <= |was| == |v|
    requires var k := if |text| < n then |text| else n - 1;
             && (forall j :: 0 <= j < k ==> v[j] == text[j]) && v[k] == '\0'
             && forall j :: k < j < |v| ==> v[j] == was[j]
    ensures v == Filled(was, text, n)
  {
  }

  /** The copying loop of q_remove_head. */
  method CopyText(text: string, sp: array?<char>, bufsize: nat)
    requires sp != null ==> 0 < bufsize <= sp.Length
    modifies sp
    ensures sp != null ==> sp[..] == Filled(old(sp[..]), text, bufsize)
  {
    if sp == null {
      return;
    }
    ghost var was := sp[..];
    var left := bufsize - 1;
    var i := 0;
    while left > 0 && i < |text|
      invariant 0 <= i <= |text| && 0 <= left == bufsize - 1 - i
      invariant forall j :: 0 <= j < i ==> sp[j] == text[j]
      invariant forall j :: i <= j < sp.Length ==> sp[j] == old(sp[j])
    {
      sp[i] := text[i];
      i := i + 1;
      left := left - 1;
    }
    sp[i] := '\0';
    FilledBy(sp[..], was, text, bufsize);
  }

  /** The pointer updates of q_remove_head, the string of the first element being gone already. */
  method DropHead(q: Block)
    requires var v := q.view;
             && v.nodes != [] && |v.nodes| == |v.strs| == |v.texts| && Separate(q, v) && Ends(q, v) && Chained(v, 1)
             && v.nodes[0].payload == Ele(v.strs[0], if |v.nodes| > 1 then v.nodes[1] else null)
    modifies q`payload, q`view
    ensures q.view == old(Tail(q.view)) && Ends(q, q.view) && Chained(q.view, 0)
  {
    ghost var v := q.view;
    q.payload := q.payload.(head := q.payload.head.payload.next);
    if q.payload.head == null {
      q.payload := q.payload.(tail := null);
    }
    q.payload := q.payload.(size := q.payload.size - 1);
    q.view := Tail(v);
    forall i: nat | i < |q.view.nodes| ensures Element(q.view, i) {
      assert old(Element(v, i + 1));
    }
  }

  /** Frees the first element and its string, its links being read in between. */
  method RemoveFirst(h: Heap, q: Block, remove: Block, value: Block)
    requires h.Valid() && QueueOk(h, q) && q.view.nodes != []
    requires remove == q.view.nodes[0] && value == q.view.strs[0]
    modifies h, h.blocks
    ensures h.Valid() && QueueOk(h, q) && h.fates == old(h.fates)
    ensures q.view == old(Tail(q.view))
    ensures forall b :: b in h.blocks <==> b in old(h.blocks) && b != remove && b != value
    ensures forall b :: b in old(Others(h, q)) ==> b.payload == old(b.payload) && b.view == old(b.view)
  {
    hide Heap.Valid, Separate, NoDup, Without;
    ghost var v := q.view;
    SeparateTail(q, v);
    assert Element(v, 0);
    h.Free(value);
    forall i: nat | 1 <= i < |v.nodes| ensures Element(v, i) {
      assert v.strs[i] == Tail(v).strs[i - 1] && v.nodes[i] == Tail(v).nodes[i - 1];
      assert old(Element(v, i));
    }
    DropHead(q);
    ghost var t := q.view;
    assert forall i :: 0 <= i < |h.blocks| ==> h.blocks[i] in old(h.blocks);
    h.Free(remove);
    forall i: nat | i < |t.nodes| ensures Element(t, i) {
      assert t.strs[i] != remove && t.nodes[i] != remove;
    }
  }

  /** q_remove_head. */
  method RemoveHead(h: Heap, q: Block?, sp: array?<char>, bufsize: nat) returns (ok: bool)
    requires h.Valid() && (q != null ==> QueueOk(h, q))
    requires sp != null ==> 0 < bufsize <= sp.Length
    modifies h, h.blocks, sp
    ensures h.Valid() && (q != null ==> QueueOk(h, q) && Others(h, q) == old(Others(h, q)))
    ensures forall b :: b in h.blocks ==> b in old(h.blocks) || fresh(b)
    ensures ok <==> q != null && old(q.view.texts) != []
    ensures ok ==> q.view.texts == old(q.view.texts)[1..] && q.view.nodes == old(q.view.nodes)[1..]
    ensures sp != null ==> sp[..] == if ok then Filled(old(sp[..]), old(q.view.texts)[0], bufsize) else old(sp[..])
    ensures ok && sp != null ==> CopiedText(sp[..], old(sp[..]), old(q.view.texts)[0], bufsize)
    ensures !ok ==> h.blocks == old(h.blocks) && (q != null ==> q.view == old(q.view))
    ensures q != null ==> forall b :: b in old(Others(h, q)) ==> b.payload == old(b.payload) && b.view == old(b.view)
    ensures h.fates == old(h.fates)
  {
    if q == null || q.payload.head == null {
      return false;
    }
    hide Heap.Valid, Separate, NoDup, Without, Filled, CopiedText;
    ghost var v := q.view;
    var remove := q.payload.head;
    assert Element(v, 0);
    var value := remove.payload.value;
    if sp != null { FilledCopies(sp[..], v.texts[0], bufsize); }
    CopyText(value.payload.text, sp, bufsize);
    RemoveFirst(h, q, remove, value);
    SeparateTail(q, v);
    ok := true;
  }

  function Rev<T>(s: seq<T>): seq<T> { seq(|s|, i requires 0 <= i < |s| => s[|s| - 1 - i]) }

  ghost function Reversed(v: View): View { View(Rev(v.nodes), Rev(v.strs), Rev(v.texts)) }

  lemma RevMembers(s: seq<Block>)
    ensures forall b :: b in Rev(s) <==> b in s
    ensures NoDup(s) ==> NoDup(Rev(s))
  {
    forall b | b in s ensures b in Rev(s) {
      var i :| 0 <= i < |s| && s[i] == b;
      assert Rev(s)[|s| - 1 - i] == b;
    }
  }

  lemma SeparateReversed(q: Block, v: View)
    requires Separate(q, v)
    ensures Separate(q, Reversed(v))
    ensures forall b :: Owns(q, Reversed(v), b) <==> Owns(q, v, b)
  {
    RevMembers(v.nodes);
    RevMembers(v.strs);
  }

  /** The element at `i` points back at the one before it. */
  ghost predicate Turned(v: View, i: nat)
    requires i < |v.nodes| == |v.strs| == |v.texts|
    reads v.nodes`payload, v.strs`payload
  {
    && v.nodes[i].payload == Ele(v.strs[i], if i > 0 then v.nodes[i - 1] else null)
    && v.strs[i].payload == Str(v.texts[i])
  }

  /** The loop of q_reverse. */
  method Turn(q: Block) returns (last: Block?)
    requires var v := q.view; |v.nodes| == |v.strs| == |v.texts| && Separate(q, v) && Ends(q, v) && Chained(v, 0)
    modifies q.view.nodes`payload
    ensures Ends(q, q.view) && last == q.payload.tail
    ensures forall i: nat :: i < |q.view.nodes| ==> Turned(q.view, i)
  {
    ghost var v := q.view;
    ghost var k := 0;
    var lp := q.payload.head;
    last := null;
    while lp != null
      invariant 0 <= k <= |v.nodes| && Ends(q, v) && Chained(v, k)
      invariant lp == (if k < |v.nodes| then v.nodes[k] else null)
      invariant last == (if k > 0 then v.nodes[k - 1] else null)
      invariant forall i: nat :: i < k ==> Turned(v, i)
      decreases |v.nodes| - k
    {
      assert Element(v, k);
      assert v.nodes[k] in v.nodes && forall i :: 0 <= i < |v.strs| ==> v.strs[i] in v.strs;
      assert forall i: nat :: k < i < |v.nodes| ==> Element(v, i);
      label before:
      var nxt := lp.payload.next;
      lp.payload := lp.payload.(next := last);
      forall i: nat | k + 1 <= i < |v.nodes| ensures Element(v, i) {
        assert old@before(Element(v, i));
      }
      forall i: nat | i < k + 1 ensures Turned(v, i) {
        assert i < k ==> old@before(Turned(v, i));
      }
      last := lp;
      lp := nxt;
      k := k + 1;
    }
  }

  method ReverseLinks(q: Block)
    requires var v := q.view; |v.nodes| == |v.strs| == |v.texts| && Separate(q, v) && Ends(q, v) && Chained(v, 0)
    modifies q`payload, q`view, q.view.nodes`payload
    ensures q.view == old(Reversed(q.view)) && Ends(q, q.view) && Chained(q.view, 0)
  {
    hide Separate, NoDup;
    ghost var v := q.view;
    SeparateReversed(q, v);
    var prv := Turn(q);
    label turned:
    q.payload := q.payload.(tail := q.payload.head);
    q.payload := q.payload.(head := prv);
    q.view := Reversed(v);
    forall i: nat | i < |q.view.nodes| ensures Element(q.view, i) {
      var k := |v.nodes| - 1 - i;
      HeaderApart(q, v, k);
      assert old@turned(Turned(v, k));
      TurnedElement(v, i);
    }
  }

  lemma HeaderApart(q: Block, v: View, i: nat)
    requires Separate(q, v) && i < |v.nodes| == |v.strs|
    ensures v.nodes[i] != q && v.strs[i] != q
  {
    assert v.nodes[i] in v.nodes && v.strs[i] in v.strs;
  }

  lemma TurnedElement(v: View, i: nat)
    requires i < |v.nodes| == |v.strs| == |v.texts| && Turned(v, |v.nodes| - 1 - i)
    ensures Element(Reversed(v), i)
  {
  }

  /** q_reverse: the same elements in the opposite order; nothing is allocated or freed. */
  method Reverse(h: Heap, q: Block?)
    requires q != null ==> QueueOk(h, q)
    modifies h.blocks`payload, h.blocks`view
    ensures q != null ==> QueueOk(h, q) && q.view == old(Reversed(q.view)) && Others(h, q) == old(Others(h, q))
    ensures q != null ==> |q.view.texts| == |old(q.view.texts)| && |q.view.nodes| == |old(q.view.nodes)|
    ensures q != null ==> forall i :: 0 <= i < |q.view.texts| ==> q.view.texts[i] == old(q.view.texts)[|q.view.texts| - 1 - i]
    ensures q != null ==> forall i :: 0 <= i < |q.view.nodes| ==> q.view.nodes[i] == old(q.view.nodes)[|q.view.nodes| - 1 - i]
    ensures forall b :: b in h.blocks && (q == null || !Owns(q, q.view, b)) ==> b.payload == old(b.payload) && b.view == old(b.view)
  {
    if q != null {
      hide Separate, Ends, Chained;
      ghost var v := q.view;
      SeparateReversed(q, v);
      assert forall i :: 0 <= i < |v.nodes| ==> v.nodes[i] in h.blocks;
      ReverseLinks(q);
    }
  }

  /** q_size. */
  method Size(h: Heap, q: Block?) returns (size: nat)
    requires q != null ==> QueueOk(h, q)
    ensures size == if q == null then 0 else |q.view.texts|
  {
    size := if q == null then 0 else q.payload.size;
  }

  // ---------- The live count ----------

  lemma {:induction false} CountDistinct(s: seq<Block>, t: set<Block>)
    requires NoDup(s) && forall b :: b in t <==> b in s
    ensures |t| == |s|
  {
    if s == [] {
      assert t == {};
    } else {
      var last := s[|s| - 1];
      CountDistinct(s[..|s| - 1], t - {last});
      assert t == (t - {last}) + {last};
    }
  }

  lemma CountIsLength(h: Heap)
    requires h.Valid()
    ensures h.count == |h.blocks|
  {
  }

  /** allocation_check: what the queue adds to the live count is one block and two per string. */
  lemma LiveCount(h: Heap, q: Block)
    requires h.Valid() && QueueOk(h, q)
    ensures h.count == |Others(h, q)| + 1 + 2 * |q.view.texts|
  {
    var v := q.view;
    var nodes, strs := set b | b in v.nodes, set b | b in v.strs;
    CountDistinct(v.nodes, nodes);
    CountDistinct(v.strs, strs);
    var all := set b | b in h.blocks;
    CountDistinct(h.blocks, all);
    assert all == Others(h, q) + ({q} + (nodes + strs));
    assert |nodes + strs| == |nodes| + |strs|;
  }

  /** One round of q_free: the element goes after its string, the rest stays as it is. */
  method FreeFirst(h: Heap, q: Block, lp: Block, ghost t: View)
    requires h.Valid() && Separate(q, t) && t.nodes != [] && |t.nodes| == |t.strs| == |t.texts| && Chained(t, 0)
    requires lp == t.nodes[0] && t.nodes[0] in h.blocks && t.strs[0] in h.blocks
    modifies h, h.blocks
    ensures h.Valid() && Separate(q, Tail(t)) && Chained(Tail(t), 0) && h.fates == old(h.fates)
    ensures forall b :: b in h.blocks <==> b in old(h.blocks) && b != t.nodes[0] && b != t.strs[0]
    ensures forall b :: b in h.blocks ==> b.payload == old(b.payload) && b.view == old(b.view)
  {
    hide Heap.Valid, Separate, NoDup, Without;
    SeparateTail(q, t);
    assert Element(t, 0);
    h.Free(lp.payload.value);
    assert forall i :: 0 <= i < |h.blocks| ==> h.blocks[i] in old(h.blocks);
    h.Free(lp);
    ghost var r := Tail(t);
    forall i: nat | i < |r.nodes| ensures Element(r, i) {
      assert old(Element(t, i + 1)) && Owns(q, r, r.strs[i]) && Owns(q, r, r.nodes[i]);
    }
  }

  /** q_free: every block of the queue is freed and no other. */
  method Free(h: Heap, q: Block?)
    requires h.Valid() && (q != null ==> QueueOk(h, q))
    modifies h, h.blocks
    ensures h.Valid() && h.fates == old(h.fates)
    ensures q == null ==> h.blocks == old(h.blocks)
    ensures q != null ==> forall b :: b in h.blocks <==> b in old(Others(h, q))
    ensures h.count == old(h.count) - if q == null then 0 else 1 + 2 * |old(q.view.texts)|
    ensures forall b :: b in h.blocks ==> b.payload == old(b.payload) && b.view == old(b.view)
  {
    if q == null {
      return;
    }
    LiveCount(h, q);
    ghost var others := Others(h, q);
    ghost var t := q.view;
    var lp := q.payload.head;
    while lp != null
      invariant h.Valid() && h.fates == old(h.fates)
      invariant |t.nodes| == |t.strs| == |t.texts| && Separate(q, t) && Chained(t, 0)
      invariant lp == if t.nodes == [] then null else t.nodes[0]
      invariant forall b :: b in h.blocks <==> b in others || Owns(q, t, b)
      invariant forall b :: b in h.blocks ==> b in old(h.blocks)
      invariant forall b :: b in others ==> !Owns(q, t, b)
      invariant forall b :: b in h.blocks ==> b.payload == old(b.payload) && b.view == old(b.view)
      decreases |t.nodes|
    {
      hide Heap.Valid, Separate;
      assert Element(t, 0);
      var nxt := lp.payload.next;
      SeparateTail(q, t);
      assert forall i :: 0 <= i < |h.blocks| ==> h.blocks[i] in old(h.blocks);
      FreeFirst(h, q, lp, t);
      t := Tail(t);
      lp := nxt;
    }
    assert forall i :: 0 <= i < |h.blocks| ==> h.blocks[i] in old(h.blocks);
    h.Free(q);
    CountDistinct(h.blocks, others);
  }

  // ---------- Any order of operations, any pattern of failures ----------

  /** The operations; a removal hands over a blank buffer of that size, or NULL for size 0. */
  datatype Op = PutHead(s: string) | PutTail(s: string) | TakeHead(bufsize: nat) | Turned | Ask

  /** What a caller sees of an operation: its result, what its buffer holds then, the size of the
      queue, and the live count behind it. */
  datatype Answer = Answer(ok: bool, got: seq<char>, size: nat, live: nat)

  datatype Next = Next(texts: seq<string>, fates: seq<bool>, ok: bool, got: seq<char>)

  function Blank(n: nat): seq<char> { seq(n, _ => '\0') }

  function Told(n: Next): Answer { Answer(n.ok, n.got, |n.texts|, 1 + 2 * |n.texts|) }

  function Step(texts: seq<string>, fates: seq<bool>, op: Op): Next {
    var ok := !Fails(fates) && !Fails(Later(fates));
    match op
    case PutHead(s) => Next(if ok then [s] + texts else texts, Spent(fates), ok, [])
    case PutTail(s) => Next(if ok then texts + [s] else texts, Spent(fates), ok, [])
    case TakeHead(n) =>
      if texts == [] then Next([], fates, false, Blank(n))
      else Next(texts[1..], fates, true, if n == 0 then Blank(0) else Filled(Blank(n), texts[0], n))
    case Turned => Next(Rev(texts), fates, true, [])
    case Ask => Next(texts, fates, true, [])
  }

  function Answers(texts: seq<string>, fates: seq<bool>, ops: seq<Op>): seq<Answer>
    decreases |ops|
  {
    if ops == [] then []
    else
      var n := Step(texts, fates, ops[0]);
      [Told(n)] + Answers(n.texts, n.fates, ops[1..])
  }

  /** Removals show every string of the queue, in order, each up to its terminating 0. */
  lemma {:induction false} DrainShows(texts: seq<string>, fates: seq<bool>, n: nat)
    requires forall i :: 0 <= i < |texts| ==> |texts[i]| < n
    ensures var told := Answers(texts, fates, seq(|texts|, _ => TakeHead(n)));
            |told| == |texts| && forall i :: 0 <= i < |texts| ==> told[i].ok && texts[i] + ['\0'] <= told[i].got
    decreases |texts|
  {
    if texts != [] {
      var ops, rest := seq(|texts|, _ => TakeHead(n)), texts[1..];
      DrainShows(rest, fates, n);
      assert ops[1..] == seq(|rest|, _ => TakeHead(n));
      var first := Told(Step(texts, fates, TakeHead(n)));
      assert Answers(texts, fates, ops) == [first] + Answers(rest, fates, ops[1..]);
      FilledShows(texts[0], n);
    }
  }

  lemma FilledShows(text: string, n: nat)
    requires |text| < n
    ensures text + ['\0'] <= Filled(Blank(n), text, n)
  {
  }

  /** After a reversal, removals show the strings from the last to the first. */
  lemma TurnedShows(texts: seq<string>, fates: seq<bool>, n: nat)
    requires forall i :: 0 <= i < |texts| ==> |texts[i]| < n
    ensures var told := Answers(texts, fates, [Op.Turned] + seq(|texts|, _ => TakeHead(n)));
            && |told| == |texts| + 1
            && forall i :: 1 <= i <= |texts| ==> told[i].ok && texts[|texts| - i] + ['\0'] <= told[i].got
  {
    var ops, back := seq(|texts|, _ => TakeHead(n)), Rev(texts);
    DrainShows(back, fates, n);
    assert |back| == |texts| && ([Op.Turned] + ops)[1..] == ops;
    var rest := Answers(back, fates, ops);
    assert Answers(texts, fates, [Op.Turned] + ops) == [Told(Step(texts, fates, Op.Turned))] + rest;
    assert forall i :: 0 <= i < |texts| ==> back[i] == texts[|texts| - 1 - i];
  }

  lemma AnswersStep(texts: seq<string>, fates: seq<bool>, ops: seq<Op>, i: nat)
    requires i < |ops|
    ensures var n := Step(texts, fates, ops[i]);
            Answers(texts, fates, ops[i..]) ==
              [Told(n)] + Answers(n.texts, n.fates, ops[i + 1..])
  {
    assert ops[i..][1..] == ops[i + 1..];
  }

  lemma AnswersEnd(texts: seq<string>, fates: seq<bool>)
    ensures Answers(texts, fates, []) == []
  {
  }

  /** q_remove_head into a blank buffer, or without one. */
  method Take(h: Heap, q: Block, n: nat) returns (ok: bool, got: seq<char>)
    requires h.Valid() && QueueOk(h, q)
    modifies h, h.blocks
    ensures h.Valid() && QueueOk(h, q) && Others(h, q) == old(Others(h, q)) && h.fates == old(h.fates)
    ensures forall b :: b in h.blocks ==> b in old(h.blocks) || fresh(b)
    ensures ok <==> old(q.view.texts) != []
    ensures q.view.texts == if ok then old(q.view.texts)[1..] else []
    ensures got == if ok && n > 0 then Filled(Blank(n), old(q.view.texts)[0], n) else Blank(n)
  {
    hide Heap.Valid, QueueOk, Others, Owns, Filled;
    if n == 0 {
      ok := RemoveHead(h, q, null, 0);
      got := [];
    } else {
      var sp := new char[n](_ => '\0');
      assert sp[..] == Blank(n);
      ok := RemoveHead(h, q, sp, n);
      got := sp[..];
    }
  }

  method Dispatch(h: Heap, q: Block, op: Op) returns (ok: bool, got: seq<char>)
    requires h.Valid() && QueueOk(h, q)
    modifies h, h.blocks
    ensures h.Valid() && QueueOk(h, q) && Others(h, q) == old(Others(h, q))
    ensures forall b :: b in h.blocks ==> b in old(h.blocks) || fresh(b)
    ensures var n := Step(old(q.view.texts), old(h.fates), op);
            q.view.texts == n.texts && h.fates == n.fates && ok == n.ok && got == n.got
  {
    hide Heap.Valid, QueueOk, Others, Fails, Later, Spent, Rev, Owns, Filled, Blank;
    ok, got := true, [];
    match op {
      case PutHead(s) => ok := InsertHead(h, q, s);
      case PutTail(s) => ok := InsertTail(h, q, s);
      case TakeHead(n) => ok, got := Take(h, q, n);
      case Turned => Reverse(h, q);
      case Ask =>
    }
  }

  method Perform(h: Heap, q: Block, op: Op) returns (a: Answer)
    requires h.Valid() && QueueOk(h, q) && Others(h, q) == {}
    modifies h, h.blocks
    ensures h.Valid() && QueueOk(h, q) && Others(h, q) == {}
    ensures forall b :: b in h.blocks ==> b in old(h.blocks) || fresh(b)
    ensures var n := Step(old(q.view.texts), old(h.fates), op);
            && q.view.texts == n.texts && h.fates == n.fates
            && a == Told(n)
  {
    hide Heap.Valid, QueueOk, Others, Step;
    var ok, got := Dispatch(h, q, op);
    var size := Size(h, q);
    LiveCount(h, q);
    a := Answer(ok, got, size, h.count);
  }

  /** The queue under any operations and any pattern of failing allocations: it answers as the
      sequence does, one block and two per string are live throughout, and none once it is freed. */
  method Session(fates: seq<bool>, ops: seq<Op>) returns (answers: seq<Answer>, live: nat)
    ensures answers == if Fails(fates) then [] else Answers([], Later(fates), ops)
    ensures live == 0
  {
    hide Heap.Valid, QueueOk, Fails, Later, Answers, Step;
    var h := new Heap(fates);
    var q := New(h);
    answers := [];
    if q != null {
      var i := 0;
      while i < |ops|
        invariant 0 <= i <= |ops| && h.Valid() && QueueOk(h, q) && Others(h, q) == {}
        invariant answers + Answers(q.view.texts, h.fates, ops[i..]) == Answers([], Later(fates), ops)
        invariant forall j :: 0 <= j < |h.blocks| ==> fresh(h.blocks[j])
      {
        AnswersStep(q.view.texts, h.fates, ops, i);
        var a := Perform(h, q, ops[i]);
        assert forall j :: 0 <= j < |h.blocks| ==> h.blocks[j] in h.blocks;
        answers := answers + [a];
        i := i + 1;
      }
      assert ops[i..] == [];
      AnswersEnd(q.view.texts, h.fates);
      LiveCount(h, q);
      Free(h, q);
    } else {
      CountIsLength(h);
    }
    live := h.count;
  }
}
