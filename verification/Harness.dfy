/** The counting allocator under the queue (harness.c): every block it hands out is on a doubly linked
    list until it is freed, and any call may be made to fail. */
module Harness {

  /** What a client keeps in a block: nothing yet, a string, a list element or a queue header. */
  datatype Payload =
    | Raw
    | Str(text: string)
    | Ele(value: Block, next: Block?)
    | Que(head: Block?, tail: Block?, size: nat)

  /** The elements of a queue, head first, the blocks of their strings, and the strings. */
  datatype View = View(nodes: seq<Block>, strs: seq<Block>, texts: seq<string>)

  class Block {
    var next: Block?
    var prev: Block?
    var legit: bool              // magic_header == MAGICHEADER
    var payload: Payload
    ghost var view: View         // of a queue header: what the queue is made of

    constructor ()
      ensures payload == Raw
    {
      next, prev, legit, payload := null, null, false, Raw;
      view := View([], [], []);
    }
  }

  ghost predicate NoDup(s: seq<Block>) {
    forall i, j :: 0 <= i < j < |s| ==> s[i] != s[j]
  }

  ghost function Without(s: seq<Block>, b: Block): seq<Block> {
    if s == [] then [] else if s[0] == b then s[1..] else [s[0]] + Without(s[1..], b)
  }

  lemma {:induction false} WithoutAt(s: seq<Block>, i: nat)
    requires i < |s| && NoDup(s)
    ensures Without(s, s[i]) == s[..i] + s[i + 1..]
    decreases i
  {
    if i > 0 {
      WithoutAt(s[1..], i - 1);
      assert s[1..][..i - 1] == s[1..i];
    }
  }

  lemma WithoutMembers(s: seq<Block>, b: Block)
    requires NoDup(s) && b in s
    ensures forall x :: x in Without(s, b) <==> x in s && x != b
  {
    var i :| 0 <= i < |s| && s[i] == b;
    WithoutAt(s, i);
  }

  /** The fields of one block of the list. */
  ghost predicate Linked(s: seq<Block>, i: nat)
    requires i < |s|
    reads s`next, s`prev, s`legit
  {
    && s[i].legit
    && s[i].next == (if i + 1 < |s| then s[i + 1] else null)
    && s[i].prev == (if i == 0 then null else s[i - 1])
  }

  function Fails(fates: seq<bool>): bool { fates != [] && fates[0] }
  function Later(fates: seq<bool>): seq<bool> { if fates == [] then [] else fates[1..] }

  class Heap {
    var first: Block?
    var count: nat
    var fates: seq<bool>           // which of the coming calls of malloc fail
    ghost var blocks: seq<Block>   // the list from `first` on (allocated, in the source)

    constructor (fates: seq<bool>)
      ensures Valid() && blocks == [] && this.fates == fates
    {
      first, count := null, 0;
      this.fates := fates;
      blocks := [];
    }

    ghost predicate Valid()
      reads this, blocks`next, blocks`prev, blocks`legit
    {
      && NoDup(blocks) && count == |blocks|
      && first == (if blocks == [] then null else blocks[0])
      && (forall i: nat :: i < |blocks| ==> Linked(blocks, i))
    }

    /** test_malloc. */
    method Malloc() returns (b: Block?)
      requires Valid()
      modifies this, blocks`prev
      ensures Valid() && fates == Later(old(fates))
      ensures b == null <==> Fails(old(fates))
      ensures b == null ==> blocks == old(blocks)
      ensures b != null ==> fresh(b) && b.payload == Raw && blocks == [b] + old(blocks)
    {
      var fail := Fails(fates);
      fates := Later(fates);
      if fail {
        return null;
      }
      var n := new Block();
      n.legit := true;
      n.next := first;
      n.prev := null;
      if first != null {
        first.prev := n;
      }
      first := n;
      count := count + 1;
      ghost var was := blocks;
      blocks := [n] + blocks;
      forall i: nat | i < |blocks| ensures Linked(blocks, i) {
        assert i > 0 ==> blocks[i] == was[i - 1] && old(Linked(was, i - 1));
        assert i > 1 ==> blocks[i - 1] == was[i - 2];
        assert i + 1 < |blocks| ==> blocks[i + 1] == was[i];
      }
      b := n;
    }

    /** The cautious search of find_header. */
    method FindHeader(b: Block) returns (found: bool)
      requires Valid()
      ensures found <==> b in blocks
    {
      var ab := first;
      found := false;
      ghost var i := 0;
      while ab != null && !found
        invariant 0 <= i <= |blocks|
        invariant !found ==> ab == (if i < |blocks| then blocks[i] else null) && b !in blocks[..i]
        invariant found ==> b in blocks
        decreases |blocks| - i, !found
      {
        assert Linked(blocks, i);
        found := ab == b;
        ab := ab.next;
        i := i + 1;
      }
    }

    /** The unlinking in test_free. */
    method Unlink(b: Block, ghost i: nat)
      requires Valid() && i < |blocks| && blocks[i] == b
      modifies this`first, this`count, this`blocks, blocks`next, blocks`prev
      ensures Valid() && blocks == old(blocks[..i] + blocks[i + 1..])
    {
      ghost var was := blocks;
      assert Linked(was, i);
      var bn := b.next;
      var bp := b.prev;
      if bp != null {
        bp.next := bn;
      } else {
        first := bn;
      }
      if bn != null {
        bn.prev := bp;
      }
      count := count - 1;
      blocks := was[..i] + was[i + 1..];
      forall k: nat | k < |blocks| ensures Linked(blocks, k) {
        if k < i {
          assert blocks[k] == was[k] && old(Linked(was, k));
          assert k + 1 < |blocks| ==> blocks[k + 1] == was[if k + 1 < i then k + 1 else k + 2];
        } else {
          assert blocks[k] == was[k + 1] && old(Linked(was, k + 1));
          assert k > 0 ==> blocks[k - 1] == was[if k - 1 < i then k - 1 else k];
          assert k + 1 < |blocks| ==> blocks[k + 1] == was[k + 2];
        }
      }
    }

    /** test_free of a live block; the marks it leaves behind are written first in the source. */
    method Free(b: Block)
      requires Valid() && b in blocks
      modifies this`first, this`count, this`blocks, blocks`next, blocks`prev, b`legit, b`payload
      ensures Valid() && blocks == Without(old(blocks), b)
      ensures forall x :: x in blocks <==> x in old(blocks) && x != b
      ensures b.payload == Raw && !b.legit
    {
      ghost var i :| 0 <= i < |blocks| && blocks[i] == b;
      WithoutAt(blocks, i);
      WithoutMembers(blocks, b);
      Unlink(b, i);
      b.legit := false;
      b.payload := Raw;
    }
  }
}
