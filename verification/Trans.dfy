/** The staged and blocked matrix transposes (trans.c).  A is N by M, B is M by N, and a transpose
    must leave B[c][r] == A[r][c] whatever B held before.  Each loop nest of the C code that moves
    one block is a method of its own. */
module Trans {
  import opened DivMod

  ghost predicate IsTranspose(A: array2<int>, B: array2<int>)
    requires A.Length0 == B.Length1 && A.Length1 == B.Length0
    reads A, B
  {
    forall r, c {:trigger B[c, r]} :: 0 <= r < A.Length0 && 0 <= c < A.Length1 ==> B[c, r] == A[r, c]
  }

  /** Rows [r0, r0+h) of A, columns [c0, c0+w), have reached their place in B. */
  ghost predicate BlockDone(A: array2<int>, B: array2<int>, r0: int, h: int, c0: int, w: int)
    requires A.Length0 == B.Length1 && A.Length1 == B.Length0
    requires 0 <= r0 && r0 + h <= A.Length0 && 0 <= c0 && c0 + w <= A.Length1
    reads A, B
  {
    forall r, c {:trigger B[c, r]} :: r0 <= r < r0 + h && c0 <= c < c0 + w ==> B[c, r] == A[r, c]
  }

  /** Copies the block of A at (i, j), `h` rows by `w` columns, to the place whose top left corner
      in B is (p, q): A[i1][j1] goes to B[j1-j+p][i1-i+q]. */
  method MoveBlock(A: array2<int>, B: array2<int>, i: nat, h: nat, j: nat, w: nat, p: nat, q: nat)
    requires A != B && A.Length0 == B.Length1 && A.Length1 == B.Length0
    requires i + h <= A.Length0 && j + w <= A.Length1 && p + w <= B.Length0 && q + h <= B.Length1
    modifies B
    ensures forall x, y :: 0 <= x < B.Length0 && 0 <= y < B.Length1 ==>
              B[x, y] == if p <= x < p + w && q <= y < q + h then A[y - q + i, x - p + j] else old(B[x, y])
  {
    var i1 := i;
    while i1 < i + h
      invariant i <= i1 <= i + h
      invariant forall x, y :: 0 <= x < B.Length0 && 0 <= y < B.Length1 ==>
                  B[x, y] == if p <= x < p + w && q <= y < q + (i1 - i) then A[y - q + i, x - p + j] else old(B[x, y])
    {
      var j1 := j;
      while j1 < j + w
        invariant j <= j1 <= j + w
        invariant forall x, y :: 0 <= x < B.Length0 && 0 <= y < B.Length1 ==>
                    B[x, y] == if (p <= x < p + w && q <= y < q + (i1 - i)) || (p <= x < p + (j1 - j) && y == q + (i1 - i))
                               then A[y - q + i, x - p + j] else old(B[x, y])
      {
        B[j1 - j + p, i1 - i + q] := A[i1, j1];
        j1 := j1 + 1;
      }
      i1 := i1 + 1;
    }
  }

  /** Copies a `w` by `h` block of B from (p, q) to (x0, y0); the two blocks do not overlap. */
  method CopyBlock(B: array2<int>, x0: nat, y0: nat, p: nat, q: nat, w: nat, h: nat)
    requires x0 + w <= B.Length0 && y0 + h <= B.Length1 && p + w <= B.Length0 && q + h <= B.Length1
    requires x0 + w <= p || p + w <= x0 || y0 + h <= q || q + h <= y0
    modifies B
    ensures forall x, y :: 0 <= x < B.Length0 && 0 <= y < B.Length1 ==>
              B[x, y] == if x0 <= x < x0 + w && y0 <= y < y0 + h then old(B[x - x0 + p, y - y0 + q]) else old(B[x, y])
  {
    var j1 := x0;
    while j1 < x0 + w
      invariant x0 <= j1 <= x0 + w
      invariant forall x, y :: 0 <= x < B.Length0 && 0 <= y < B.Length1 ==>
                  B[x, y] == if x0 <= x < j1 && y0 <= y < y0 + h then old(B[x - x0 + p, y - y0 + q]) else old(B[x, y])
    {
      var i1 := y0;
      while i1 < y0 + h
        invariant y0 <= i1 <= y0 + h
        invariant forall x, y :: 0 <= x < B.Length0 && 0 <= y < B.Length1 ==>
                    B[x, y] == if (x0 <= x < j1 && y0 <= y < y0 + h) || (x == j1 && y0 <= y < i1)
                               then old(B[x - x0 + p, y - y0 + q]) else old(B[x, y])
      {
        B[j1, i1] := B[j1 - x0 + p, i1 - y0 + q];
        i1 := i1 + 1;
      }
      j1 := j1 + 1;
    }
  }

  /** Exchanges, in rows [j, j+w) of B, the `h` columns from `y0` with those from `y1`; the two
      column ranges are the same or do not overlap. */
  method SwapColumns(B: array2<int>, j: nat, w: nat, y0: nat, y1: nat, h: nat)
    requires j + w <= B.Length0 && y0 + h <= B.Length1 && y1 + h <= B.Length1
    requires y0 == y1 || y0 + h <= y1
    modifies B
    ensures forall x, y :: 0 <= x < B.Length0 && 0 <= y < B.Length1 ==>
              B[x, y] ==
              if j <= x < j + w && y0 <= y < y0 + h then old(B[x, y - y0 + y1])
              else if j <= x < j + w && y1 <= y < y1 + h then old(B[x, y - y1 + y0])
              else old(B[x, y])
  {
    var j1 := j;
    while j1 < j + w
      invariant j <= j1 <= j + w
      invariant forall x, y :: 0 <= x < B.Length0 && 0 <= y < B.Length1 ==>
                  B[x, y] ==
                  if j <= x < j1 && y0 <= y < y0 + h then old(B[x, y - y0 + y1])
                  else if j <= x < j1 && y1 <= y < y1 + h then old(B[x, y - y1 + y0])
                  else old(B[x, y])
    {
      var i1 := y0;
      while i1 < y0 + h
        invariant y0 <= i1 <= y0 + h
        invariant forall x, y :: 0 <= x < B.Length0 && 0 <= y < B.Length1 ==>
                    B[x, y] ==
                    if (j <= x < j1 && y0 <= y < y0 + h) || (x == j1 && y0 <= y < i1) then old(B[x, y - y0 + y1])
                    else if (j <= x < j1 && y1 <= y < y1 + h) || (x == j1 && y1 <= y < y1 + (i1 - y0)) then old(B[x, y - y1 + y0])
                    else old(B[x, y])
      {
        var tmp := B[j1, i1];
        B[j1, i1] := B[j1, i1 - y0 + y1];
        B[j1, i1 - y0 + y1] := tmp;
        i1 := i1 + 1;
      }
      j1 := j1 + 1;
    }
  }

  // ---------- block8x4_opt (lines 219-253) ----------

  lemma NextMultiple(d: nat, c: nat, e: nat)
    requires d * c < d * e
    ensures d * c + d <= d * e
  {
    if c >= e {
      MulGap(d, c, e);
    } else {
      MulGap(d, e, c);
    }
  }

  /** The diagonal block number `k` of 8 by 8 is transposed. */
  ghost predicate DiagonalDone(A: array2<int>, B: array2<int>, k: int)
    requires A.Length0 == B.Length1 == A.Length1 == B.Length0
    requires 0 <= k && 8 * k + 8 <= A.Length0
    reads A, B
  {
    BlockDone(A, B, 8 * k, 8, 8 * k, 8)
  }

  /** One half (columns j to j+3 of A) of the diagonal block at i, staged through the last block,
      or for the last block itself through the block on its left (lines 224-241). */
  method DiagonalHalf(A: array2<int>, B: array2<int>, i: nat, j: nat)
    requires A != B && A.Length0 == B.Length1 == A.Length1 == B.Length0
    requires A.Length0 >= 16 && i + 8 <= A.Length0 && (i == A.Length0 - 8 || i + 16 <= A.Length0)
    requires j == i || j == i + 4
    modifies B
    ensures BlockDone(A, B, i, 8, j, 4)
    ensures forall x, y :: 0 <= x < B.Length0 && 0 <= y < B.Length1 && B[x, y] != old(B[x, y]) ==>
              (j <= x < j + 4 && i <= y < i + 8)
              || (i + 8 < B.Length0 && x >= B.Length0 - 8 && y >= B.Length1 - 8)
              || (i + 8 == B.Length0 && x >= i && i - 8 <= y < i)
  {
    var M, N := B.Length0, B.Length1;
    if i != M - 8 {
      MoveBlock(A, B, i, 8, j, 4, j - i + M - 8, N - 8);
      CopyBlock(B, j, i, j - i + M - 8, N - 8, 4, 8);
    } else {
      MoveBlock(A, B, i, 8, j, 4, j, i - 8);
      CopyBlock(B, j, i, j, i - 8, 4, 8);
    }
  }

  /** The first pass: every diagonal block. */
  method Diagonals(A: array2<int>, B: array2<int>)
    requires A != B && A.Length0 == B.Length1 == A.Length1 == B.Length0
    requires A.Length0 % 8 == 0 && A.Length0 >= 16
    modifies B
    ensures forall k {:trigger DiagonalDone(A, B, k)} :: 0 <= k && 8 * k + 8 <= A.Length0 ==> DiagonalDone(A, B, k)
  {
    var i := 0;
    ghost var n := 0;
    while i < B.Length1
      invariant i == 8 * n && 0 <= i <= B.Length1
      invariant forall k {:trigger DiagonalDone(A, B, k)} :: 0 <= k < n ==> DiagonalDone(A, B, k)
    {
      label start:
      DiagonalHalf(A, B, i, i);
      DiagonalHalf(A, B, i, i + 4);
      forall k | 0 <= k < n + 1 ensures DiagonalDone(A, B, k) {
        if k < n { assert old@start(DiagonalDone(A, B, k)); }
      }
      i := i + 8;
      n := n + 1;
    }
  }

  /** One block of the second pass, skipped on the diagonal. */
  method OffBlock(A: array2<int>, B: array2<int>, i: nat, ghost n: nat, j: nat, ghost c: nat)
    requires A != B && A.Length0 == B.Length1 == A.Length1 == B.Length0
    requires i == 8 * n && i + 8 <= A.Length0 && j == 4 * c && j + 4 <= A.Length0
    requires DiagonalDone(A, B, n) && BlockDone(A, B, i, 8, 0, j)
    modifies B
    ensures DiagonalDone(A, B, n) && BlockDone(A, B, i, 8, 0, j + 4)
    ensures forall x, y :: 0 <= x < B.Length0 && 0 <= y < B.Length1 && !(i <= y < i + 8) ==> B[x, y] == old(B[x, y])
  {
    if j != i && j != i + 4 {
      MoveBlock(A, B, i, 8, j, 4, j, i);
    }
  }

  /** The second pass over 8 rows of A: every block but the one on the diagonal. */
  method OffDiagonal(A: array2<int>, B: array2<int>, i: nat, ghost n: nat, ghost w: nat)
    requires A != B && A.Length0 == B.Length1 == A.Length1 == B.Length0
    requires A.Length0 == 8 * w && i == 8 * n && i + 8 <= A.Length0 && DiagonalDone(A, B, n)
    modifies B
    ensures BlockDone(A, B, i, 8, 0, B.Length0)
    ensures forall x, y :: 0 <= x < B.Length0 && 0 <= y < B.Length1 && !(i <= y < i + 8) ==> B[x, y] == old(B[x, y])
  {
    var M := B.Length0;
    var j := 0;
    ghost var c := 0;
    assert BlockDone(A, B, i, 8, 0, 0);
    hide BlockDone, DiagonalDone;
    while j < M
      invariant 0 <= j <= M && j == 4 * c && DiagonalDone(A, B, n) && BlockDone(A, B, i, 8, 0, j)
      invariant forall x, y :: 0 <= x < B.Length0 && 0 <= y < B.Length1 && !(i <= y < i + 8) ==> B[x, y] == old(B[x, y])
    {
      NextMultiple(4, c, 2 * w);
      OffBlock(A, B, i, n, j, c);
      j := j + 4;
      c := c + 1;
    }
  }

  /** Diagonal blocks through scratch space inside B, then the rest: an exact transpose for every
      square matrix whose side is a multiple of 8 and at least 16. */
  method Block8x4Opt(A: array2<int>, B: array2<int>)
    requires A != B && A.Length0 == B.Length1 == A.Length1 == B.Length0
    requires A.Length0 % 8 == 0 && A.Length0 >= 16
    modifies B
    ensures IsTranspose(A, B)
  {
    Diagonals(A, B);
    var M, N := B.Length0, B.Length1;
    var i := 0;
    ghost var n := 0;
    while i < N
      invariant i == 8 * n && 0 <= i <= N
      invariant forall k {:trigger DiagonalDone(A, B, k)} :: 0 <= k && 8 * k + 8 <= N ==> DiagonalDone(A, B, k)
      invariant BlockDone(A, B, 0, i, 0, M)
    {
      label start:
      assert DiagonalDone(A, B, n);
      OffDiagonal(A, B, i, n, N / 8);
      forall k | 0 <= k && 8 * k + 8 <= N ensures DiagonalDone(A, B, k) {
        assert old@start(DiagonalDone(A, B, k)) && (k == n || k < n || k > n);
      }
      i := i + 8;
      n := n + 1;
    }
  }

  // ---------- opfor64 and opfor64_m (lines 116-161) ----------

  /** Two 8-row blocks of A go to each other's place in B and are then exchanged. */
  method CrossAndSwap(A: array2<int>, B: array2<int>, i: nat, k: nat, j: nat)
    requires A != B && A.Length0 == B.Length1 && A.Length1 == B.Length0
    requires (i == k || i + 8 <= k) && k + 8 <= A.Length0 && j + 4 <= A.Length1
    modifies B
    ensures BlockDone(A, B, i, 8, j, 4) && BlockDone(A, B, k, 8, j, 4)
    ensures forall x, y :: 0 <= x < B.Length0 && 0 <= y < B.Length1 && B[x, y] != old(B[x, y]) ==>
              j <= x < j + 4 && (i <= y < i + 8 || k <= y < k + 8)
  {
    MoveBlock(A, B, i, 8, j, 4, j, k);
    MoveBlock(A, B, k, 8, j, 4, j, i);
    SwapColumns(B, j, 4, i, k, 8);
  }

  /** The same for all columns of A, four at a time. */
  method CrossStrip(A: array2<int>, B: array2<int>, i: nat, k: nat, ghost v: nat)
    requires A != B && A.Length0 == B.Length1 && A.Length1 == B.Length0
    requires (i == k || i + 8 <= k) && k + 8 <= A.Length0 && A.Length1 == 4 * v
    modifies B
    ensures BlockDone(A, B, i, 8, 0, A.Length1) && BlockDone(A, B, k, 8, 0, A.Length1)
    ensures forall x, y :: 0 <= x < B.Length0 && 0 <= y < B.Length1 && B[x, y] != old(B[x, y]) ==>
              i <= y < i + 8 || k <= y < k + 8
  {
    var M := B.Length0;
    var j := 0;
    ghost var c := 0;
    while j < M
      invariant 0 <= j <= M && j == 4 * c
      invariant BlockDone(A, B, i, 8, 0, j) && BlockDone(A, B, k, 8, 0, j)
      invariant forall x, y :: 0 <= x < B.Length0 && 0 <= y < B.Length1 && B[x, y] != old(B[x, y]) ==>
                  i <= y < i + 8 || k <= y < k + 8
    {
      CrossAndSwap(A, B, i, k, j);
      j := j + 4;
      c := c + 1;
    }
  }

  /** opfor64: neighbouring blocks, for N a multiple of 16 and M a multiple of 4. */
  method OpFor64(A: array2<int>, B: array2<int>)
    requires A != B && A.Length0 == B.Length1 && A.Length1 == B.Length0
    requires A.Length0 % 16 == 0 && A.Length1 % 4 == 0
    modifies B
    ensures IsTranspose(A, B)
  {
    var M, N := B.Length0, B.Length1;
    var i := 0;
    ghost var n, w := 0, N / 16;
    assert N == 16 * w;
    while i < N
      invariant 0 <= i <= N && i == 16 * n
      invariant BlockDone(A, B, 0, i, 0, M)
    {
      CrossStrip(A, B, i, i + 8, M / 4);
      i := i + 16;
      n := n + 1;
    }
  }

  lemma JoinMirrored(A: array2<int>, B: array2<int>, i: nat)
    requires A.Length0 == B.Length1 && A.Length1 == B.Length0 && i <= A.Length0 - i - 8
    requires var N, M := A.Length0, A.Length1;
             && BlockDone(A, B, 0, i, 0, M) && BlockDone(A, B, N - i, i, 0, M)
             && BlockDone(A, B, i, 8, 0, M) && BlockDone(A, B, N - i - 8, 8, 0, M)
    ensures var N, M, j := A.Length0, A.Length1, i + 8;
            if j <= N - j then BlockDone(A, B, 0, j, 0, M) && BlockDone(A, B, N - j, j, 0, M)
            else BlockDone(A, B, 0, N, 0, M)
  {
  }

  /** The first and the last `i` rows of A are in place. */
  ghost predicate Mirrored(A: array2<int>, B: array2<int>, i: nat)
    requires A.Length0 == B.Length1 && A.Length1 == B.Length0
    reads A, B
  {
    var N, M := A.Length0, A.Length1;
    if 2 * i <= N then BlockDone(A, B, 0, i, 0, M) && BlockDone(A, B, N - i, i, 0, M) else BlockDone(A, B, 0, N, 0, M)
  }

  method CrossNext(A: array2<int>, B: array2<int>, i: nat, ghost v: nat)
    requires A != B && A.Length0 == B.Length1 && A.Length1 == B.Length0
    requires 2 * i + 8 <= A.Length0 && A.Length1 == 4 * v && (2 * i + 8 == A.Length0 || 2 * i + 16 <= A.Length0)
    requires Mirrored(A, B, i)
    modifies B
    ensures Mirrored(A, B, i + 8)
  {
    var N := B.Length1;
    CrossStrip(A, B, i, N - i - 8, v);
    assert BlockDone(A, B, 0, i, 0, A.Length1) && BlockDone(A, B, N - i, i, 0, A.Length1);
    JoinMirrored(A, B, i);
  }

  lemma HalfWay(n: nat, w: nat)
    requires 8 * n < 4 * w
    ensures 2 * (8 * n) + 8 == 8 * w || 2 * (8 * n) + 16 <= 8 * w
  {
    assert 2 * n < w;
  }

  /** The loop of opfor64_m over the upper half. */
  method CrossMirrored(A: array2<int>, B: array2<int>, hN: nat, ghost w: nat, ghost v: nat)
    requires A != B && A.Length0 == B.Length1 && A.Length1 == B.Length0
    requires A.Length0 == 8 * w && hN == 4 * w && A.Length1 == 4 * v
    modifies B
    ensures exists i: nat :: 2 * i >= A.Length0 && Mirrored(A, B, i)
  {
    var i := 0;
    ghost var n := 0;
    assert Mirrored(A, B, 0);
    hide Mirrored;
    while i < hN
      invariant 0 <= i && i == 8 * n && Mirrored(A, B, i)
    {
      HalfWay(n, w);
      CrossNext(A, B, i, v);
      i := i + 8;
      n := n + 1;
    }
  }

  /** opfor64_m: each block of the upper half with its mirror image in the lower half.  As the
      comment of the C code has it, any N that is a multiple of 8 will do: when the number of
      blocks is odd the middle one is its own mirror image. */
  method OpFor64Mirror(A: array2<int>, B: array2<int>)
    requires A != B && A.Length0 == B.Length1 && A.Length1 == B.Length0
    requires A.Length0 % 8 == 0 && A.Length1 % 4 == 0
    modifies B
    ensures IsTranspose(A, B)
  {
    var hN := B.Length1 / 2;
    CrossMirrored(A, B, hN, A.Length0 / 8, A.Length1 / 4);
  }

  // ---------- block8 and block8_for64 (lines 63-90) ----------

  function Min(a: int, b: int): int { if a < b then a else b }

  /** One row of a block through the buffer `row`. */
  method MoveRow(A: array2<int>, B: array2<int>, row: array<int>, i1: nat, j: nat, w: nat)
    requires A != B && A.Length0 == B.Length1 && A.Length1 == B.Length0
    requires i1 < A.Length0 && j < A.Length1 && row.Length == 8 && 1 <= w <= 8
    modifies B, row
    ensures forall x, y :: 0 <= x < B.Length0 && 0 <= y < B.Length1 ==>
              B[x, y] == if j <= x < j + w && y == i1 then A[y, x] else old(B[x, y])
  {
    var j1 := j;
    while j1 < j + w && j1 < A.Length1
      invariant j <= j1 <= Min(j + w, A.Length1)
      invariant forall c :: j <= c < j1 ==> row[c - j] == A[i1, c]
      invariant forall x, y :: 0 <= x < B.Length0 && 0 <= y < B.Length1 ==> B[x, y] == old(B[x, y])
    {
      row[j1 - j] := A[i1, j1];
      j1 := j1 + 1;
    }
    j1 := j;
    while j1 < j + w && j1 < A.Length1
      invariant j <= j1 <= Min(j + w, A.Length1)
      invariant forall c :: j <= c < Min(j + w, A.Length1) ==> row[c - j] == A[i1, c]
      invariant forall x, y :: 0 <= x < B.Length0 && 0 <= y < B.Length1 ==>
                  B[x, y] == if j <= x < j1 && y == i1 then A[y, x] else old(B[x, y])
    {
      B[j1, i1] := row[j1 - j];
      j1 := j1 + 1;
    }
  }

  /** block8 is `w == 8`, block8_for64 is `w == 4`: an exact transpose for all M and N. */
  method BlockRows(A: array2<int>, B: array2<int>, w: nat)
    requires A != B && A.Length0 == B.Length1 && A.Length1 == B.Length0
    requires w == 8 || w == 4
    modifies B
    ensures IsTranspose(A, B)
  {
    var M, N := B.Length0, B.Length1;
    var row := new int[8];
    var i := 0;
    while i < N
      invariant 0 <= i
      invariant BlockDone(A, B, 0, Min(i, N), 0, M)
    {
      var j := 0;
      while j < M
        invariant 0 <= j
        invariant BlockDone(A, B, 0, i, 0, M) && BlockDone(A, B, i, Min(8, N - i), 0, Min(j, M))
      {
        var i1 := i;
        while i1 < i + 8 && i1 < N
          invariant i <= i1 <= Min(i + 8, N)
          invariant BlockDone(A, B, 0, i, 0, M) && BlockDone(A, B, i, Min(8, N - i), 0, j)
          invariant BlockDone(A, B, i, i1 - i, j, Min(w, M - j))
        {
          MoveRow(A, B, row, i1, j, w);
          i1 := i1 + 1;
        }
        j := j + w;
      }
      i := i + 8;
    }
  }
}
