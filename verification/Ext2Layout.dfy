/** The block map of an ext2 inode, from its fifteen words: twelve blocks, then one, two and three
    levels of tables of block numbers. */
module Ext2Layout {
  import opened Facts
  import opened Ext2

  /** Word `j` of the table in block `b`; there is none in block 0. */
  function Word(get: Disk, bs: nat, b: nat, j: nat): nat
    requires Blocky(get, bs) && j < bs / 4
  {
    if b == 0 then 0 else Le32(get(b), 4 * j)
  }

  /** Byte `k` of a word is its `k`-th digit in base 256, the least significant first. */
  lemma Le32Digits(s: seq<Byte>, i: nat)
    requires i + 4 <= |s|
    ensures Le32(s, i) < 0x1_0000_0000
    ensures Le32(s, i) % 256 == s[i] && Le32(s, i) / 256 % 256 == s[i + 1]
    ensures Le32(s, i) / 65536 % 256 == s[i + 2] && Le32(s, i) / 16777216 == s[i + 3]
  {
    var a, b, c, d := s[i] as int, s[i + 1] as int, s[i + 2] as int, s[i + 3] as int;
    var w := Le32(s, i);
    Quotient(w, 256, b + 256 * c + 65536 * d, a);
    Quotient(w / 256, 256, c + 256 * d, b);
    Quotient(w, 65536, c + 256 * d, a + 256 * b);
    Quotient(w, 16777216, d, a + 256 * b + 65536 * c);
  }

  lemma PowIs(q: nat)
    ensures Pow(q, 0) == 1 && Pow(q, 1) == q && Pow(q, 2) == q * q && Pow(q, 3) == q * (q * q)
  {
    assert Pow(q, 3) == q * Pow(q, 2) && Pow(q, 2) == q * Pow(q, 1) && Pow(q, 1) == q * Pow(q, 0);
  }

  /** Below a table of data blocks, of tables, and of tables of tables. */
  lemma UnderOne(get: Disk, bs: nat, b: nat, j: nat)
    requires Blocky(get, bs) && j < bs / 4
    ensures j < Cap(bs, 1, |[b]|) && At(get, bs, 1, [b], j) == Word(get, bs, b, j)
  {
    var q := bs / 4;
    PowIs(q);
    Quotient(j, q, 0, j);
    if b != 0 {
      Quotient(j, 1, j, 0);
      assert Entries(get(b))[j] == Le32(get(b), 4 * j);
      assert At(get, bs, 1, [b], j) == At(get, bs, 0, Entries(get(b)), j);
    }
  }

  lemma Split(j: nat, q: nat, w: nat)
    requires q > 0 && w > 0 && j < q * w
    ensures j / w < q && j % w < w
  {
    IndexInRange(q, w, j);
  }

  /** One level of tables taken off. */
  lemma UnderTable(get: Disk, bs: nat, d: nat, b: nat, w: nat, j: nat)
    requires Blocky(get, bs) && d >= 1 && w == Pow(bs / 4, d) && j < (bs / 4) * w
    ensures j < Cap(bs, d + 1, |[b]|) && j / w < bs / 4 && j % w < Cap(bs, d, 1)
    ensures At(get, bs, d + 1, [b], j) == At(get, bs, d, [Word(get, bs, b, j / w)], j % w)
  {
    var q := bs / 4;
    assert Pow(q, d + 1) == q * w;
    Split(j, q, w);
    Quotient(j, q * w, 0, j);
    var c, r := j / w, j % w;
    Quotient(r, w, 0, r);
    if b != 0 {
      var es := Entries(get(b));
      assert es[c] == Le32(get(b), 4 * c) && |es| == q;
      IndexInRange(q, w, j);
      assert At(get, bs, d + 1, [b], j) == At(get, bs, d, es, j);
      assert [es[c]][0] == es[c];
    }
  }

  lemma UnderTwo(get: Disk, bs: nat, b: nat, j: nat)
    requires Blocky(get, bs) && j < (bs / 4) * (bs / 4)
    ensures var q := bs / 4;
      && j / q < q && j % q < q && j < Cap(bs, 2, |[b]|)
      && At(get, bs, 2, [b], j) == Word(get, bs, Word(get, bs, b, j / q), j % q)
  {
    var q := bs / 4;
    PowIs(q);
    Split(j, q, q);
    UnderTable(get, bs, 1, b, q, j);
    UnderOne(get, bs, Word(get, bs, b, j / q), j % q);
  }

  lemma UnderThree(get: Disk, bs: nat, b: nat, j: nat)
    requires Blocky(get, bs) && j < (bs / 4) * ((bs / 4) * (bs / 4))
    ensures var q := bs / 4;
      && q > 0 && j / (q * q) < q && j % (q * q) / q < q && j % (q * q) % q < q && j < Cap(bs, 3, |[b]|)
      && At(get, bs, 3, [b], j)
         == Word(get, bs, Word(get, bs, Word(get, bs, b, j / (q * q)), j % (q * q) / q), j % (q * q) % q)
  {
    var q := bs / 4;
    PowIs(q);
    Monotone(1, q, q);
    Split(j, q, q * q);
    UnderTable(get, bs, 2, b, q * q, j);
    UnderTwo(get, bs, Word(get, bs, b, j / (q * q)), j % (q * q));
  }

  /** Past the part of depth `d`, which names `c` blocks. */
  lemma Past(get: Disk, bs: nat, ib: seq<nat>, d: nat, d': nat, c: nat, j: nat)
    requires Blocky(get, bs) && |ib| == 15 && d < 4 && d' == d + 1 && c == (if d == 0 then 12 else Pow(bs / 4, d))
    ensures LogicalBlock(get, bs, ib, d, c + j) == LogicalBlock(get, bs, ib, d', j)
  {
    hide Pow, LogicalBlock;
    LogicalStep(get, bs, ib, d, d', c, c + j);
  }

  /** Within it. */
  lemma Within(get: Disk, bs: nat, ib: seq<nat>, d: nat, d': nat, w: nat, j: nat)
    requires Blocky(get, bs) && |ib| == 15 && 0 < d < 4 && d' == d + 1 && w == Pow(bs / 4, d) && j < w
    ensures j < Cap(bs, d, |[ib[11 + d]]|) && LogicalBlock(get, bs, ib, d, j) == At(get, bs, d, [ib[11 + d]], j)
  {
    hide Pow, LogicalBlock, At;
    LogicalStep(get, bs, ib, d, d', w, j);
  }

  /** The first 12 blocks of a file are named by the first 12 words of its inode. */
  lemma DirectBlocks(get: Disk, bs: nat, ib: seq<nat>, i: nat)
    requires Blocky(get, bs) && |ib| == 15 && i < 12
    ensures LogicalBlock(get, bs, ib, 0, i) == ib[i]
  {
    Quotient(i, 1, i, 0);
  }

  /** The next bs / 4 by the words of the table that word 12 names. */
  lemma SingleIndirect(get: Disk, bs: nat, ib: seq<nat>, j: nat)
    requires Blocky(get, bs) && |ib| == 15 && j < bs / 4
    ensures LogicalBlock(get, bs, ib, 0, 12 + j) == Word(get, bs, ib[12], j)
  {
    PowIs(bs / 4);
    hide LogicalBlock, At, Pow, Cap;
    Past(get, bs, ib, 0, 1, 12, j);
    Within(get, bs, ib, 1, 2, bs / 4, j);
    UnderOne(get, bs, ib[12], j);
  }

  /** The next (bs / 4) ^ 2 through two tables, from word 13 on. */
  lemma DoubleIndirect(get: Disk, bs: nat, ib: seq<nat>, j: nat)
    requires Blocky(get, bs) && |ib| == 15 && j < (bs / 4) * (bs / 4)
    ensures var q := bs / 4;
      && j / q < q && j % q < q
      && LogicalBlock(get, bs, ib, 0, 12 + q + j) == Word(get, bs, Word(get, bs, ib[13], j / q), j % q)
  {
    var q := bs / 4;
    PowIs(q);
    hide LogicalBlock, At, Pow, Cap;
    Past(get, bs, ib, 0, 1, 12, q + j);
    Past(get, bs, ib, 1, 2, q, j);
    Within(get, bs, ib, 2, 3, q * q, j);
    UnderTwo(get, bs, ib[13], j);
  }

  /** The next (bs / 4) ^ 3 through three tables, from word 14 on. */
  lemma TripleIndirect(get: Disk, bs: nat, ib: seq<nat>, j: nat)
    requires Blocky(get, bs) && |ib| == 15 && j < (bs / 4) * ((bs / 4) * (bs / 4))
    ensures var q := bs / 4;
      && q * q > 0 && j / (q * q) < q && j % (q * q) / q < q && j % (q * q) % q < q
      && LogicalBlock(get, bs, ib, 0, 12 + q + q * q + j)
         == Word(get, bs, Word(get, bs, Word(get, bs, ib[14], j / (q * q)), j % (q * q) / q), j % (q * q) % q)
  {
    var q := bs / 4;
    var w := q * q;
    PowIs(q);
    Monotone(1, q, q);
    hide LogicalBlock, At, Pow, Cap;
    PastTwo(get, bs, ib, q, w, j);
    Within(get, bs, ib, 3, 4, q * w, j);
    UnderThree(get, bs, ib[14], j);
  }

  lemma PastTwo(get: Disk, bs: nat, ib: seq<nat>, q: nat, w: nat, j: nat)
    requires Blocky(get, bs) && |ib| == 15 && q == Pow(bs / 4, 1) && w == Pow(bs / 4, 2)
    ensures LogicalBlock(get, bs, ib, 0, 12 + q + w + j) == LogicalBlock(get, bs, ib, 3, j)
  {
    hide LogicalBlock, Pow;
    Past(get, bs, ib, 0, 1, 12, q + w + j);
    Past(get, bs, ib, 1, 2, q, w + j);
    Past(get, bs, ib, 2, 3, w, j);
  }

  /** There are no blocks beyond. */
  lemma NoFurtherBlocks(get: Disk, bs: nat, ib: seq<nat>, j: nat)
    requires Blocky(get, bs) && |ib| == 15
    ensures var q := bs / 4; LogicalBlock(get, bs, ib, 0, 12 + q + q * q + (q * (q * q) + j)) == 0
  {
    var q := bs / 4;
    PowIs(q);
    assert LogicalBlock(get, bs, ib, 4, j) == 0;
    hide LogicalBlock, Pow;
    PastTwo(get, bs, ib, q, q * q, q * (q * q) + j);
    Past(get, bs, ib, 3, 4, q * (q * q), j);
  }

  // ---------------------------------------------------------------------------
  // The walk, with holes

  lemma Joined(a: seq<nat>, b: seq<nat>, c: seq<nat>, d: seq<nat>)
    ensures a + (b + (c + (d + []))) == a + b + c + d == a + (b + c + d)
  {
  }

  lemma FromStep(get: Disk, ib: seq<nat>, d: nat, d': nat)
    requires |ib| == 15 && d < 4 && d' == d + 1
    ensures From(get, ib, d) == Leaves(get, d, if d == 0 then ib[..12] else [ib[11 + d]]) + From(get, ib, d')
    ensures From(get, ib, 4) == []
  {
    hide Leaves;
  }

  /** The walk goes through the direct words, then the tables one, two and three levels deep. */
  lemma WalkParts(get: Disk, ib: seq<nat>)
    requires |ib| == 15
    ensures From(get, ib, 0) == Leaves(get, 0, ib[..12]) + Leaves(get, 1, [ib[12]]) + Leaves(get, 2, [ib[13]]) + Leaves(get, 3, [ib[14]])
  {
    hide *;
    FromStep(get, ib, 0, 1);
    FromStep(get, ib, 1, 2);
    FromStep(get, ib, 2, 3);
    FromStep(get, ib, 3, 4);
    Joined(Leaves(get, 0, ib[..12]), Leaves(get, 1, [ib[12]]), Leaves(get, 2, [ib[13]]), Leaves(get, 3, [ib[14]]));
  }

  /** In every list of block numbers it stops at the first zero, at place `k`: the data blocks
      before it are met in order, and nothing behind it. */
  lemma {:induction false} StopsAtZero(get: Disk, d: nat, es: seq<nat>, k: nat)
    requires k <= |es| && (forall i :: 0 <= i < k ==> es[i] != 0) && (k < |es| ==> es[k] == 0)
    ensures Leaves(get, d, es) == Leaves(get, d, es[..k])
    ensures d == 0 ==> Leaves(get, d, es) == es[..k]
    decreases k
  {
    if k > 0 {
      StopsAtZero(get, d, es[1..], k - 1);
      assert es[..k][1..] == es[1..][..k - 1];
      assert es[..k] == [es[0]] + es[1..][..k - 1];
    }
  }

  /** Below a list without zeros it meets what lies below each of its tables, one after the other. */
  lemma TablesInTurn(get: Disk, d: nat, es: seq<nat>)
    requires es != [] && es[0] != 0
    ensures Leaves(get, d + 1, es) == Leaves(get, d, Entries(get(es[0]))) + Leaves(get, d + 1, es[1..])
  {
  }

  /** So a file with a hole among its first 12 blocks is not read as it is: from the first hole
      on, what is delivered are the blocks found through the tables. */
  lemma HoleShifts(get: Disk, ib: seq<nat>, k: nat)
    requires |ib| == 15 && k < 12 && ib[k] == 0 && forall i :: 0 <= i < k ==> ib[i] != 0
    ensures From(get, ib, 0) == ib[..k] + (Leaves(get, 1, [ib[12]]) + Leaves(get, 2, [ib[13]]) + Leaves(get, 3, [ib[14]]))
  {
    hide *;
    WalkParts(get, ib);
    StopsAtZero(get, 0, ib[..12], k);
    assert ib[..12][..k] == ib[..k];
    Joined(ib[..k], Leaves(get, 1, [ib[12]]), Leaves(get, 2, [ib[13]]), Leaves(get, 3, [ib[14]]));
  }

  /** The walk never names block 0. */
  lemma {:induction false} LeavesNotZero(get: Disk, d: nat, es: seq<nat>)
    ensures forall i :: 0 <= i < |Leaves(get, d, es)| ==> Leaves(get, d, es)[i] != 0
    decreases d, |es|
  {
    if es != [] && es[0] != 0 {
      LeavesNotZero(get, d, es[1..]);
      if d > 0 {
        LeavesNotZero(get, d - 1, Entries(get(es[0])));
        TablesInTurn(get, d - 1, es);
      }
    }
  }

  lemma {:induction false} FromNotZero(get: Disk, ib: seq<nat>, d: nat)
    requires |ib| == 15 && d <= 4
    ensures forall i :: 0 <= i < |From(get, ib, d)| ==> From(get, ib, d)[i] != 0
    decreases 4 - d
  {
    if d < 4 {
      LeavesNotZero(get, d, if d == 0 then ib[..12] else [ib[11 + d]]);
      FromStep(get, ib, d, d + 1);
      FromNotZero(get, ib, d + 1);
      hide From, Leaves;
    }
  }

  /** The walk meets the first `n` blocks of the file, in their order. */
  ghost predicate WalkedRight(get: Disk, bs: nat, ib: seq<nat>, n: nat)
    requires Blocky(get, bs) && |ib| == 15
  {
    n <= |From(get, ib, 0)| && forall i: nat :: i < n ==> From(get, ib, 0)[i] == LogicalBlock(get, bs, ib, 0, i)
  }

  /** Hence the exact condition: it does if and only if none of them is a hole. */
  lemma WalkRightIff(get: Disk, bs: nat, ib: seq<nat>, n: nat)
    requires Blocky(get, bs) && |ib| == 15
    ensures WalkedRight(get, bs, ib, n) <==> HoleFree(get, bs, ib, 0, n)
  {
    hide From, LogicalBlock;
    if WalkedRight(get, bs, ib, n) {
      FromNotZero(get, ib, 0);
      forall i: nat | i < n ensures LogicalBlock(get, bs, ib, 0, i) != 0 {
        assert From(get, ib, 0)[i] == LogicalBlock(get, bs, ib, 0, i);
      }
    }
    if HoleFree(get, bs, ib, 0, n) {
      WalkInOrder(get, bs, ib, 0, n);
    }
  }
}
