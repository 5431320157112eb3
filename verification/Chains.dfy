/**
 Block chains threaded through the allocation table `fat[]`.

 A file, or the list of free blocks, is a head block and the blocks met by following the table
 from it until the end mark -1. Chains of this kind cannot loop and are determined by their head.
 */
module Chains {

  /** The k-th block of a chain, or the end mark past its last block. */
  function At(c: seq<int>, k: nat): int {
    if k < |c| then c[k] else -1
  }

  /** Following `t` from `head` meets exactly the blocks `c`, in order, and then the end mark. */
  ghost predicate IsChain(t: seq<int>, head: int, c: seq<int>) {
    && head == At(c, 0)
    && forall k :: 0 <= k < |c| ==> 0 <= c[k] < |t| && t[c[k]] == At(c, k + 1)
  }

  ghost predicate Distinct(c: seq<int>) {
    forall i, j :: 0 <= i < j < |c| ==> c[i] != c[j]
  }

  /** The free list and all the file chains share no block. */
  ghost predicate Separate(free: seq<int>, chains: seq<seq<int>>) {
    && (forall i, b :: 0 <= i < |chains| && b in chains[i] ==> b !in free)
    && (forall i, j, b :: 0 <= i < |chains| && 0 <= j < |chains| && i != j && b in chains[i] ==> b !in chains[j])
  }

  /** A terminated chain never meets the same block twice. */
  lemma {:induction false} ChainsAreAcyclic(t: seq<int>, head: int, c: seq<int>)
    requires IsChain(t, head, c)
    ensures Distinct(c)
  {
    forall i, j | 0 <= i < j < |c| ensures c[i] != c[j] {
      if c[i] == c[j] {
        RepeatReachesTheEnd(t, head, c, i, j, |c| - 1 - j);
        assert false;
      }
    }
  }

  /** A repeated block would repeat everything after it. */
  lemma {:induction false} RepeatReachesTheEnd(t: seq<int>, head: int, c: seq<int>, i: nat, j: nat, d: nat)
    requires IsChain(t, head, c) && i < j && j + d < |c| && c[i] == c[j]
    ensures c[i + d] == c[j + d]
  {
    if d > 0 {
      RepeatReachesTheEnd(t, head, c, i, j, d - 1);
      assert t[c[i + d - 1]] == c[i + d] && t[c[j + d - 1]] == c[j + d];
    }
  }

  /** The table and the head determine the chain: the view of a volume is a function of its table. */
  lemma {:induction false} ChainIsUnique(t: seq<int>, head: int, c: seq<int>, d: seq<int>)
    requires IsChain(t, head, c) && IsChain(t, head, d)
    ensures c == d
    decreases |c|
  {
    if c != [] && d != [] {
      assert IsChain(t, t[head], c[1..]) by { ChainTail(t, head, c); }
      assert IsChain(t, t[head], d[1..]) by { ChainTail(t, head, d); }
      ChainIsUnique(t, t[head], c[1..], d[1..]);
      assert c == [head] + c[1..] && d == [head] + d[1..];
    }
  }

  lemma ChainTail(t: seq<int>, head: int, c: seq<int>)
    requires IsChain(t, head, c) && c != []
    ensures IsChain(t, t[head], c[1..])
  {
    forall k | 0 <= k < |c[1..]| ensures t[c[1..][k]] == At(c[1..], k + 1) {
      assert c[1..][k] == c[k + 1];
    }
  }

  /** Chains that avoid the changed entries survive a change of the table. */
  lemma ChainFrame(t: seq<int>, t': seq<int>, head: int, c: seq<int>)
    requires IsChain(t, head, c) && |t'| == |t|
    requires forall b :: b in c ==> 0 <= b < |t| && t'[b] == t[b]
    ensures IsChain(t', head, c)
  {
    forall k | 0 <= k < |c| ensures t'[c[k]] == At(c, k + 1) {
      assert c[k] in c;
    }
  }

  /** Writing the end mark at block n - 1 of a chain splits it in two chains. */
  lemma ChainCut(t: seq<int>, head: int, c: seq<int>, n: nat)
    requires IsChain(t, head, c) && 1 <= n <= |c|
    ensures IsChain(t[c[n - 1] := -1], head, c[..n])
    ensures IsChain(t[c[n - 1] := -1], At(c, n), c[n..])
    ensures forall b :: b in c[..n] ==> b !in c[n..]
  {
    ChainsAreAcyclic(t, head, c);
    var t' := t[c[n - 1] := -1];
    forall k | 0 <= k < |c[n..]| ensures t'[c[n..][k]] == At(c[n..], k + 1) {
      assert c[n..][k] == c[n + k];
    }
  }

  /** Writing the head of a second, disjoint chain in the last block of a chain joins them. */
  lemma ChainJoin(t: seq<int>, head: int, c: seq<int>, head2: int, d: seq<int>)
    requires IsChain(t, head, c) && IsChain(t, head2, d) && c != []
    requires forall b :: b in c ==> b !in d
    ensures IsChain(t[c[|c| - 1] := head2], head, c + d)
  {
    ChainsAreAcyclic(t, head, c);
    var t' := t[c[|c| - 1] := head2];
    forall k | 0 <= k < |c + d| ensures 0 <= (c + d)[k] < |t| && t'[(c + d)[k]] == At(c + d, k + 1) {
      if k < |c| {
        assert (c + d)[k] == c[k];
      } else {
        assert (c + d)[k] == d[k - |c|] && c[|c| - 1] in c && d[k - |c|] in d;
      }
    }
  }

  /** Cutting n blocks off the free list and freeing them again rotates the list by n. */
  lemma AllocThenFreeRotates(t: seq<int>, ffb: int, free: seq<int>, n: nat)
    requires IsChain(t, ffb, free) && 1 <= n <= |free|
    ensures var t1 := t[free[n - 1] := -1];
            if n < |free| then IsChain(t1[free[|free| - 1] := ffb], free[n], free[n..] + free[..n])
            else t1 == t && IsChain(t1, ffb, free[n..] + free[..n])
  {
    ChainCut(t, ffb, free, n);
    var t1 := t[free[n - 1] := -1];
    if n < |free| {
      assert forall b :: b in free[n..] ==> b !in free[..n];
      ChainJoin(t1, free[n], free[n..], ffb, free[..n]);
      assert free[n..][|free| - n - 1] == free[|free| - 1];
    } else {
      assert free[n..] + free[..n] == free;
    }
  }
}

/** zeos/filesystem.c: the table, its free list and the three routines that rewrite it. */
module FatTable {
  import opened Chains

  class Fat {
    const table: array<int>
    var ffb: int
    ghost var free: seq<int>
    ghost var chains: seq<seq<int>>

    /** The table threads the free list and, disjoint from it and from each other, the file chains. */
    ghost predicate Valid()
      reads this, table
    {
      && IsChain(table[..], ffb, free)
      && (forall i :: 0 <= i < |chains| ==> IsChain(table[..], At(chains[i], 0), chains[i]))
      && Separate(free, chains)
    }

    /** initZeosFat: every block is free, in ascending order. */
    constructor (blocks: nat, ghost files: nat)
      requires blocks > 0
      ensures Valid() && fresh(table) && table.Length == blocks
      ensures |free| == blocks && forall b :: 0 <= b < blocks ==> free[b] == b
      ensures |chains| == files && forall i :: 0 <= i < files ==> chains[i] == []
    {
      table := new int[blocks];
      ffb := 0;
      free := seq(blocks, b => b);
      chains := seq(files, _ => []);
      new;
      for i := 0 to blocks - 1
        invariant forall k :: 0 <= k < i ==> table[k] == k + 1
        modifies table
      {
        table[i] := i + 1;
      }
      table[blocks - 1] := -1;
    }

    /** balloc: cut `nblocks` blocks off the front of the free list, or fail and change nothing. */
    method Balloc(nblocks: int) returns (first: int)
      requires Valid()
      modifies this`ffb, this`free, table
      ensures Valid()
      ensures first == -1 <==> !(1 <= nblocks <= |old(free)|)
      ensures first == -1 ==> table[..] == old(table[..]) && ffb == old(ffb) && free == old(free)
      ensures first != -1 ==>
                && free == old(free)[nblocks..]
                && IsChain(table[..], first, old(free)[..nblocks])
                && (forall b :: b in old(free)[..nblocks] ==> b !in free)
                && (forall i, b :: 0 <= i < |chains| && b in chains[i] ==> b !in old(free)[..nblocks])
                && table[..] == old(table[..])[old(free)[nblocks - 1] := -1]
    {
      if 1 <= nblocks <= |free| {
        CutKeepsChains(table[..], ffb, free, chains, nblocks);
      }
      first := WalkAndCut(nblocks);
      if first != -1 {
        free := free[nblocks..];
      }
    }

    /** The body of balloc: walk `nblocks` blocks down the free list, with roll-back at its end. */
    method WalkAndCut(nblocks: int) returns (first: int)
      requires IsChain(table[..], ffb, free)
      modifies this`ffb, table
      ensures first == -1 <==> !(1 <= nblocks <= |free|)
      ensures first == -1 ==> table[..] == old(table[..]) && ffb == old(ffb)
      ensures first != -1 ==> first == free[0] && ffb == At(free, nblocks)
      ensures first != -1 ==> table[..] == old(table[..])[free[nblocks - 1] := -1]
    {
      if ffb == -1 || nblocks < 1 { return -1; }
      if table[ffb] == -1 {
        assert |free| == 1;
        if nblocks == 1 {
          var prev := ffb;
          ffb := -1;
          return prev;
        }
        return -1;
      }
      var prev := ffb;
      first := ffb;
      ffb := table[ffb];
      var tot := 1;
      while tot != nblocks && table[ffb] != -1
        invariant 1 <= tot <= nblocks && tot < |free|
        invariant prev == free[tot - 1] && ffb == free[tot]
        modifies this`ffb
        decreases |free| - tot
      {
        prev := ffb;
        ffb := table[ffb];
        tot := tot + 1;
      }
      if table[ffb] == -1 {
        if nblocks - tot == 1 {
          prev := ffb;
          ffb := -1;
        } else if nblocks - tot > 1 {
          ffb := first;
          return -1;
        }
      }
      table[prev] := -1;
    }

    /** A chain that was cut off the free list becomes the chain of a file. */
    ghost method Adopt(file: nat, c: seq<int>)
      requires Valid() && file < |chains| && chains[file] == []
      requires IsChain(table[..], At(c, 0), c) && (forall b :: b in c ==> b !in free)
      requires forall i, b :: 0 <= i < |chains| && b in chains[i] ==> b !in c
      modifies this`chains
      ensures Valid() && chains == old(chains)[file := c]
    {
      chains := chains[file := c];
    }

    /** freeb: splice the whole chain that starts at `index` onto the end of the free list. */
    method Freeb(index: int, ghost file: nat) returns (r: int)
      requires Valid() && file < |chains|
      requires 0 <= index < table.Length ==> chains[file] != [] && index == chains[file][0]
      modifies this, table
      ensures Valid()
      ensures r == if 0 <= index < table.Length then 0 else -1
      ensures r == -1 ==> table[..] == old(table[..]) && ffb == old(ffb) && free == old(free) && chains == old(chains)
      ensures r == 0 ==> free == old(free) + old(chains)[file] && chains == old(chains)[file := []]
    {
      assert 0 <= index < table.Length ==> index in chains[file];
      assert free != [] ==> free[0] in free;
      if index >= table.Length || index < 0 || index == ffb {
        return -1;
      }
      if ffb == -1 {
        ffb := index;
        free, chains := free + chains[file], chains[file := []];
        return 0;
      }
      var i := ffb;
      ghost var k := 0;
      while table[i] != -1
        invariant 0 <= k < |free| && i == free[k]
        decreases |free| - k
      {
        i := table[i];
        k := k + 1;
      }
      JoinKeepsChains(table[..], ffb, free, chains, file);
      table[i] := index;
      assert table[..] == old(table[..])[i := index];
      free, chains := free + chains[file], chains[file := []];
      return 0;
    }

    /** add_block: `block`, which is in no chain, becomes the last block of the file's chain. */
    method AddBlock(last: int, block: int, ghost file: nat)
      requires Valid() && file < |chains| && chains[file] != []
      requires last == chains[file][|chains[file]| - 1]
      requires 0 <= block < table.Length && block !in free
      requires forall j :: 0 <= j < |chains| ==> block !in chains[j]
      modifies this`chains, table
      ensures Valid()
      ensures chains == old(chains)[file := old(chains)[file] + [block]]
    {
      ExtendKeepsChains(table[..], ffb, free, chains, file, block);
      table[last] := block;
      table[block] := -1;
      assert table[..] == old(table[..])[last := block][block := -1];
      chains := chains[file := chains[file] + [block]];
    }
  }

  lemma CutKeepsChains(t: seq<int>, ffb: int, free: seq<int>, chains: seq<seq<int>>, n: nat)
    requires IsChain(t, ffb, free) && 1 <= n <= |free| && Separate(free, chains)
    requires forall i :: 0 <= i < |chains| ==> IsChain(t, At(chains[i], 0), chains[i])
    ensures var t' := t[free[n - 1] := -1];
            && IsChain(t', ffb, free[..n]) && IsChain(t', At(free, n), free[n..])
            && (forall i :: 0 <= i < |chains| ==> IsChain(t', At(chains[i], 0), chains[i]))
    ensures forall b :: b in free[..n] ==> b !in free[n..]
    ensures forall i, b :: 0 <= i < |chains| && b in chains[i] ==> b !in free[..n]
    ensures Separate(free[n..], chains)
  {
    assert forall b :: b in free[n..] || b in free[..n] ==> b in free;
    ChainCut(t, ffb, free, n);
    var t' := t[free[n - 1] := -1];
    forall i | 0 <= i < |chains| ensures IsChain(t', At(chains[i], 0), chains[i]) {
      assert free[n - 1] in free;
      ChainFrame(t, t', At(chains[i], 0), chains[i]);
    }
  }

  lemma JoinKeepsChains(t: seq<int>, ffb: int, free: seq<int>, chains: seq<seq<int>>, file: nat)
    requires IsChain(t, ffb, free) && free != [] && Separate(free, chains)
    requires forall i :: 0 <= i < |chains| ==> IsChain(t, At(chains[i], 0), chains[i])
    requires file < |chains| && chains[file] != []
    ensures var t' := t[free[|free| - 1] := chains[file][0]];
            var chains' := chains[file := []];
            && IsChain(t', ffb, free + chains[file])
            && (forall i :: 0 <= i < |chains'| ==> IsChain(t', At(chains'[i], 0), chains'[i]))
            && Separate(free + chains[file], chains')
  {
    var t' := t[free[|free| - 1] := chains[file][0]];
    ChainJoin(t, ffb, free, chains[file][0], chains[file]);
    forall i | 0 <= i < |chains| && i != file ensures IsChain(t', At(chains[i], 0), chains[i]) {
      assert free[|free| - 1] in free;
      ChainFrame(t, t', At(chains[i], 0), chains[i]);
    }
  }

  lemma ExtendKeepsChains(t: seq<int>, ffb: int, free: seq<int>, chains: seq<seq<int>>, file: nat, block: int)
    requires IsChain(t, ffb, free) && Separate(free, chains)
    requires forall i :: 0 <= i < |chains| ==> IsChain(t, At(chains[i], 0), chains[i])
    requires file < |chains| && |chains[file]| > 0
    requires 0 <= block < |t| && block !in free
    requires forall i :: 0 <= i < |chains| ==> block !in chains[i]
    ensures IsChain(t, At(chains[file], 0), chains[file])
    ensures var t' := t[chains[file][|chains[file]| - 1] := block][block := -1];
            var chains' := chains[file := chains[file] + [block]];
            && IsChain(t', ffb, free)
            && (forall i :: 0 <= i < |chains'| ==> IsChain(t', At(chains'[i], 0), chains'[i]))
            && Separate(free, chains')
  {
    var c := chains[file];
    var last := c[|c| - 1];
    assert last in c;
    var t0 := t[block := -1];
    var t' := t[last := block][block := -1];
    assert t' == t0[last := block];
    ChainFrame(t, t', ffb, free);
    ChainFrame(t, t0, c[0], c);
    assert IsChain(t0, block, [block]);
    ChainJoin(t0, c[0], c, block, [block]);
    forall i | 0 <= i < |chains| && i != file ensures IsChain(t', At(chains[i], 0), chains[i]) {
      ChainFrame(t, t', At(chains[i], 0), chains[i]);
    }
  }
}
