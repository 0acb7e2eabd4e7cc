/** The in-memory active chain: a vector indexed by height that is kept in step with
    a tip, and the questions answered from it. */
module ActiveChain {
  import opened Blocks

  /** std::vector::resize with null as the default entry. */
  function Resized(s: seq<BlockIndex?>, n: nat): (r: seq<BlockIndex?>)
    ensures |r| == n && forall i :: 0 <= i < n ==> r[i] == if i < |s| then s[i] else null
  {
    if n <= |s| then s[..n] else s + seq(n - |s|, _ => null)
  }

  class Chain {
    var vChain: seq<BlockIndex?>
    var tip: BlockIndex?

    /** Entry h is the tip's ancestor at height h, for every height up to the tip. */
    ghost predicate Valid()
      reads this
    {
      if tip == null then vChain == []
      else
        && Linked(tip) && |vChain| == tip.height + 1
        && forall h :: 0 <= h < |vChain| ==> vChain[h] == Ancestor(tip, h)
    }

    constructor ()
      ensures Valid() && tip == null
    {
      vChain, tip := [], null;
    }

    /** Moves the tip. The loop stops early at the first entry that is already
        right; everything below it is right as well. */
    method SetTip(pindex: BlockIndex?)
      requires Valid() && (pindex != null ==> Linked(pindex))
      modifies this
      ensures Valid() && tip == pindex
    {
      if pindex == null {
        vChain, tip := [], null;
        return;
      }
      ghost var resized := Resized(vChain, pindex.height + 1);
      vChain := Resized(vChain, pindex.height + 1);
      tip := pindex;
      var p := pindex;
      while p != null && vChain[p.height] != p
        invariant |vChain| == pindex.height + 1 && tip == pindex
        invariant p != null ==> Linked(p) && p.height <= pindex.height && p == Ancestor(pindex, p.height)
        invariant forall h :: (if p == null then 0 else p.height + 1) <= h <= pindex.height
                    ==> vChain[h] == Ancestor(pindex, h)
        invariant p != null ==> forall h :: 0 <= h <= p.height ==> vChain[h] == resized[h]
        decreases if p == null then 0 else p.height + 1
      {
        if p.pprev != null {
          AncestorOfAncestor(pindex, p.height, p.height - 1);
          assert Ancestor(p, p.height - 1) == Ancestor(p.pprev, p.height - 1);
        }
        vChain := vChain[p.height := p];
        p := p.pprev;
      }
      if p != null {
        forall h | 0 <= h <= p.height
          ensures vChain[h] == Ancestor(pindex, h)
        {
          AncestorOfAncestor(old(tip), p.height, h);
          AncestorOfAncestor(pindex, p.height, h);
        }
      }
    }

    /** The entry at a height, or null outside the chain. */
    function Idx(nHeight: int): (r: BlockIndex?)
      reads this
      ensures Valid() ==> (r != null <==> tip != null && 0 <= nHeight <= tip.height)
      ensures Valid() && r != null ==> r == Ancestor(tip, nHeight)
    {
      if nHeight < 0 || nHeight >= |vChain| then null else vChain[nHeight]
    }

    predicate Contains(b: BlockIndex)
      reads this
    {
      Idx(b.height) == b
    }

    function Next(b: BlockIndex): BlockIndex?
      reads this
    {
      if Contains(b) then Idx(b.height + 1) else null
    }

    function Height(): int
      reads this
    {
      if tip == null then -1 else tip.height
    }

    /** A block is on the chain exactly when the tip descends from it. */
    lemma ContainsIsLineage(b: BlockIndex)
      requires Valid()
      ensures Contains(b) <==> tip != null && b in Lineage(tip)
    {
      if tip != null {
        LineageIsAncestors(tip, b);
      }
    }

    /** The successor on the chain is the chain's child of the block. */
    lemma NextIsChild(b: BlockIndex)
      requires Valid()
      ensures Next(b) != null <==> Contains(b) && b.height < Height()
      ensures Next(b) != null ==> Contains(Next(b)) && Next(b).pprev == b
    {
      if Contains(b) && b.height < Height() {
        AncestorOfAncestor(tip, b.height + 1, b.height);
      }
    }

    /** The highest ancestor of pindex that is on the chain, or null if none is. */
    method FindFork(pindex: BlockIndex?) returns (r: BlockIndex?)
      requires Valid() && (pindex != null ==> Linked(pindex) && SkipsBuilt(pindex))
      ensures pindex == null ==> r == null
      ensures r != null ==> r.height <= pindex.height && r == Ancestor(pindex, r.height) && Contains(r)
      ensures pindex != null ==>
                forall h :: (if r == null then 0 else r.height + 1) <= h <= pindex.height
                  ==> !Contains(Ancestor(pindex, h))
    {
      if pindex == null {
        return null;
      }
      r := pindex;
      if pindex.height > Height() {
        ghost var steps;
        r, steps := pindex.GetAncestor(Height());
      }
      while r != null && !Contains(r)
        invariant r != null ==> Linked(r) && r.height <= pindex.height && r == Ancestor(pindex, r.height)
        invariant forall h :: (if r == null then 0 else r.height + 1) <= h <= pindex.height
                    ==> !Contains(Ancestor(pindex, h))
        decreases if r == null then 0 else r.height + 1
      {
        if r.pprev != null {
          AncestorOfAncestor(pindex, r.height, r.height - 1);
          assert Ancestor(r, r.height - 1) == Ancestor(r.pprev, r.height - 1);
        }
        r := r.pprev;
      }
    }
  }

  /** The highest block two blocks both descend from; null exactly when they belong
      to different trees. Both pointers of the source reach it together. */
  method LastCommonAncestor(a: BlockIndex, b: BlockIndex) returns (r: BlockIndex?)
    requires Linked(a) && Linked(b) && SkipsBuilt(a) && SkipsBuilt(b)
    ensures r != null <==> Ancestor(a, 0) == Ancestor(b, 0)
    ensures r != null ==>
              && r.height <= a.height && r == Ancestor(a, r.height)
              && r.height <= b.height && r == Ancestor(b, r.height)
    ensures forall h :: (if r == null then 0 else r.height + 1) <= h <= a.height && h <= b.height
              ==> Ancestor(a, h) != Ancestor(b, h)
  {
    var pa: BlockIndex?, pb: BlockIndex? := a, b;
    ghost var steps;
    if a.height > b.height {
      pa, steps := a.GetAncestor(b.height);
    } else if b.height > a.height {
      pb, steps := b.GetAncestor(a.height);
    }
    while pa != pb && pa != null && pb != null
      invariant (pa == null) == (pb == null)
      invariant pa != null ==>
                  && pa.height == pb.height
                  && pa.height <= a.height && pa == Ancestor(a, pa.height)
                  && pb.height <= b.height && pb == Ancestor(b, pb.height)
      invariant forall h :: (if pa == null then 0 else pa.height + 1) <= h <= a.height && h <= b.height
                  ==> Ancestor(a, h) != Ancestor(b, h)
      decreases if pa == null then 0 else pa.height + 1
    {
      if pa.height > 0 {
        AncestorOfAncestor(a, pa.height, pa.height - 1);
        AncestorOfAncestor(b, pb.height, pb.height - 1);
        assert Ancestor(pa, pa.height - 1) == Ancestor(pa.pprev, pa.height - 1);
        assert Ancestor(pb, pb.height - 1) == Ancestor(pb.pprev, pb.height - 1);
      }
      pa, pb := pa.pprev, pb.pprev;
    }
    assert pa == pb;
    r := pa;
    if r != null {
      AncestorOfAncestor(a, r.height, 0);
      AncestorOfAncestor(b, r.height, 0);
    }
  }

  /** Two blocks are on the same fork when one descends from the other. */
  method AreOnTheSameFork(a: BlockIndex, b: BlockIndex) returns (same: bool)
    requires Linked(a) && Linked(b) && SkipsBuilt(a) && SkipsBuilt(b)
    ensures same <==> a in Lineage(b) || b in Lineage(a)
  {
    var common := LastCommonAncestor(a, b);
    LineageIsAncestors(a, b);
    LineageIsAncestors(b, a);
    same := common == a || common == b;
    if a in Lineage(b) {
      assert Ancestor(a, a.height) == Ancestor(b, a.height);
    }
    if b in Lineage(a) {
      assert Ancestor(a, b.height) == Ancestor(b, b.height);
    }
  }
}
