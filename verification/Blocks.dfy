/** The block index: a tree of blocks linked by parent pointers, with skip pointers
    for fast ancestor lookup, and the anchor lookup of the difficulty code. */
module Blocks {
  import opened Bits

  /** Clears the lowest set bit. */
  function InvertLowestOne(n: nat): (r: nat)
    ensures r < n || r == n == 0
  {
    if n == 0 then 0 else AndAtMost(n, n - 1); BitAnd(n, n - 1)
  }

  /** The height a block's skip pointer jumps back to. */
  function GetSkipHeight(height: nat): (h: nat)
    ensures height > 0 ==> h < height
  {
    if height < 2 then 0
    else if height % 2 == 1 then InvertLowestOne(InvertLowestOne(height - 1)) + 1
    else InvertLowestOne(height)
  }

  /** The largest power of two that divides a number. */
  ghost function LowestPower(n: nat): (r: nat)
    requires n > 0
    ensures 0 < r <= n
  {
    if n % 2 == 1 then 1 else 2 * LowestPower(n / 2)
  }

  lemma {:induction false} AndSelf(n: nat)
    ensures BitAnd(n, n) == n
  {
    if n > 0 {
      AndSelf(n / 2);
    }
  }

  /** Clearing the lowest set bit takes away the largest power of two that divides a number. */
  lemma {:induction false} InvertIs(n: nat)
    requires n > 0
    ensures InvertLowestOne(n) == n - LowestPower(n)
  {
    if n % 2 == 1 {
      AndSelf(n / 2);
      assert (n - 1) / 2 == n / 2;
    } else {
      InvertIs(n / 2);
      assert (n - 1) / 2 == n / 2 - 1;
    }
  }

  /** Where skip pointers lead: from an even height by the largest power of two that divides
      it, from an odd one by the two such powers of the height below it. */
  lemma SkipIs(height: nat)
    requires height >= 2
    ensures height % 2 == 0 ==> GetSkipHeight(height) == height - LowestPower(height)
    ensures height % 2 == 1 ==>
              var once := height - 1 - LowestPower(height - 1);
              GetSkipHeight(height) == 1 + if once == 0 then 0 else once - LowestPower(once)
  {
    hide BitAnd;
    if height % 2 == 0 {
      InvertIs(height);
    } else {
      var once := height - 1 - LowestPower(height - 1);
      InvertIs(height - 1);
      if once > 0 {
        InvertIs(once);
      }
    }
  }

  /** The next height on the way from a height to a lower one, where skip pointers are set. */
  ghost function SkipNext(h: nat, t: nat): (r: nat)
    requires t < h
    ensures t <= r < h
  {
    var skip, skipPrev := GetSkipHeight(h), GetSkipHeight(h - 1);
    if skip == t || (skip > t && !(skipPrev < skip - 2 && skipPrev >= t)) then skip else h - 1
  }

  /** How many steps the way takes. */
  ghost function SkipSteps(h: nat, t: nat): nat
    requires t <= h
    decreases h
  {
    if h == t then 0 else 1 + SkipSteps(SkipNext(h, t), t)
  }

  lemma OneSkip(h: nat, t: nat)
    requires t <= h
    ensures SkipSteps(h, t) == if t < h then 1 + SkipSteps(SkipNext(h, t), t) else 0
  {
  }

  class BlockIndex {
    const pprev: BlockIndex?
    const height: nat
    const time: nat
    const nBits: nat
    var pskip: BlockIndex?

    constructor (pprev: BlockIndex?, height: nat, time: nat, nBits: nat)
      ensures this.pprev == pprev && this.height == height && this.time == time && this.nBits == nBits
      ensures pskip == null
    {
      this.pprev, this.height, this.time, this.nBits, pskip := pprev, height, time, nBits, null;
    }

    /** Sets the skip pointer of a block whose ancestors have theirs. */
    method BuildSkip()
      requires Linked(this) && (pprev != null ==> SkipsBuilt(pprev))
      modifies this`pskip
      ensures pprev == null ==> pskip == old(pskip)
      ensures pprev != null ==> pskip == Ancestor(this, GetSkipHeight(height))
      ensures pprev != null || pskip == null ==> SkipsBuilt(this)
      ensures (pprev != null ==> old(AllSkip(pprev))) ==> AllSkip(this)
    {
      if pprev != null {
        ghost var steps;
        pskip, steps := pprev.GetAncestor(GetSkipHeight(height));
        assert this !in Lineage(pprev) && old(allocated(Lineage(pprev)));
      }
    }

    /** The ancestor at a height, following skip pointers where that overshoots
        nothing; the same block a walk along parent pointers reaches. */
    method GetAncestor(ansHeight: int) returns (r: BlockIndex?, ghost steps: nat)
      requires Linked(this) && SkipsBuilt(this)
      ensures ansHeight < 0 || ansHeight > height ==> r == null
      ensures 0 <= ansHeight <= height ==> r == Ancestor(this, ansHeight)
      ensures 0 <= ansHeight <= height && AllSkip(this) ==> steps == SkipSteps(height, ansHeight)
    {
      hide GetSkipHeight, AllSkip, SkipSteps;
      steps := 0;
      if ansHeight > height || ansHeight < 0 {
        return null, 0;
      }
      var pindexWalk: BlockIndex := this;
      var heightWalk := height;
      while heightWalk > ansHeight
        invariant ansHeight <= heightWalk <= height
        invariant pindexWalk == Ancestor(this, heightWalk)
        invariant AllSkip(this) ==> steps + SkipSteps(heightWalk, ansHeight) == SkipSteps(height, ansHeight)
        decreases heightWalk
      {
        SkipsAbove(this, heightWalk);
        OneSkip(heightWalk, ansHeight);
        steps := steps + 1;
        assert old(allocated(Lineage(this)));
        SkipsBelow(this, heightWalk);
        var heightSkip := GetSkipHeight(heightWalk);
        var heightSkipPrev := GetSkipHeight(heightWalk - 1);
        if pindexWalk.pskip != null
           && (heightSkip == ansHeight
               || (heightSkip > ansHeight && !(heightSkipPrev < heightSkip - 2 && heightSkipPrev >= ansHeight)))
        {
          AncestorOfAncestor(this, heightWalk, heightSkip);
          pindexWalk := pindexWalk.pskip;
          heightWalk := heightSkip;
        } else {
          AncestorOfAncestor(this, heightWalk, heightWalk - 1);
          assert Ancestor(pindexWalk, heightWalk - 1) == Ancestor(pindexWalk.pprev, heightWalk - 1);
          pindexWalk := pindexWalk.pprev;
          heightWalk := heightWalk - 1;
        }
      }
      OneSkip(heightWalk, ansHeight);
      r := pindexWalk;
    }
  }

  /** Heights count the parents back to a genesis block. */
  ghost predicate Linked(b: BlockIndex)
    decreases b.height
  {
    if b.pprev == null then b.height == 0 else b.height == b.pprev.height + 1 && Linked(b.pprev)
  }

  /** The reference definition of ancestry: walking parent pointers. */
  ghost function Ancestor(b: BlockIndex, h: nat): (a: BlockIndex)
    requires Linked(b) && h <= b.height
    ensures a.height == h && Linked(a)
    decreases b.height
  {
    if b.height == h then b else Ancestor(b.pprev, h)
  }

  /** Every block from b down but the genesis has its skip pointer. */
  ghost predicate AllSkip(b: BlockIndex)
    requires Linked(b)
    reads Lineage(b)
    decreases b.height
  {
    b.pprev != null ==> b.pskip != null && AllSkip(b.pprev)
  }

  lemma {:induction false} SkipsAbove(b: BlockIndex, h: nat)
    requires Linked(b) && 0 < h <= b.height
    ensures AllSkip(b) ==> Ancestor(b, h).pskip != null
    decreases b.height
  {
    if h < b.height {
      SkipsAbove(b.pprev, h);
    }
  }

  /** b and every block it descends from. */
  ghost function Lineage(b: BlockIndex): (s: set<BlockIndex>)
    requires Linked(b)
    ensures forall a :: a in s ==> Linked(a) && a.height <= b.height
    decreases b.height
  {
    if b.pprev == null then {b} else {b} + Lineage(b.pprev)
  }

  /** Every skip pointer from b down that is set points where BuildSkip points it. */
  ghost predicate SkipsBuilt(b: BlockIndex)
    requires Linked(b)
    reads Lineage(b)
    decreases b.height
  {
    && (b.pskip != null ==> b.pprev != null && b.pskip == Ancestor(b, GetSkipHeight(b.height)))
    && (b.pprev != null ==> SkipsBuilt(b.pprev))
  }

  lemma {:induction false} SkipsBelow(b: BlockIndex, h: nat)
    requires Linked(b) && h <= b.height && SkipsBuilt(b)
    ensures SkipsBuilt(Ancestor(b, h))
    decreases b.height
  {
    if b.height > h {
      SkipsBelow(b.pprev, h);
    }
  }

  lemma {:induction false} AncestorOfAncestor(b: BlockIndex, h: nat, k: nat)
    requires Linked(b) && k <= h <= b.height
    ensures Ancestor(Ancestor(b, h), k) == Ancestor(b, k)
    decreases b.height
  {
    if b.height > h {
      AncestorOfAncestor(b.pprev, h, k);
    }
  }

  /** A block is in the lineage exactly when it is the ancestor at its height. */
  lemma {:induction false} LineageIsAncestors(b: BlockIndex, a: BlockIndex)
    requires Linked(b)
    ensures a in Lineage(b) <==> a.height <= b.height && Ancestor(b, a.height) == a
    decreases b.height
  {
    if b.pprev != null {
      LineageIsAncestors(b.pprev, a);
    }
  }

  /** The process-wide cache of the difficulty anchor. */
  class AnchorCache {
    var cachedAnchor: BlockIndex?

    /** Whatever branch filled the cache, it holds the root of some tree. */
    ghost predicate Valid()
      reads this
    {
      cachedAnchor != null ==> Linked(cachedAnchor) && cachedAnchor.pprev == null
    }

    constructor ()
      ensures Valid() && cachedAnchor == null
    {
      cachedAnchor := null;
    }

    /** Returns the genesis block of pindex's own tree, whether the cache is
        empty, hit, or holds the genesis of a competing tree. */
    method GetASERTAnchorBlock(pindex: BlockIndex) returns (anchor: BlockIndex)
      requires Valid() && Linked(pindex) && SkipsBuilt(pindex)
      modifies this
      ensures Valid() && anchor == Ancestor(pindex, 0) && anchor.pprev == null
      ensures cachedAnchor == anchor
    {
      var lastCached := cachedAnchor;
      if lastCached != null {
        var a, _ := pindex.GetAncestor(lastCached.height);
        if a == lastCached {
          return lastCached;
        }
      }
      anchor := pindex;
      while anchor.pprev != null
        invariant Linked(anchor) && anchor.height <= pindex.height
        invariant anchor == Ancestor(pindex, anchor.height)
        invariant Valid()
        decreases anchor.height
      {
        assert old(allocated(Lineage(pindex)));
        SkipsBelow(pindex, anchor.height);
        if anchor.pskip != null {
          AncestorOfAncestor(pindex, anchor.height, GetSkipHeight(anchor.height));
          anchor := anchor.pskip;
        } else {
          AncestorOfAncestor(pindex, anchor.height, anchor.height - 1);
          assert Ancestor(anchor, anchor.height - 1) == Ancestor(anchor.pprev, anchor.height - 1);
          anchor := anchor.pprev;
        }
      }
      cachedAnchor := anchor;
    }
  }
}
