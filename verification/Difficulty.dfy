/** The required difficulty of the next block, from the block index down to limb
    arithmetic, and the range test of the proof-of-work check. */
module Difficulty {
  import opened Powers
  import opened Limbs
  import opened Uint256
  import opened Compact
  import opened Asert
  import opened Blocks

  /** The consensus parameters the difficulty rules read. */
  datatype Params = Params(powLimit: BaseUint, nPowTargetSpacing: nat, nASERTHalfLife: nat,
                           fPowAllowMinDifficultyBlocks: bool, fPowNoRetargeting: bool)

  /** What every network configuration provides: a nonzero limit (with 20 leading
      zero bits where the difficulty is retargeted), a spacing of at most 2^14
      seconds and a half life of more than 2^15 seconds (see Asert.HalfLifeBound). */
  ghost predicate ValidParams(p: Params)
    reads p.powLimit.pn
  {
    && p.powLimit.Valid() && p.powLimit.Value() > 0
    && (!p.fPowNoRetargeting ==> p.powLimit.Value() < Pow2(236))
    && p.nPowTargetSpacing <= 0x4000 && p.nASERTHalfLife > 0x8000
  }

  /** Header fields are 32-bit. */
  ghost predicate Header32(b: BlockIndex) {
    b.time < BASE && b.nBits < BASE && b.height < BASE
  }

  /** What CheckPow demands of a block's bits before looking at its hash. */
  ghost predicate InRange(bits: Word, limit: nat) {
    !Negative(bits) && 0 < Decoded(bits) <= limit
  }

  /** The time of the anchor's parent, or of the anchor itself if it is a genesis. */
  function AnchorTime(anchor: BlockIndex): int {
    if anchor.pprev != null then anchor.pprev.time else anchor.time
  }

  /** How late prev is on the schedule that starts at an anchor. */
  function LateSince(prev: BlockIndex, anchor: BlockIndex, p: Params): int {
    Lateness(p.nPowTargetSpacing, prev.time - AnchorTime(anchor), prev.height - anchor.height)
  }

  /** The special rule that allows a block of minimal difficulty. */
  predicate MinDifficulty(prev: BlockIndex, blockTime: int, p: Params) {
    p.fPowAllowMinDifficultyBlocks && blockTime > prev.time + 2 * p.nPowTargetSpacing
  }

  /** The bits the schedule of an anchor requires of a block on top of prev. */
  ghost function BitsFrom(prev: BlockIndex, anchor: BlockIndex, blockTime: int, limit: nat, p: Params): nat
    requires anchor.nBits < BASE && p.nASERTHalfLife > 0
  {
    if MinDifficulty(prev, blockTime, p) || prev.pprev == null then Encoded(limit)
    else Encoded(NextTarget(Decoded(anchor.nBits), LateSince(prev, anchor, p), p.nASERTHalfLife, limit))
  }

  /** The bits the rules require of a block on top of prev. */
  ghost function NextBits(prev: BlockIndex?, blockTime: int, limit: nat, p: Params): nat
    requires prev != null ==> Linked(prev) && Ancestor(prev, 0).nBits < BASE
    requires p.nASERTHalfLife > 0
  {
    if prev == null then Encoded(limit)
    else if p.fPowNoRetargeting then prev.nBits
    else BitsFrom(prev, Ancestor(prev, 0), blockTime, limit, p)
  }

  /** A chain whose genesis has bits in range and whose other blocks all carry the
      required bits. */
  ghost predicate Grown(b: BlockIndex, limit: nat, p: Params)
    requires Linked(b) && p.nASERTHalfLife > 0
    decreases b.height
  {
    && Header32(b)
    && if b.pprev == null then InRange(b.nBits, limit)
       else Grown(b.pprev, limit, p) && Ancestor(b.pprev, 0).nBits < BASE
            && b.nBits == NextBits(b.pprev, b.time, limit, p)
  }

  lemma {:induction false} GrownGenesis(b: BlockIndex, limit: nat, p: Params)
    requires Linked(b) && p.nASERTHalfLife > 0 && Grown(b, limit, p)
    ensures Ancestor(b, 0).nBits < BASE && InRange(Ancestor(b, 0).nBits, limit) && Header32(Ancestor(b, 0))
    decreases b.height
  {
    if b.pprev != null {
      GrownGenesis(b.pprev, limit, p);
    }
  }

  /** Any nonzero target up to the limit encodes to bits in range. */
  lemma EncodedInRange(target: nat, limit: nat)
    requires 0 < target <= limit < MODULUS
    ensures Encoded(target) < BASE && InRange(Encoded(target), limit)
  {
    CompactRoundTrip(target);
  }

  /** The bits the rules ask for on top of a block in range are in range. */
  lemma NextBitsInRange(prev: BlockIndex?, blockTime: int, limit: nat, p: Params)
    requires 0 < limit < MODULUS && p.nASERTHalfLife > 0
    requires prev != null ==> Linked(prev) && prev.nBits < BASE && InRange(prev.nBits, limit)
    requires prev != null ==> Ancestor(prev, 0).nBits < BASE
    ensures NextBits(prev, blockTime, limit, p) < BASE && InRange(NextBits(prev, blockTime, limit, p), limit)
  {
    EncodedInRange(limit, limit);
    hide NextTarget, Encoded, InRange;
    if prev != null && prev.pprev != null {
      var anchor := Ancestor(prev, 0);
      var late := LateSince(prev, anchor, p);
      TargetInRange(Decoded(anchor.nBits), late, p.nASERTHalfLife, limit);
      EncodedInRange(NextTarget(Decoded(anchor.nBits), late, p.nASERTHalfLife, limit), limit);
    }
  }

  /** On any chain grown by the rules from a genesis in range, every block's bits
      are non-negative, nonzero, do not overflow and do not exceed the limit. */
  lemma {:induction false} GrownInRange(b: BlockIndex, limit: nat, p: Params)
    requires 0 < limit < MODULUS && Linked(b) && p.nASERTHalfLife > 0 && Grown(b, limit, p)
    ensures InRange(b.nBits, limit)
    decreases b.height
  {
    if b.pprev != null {
      GrownInRange(b.pprev, limit, p);
      GrownGenesis(b.pprev, limit, p);
      NextBitsInRange(b.pprev, b.time, limit, p);
    }
  }

  /** 32-bit times and heights keep every step of the schedule arithmetic inside 64 bits, and
      the lateness in the range where the fixed-point computation is exact. */
  lemma LatenessBounded(spacing: nat, t0: nat, t1: nat, h: nat)
    requires spacing <= 0x4000 && t0 < BASE && t1 < BASE && h < BASE
    ensures InInt64(t1 - t0) && InInt64(spacing * (h + 1)) && InInt64(Lateness(spacing, t1 - t0, h) * 65536)
    ensures -POW47 <= Lateness(spacing, t1 - t0, h) < POW47
  {
    MulNonneg(spacing, h + 1);
    MulMonotone(spacing, 0x4000, h + 1, BASE);
  }

  /** From any anchor the schedule starts at the time of the anchor's parent, or its own if it
      has none; on it the target of the anchor stays. */
  lemma OnScheduleFrom(prev: BlockIndex, anchor: BlockIndex, blockTime: int, limit: nat, p: Params)
    requires anchor.nBits < BASE && prev.pprev != null && p.nASERTHalfLife > 0
    requires p.fPowAllowMinDifficultyBlocks ==> blockTime <= prev.time + 2 * p.nPowTargetSpacing
    requires 0 < Decoded(anchor.nBits) <= limit
    requires var start := if anchor.pprev != null then anchor.pprev else anchor;
             prev.time == start.time + p.nPowTargetSpacing * (prev.height - anchor.height + 1)
    ensures BitsFrom(prev, anchor, blockTime, limit, p) == Encoded(Decoded(anchor.nBits))
  {
    OnSchedule(Decoded(anchor.nBits), p.nPowTargetSpacing, prev.height - anchor.height, p.nASERTHalfLife, limit);
  }

  /** The schedule of a real chain runs from its genesis: a block that comes exactly one
      spacing for every block after the genesis, and one more, leaves the genesis target. */
  lemma OnScheduleBits(prev: BlockIndex, blockTime: int, limit: nat, p: Params)
    requires Linked(prev) && prev.pprev != null && Ancestor(prev, 0).nBits < BASE
    requires p.nASERTHalfLife > 0 && !p.fPowNoRetargeting
    requires p.fPowAllowMinDifficultyBlocks ==> blockTime <= prev.time + 2 * p.nPowTargetSpacing
    requires 0 < Decoded(Ancestor(prev, 0).nBits) <= limit
    requires prev.time == Ancestor(prev, 0).time + p.nPowTargetSpacing * (prev.height + 1)
    ensures NextBits(prev, blockTime, limit, p) == Encoded(Decoded(Ancestor(prev, 0).nBits))
  {
    OnScheduleFrom(prev, Ancestor(prev, 0), blockTime, limit, p);
  }

  /** Of two blocks that reach the same height, or the second a lower one, over the same
      genesis time and target, the later one never asks for a harder target. */
  lemma LaterIsEasier(one: BlockIndex, other: BlockIndex, blockTime: int, limit: nat, p: Params)
    requires Linked(one) && Linked(other) && one.pprev != null && other.pprev != null
    requires Ancestor(one, 0).time == Ancestor(other, 0).time
    requires Ancestor(one, 0).nBits == Ancestor(other, 0).nBits < BASE
    requires p.nASERTHalfLife > 0 && !p.fPowNoRetargeting && !p.fPowAllowMinDifficultyBlocks
    requires 0 < limit < MODULUS && one.time <= other.time && one.height >= other.height
    ensures NextBits(one, blockTime, limit, p) < BASE && NextBits(other, blockTime, limit, p) < BASE
    ensures Decoded(NextBits(one, blockTime, limit, p)) <= Decoded(NextBits(other, blockTime, limit, p))
  {
    var genesis := Ancestor(one, 0);
    var ref := Decoded(genesis.nBits);
    hide Decoded, Encoded, NextTarget;
    ScheduleMonotone(ref, p.nPowTargetSpacing, one.time - genesis.time, other.time - genesis.time,
                     one.height, other.height, p.nASERTHalfLife, limit);
    var late1, late2 := LateSince(one, genesis, p), LateSince(other, Ancestor(other, 0), p);
    TargetInRange(ref, late2, p.nASERTHalfLife, limit);
    CompactMonotone(NextTarget(ref, late1, p.nASERTHalfLife, limit), NextTarget(ref, late2, p.nASERTHalfLife, limit));
  }

  /** Every half life behind schedule doubles the target of a chain, and every one ahead of it
      halves it. */
  lemma HalfLivesBits(prev: BlockIndex, blockTime: int, limit: nat, p: Params, k: int)
    requires Linked(prev) && prev.pprev != null && Ancestor(prev, 0).nBits < BASE
    requires p.nASERTHalfLife > 0 && !p.fPowNoRetargeting && !p.fPowAllowMinDifficultyBlocks
    requires prev.time - Ancestor(prev, 0).time == p.nPowTargetSpacing * (prev.height + 1) + k * p.nASERTHalfLife
    ensures NextBits(prev, blockTime, limit, p) == Encoded(Clamp(Scaled(Decoded(Ancestor(prev, 0).nBits), k), limit))
  {
    HalfLives(Decoded(Ancestor(prev, 0).nBits), k, p.nASERTHalfLife, limit);
  }

  /** An anchor a block can be scheduled from: not above it, and with 32-bit header fields. */
  ghost predicate AnchorOf(prev: BlockIndex, anchor: BlockIndex) {
    && Header32(prev) && Header32(anchor) && (anchor.pprev != null ==> anchor.pprev.time < BASE)
    && anchor.height <= prev.height
  }

  /** The bits the schedule asks for, from the time and height since any anchor. */
  method ScheduledBits(pindexPrev: BlockIndex, params: Params, anchor: BlockIndex) returns (bits: Word)
    requires ValidParams(params) && !params.fPowNoRetargeting && AnchorOf(pindexPrev, anchor)
    requires InRange(anchor.nBits, params.powLimit.Value())
    ensures bits == Encoded(NextTarget(Decoded(anchor.nBits), LateSince(pindexPrev, anchor, params),
                                       params.nASERTHalfLife, params.powLimit.Value()))
  {
    var anchorTime := AnchorTime(anchor);
    var nTimeDiff := pindexPrev.time - anchorTime;
    var nHeightDiff := pindexPrev.height - anchor.height;
    PowPositive(2, 64);
    var refBlockTarget := new BaseUint(0);
    ghost var ref := Decoded(anchor.nBits);
    ValBound(params.powLimit.pn[..]);
    ModSmall(ref, MODULUS);
    var neg, over := SetCompact(refBlockTarget, anchor.nBits);
    LatenessBounded(params.nPowTargetSpacing, anchorTime, pindexPrev.time, nHeightDiff);
    var nextTarget := CalculateASERT(refBlockTarget, params.nPowTargetSpacing, nTimeDiff, nHeightDiff,
                                     params.powLimit, params.nASERTHalfLife);
    bits := GetCompact(nextTarget, false);
  }

  /** GetNextASERTWorkRequired, for any anchor not above the block. */
  method GetNextASERTWorkRequired(pindexPrev: BlockIndex, blockTime: int, params: Params, anchor: BlockIndex)
    returns (bits: Word)
    requires ValidParams(params) && !params.fPowNoRetargeting && AnchorOf(pindexPrev, anchor)
    requires !MinDifficulty(pindexPrev, blockTime, params) && pindexPrev.pprev != null ==>
               InRange(anchor.nBits, params.powLimit.Value())
    ensures bits == BitsFrom(pindexPrev, anchor, blockTime, params.powLimit.Value(), params)
  {
    if params.fPowAllowMinDifficultyBlocks && blockTime > pindexPrev.time + 2 * params.nPowTargetSpacing {
      bits := GetCompact(params.powLimit, false);
      return;
    }
    if pindexPrev.pprev == null {
      bits := GetCompact(params.powLimit, false);
      return;
    }
    bits := ScheduledBits(pindexPrev, params, anchor);
  }

  /** GetNextWorkRequired: the required bits, always in range on a grown chain. */
  method GetNextWorkRequired(pindexPrev: BlockIndex?, blockTime: int, params: Params, cache: AnchorCache)
    returns (bits: Word)
    requires ValidParams(params) && cache.Valid()
    requires pindexPrev != null ==>
               Linked(pindexPrev) && SkipsBuilt(pindexPrev) && Grown(pindexPrev, params.powLimit.Value(), params)
    modifies cache
    ensures cache.Valid() && params.powLimit.Value() == old(params.powLimit.Value())
    ensures pindexPrev != null ==> Ancestor(pindexPrev, 0).nBits < BASE
    ensures bits == NextBits(pindexPrev, blockTime, params.powLimit.Value(), params)
    ensures InRange(bits, params.powLimit.Value())
    ensures pindexPrev != null && pindexPrev.pprev != null && !params.fPowNoRetargeting
            && (params.fPowAllowMinDifficultyBlocks ==> blockTime <= pindexPrev.time + 2 * params.nPowTargetSpacing)
            && pindexPrev.time == Ancestor(pindexPrev, 0).time + params.nPowTargetSpacing * (pindexPrev.height + 1)
      ==> bits == Encoded(Decoded(Ancestor(pindexPrev, 0).nBits))
  {
    ghost var limit := params.powLimit.Value();
    ValBound(params.powLimit.pn[..]);
    if pindexPrev != null {
      GrownGenesis(pindexPrev, limit, params);
      GrownInRange(pindexPrev, limit, params);
      if pindexPrev.pprev != null && !params.fPowNoRetargeting
         && (params.fPowAllowMinDifficultyBlocks ==> blockTime <= pindexPrev.time + 2 * params.nPowTargetSpacing)
         && pindexPrev.time == Ancestor(pindexPrev, 0).time + params.nPowTargetSpacing * (pindexPrev.height + 1) {
        OnScheduleBits(pindexPrev, blockTime, limit, params);
      }
    }
    NextBitsInRange(pindexPrev, blockTime, limit, params);
    if pindexPrev == null {
      bits := GetCompact(params.powLimit, false);
      return;
    }
    if params.fPowNoRetargeting {
      return pindexPrev.nBits;
    }
    var panchorBlock := cache.GetASERTAnchorBlock(pindexPrev);
    bits := GetNextASERTWorkRequired(pindexPrev, blockTime, params, panchorBlock);
  }

  /** CheckPow, given the hash to compare (after the signature-based replacement of
      the second algorithm): the range test is exactly InRange. */
  method CheckPow(hash: BaseUint, nBits: Word, params: Params) returns (ok: bool)
    requires hash.Valid() && params.powLimit.Valid()
    ensures ok <==> InRange(nBits, params.powLimit.Value()) && hash.Value() <= Decoded(nBits)
  {
    PowPositive(2, 64);
    var bnTarget := new BaseUint(0);
    var zero := new BaseUint(0);
    ValBound(params.powLimit.pn[..]);
    var fNegative, fOverflow := SetCompact(bnTarget, nBits);
    if !fOverflow {
      ModSmall(Decoded(nBits), MODULUS);
    }
    var isZero := bnTarget.Equals(zero);
    var c := bnTarget.CompareTo(params.powLimit);
    if fNegative || isZero || fOverflow || c > 0 {
      return false;
    }
    var h := hash.CompareTo(bnTarget);
    return h <= 0;
  }
}
