/** Whole runs of the address manager, and the manager's own consistency check. */
module AddrRuns {
  import opened AddrTables
  import opened AddrManager
  import opened Finite

  datatype Op =
    | AddOp(addr: Address, source: NetAddr, nTimePenalty: int, nNow: int, random: nat)
    | GoodOp(svc: Service, test: bool, nTime: int)
    | AttemptOp(svc: Service, fCountFailure: bool, nTime: int)
    | ConnectedOp(svc: Service, nTime: int)
    | GetAddrOp(nNow: int)
    | ResolveOp(nNow: int)
    | SelectOp

  /** A proper time: after the start of 1970, or, for a mere attempt, not before it. */
  predicate Timely(op: Op) {
    match op
    case GoodOp(_, _, nTime) => nTime > 0
    case AttemptOp(_, _, nTime) => nTime >= 0
    case ResolveOp(nNow) => nNow > 0
    case _ => true
  }

  /** Ids are handed out once: an id that is still in use means the same address, and any
      other id is newer. */
  ghost predicate IdsStable(m: map<int, Info>, n: int, m': map<int, Info>, n': int) {
    n <= n' && forall id :: id in m' ==> if id < n then id in m && m'[id].addr == m[id].addr else id < n'
  }

  lemma IdsTrans(m: map<int, Info>, n: int, m1: map<int, Info>, n1: int, m2: map<int, Info>, n2: int)
    requires IdsStable(m, n, m1, n1) && IdsStable(m1, n1, m2, n2)
    ensures IdsStable(m, n, m2, n2)
  {
  }

  lemma ShrunkStable(a: AddrMan, m: map<int, Info>)
    requires a.Valid() && Shrunk(m, a.mapInfo)
    ensures IdsStable(m, a.nIdCount, a.mapInfo, a.nIdCount)
  {
    hide Sound, CollisionsOk, NewTableOk, AddrsMatch;
    NewTableOf(a.nKey, a.State(), {});
    forall id | id in a.mapInfo
      ensures id < a.nIdCount
    {
      EntryIs(a.nKey, a.State(), {}, id);
    }
  }

  /** Every operation, at whatever time, keeps the manager consistent, never empties a slot
      of the tried table and never reuses an id. */
  method Perform(a: AddrMan, op: Op)
    requires a.Valid()
    modifies a
    ensures a.Valid() && (old(a.timely) && Timely(op) ==> a.timely)
    ensures StaysOccupied(old(a.vvTried), a.vvTried)
    ensures IdsStable(old(a.mapInfo), old(a.nIdCount), a.mapInfo, a.nIdCount)
  {
    hide Sound, CollisionsOk, StaysOccupied, OthersKept, Placed, FirstSeen, MarkedGood, Refreshed, IsTerrible,
         MaySpread, IdsStable, Drawn, Competitor, NewIds, TriedIds, AddrMan.Moving;
    StaysSame(a.vvTried);
    ShrunkSame(a.mapInfo);
    match op
    case AddOp(addr, source, nTimePenalty, nNow, random) =>
      AddStable(a, addr, source, nTimePenalty, nNow, random);
    case GoodOp(svc, test, nTime) =>
      a.Good(svc, test, nTime);
      ShrunkStable(a, old(a.mapInfo));
    case AttemptOp(svc, fCountFailure, nTime) =>
      a.Attempt(svc, fCountFailure, nTime);
      ShrunkStable(a, old(a.mapInfo));
    case ConnectedOp(svc, nTime) =>
      a.Connected(svc, nTime);
      ShrunkStable(a, old(a.mapInfo));
    case GetAddrOp(nNow) =>
      var _, _ := a.GetAddr(nNow);
      KeptShrinks(old(a.mapInfo), a.mapInfo);
      ShrunkStable(a, old(a.mapInfo));
    case ResolveOp(nNow) =>
      ghost var _, _ := a.ResolveCollisions(nNow);
      ShrunkStable(a, old(a.mapInfo));
    case SelectOp =>
      var _ := a.SelectTriedCollision();
      ShrunkStable(a, old(a.mapInfo));
  }

  method AddStable(a: AddrMan, addr: Address, source: NetAddr, nTimePenalty: int, nNow: int, random: nat)
    requires a.Valid()
    modifies a`mapInfo, a`mapAddr, a`vRandom, a`vvNew, a`nNew, a`nIdCount
    ensures a.Valid() && IdsStable(old(a.mapInfo), old(a.nIdCount), a.mapInfo, a.nIdCount)
  {
    hide Sound, CollisionsOk, Placed, Refreshed, NewIds, TriedIds, MaySpread;
    ghost var s := FirstSeen(a.State(), addr, source, nTimePenalty);
    var fNew := a.Add(addr, source, nTimePenalty, nNow, random);
    if fNew {
      PlacedShrinks(a.nKey, s, a.State(), old(a.nIdCount), source, nNow);
    }
    ShrunkStable(a, if fNew then s.mapInfo else old(a.mapInfo));
    if fNew {
      FirstSeenStable(old(a.mapInfo), old(a.nIdCount), s.mapInfo[old(a.nIdCount)], a.mapInfo);
    }
  }

  lemma FirstSeenStable(m: map<int, Info>, n: int, info: Info, m': map<int, Info>)
    requires IdsStable(m[n := info], n + 1, m', n + 1)
    ensures IdsStable(m, n, m', n + 1)
  {
  }

  /** So does every run of operations. */
  method RunFrom(a: AddrMan, ops: seq<Op>)
    requires a.Valid()
    modifies a
    ensures a.Valid() && (old(a.timely) && (forall i :: 0 <= i < |ops| ==> Timely(ops[i])) ==> a.timely)
    ensures StaysOccupied(old(a.vvTried), a.vvTried)
    ensures IdsStable(old(a.mapInfo), old(a.nIdCount), a.mapInfo, a.nIdCount)
  {
    hide AddrMan.Valid, StaysOccupied, IdsStable, Timely;
    StaysSame(a.vvTried);
    ShrunkSame(a.mapInfo);
    ShrunkStable(a, a.mapInfo);
    for i := 0 to |ops|
      invariant a.Valid() && StaysOccupied(old(a.vvTried), a.vvTried)
      invariant old(a.timely) && (forall j :: 0 <= j < i ==> Timely(ops[j])) ==> a.timely
      invariant IdsStable(old(a.mapInfo), old(a.nIdCount), a.mapInfo, a.nIdCount)
    {
      ghost var m, n, t := a.mapInfo, a.nIdCount, a.vvTried;
      Perform(a, ops[i]);
      StaysTrans(old(a.vvTried), t, a.vvTried);
      IdsTrans(old(a.mapInfo), old(a.nIdCount), m, n, a.mapInfo, a.nIdCount);
    }
  }

  /** From a fresh manager, every run of operations passes the manager's self check if all
      times were proper. */
  method Replay(key: Key, ops: seq<Op>) returns (a: AddrMan)
    ensures a.Valid() && a.nKey == key
    ensures (forall i :: 0 <= i < |ops| ==> Timely(ops[i])) ==> CheckPasses(a)
  {
    hide AddrMan.Valid, CheckPasses, Timely;
    a := new AddrMan(key);
    RunFrom(a, ops);
    ValidPasses(a);
    if a.timely {
      TimelyTimes(a);
    }
  }

  lemma TimelyTimes(a: AddrMan)
    requires a.Valid() && a.timely
    ensures forall id :: id in a.mapInfo ==> TimesOk(a.mapInfo[id])
  {
    hide Sound, CollisionsOk, TimesOk;
    forall id | id in a.mapInfo
      ensures TimesOk(a.mapInfo[id])
    {
      EntryIs(a.nKey, a.State(), {}, id);
    }
  }

  /** A success reported at time zero does not: the address is promoted without a success. */
  method GoodAtZero(a: AddrMan, id: int)
    requires a.Valid() && id in a.mapInfo && !a.mapInfo[id].fInTried
    modifies a
    ensures a.Valid() && !CheckPasses(a)
  {
    hide Sound, CollisionsOk, NewIds, TriedIds, StaysOccupied, TimesOk, CheckPasses, Shrunk, AddrMan.Moving;
    ghost var s, w := a.State(), a.triedCollisions;
    a.Good(a.mapInfo[id].addr, false, 0);
    PromotedAtZero(a.nKey, s, w, a.State(), a.triedCollisions, id);
    ValidPasses(a);
  }

  lemma PromotedAtZero(k: Key, s: Book, w: set<int>, s': Book, w': set<int>, id: int)
    requires MarkedGood(k, s, w, s', w', id, 0, false) && !s.mapInfo[id].fInTried
    ensures id in s'.mapInfo && !TimesOk(s'.mapInfo[id])
  {
  }

  // ---- The consistency check ----

  /** All slots of a table that hold an id. */
  ghost function Slots(t: Table, buckets: nat, id: int): set<(int, int)>
    requires Shaped(t, buckets)
  {
    set b, p | 0 <= b < buckets && 0 <= p < BUCKET_SIZE && At(t, b, p) == id :: (b, p)
  }

  /** Every condition of the self check: sizes, statistics, references, the inverse map,
      the random order, and each slot's owner; a tried entry owns one slot of the tried
      table, and any other entry as many slots of the new table as it has references. */
  ghost predicate CheckPasses(a: AddrMan)
    reads a
  {
    var m := a.mapInfo;
    && Shaped(a.vvNew, 1024) && Shaped(a.vvTried, 256)
    && |a.vRandom| == a.nTried + a.nNew
    && (forall id :: id in m ==>
          && (if m[id].fInTried then m[id].nLastSuccess != 0 && m[id].nRefCount == 0
              else 0 < m[id].nRefCount <= 8)
          && m[id].addr.net in a.mapAddr && a.mapAddr[m[id].addr.net] == id
          && 0 <= m[id].nRandomPos < |a.vRandom| && a.vRandom[m[id].nRandomPos] == id
          && m[id].nLastTry >= 0 && m[id].nLastSuccess >= 0)
    && |TriedIds(m)| == a.nTried && |NewIds(m)| == a.nNew
    && (forall b, p :: Slot(a.vvTried, b, p) && At(a.vvTried, b, p) != -1 ==>
          var id := At(a.vvTried, b, p);
          && id in m && m[id].fInTried
          && b == a.nKey.triedGroupHash(a.nKey.group(m[id].addr.net), a.nKey.triedHash(m[id].addr) % 8) % 256
          && p == a.nKey.positionHash(false, b, m[id].addr) % 64)
    && (forall b, p :: Slot(a.vvNew, b, p) && At(a.vvNew, b, p) != -1 ==>
          var id := At(a.vvNew, b, p);
          id in m && !m[id].fInTried && p == a.nKey.positionHash(true, b, m[id].addr) % 64)
    && (forall id :: id in TriedIds(m) ==> |Slots(a.vvTried, TRIED_BUCKET_COUNT, id)| == 1)
    && (forall id :: id in NewIds(m) ==> |Slots(a.vvNew, NEW_BUCKET_COUNT, id)| == m[id].nRefCount)
  }

  ghost function Graph(s: set<int>, f: int -> int): set<(int, int)> {
    set b | b in s :: (b, f(b))
  }

  lemma {:induction false} GraphSize(s: set<int>, f: int -> int)
    ensures |Graph(s, f)| == |s|
    decreases |s|
  {
    if s != {} {
      var b := PickOne(s);
      GraphSize(s - {b}, f);
      assert Graph(s, f) == Graph(s - {b}, f) + {(b, f(b))};
    }
  }

  /** Counting all slots of an entry is counting the buckets that hold it. */
  lemma SlotsAreBuckets(k: Key, m: map<int, Info>, t: Table, id: int)
    requires NewTableOk(k, m, t) && id in m && id != -1
    ensures |Slots(t, NEW_BUCKET_COUNT, id)| == |Buckets(k, t, id, m[id].addr)|
  {
    var a := m[id].addr;
    var f := b => k.Position(true, b, a);
    GraphSize(Buckets(k, t, id, a), f);
    forall b, p | 0 <= b < NEW_BUCKET_COUNT && 0 <= p < BUCKET_SIZE && At(t, b, p) == id
      ensures (b, p) in Graph(Buckets(k, t, id, a), f)
    {
      assert NewSlotOk(k, m, b, p, At(t, b, p));
      assert b in Buckets(k, t, id, a) && p == f(b);
    }
    assert Slots(t, NEW_BUCKET_COUNT, id) == Graph(Buckets(k, t, id, a), f);
  }

  lemma TriedOnce(k: Key, m: map<int, Info>, t: Table, id: int)
    requires TriedTableOk(k, m, t) && id in m && id != -1 && m[id].fInTried
    ensures |Slots(t, TRIED_BUCKET_COUNT, id)| == 1
  {
    var b := k.TriedBucket(m[id].addr);
    var p := k.Position(false, b, m[id].addr);
    forall b', p' | 0 <= b' < TRIED_BUCKET_COUNT && 0 <= p' < BUCKET_SIZE && At(t, b', p') == id
      ensures (b', p') == (b, p)
    {
      assert TriedSlotOk(k, m, b', p', At(t, b', p'));
    }
    assert At(t, b, p) == id;
    assert Slots(t, TRIED_BUCKET_COUNT, id) == {(b, p)};
  }

  lemma SidesAddUp(m: map<int, Info>)
    ensures |m| == |NewIds(m)| + |TriedIds(m)|
  {
    assert NewIds(m) + TriedIds(m) == m.Keys;
    assert |m| == |m.Keys|;
  }

  /** A valid manager passes its self check if and only if its times are in order. */
  lemma ValidPasses(a: AddrMan)
    requires a.Valid()
    ensures CheckPasses(a) <==> forall id :: id in a.mapInfo ==> TimesOk(a.mapInfo[id])
  {
    hide Slots, NewIds, TriedIds, CollisionsOk, NewTableOk, TriedTableOk, RefsOk, Buckets;
    SidesAddUp(a.mapInfo);
    ValidSlots(a);
  }

  lemma ValidSlots(a: AddrMan)
    requires a.Valid()
    ensures Shaped(a.vvNew, NEW_BUCKET_COUNT) && Shaped(a.vvTried, TRIED_BUCKET_COUNT)
    ensures forall b, p :: Slot(a.vvTried, b, p) ==> TriedSlotOk(a.nKey, a.mapInfo, b, p, At(a.vvTried, b, p))
    ensures forall b, p :: Slot(a.vvNew, b, p) ==> NewSlotOk(a.nKey, a.mapInfo, b, p, At(a.vvNew, b, p))
    ensures forall id :: id in TriedIds(a.mapInfo) ==> |Slots(a.vvTried, TRIED_BUCKET_COUNT, id)| == 1
    ensures forall id :: id in NewIds(a.mapInfo) ==>
      id in a.mapInfo && |Slots(a.vvNew, NEW_BUCKET_COUNT, id)| == a.mapInfo[id].nRefCount
  {
    hide Slots, AddrsMatch, RandomMatches, CollisionsOk, Buckets;
    NoMinusOne(a.nKey, a.State(), {});
    forall id | id in TriedIds(a.mapInfo)
      ensures |Slots(a.vvTried, TRIED_BUCKET_COUNT, id)| == 1
    {
      TriedOnce(a.nKey, a.mapInfo, a.vvTried, id);
    }
    forall id | id in NewIds(a.mapInfo)
      ensures |Slots(a.vvNew, NEW_BUCKET_COUNT, id)| == a.mapInfo[id].nRefCount
    {
      SlotsAreBuckets(a.nKey, a.mapInfo, a.vvNew, id);
      assert RefsOk(a.nKey, a.mapInfo, a.vvNew, id);
    }
  }

  /** However many addresses of one network group are reported good, at most 512 of them are
      in the tried table. */
  lemma TriedOfGroup(a: AddrMan, g: nat)
    requires a.Valid()
    ensures |set id | id in a.mapInfo && a.mapInfo[id].fInTried && a.nKey.group(a.mapInfo[id].addr.net) == g| <= 512
  {
    var k, t := a.nKey, a.vvTried;
    var ids := set id | id in a.mapInfo && a.mapInfo[id].fInTried && k.group(a.mapInfo[id].addr.net) == g;
    TriedShape(a);
    var f := (i: nat) => if Shaped(t, 256) then At(t, k.triedGroupHash(g, i / 64) % 256, i % 64) else -1;
    forall id | id in ids
      ensures exists i: nat :: i < 512 && f(i) == id
    {
      TriedPlace(a, id);
      var addr := a.mapInfo[id].addr;
      var b := k.TriedBucket(addr);
      var i := 64 * (k.triedHash(addr) % 8) + k.Position(false, b, addr);
      assert i / 64 == k.triedHash(addr) % 8 && i % 64 == k.Position(false, b, addr);
      assert f(i) == id;
    }
    ImageAtMost(ids, f, 512);
  }

  lemma TriedShape(a: AddrMan)
    requires a.Valid()
    ensures Shaped(a.vvTried, 256)
  {
  }

  lemma TriedPlace(a: AddrMan, id: int)
    requires a.Valid() && id in a.mapInfo && a.mapInfo[id].fInTried
    ensures Shaped(a.vvTried, 256)
    ensures var b := a.nKey.TriedBucket(a.mapInfo[id].addr);
            At(a.vvTried, b, a.nKey.Position(false, b, a.mapInfo[id].addr)) == id
  {
    hide NewTableOk, AddrsMatch, RandomMatches, CollisionsOk;
    assert TriedSlot(a.nKey, a.vvTried, a.mapInfo[id].addr) == id;
  }
}
