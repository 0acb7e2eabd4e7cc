/** The stochastic address manager: entries move between a table of new and a table of
    tried addresses, and every operation keeps the tables, the counters, the address map
    and the random order consistent. */
module AddrManager {
  import opened AddrTables
  import opened Bits
  import opened Finite
  import opened Powers

  const GETADDR_MAX_PCT := 23
  const GETADDR_MAX := 2500
  const REPLACEMENT_HOURS := 4

  datatype Address = Address(svc: Service, nServices: nat, nTime: int)

  class AddrMan {
    const nKey: Key
    var mapInfo: map<int, Info>
    var mapAddr: map<NetAddr, int>
    var vRandom: seq<int>
    var vvNew: Table
    var vvTried: Table
    var nNew: int
    var nTried: int
    var nIdCount: int
    var nLastGood: int
    var triedCollisions: set<int>
    /** Whether every reported time was one a clock shows after the start of 1970. */
    ghost var timely: bool

    ghost function State(): Book
      reads this
    {
      Book(mapInfo, mapAddr, vRandom, vvNew, vvTried, nIdCount, timely)
    }

    /** The tables are sound up to entries being moved, and the two counters are off by
        known amounts. */
    ghost predicate Moving(limbo: set<int>, newDrift: int, triedDrift: int)
      reads this
    {
      && Sound(nKey, State(), limbo)
      && nNew == |NewIds(mapInfo)| + newDrift
      && nTried == |TriedIds(mapInfo)| + triedDrift
      && 0 <= nIdCount
    }

    ghost predicate Valid()
      reads this
    {
      && Moving({}, 0, 0)
      && |triedCollisions| <= SET_TRIED_COLLISION_SIZE
      && CollisionsOk(nKey, mapInfo, vvTried, nIdCount, triedCollisions)
    }

    constructor (key: Key)
      ensures Valid() && nKey == key
      ensures mapInfo == map[] && triedCollisions == {} && timely
    {
      nKey := key;
      mapInfo, mapAddr, vRandom := map[], map[], [];
      vvNew := seq(NEW_BUCKET_COUNT, _ => seq(BUCKET_SIZE, _ => -1));
      vvTried := seq(TRIED_BUCKET_COUNT, _ => seq(BUCKET_SIZE, _ => -1));
      nNew, nTried, nIdCount, nLastGood := 0, 0, 0, 1;
      triedCollisions := {};
      timely := true;
    }

    // ---- Entries ----

    method Find(addr: NetAddr) returns (found: bool, nId: int)
      requires AddrsMatch(mapInfo, mapAddr)
      ensures found <==> exists id :: id in mapInfo && mapInfo[id].addr.net == addr
      ensures found <==> addr in mapAddr
      ensures found ==> nId in mapInfo && mapInfo[nId].addr.net == addr
      ensures found ==> forall id :: id in mapInfo && mapInfo[id].addr.net == addr ==> id == nId
    {
      if addr !in mapAddr {
        return false, -1;
      }
      nId := mapAddr[addr];
      found := nId in mapInfo;
    }

    method Create(addr: Address, source: NetAddr) returns (nId: int)
      requires Moving({}, 0, 0) && addr.svc.net !in mapAddr
      modifies `mapInfo, `mapAddr, `vRandom, `nIdCount
      ensures nId == old(nIdCount) == nIdCount - 1 && Moving({nId}, -1, 0)
      ensures nId !in old(mapInfo) && mapInfo == old(mapInfo)[nId := NewInfo(addr, source, |old(vRandom)|)]
      ensures mapAddr == old(mapAddr)[addr.svc.net := nId] && vRandom == old(vRandom) + [nId]
    {
      hide Sound, NewIds, TriedIds, AddrsMatch, RandomMatches;
      nId := nIdCount;
      CreateKeeps(nKey, State(), NewInfo(addr, source, |vRandom|));
      nIdCount := nIdCount + 1;
      mapInfo := mapInfo[nId := NewInfo(addr, source, -1)];
      mapAddr := mapAddr[addr.svc.net := nId];
      mapInfo := mapInfo[nId := mapInfo[nId].(nRandomPos := |vRandom|)];
      vRandom := vRandom + [nId];
      assert mapInfo == old(mapInfo)[nId := NewInfo(addr, source, |old(vRandom)|)];
    }

    method SwapRandom(nRndPos1: nat, nRndPos2: nat, ghost limbo: set<int>)
      requires Sound(nKey, State(), limbo) && nRndPos1 < |vRandom| && nRndPos2 < |vRandom|
      modifies `mapInfo, `vRandom
      ensures Sound(nKey, State(), limbo)
      ensures vRandom == old(vRandom)[nRndPos1 := old(vRandom)[nRndPos2]][nRndPos2 := old(vRandom)[nRndPos1]]
      ensures OthersKept(old(mapInfo), mapInfo, {}) && mapInfo.Keys == old(mapInfo).Keys
      ensures NewIds(mapInfo) == NewIds(old(mapInfo)) && TriedIds(mapInfo) == TriedIds(old(mapInfo))
    {
      hide Sound, NewIds, TriedIds;
      if nRndPos1 == nRndPos2 {
        return;
      }
      SwapSound(nKey, State(), limbo, nRndPos1, nRndPos2);
      var nId1, nId2 := vRandom[nRndPos1], vRandom[nRndPos2];
      mapInfo := mapInfo[nId1 := mapInfo[nId1].(nRandomPos := nRndPos2)];
      mapInfo := mapInfo[nId2 := mapInfo[nId2].(nRandomPos := nRndPos1)];
      vRandom := vRandom[nRndPos1 := nId2];
      vRandom := vRandom[nRndPos2 := nId1];
    }

    /** Removes an entry that is in neither table; an entry already gone stays gone. */
    method Delete(nId: int, ghost limbo: set<int>, ghost newDrift: int, ghost triedDrift: int)
      requires Moving(limbo, newDrift, triedDrift) && (nId in mapInfo ==> nId in limbo)
      modifies `mapInfo, `mapAddr, `vRandom, `nNew
      ensures Moving(limbo, newDrift, triedDrift)
      ensures mapInfo.Keys == old(mapInfo).Keys - {nId} && OthersKept(old(mapInfo), mapInfo, {nId})
    {
      hide Sound, NewIds, TriedIds;
      if nId !in mapInfo {
        assert mapInfo.Keys == mapInfo.Keys - {nId};
        return;
      }
      PlaceOf(nKey, State(), limbo, nId);
      SwapRandom(mapInfo[nId].nRandomPos, |vRandom| - 1, limbo);
      EntryAt(nKey, State(), limbo, |vRandom| - 1);
      DropKeeps(nKey, State(), limbo, nId);
      vRandom := vRandom[..|vRandom| - 1];
      mapAddr := mapAddr - {mapInfo[nId].addr.net};
      mapInfo := mapInfo - {nId};
      nNew := nNew - 1;
    }

    // ---- The new table ----

    /** Empties a slot; the entry that loses its last reference is deleted. */
    method ClearNew(nUBucket: int, nUBucketPos: int, ghost limbo: set<int>, ghost newDrift: int, ghost triedDrift: int)
      requires Moving(limbo, newDrift, triedDrift) && Slot(vvNew, nUBucket, nUBucketPos)
      modifies `mapInfo, `mapAddr, `vRandom, `vvNew, `nNew
      ensures Moving(limbo, newDrift, triedDrift)
      ensures vvNew == Put(old(vvNew), nUBucket, nUBucketPos, -1)
      ensures Released(old(mapInfo), mapInfo, At(old(vvNew), nUBucket, nUBucketPos), {})
    {
      hide Sound, NewIds, TriedIds, Put;
      NoMinusOne(nKey, State(), limbo);
      if vvNew[nUBucket][nUBucketPos] != -1 {
        var nIdDelete := vvNew[nUBucket][nUBucketPos];
        ClearRef(nKey, State(), limbo, nUBucket, nUBucketPos);
        mapInfo := mapInfo[nIdDelete := mapInfo[nIdDelete].(nRefCount := mapInfo[nIdDelete].nRefCount - 1)];
        vvNew := Put(vvNew, nUBucket, nUBucketPos, -1);
        if mapInfo[nIdDelete].nRefCount == 0 {
          Delete(nIdDelete, limbo + {nIdDelete}, newDrift, triedDrift);
          LimboGone(nKey, State(), limbo, nIdDelete);
        }
      } else {
        SameTable(Put(vvNew, nUBucket, nUBucketPos, -1), vvNew);
      }
    }

    /** Takes an entry out of every new bucket that holds it. */
    method RemoveFromNew(nId: int, ghost newDrift: int, ghost triedDrift: int)
      requires Moving({}, newDrift, triedDrift) && nId in mapInfo && !mapInfo[nId].fInTried
      modifies `mapInfo, `vvNew
      ensures Moving({nId}, newDrift, triedDrift)
      ensures mapInfo == old(mapInfo)[nId := old(mapInfo)[nId].(nRefCount := 0)]
      ensures vvNew == WithoutId(old(vvNew), nId)
    {
      hide Sound, NewIds, TriedIds, WithoutId, Put, Removing, NewTableOk;
      ghost var s := State();
      StartRemoving(nKey, s, nId);
      var info := mapInfo[nId];
      for bucket := 0 to NEW_BUCKET_COUNT
        invariant Removing(nKey, s, mapInfo, vvNew, nId, bucket)
      {
        RemovingFacts(nKey, s, mapInfo, vvNew, nId, bucket);
        var pos := nKey.Position(true, bucket, info.addr);
        if At(vvNew, bucket, pos) == nId {
          RemovingStep(nKey, s, mapInfo, vvNew, nId, bucket);
          mapInfo := mapInfo[nId := mapInfo[nId].(nRefCount := mapInfo[nId].nRefCount - 1)];
          vvNew := Put(vvNew, bucket, pos, -1);
        }
      }
      RemovingDone(nKey, s, mapInfo, vvNew, nId);
      RemovingTable(nKey, s, mapInfo, vvNew, nId);
    }

    // ---- The tried table ----

    /** Takes the occupant out of a slot of the tried table. */
    method LeaveSlot(nKBucket: int, nKBucketPos: int, ghost limbo: set<int>, ghost newDrift: int)
      returns (nIdEvict: int)
      requires Moving(limbo, newDrift, 0)
      requires Slot(vvTried, nKBucket, nKBucketPos) && At(vvTried, nKBucket, nKBucketPos) != -1
      modifies `mapInfo, `vvTried, `nTried
      ensures nIdEvict == At(old(vvTried), nKBucket, nKBucketPos) && nIdEvict in old(mapInfo) && nIdEvict !in limbo
      ensures Moving(limbo + {nIdEvict}, newDrift - 1, 0)
      ensures mapInfo == Untied(old(mapInfo), nIdEvict)
      ensures vvTried == Put(old(vvTried), nKBucket, nKBucketPos, -1)
    {
      hide Sound, NewIds, TriedIds, Put;
      TriedOccupant(nKey, State(), limbo, nKBucket, nKBucketPos);
      nIdEvict := vvTried[nKBucket][nKBucketPos];
      LeaveTried(nKey, State(), limbo, nIdEvict);
      mapInfo := mapInfo[nIdEvict := mapInfo[nIdEvict].(fInTried := false)];
      vvTried := Put(vvTried, nKBucket, nKBucketPos, -1);
      nTried := nTried - 1;
    }

    /** Puts an entry in neither table into the new bucket of its own source. */
    method ReenterNew(nId: int, ghost limbo: set<int>, ghost newDrift: int)
      requires Moving(limbo, newDrift - 1, 0) && nId in limbo && nId in mapInfo
      requires Shaped(vvNew, NEW_BUCKET_COUNT)
      modifies `mapInfo, `mapAddr, `vRandom, `vvNew, `nNew
      ensures Moving(limbo - {nId}, newDrift, 0)
      ensures Reentered(nKey, old(mapInfo), old(vvNew), mapInfo, vvNew, nId)
      ensures KeepsAll(old(mapInfo), mapInfo, limbo - {nId})
    {
      hide Sound, NewIds, TriedIds, Put, Released;
      var info := mapInfo[nId];
      var nUBucket := nKey.NewBucket(info.addr, info.source);
      var nUBucketPos := nKey.Position(true, nUBucket, info.addr);
      ghost var v := At(vvNew, nUBucket, nUBucketPos);
      LimboSlot(nKey, State(), limbo, nId, nUBucket, nUBucketPos);
      forall id | id in limbo && id in mapInfo
        ensures id != v
      {
        LimboSlot(nKey, State(), limbo, id, nUBucket, nUBucketPos);
      }
      ClearNew(nUBucket, nUBucketPos, limbo, newDrift - 1, 0);
      forall id | id in limbo && id in old(mapInfo)
        ensures id in mapInfo && SameEntry(mapInfo[id], old(mapInfo)[id])
      {
        ReleasedKeeps(old(mapInfo), mapInfo, v, id);
      }
      FillRef(nKey, State(), limbo, nUBucket, nUBucketPos, nId);
      PutTwice(old(vvNew), nUBucket, nUBucketPos, -1, nId);
      ReleasedThenSet(old(mapInfo), mapInfo, v, nId, mapInfo[nId].(nRefCount := 1));
      mapInfo := mapInfo[nId := mapInfo[nId].(nRefCount := 1)];
      vvNew := Put(vvNew, nUBucket, nUBucketPos, nId);
      nNew := nNew + 1;
    }

    /** Makes room in the tried table: the occupant goes back to the new table. */
    method Evict(nKBucket: int, nKBucketPos: int, ghost nId: int, ghost newDrift: int)
      requires Moving({nId}, newDrift, 0) && nId in mapInfo && Shaped(vvNew, NEW_BUCKET_COUNT)
      requires Slot(vvTried, nKBucket, nKBucketPos) && At(vvTried, nKBucket, nKBucketPos) != -1
      modifies `mapInfo, `mapAddr, `vRandom, `vvNew, `vvTried, `nNew, `nTried
      ensures Moving({nId}, newDrift, 0) && KeepsAll(old(mapInfo), mapInfo, {nId})
      ensures vvTried == Put(old(vvTried), nKBucket, nKBucketPos, -1)
      ensures var e := At(old(vvTried), nKBucket, nKBucketPos);
              e in old(mapInfo) && Reentered(nKey, Untied(old(mapInfo), e), old(vvNew), mapInfo, vvNew, e)
    {
      hide Sound, NewIds, TriedIds, Put, Released, Moving, Reentered, OthersKept;
      var nIdEvict := LeaveSlot(nKBucket, nKBucketPos, {nId}, newDrift);
      ghost var m := mapInfo;
      ReenterNew(nIdEvict, {nId} + {nIdEvict}, newDrift);
      assert {nId} + {nIdEvict} - {nIdEvict} == {nId};
    }

    method MakeTried(nId: int)
      requires Moving({}, 0, 0) && nId in mapInfo && !mapInfo[nId].fInTried
      requires timely ==> mapInfo[nId].nLastSuccess != 0
      requires Shaped(vvNew, NEW_BUCKET_COUNT) && Shaped(vvTried, TRIED_BUCKET_COUNT)
      modifies `mapInfo, `mapAddr, `vRandom, `vvNew, `vvTried, `nNew, `nTried
      ensures Moving({}, 0, 0)
      ensures Promoted(nKey, old(State()), State(), nId)
    {
      hide Sound, NewIds, TriedIds, Put, WithoutId, Reentered;
      RemoveFromNew(nId, 0, 0);
      nNew := nNew - 1;
      var info := mapInfo[nId];
      var nKBucket := nKey.TriedBucket(info.addr);
      var nKBucketPos := nKey.Position(false, nKBucket, info.addr);
      if At(vvTried, nKBucket, nKBucketPos) != -1 {
        Evict(nKBucket, nKBucketPos, nId, -1);
      }
      EnterTried(nKey, State(), {nId}, nId);
      PutTwice(old(vvTried), nKBucket, nKBucketPos, -1, nId);
      assert {nId} - {nId} == {};
      vvTried := Put(vvTried, nKBucket, nKBucketPos, nId);
      nTried := nTried + 1;
      ghost var m := mapInfo;
      mapInfo := mapInfo[nId := mapInfo[nId].(fInTried := true)];
      assert Untied(mapInfo, nId) == m;
    }

    /** Scans the new buckets from a random start for one that holds an entry. */
    method FindBucket(nId: int) returns (nUBucket: int)
      requires Moving({}, 0, 0) && nId in mapInfo && !mapInfo[nId].fInTried
      ensures 0 <= nUBucket < NEW_BUCKET_COUNT && Shaped(vvNew, NEW_BUCKET_COUNT)
      ensures At(vvNew, nUBucket, nKey.Position(true, nUBucket, mapInfo[nId].addr)) == nId
    {
      hide Sound, NewIds, TriedIds, AddrsMatch, NewTableOk;
      NewTableOf(nKey, State(), {});
      EntryIs(nKey, State(), {}, nId);
      ghost var b := SomeBucket(nKey, mapInfo, vvNew, nId);
      var info := mapInfo[nId];
      var nRnd :| 0 <= nRnd < NEW_BUCKET_COUNT;
      nUBucket := -1;
      for n := 0 to NEW_BUCKET_COUNT
        invariant nUBucket == -1
        invariant forall c :: 0 <= c < NEW_BUCKET_COUNT && (c - nRnd) % NEW_BUCKET_COUNT < n ==>
          !Holds(vvNew, nKey, nId, info.addr, c)
      {
        var nB := (n + nRnd) % NEW_BUCKET_COUNT;
        if Holds(vvNew, nKey, nId, info.addr, nB) {
          nUBucket := nB;
          break;
        }
        forall c | 0 <= c < NEW_BUCKET_COUNT && (c - nRnd) % NEW_BUCKET_COUNT < n + 1
          ensures !Holds(vvNew, nKey, nId, info.addr, c)
        {
          assert (c - nRnd) % NEW_BUCKET_COUNT == n ==> c == nB;
        }
      }
      assert Holds(vvNew, nKey, nId, info.addr, b);
    }

    lemma Parts()
      requires Valid()
      ensures Sound(nKey, State(), {}) && AddrsMatch(mapInfo, mapAddr)
    {
    }

    /** Notes whether a reported time is proper. */
    ghost method Report(proper: bool)
      requires Valid()
      modifies `timely
      ensures Valid() && timely == (old(timely) && proper)
    {
      hide Sound, NewIds, TriedIds, CollisionsOk;
      Untimely(nKey, State(), {}, timely && proper);
      timely := timely && proper;
    }

    /** Changes the statistics of an entry. */
    method Record(nId: int, info: Info)
      requires Valid() && nId in mapInfo && EntryOk(info, false, timely) && SameButStats(info, mapInfo[nId])
      modifies `mapInfo
      ensures Valid() && mapInfo == old(mapInfo)[nId := info] && Shrunk(old(mapInfo), mapInfo)
    {
      hide Sound, NewIds, TriedIds, CollisionsOk, NewTableOk, AddrsMatch;
      NewTableOf(nKey, State(), {});
      StatsKeep(nKey, State(), {}, nId, info);
      StaysSame(vvTried);
      CollisionsKept(nKey, mapInfo, mapInfo[nId := info], vvTried, vvTried, nIdCount, triedCollisions);
      mapInfo := mapInfo[nId := info];
    }

    /** Moves an entry on after a success: the second half of Good. */
    method Advance(nId: int, testBeforeEvict: bool)
      requires Valid() && nId in mapInfo && !mapInfo[nId].fInTried && (timely ==> mapInfo[nId].nLastSuccess != 0)
      modifies `mapInfo, `mapAddr, `vRandom, `vvNew, `vvTried, `nNew, `nTried, `triedCollisions
      ensures Valid() && StaysOccupied(old(vvTried), vvTried) && Shrunk(old(mapInfo), mapInfo)
      ensures Advanced(nKey, old(State()), old(triedCollisions), State(), triedCollisions, nId, testBeforeEvict)
    {
      hide Sound, NewIds, TriedIds, Promoted, CollisionsOk, StaysOccupied;
      NewTableOf(nKey, State(), {});
      EntryIs(nKey, State(), {}, nId);
      StaysSame(vvTried);
      // an entry that is not tried is always in some bucket, so the scan finds one
      var nUBucket := FindBucket(nId);
      var info := mapInfo[nId];
      var triedBucket := nKey.TriedBucket(info.addr);
      var triedBucketPos := nKey.Position(false, triedBucket, info.addr);
      if testBeforeEvict && At(vvTried, triedBucket, triedBucketPos) != -1 {
        if |triedCollisions| < SET_TRIED_COLLISION_SIZE {
          CollisionsJoin(nKey, mapInfo, vvTried, nIdCount, triedCollisions, nId);
          triedCollisions := triedCollisions + {nId};
        }
      } else {
        MakeTried(nId);
        PromotedKeeps(nKey, old(State()), State(), nId);
        CollisionsKept(nKey, old(mapInfo), mapInfo, old(vvTried), vvTried, nIdCount, triedCollisions);
      }
    }

    /** Reports a successful connection. Occupied slots of the tried table stay occupied,
        and no entry appears or changes address. */
    method Good(addr: Service, testBeforeEvict: bool, nTime: int)
      requires Valid()
      modifies this
      ensures Valid() && (old(timely) && nTime > 0 ==> timely)
      ensures nLastGood == nTime && nIdCount == old(nIdCount)
      ensures StaysOccupied(old(vvTried), vvTried) && Shrunk(old(mapInfo), mapInfo)
      ensures (forall id :: id in old(mapInfo) ==> old(mapInfo)[id].addr != addr)
        ==> State() == old(State()) && triedCollisions == old(triedCollisions)
      ensures forall id :: id in old(mapInfo) && old(mapInfo)[id].addr == addr ==>
        MarkedGood(nKey, old(State()), old(triedCollisions), State(), triedCollisions, id, nTime, testBeforeEvict)
      ensures forall id :: id in old(mapInfo) && old(mapInfo)[id].addr == addr ==>
        ReportedGood(nKey, old(State()), State(), id, nTime, testBeforeEvict)
    {
      hide Sound, NewIds, TriedIds, CollisionsOk, StaysOccupied, Advanced, NewTableOk, AddrsMatch, Shaped, ReportedGood;
      nLastGood := nTime;
      NewTableOf(nKey, State(), {});
      StaysSame(vvTried);
      var found, nId := Find(addr.net);
      if found && mapInfo[nId].addr == addr {
        EntryIs(nKey, State(), {}, nId);
        Report(nTime > 0);
        Record(nId, Succeeded(mapInfo[nId], nTime));
        if !mapInfo[nId].fInTried {
          Advance(nId, testBeforeEvict);
        }
        GoodIsReported(nKey, old(State()), old(triedCollisions), State(), triedCollisions, nId, nTime, testBeforeEvict);
      }
    }

    /** Offers an entry that is not tried for the new bucket of a source. */
    method Place(nId: int, source: NetAddr, nNow: int, ghost limbo: set<int>)
      requires Moving(limbo, 0, 0) && limbo <= {nId} && Shaped(vvNew, NEW_BUCKET_COUNT)
      requires nId in mapInfo && !mapInfo[nId].fInTried && mapInfo[nId].nRefCount < NEW_BUCKETS_PER_ADDRESS
      modifies `mapInfo, `mapAddr, `vRandom, `vvNew, `nNew
      ensures Moving({}, 0, 0)
      ensures Placed(nKey, old(State()), State(), nId, source, nNow)
    {
      hide Sound, NewIds, TriedIds, Put, IsTerrible, OthersKept;
      EntryIs(nKey, State(), limbo, nId);
      var info := mapInfo[nId];
      var nUBucket := nKey.NewBucket(info.addr, source);
      var nUBucketPos := nKey.Position(true, nUBucket, info.addr);
      var v := At(vvNew, nUBucket, nUBucketPos);
      if v != -1 {
        NewOccupant(nKey, State(), limbo, nUBucket, nUBucketPos);
      }
      if v != nId {
        var fInsert := v == -1;
        if !fInsert {
          var existing := mapInfo[v];
          fInsert := GivesWay(existing, info, nNow);
        }
        if fInsert {
          Insert(nId, nUBucket, nUBucketPos, limbo);
        } else if info.nRefCount == 0 {
          Delete(nId, limbo, 0, 0);
          assert limbo == {} + {nId};
          LimboGone(nKey, State(), {}, nId);
        }
      }
      if nId !in limbo {
        assert limbo == {};
      }
    }

    /** Clears a slot of the new table and puts an entry there. */
    method Insert(nId: int, nUBucket: int, nUBucketPos: int, ghost limbo: set<int>)
      requires Moving(limbo, 0, 0) && limbo <= {nId} && Slot(vvNew, nUBucket, nUBucketPos)
      requires nId in mapInfo && !mapInfo[nId].fInTried && mapInfo[nId].nRefCount < NEW_BUCKETS_PER_ADDRESS
      requires nKey.Position(true, nUBucket, mapInfo[nId].addr) == nUBucketPos
      requires At(vvNew, nUBucket, nUBucketPos) != nId
      modifies `mapInfo, `mapAddr, `vRandom, `vvNew, `nNew
      ensures Moving({}, 0, 0)
      ensures vvNew == Put(old(vvNew), nUBucket, nUBucketPos, nId)
      ensures Released(old(mapInfo), mapInfo, At(old(vvNew), nUBucket, nUBucketPos), {nId})
      ensures nId in mapInfo
           && SameEntry(mapInfo[nId], old(mapInfo)[nId].(nRefCount := old(mapInfo)[nId].nRefCount + 1))
    {
      hide Sound, NewIds, TriedIds, Put, Released;
      ghost var v := At(vvNew, nUBucket, nUBucketPos);
      ClearNew(nUBucket, nUBucketPos, limbo, 0, 0);
      ReleasedKeeps(old(mapInfo), mapInfo, v, nId);
      FillRef(nKey, State(), limbo, nUBucket, nUBucketPos, nId);
      PutTwice(old(vvNew), nUBucket, nUBucketPos, -1, nId);
      ReleasedThenSet(old(mapInfo), mapInfo, v, nId, mapInfo[nId].(nRefCount := mapInfo[nId].nRefCount + 1));
      assert limbo - {nId} == {};
      mapInfo := mapInfo[nId := mapInfo[nId].(nRefCount := mapInfo[nId].nRefCount + 1)];
      vvNew := Put(vvNew, nUBucket, nUBucketPos, nId);
    }

    // ---- Learning addresses ----

    /** Adds the first sighting of an address: the second branch of Add. */
    method AddNew(addr: Address, source: NetAddr, nTimePenalty: int, nNow: int)
      requires Valid() && addr.svc.net !in mapAddr
      modifies `mapInfo, `mapAddr, `vRandom, `vvNew, `nNew, `nIdCount
      ensures Valid() && nIdCount == old(nIdCount) + 1
      ensures Placed(nKey, FirstSeen(old(State()), addr, source, nTimePenalty), State(), old(nIdCount), source, nNow)
    {
      hide Sound, NewIds, TriedIds, CollisionsOk, NewTableOk, AddrsMatch, Shaped, Placed;
      NewTableOf(nKey, State(), {});
      var nId := Create(addr, source);
      var info := mapInfo[nId].(nTime := Max(0, mapInfo[nId].nTime - nTimePenalty));
      EntryIs(nKey, State(), {nId}, nId);
      StatsKeep(nKey, State(), {nId}, nId, info);
      mapInfo := mapInfo[nId := info];
      nNew := nNew + 1;
      assert mapInfo == old(mapInfo)[nId := info];
      CollisionsCreate(nKey, old(mapInfo), vvTried, old(nIdCount), triedCollisions, info);
      NewTableOf(nKey, State(), {nId});
      ghost var s := State();
      assert s == FirstSeen(old(State()), addr, source, nTimePenalty);
      Place(nId, source, nNow, {nId});
      PlacedShrinks(nKey, s, State(), nId, source, nNow);
      StaysSame(vvTried);
      CollisionsKept(nKey, s.mapInfo, mapInfo, vvTried, vvTried, nIdCount, triedCollisions);
    }

    /** Updates time and services of a known address. */
    method UpdateSeen(before: Info, addr: Address, nTimePenalty: int, nNow: int) returns (info: Info)
      ensures info == Refreshed(before, addr, nTimePenalty, nNow)
      ensures SightedAgain(before, info, addr, nTimePenalty, nNow)
    {
      hide BitOr;
      info := before;
      var fCurrentlyOnline := nNow - addr.nTime < 24 * 60 * 60;
      var nUpdateInterval := if fCurrentlyOnline then 60 * 60 else 24 * 60 * 60;
      if addr.nTime != 0 && (info.nTime == 0 || info.nTime < addr.nTime - nUpdateInterval - nTimePenalty) {
        info := info.(nTime := Max(0, addr.nTime - nTimePenalty));
      }
      info := info.(nServices := BitOr(info.nServices, addr.nServices));
    }

    /** Takes in another sighting of a known address, and decides by a random number whether
        it may enter another new bucket: the first branch of Add. */
    method Refresh(nId: int, addr: Address, nTimePenalty: int, nNow: int, random: nat) returns (proceed: bool)
      requires Valid() && nId in mapInfo
      modifies `mapInfo
      ensures Valid() && mapInfo == old(mapInfo)[nId := Refreshed(old(mapInfo)[nId], addr, nTimePenalty, nNow)]
      ensures Shrunk(old(mapInfo), mapInfo) && SightedAgain(old(mapInfo)[nId], mapInfo[nId], addr, nTimePenalty, nNow)
      ensures proceed <==> MaySpread(mapInfo[nId], addr, random)
    {
      hide Sound, NewIds, TriedIds, CollisionsOk, Refreshed, SightedAgain, Pow;
      EntryIs(nKey, State(), {}, nId);
      RefreshedSame(mapInfo[nId], addr, nTimePenalty, nNow, timely);
      var info := UpdateSeen(mapInfo[nId], addr, nTimePenalty, nNow);
      Record(nId, info);
      if addr.nTime == 0 || (info.nTime != 0 && addr.nTime <= info.nTime) {
        return false;
      }
      if info.fInTried || info.nRefCount == NEW_BUCKETS_PER_ADDRESS {
        return false;
      }
      var nFactor := 1;
      PowNext(2, 0);
      for n := 0 to info.nRefCount
        modifies {}
        invariant nFactor == Pow(2, n) && nFactor >= 1
      {
        PowNext(2, n);
        nFactor := nFactor * 2;
      }
      proceed := !(nFactor > 1 && random % nFactor != 0);
    }

    /** Learns of an address. True exactly for a routable address not known before, even
        when the bucket has no room and the entry is dropped at once. */
    method Add(addr: Address, source: NetAddr, nTimePenalty: int, nNow: int, random: nat) returns (fNew: bool)
      requires Valid()
      modifies `mapInfo, `mapAddr, `vRandom, `vvNew, `nNew, `nIdCount
      ensures Valid()
      ensures fNew <==> addr.svc.net.isRoutable
                        && forall id :: id in old(mapInfo) ==> old(mapInfo)[id].addr.net != addr.svc.net
      ensures fNew ==>
        Placed(nKey, FirstSeen(old(State()), addr, source, nTimePenalty), State(), old(nIdCount), source, nNow)
      ensures fNew ==> nIdCount == old(nIdCount) + 1
      ensures !addr.svc.net.isRoutable ==> State() == old(State())
      ensures !fNew ==> nIdCount == old(nIdCount) && Shrunk(old(mapInfo), mapInfo)
      ensures forall id ::
        id in old(mapInfo) && old(mapInfo)[id].addr.net == addr.svc.net && addr.svc.net.isRoutable ==>
        var info := Refreshed(old(mapInfo)[id], addr, nTimePenalty, nNow);
        var r := old(State()).(mapInfo := old(mapInfo)[id := info]);
        if MaySpread(info, addr, random) then Placed(nKey, r, State(), id, source, nNow) else State() == r
      ensures forall id ::
        id in old(mapInfo) && old(mapInfo)[id].addr.net == addr.svc.net && addr.svc.net.isRoutable ==>
        id in mapInfo && SightedAgain(old(mapInfo)[id], mapInfo[id], addr, nTimePenalty, nNow)
      ensures forall id ::
        id in old(mapInfo) && old(mapInfo)[id].addr.net == addr.svc.net && addr.svc.net.isRoutable ==>
        if MaySpread(Refreshed(old(mapInfo)[id], addr, nTimePenalty, nNow), addr, random)
        then SpreadTo(nKey, old(State()), State(), id, source, nNow) else vvNew == old(vvNew)
      ensures fNew && old(nIdCount) in mapInfo ==>
        SightedFirst(mapInfo[old(nIdCount)], addr, source, nTimePenalty)
      ensures fNew ==> (old(nIdCount) in mapInfo <==> NewSlotOpen(nKey, old(State()), addr.svc, source, nNow))
    {
      hide Sound, NewIds, TriedIds, CollisionsOk, NewTableOk, AddrsMatch, Shaped, Placed, Refreshed, FirstSeen, Pow,
           SightedAgain, SightedFirst, NewSlotOpen, SpreadTo;
      if !addr.svc.net.isRoutable {
        return false;
      }
      NewTableOf(nKey, State(), {});
      var found, nId := Find(addr.svc.net);
      fNew := !found;
      if found {
        var proceed := Refresh(nId, addr, nTimePenalty, nNow, random);
        if proceed {
          ghost var s := State();
          EntryIs(nKey, s, {}, nId);
          PlaceKnown(nId, source, nNow);
          PlacedKnown(nKey, s, State(), nId, source, nNow);
          SpreadIs(nKey, old(State()), s, State(), nId, source, nNow);
          SightedPlaced(old(mapInfo)[nId], s.mapInfo[nId], mapInfo[nId], addr, nTimePenalty, nNow);
        }
      } else {
        ghost var s := State();
        NoId(nKey, s);
        AddNew(addr, source, nTimePenalty, nNow);
        PlacedFirst(nKey, s, State(), addr, source, nTimePenalty, nNow);
      }
    }

    method PlaceKnown(nId: int, source: NetAddr, nNow: int)
      requires Valid() && nId in mapInfo && !mapInfo[nId].fInTried
      requires mapInfo[nId].nRefCount < NEW_BUCKETS_PER_ADDRESS
      modifies `mapInfo, `mapAddr, `vRandom, `vvNew, `nNew
      ensures Valid() && Placed(nKey, old(State()), State(), nId, source, nNow) && Shrunk(old(mapInfo), mapInfo)
    {
      hide Sound, NewIds, TriedIds, CollisionsOk, NewTableOk, AddrsMatch, Shaped, Placed;
      NewTableOf(nKey, State(), {});
      Place(nId, source, nNow, {});
      PlacedShrinks(nKey, old(State()), State(), nId, source, nNow);
      StaysSame(vvTried);
      CollisionsKept(nKey, old(mapInfo), mapInfo, vvTried, vvTried, nIdCount, triedCollisions);
    }

    // ---- Statistics ----

    /** Reports an attempt to connect. */
    method Attempt(addr: Service, fCountFailure: bool, nTime: int)
      requires Valid()
      modifies `mapInfo, `timely
      ensures Valid() && (old(timely) && nTime >= 0 ==> timely) && Shrunk(old(mapInfo), mapInfo)
      ensures mapInfo.Keys == old(mapInfo).Keys
      ensures forall id :: id in old(mapInfo) ==>
        var info := old(mapInfo)[id];
        mapInfo[id] == if info.addr == addr then Attempted(info, fCountFailure, nTime, nLastGood) else info
    {
      hide Valid, Sound, AddrsMatch, EntryOk, SameButStats;
      Parts();
      ShrunkSame(mapInfo);
      var found, nId := Find(addr.net);
      if found && mapInfo[nId].addr == addr {
        EntryIs(nKey, State(), {}, nId);
        AttemptedSame(mapInfo[nId], fCountFailure, nTime, nLastGood, timely);
        var info := mapInfo[nId].(nLastTry := nTime);
        if fCountFailure && info.nLastCountAttempt < nLastGood {
          info := info.(nLastCountAttempt := nTime, nAttempts := info.nAttempts + 1);
        }
        Report(nTime >= 0);
        Record(nId, info);
      }
    }

    /** Reports a connection that is in use: its time is moved on at most every 20 minutes. */
    method Connected(addr: Service, nTime: int)
      requires Valid()
      modifies `mapInfo
      ensures Valid() && Shrunk(old(mapInfo), mapInfo)
      ensures mapInfo.Keys == old(mapInfo).Keys
      ensures forall id :: id in old(mapInfo) ==>
        var info := old(mapInfo)[id];
        mapInfo[id] == if info.addr == addr && nTime - info.nTime > 20 * 60 then info.(nTime := nTime) else info
    {
      hide Sound, NewIds, TriedIds, CollisionsOk, AddrsMatch, NewTableOk;
      NewTableOf(nKey, State(), {});
      var found, nId := Find(addr.net);
      if found && mapInfo[nId].addr == addr && nTime - mapInfo[nId].nTime > 20 * 60 {
        EntryIs(nKey, State(), {}, nId);
        Record(nId, mapInfo[nId].(nTime := nTime));
      }
    }

    // ---- Handing out addresses ----

    /** Swaps two places of the random order. */
    method Shuffle(i: nat, j: nat)
      requires Valid() && i < |vRandom| && j < |vRandom|
      modifies `mapInfo, `vRandom
      ensures Valid() && mapInfo.Keys == old(mapInfo).Keys && OthersKept(old(mapInfo), mapInfo, {})
      ensures vRandom == old(vRandom)[i := old(vRandom)[j]][j := old(vRandom)[i]]
    {
      hide Sound, NewIds, TriedIds, CollisionsOk, NewTableOk, AddrsMatch, StaysOccupied;
      NewTableOf(nKey, State(), {});
      SwapRandom(i, j, {});
      KeptShrinks(old(mapInfo), mapInfo);
      StaysSame(vvTried);
      CollisionsKept(nKey, old(mapInfo), mapInfo, vvTried, vvTried, nIdCount, triedCollisions);
    }

    /** Shuffles the random order just far enough to draw addresses that are not terrible:
        at most a fixed share of all entries, none twice, and all of them if fewer. */
    method GetAddr(nNow: int) returns (vAddr: seq<Service>, ghost ids: seq<int>)
      requires Valid()
      modifies `mapInfo, `vRandom
      ensures Valid() && mapInfo.Keys == old(mapInfo).Keys && OthersKept(old(mapInfo), mapInfo, {})
      ensures |vAddr| <= 2500 && 100 * |vAddr| <= 23 * |old(vRandom)| && Drawn(mapInfo, vAddr, ids, nNow)
      ensures |vAddr| < 2500 && 100 * (|vAddr| + 1) <= 23 * |old(vRandom)| ==>
        forall id :: id in mapInfo && !IsTerrible(mapInfo[id], nNow) ==> id in ids
    {
      hide Sound, NewIds, TriedIds, CollisionsOk, IsTerrible, OthersKept, Drawn, Seen, Valid;
      var nNodes := Share(|vRandom|);
      vAddr, ids := [], [];
      var n := 0;
      NothingDrawn(mapInfo, vRandom, nNow);
      while n < |vRandom| && |vAddr| < nNodes
        invariant Valid() && |vRandom| == |old(vRandom)| && 0 <= n <= |vRandom| && |vAddr| <= nNodes
        invariant mapInfo.Keys == old(mapInfo).Keys && OthersKept(old(mapInfo), mapInfo, {})
        invariant Drawn(mapInfo, vAddr, ids, nNow) && Seen(mapInfo, vRandom[..n], ids, nNow)
        decreases |vRandom| - n
      {
        var nRndPos :| n <= nRndPos < |vRandom|;
        ghost var m, v := mapInfo, vRandom;
        Shuffle(n, nRndPos);
        assert vRandom[..n] == v[..n];
        DrawnKept(m, mapInfo, vRandom[..n], vAddr, ids, nNow);
        KeptTrans(old(mapInfo), m, mapInfo);
        Order(n);
        assert vRandom[..n + 1] == vRandom[..n] + [vRandom[n]];
        DrawNext(mapInfo, vRandom[..n], vRandom[n], vAddr, ids, nNow);
        var ai := mapInfo[vRandom[n]];
        if !IsTerrible(ai, nNow) {
          vAddr, ids := vAddr + [ai.addr], ids + [vRandom[n]];
        }
        n := n + 1;
      }
      if n == |vRandom| {
        assert vRandom[..n] == vRandom;
        AllSeen(ids, nNow);
      }
    }

    lemma Order(n: nat)
      requires Valid() && n < |vRandom|
      ensures vRandom[n] in mapInfo && vRandom[n] !in vRandom[..n]
    {
      hide NewTableOk, TriedTableOk, AddrsMatch, CollisionsOk, EntriesOk;
      assert RandomMatches(mapInfo, vRandom);
    }

    lemma AllSeen(ids: seq<int>, nNow: int)
      requires Valid() && Seen(mapInfo, vRandom, ids, nNow)
      ensures forall id :: id in mapInfo && !IsTerrible(mapInfo[id], nNow) ==> id in ids
    {
      hide NewTableOk, TriedTableOk, AddrsMatch, CollisionsOk, EntriesOk, IsTerrible;
      forall id | id in mapInfo && !IsTerrible(mapInfo[id], nNow)
        ensures id in ids
      {
        assert vRandom[mapInfo[id].nRandomPos] == id;
      }
    }

    // ---- Addresses waiting for a slot of the tried table ----

    /** Looks at one waiting address: one iteration of ResolveCollisions. */
    method ResolveOne(idNew: int, nNow: int) returns (eraseCollision: bool)
      requires Valid()
      modifies this
      ensures Valid() && nIdCount == old(nIdCount) && triedCollisions == old(triedCollisions)
      ensures old(timely) && nNow > 0 ==> timely
      ensures StaysOccupied(old(vvTried), vvTried) && Shrunk(old(mapInfo), mapInfo)
      ensures idNew !in old(mapInfo) || !old(mapInfo)[idNew].addr.net.isValid ==>
        eraseCollision && State() == old(State())
      ensures idNew in old(mapInfo) && old(mapInfo)[idNew].addr.net.isValid ==>
        Resolved(nKey, old(State()), old(triedCollisions), State(), idNew, nNow, eraseCollision)
    {
      hide Sound, NewIds, TriedIds, CollisionsOk, NewTableOk, AddrsMatch, StaysOccupied, MarkedGood;
      NewTableOf(nKey, State(), {});
      StaysSame(vvTried);
      eraseCollision := false;
      if idNew !in mapInfo || !mapInfo[idNew].addr.net.isValid {
        eraseCollision := true;
      } else {
        var infoNew := mapInfo[idNew];
        var triedBucket := nKey.TriedBucket(infoNew.addr);
        var triedBucketPos := nKey.Position(false, triedBucket, infoNew.addr);
        var swap := false;
        if At(vvTried, triedBucket, triedBucketPos) != -1 {
          TriedOccupant(nKey, State(), {}, triedBucket, triedBucketPos);
          var infoOld := mapInfo[At(vvTried, triedBucket, triedBucketPos)];
          if nNow - infoOld.nLastSuccess < REPLACEMENT_HOURS * (60 * 60) {
            eraseCollision := true;
          } else if nNow - infoOld.nLastTry < REPLACEMENT_HOURS * (60 * 60) {
            swap := nNow - infoOld.nLastTry > 60;
          }
        } else {
          swap := true;
        }
        if swap {
          Good(infoNew.addr, false, nNow);
          GoodKeepsWaiting(nKey, old(State()), old(triedCollisions), State(), triedCollisions, idNew, nNow);
          eraseCollision := true;
        }
      }
    }

    /** Goes through the waiting addresses, each of them once; what becomes of it depends on
        the book the ones before it have left. */
    method ResolveCollisions(nNow: int) returns (ghost order: seq<int>, ghost books: seq<(Book, set<int>)>)
      requires Valid()
      modifies this
      ensures Valid() && nIdCount == old(nIdCount) && (old(timely) && nNow > 0 ==> timely)
      ensures StaysOccupied(old(vvTried), vvTried) && Shrunk(old(mapInfo), mapInfo)
      ensures multiset(order) == multiset(old(triedCollisions))
      ensures DecidedRun(nKey, order, books, nNow)
      ensures books[0] == (old(State()), old(triedCollisions)) && books[|order|] == (State(), triedCollisions)
    {
      hide Sound, NewIds, TriedIds, CollisionsOk, NewTableOk, AddrsMatch, StaysOccupied, Resolved, Shrunk, Moving;
      StaysSame(vvTried);
      ShrunkSame(mapInfo);
      var todo := triedCollisions;
      order, books := [], [(State(), triedCollisions)];
      while todo != {}
        invariant Valid() && nIdCount == old(nIdCount) && (old(timely) && nNow > 0 ==> timely)
        invariant StaysOccupied(old(vvTried), vvTried) && Shrunk(old(mapInfo), mapInfo)
        invariant todo <= triedCollisions && multiset(order) + multiset(todo) == multiset(old(triedCollisions))
        invariant DecidedRun(nKey, order, books, nNow)
        invariant books[0] == (old(State()), old(triedCollisions)) && books[|order|] == (State(), triedCollisions)
        decreases |todo|
      {
        ghost var some := PickOne(todo);
        var idNew :| idNew in todo;
        ghost var m, t := mapInfo, vvTried;
        ghost var s, w := State(), triedCollisions;
        var eraseCollision := ResolveOne(idNew, nNow);
        ShrunkTrans(old(mapInfo), m, mapInfo);
        StaysTrans(old(vvTried), t, vvTried);
        if eraseCollision {
          Forget(idNew);
        }
        assert Decided(nKey, s, w, State(), triedCollisions, idNew, nNow);
        todo := todo - {idNew};
        order, books := order + [idNew], books + [(State(), triedCollisions)];
      }
    }

    method Forget(id: int)
      requires Valid()
      modifies `triedCollisions
      ensures Valid() && triedCollisions == old(triedCollisions) - {id}
    {
      hide Sound;
      NewTableOf(nKey, State(), {});
      SetCount(triedCollisions, id);
      triedCollisions := triedCollisions - {id};
    }

    /** Picks the competitor of a waiting address. The slot it waits for is never empty,
        so the competitor is always an entry of the tried table. */
    method SelectTriedCollision() returns (r: Pick)
      requires Valid()
      modifies `triedCollisions
      ensures Valid() && triedCollisions <= old(triedCollisions)
      ensures r.Nothing? && old(triedCollisions) != {} ==>
        exists id :: id in old(triedCollisions) && id !in mapInfo && triedCollisions == old(triedCollisions) - {id}
      ensures r.Picked? ==>
        exists id :: id in triedCollisions && id in mapInfo && Competitor(nKey, mapInfo, vvTried, id, r.info)
      ensures r.Picked? ==> triedCollisions == old(triedCollisions)
    {
      hide Sound, NewIds, TriedIds, NewTableOk, AddrsMatch;
      if triedCollisions == {} {
        return Nothing;
      }
      ghost var some := PickOne(triedCollisions);
      var idNew :| idNew in triedCollisions;
      if idNew !in mapInfo {
        Forget(idNew);
        return Nothing;
      }
      NewTableOf(nKey, State(), {});
      var newInfo := mapInfo[idNew];
      var triedBucket := nKey.TriedBucket(newInfo.addr);
      var triedBucketPos := nKey.Position(false, triedBucket, newInfo.addr);
      TriedOccupant(nKey, State(), {}, triedBucket, triedBucketPos);
      var idOld := At(vvTried, triedBucket, triedBucketPos);
      assert Competitor(nKey, mapInfo, vvTried, idNew, mapInfo[idOld]);
      return Picked(mapInfo[idOld]);
    }
  }

  datatype Pick = Nothing | Picked(info: Info)

  /** The tried entry in the slot an address belongs in. */
  ghost predicate Competitor(k: Key, m: map<int, Info>, t: Table, id: int, info: Info) {
    && id in m && Shaped(t, TRIED_BUCKET_COUNT)
    && var e := TriedSlot(k, t, m[id].addr);
    e != -1 && e in m && m[e] == info && info.fInTried
  }

  /** What a waiting address comes to: its competitor keeps the slot if it worked in the
      last four hours, and loses it if it was tried in that time, but not within the last
      minute, and failed; otherwise nothing is decided yet. */
  ghost predicate Resolved(k: Key, s: Book, waiting: set<int>, s': Book, id: int, nNow: int, erase: bool) {
    && id in s.mapInfo && Shaped(s.vvTried, TRIED_BUCKET_COUNT)
    && var e := TriedSlot(k, s.vvTried, s.mapInfo[id].addr);
    if e in s.mapInfo && nNow - s.mapInfo[e].nLastSuccess < 4 * 3600 then
      erase && s' == s
    else if e in s.mapInfo && !(60 < nNow - s.mapInfo[e].nLastTry < 4 * 3600) then
      !erase && s' == s
    else
      erase && MarkedGood(k, s, waiting, s', waiting, id, nNow, false)
  }

  /** One waiting address looked at: if it is gone or invalid it is forgotten, and else it is
      forgotten exactly if it was decided about. */
  ghost predicate Decided(k: Key, s: Book, w: set<int>, s': Book, w': set<int>, id: int, nNow: int) {
    if id !in s.mapInfo || !s.mapInfo[id].addr.net.isValid then s' == s && w' == w - {id}
    else Resolved(k, s, w, s', id, nNow, id !in w') && w' == if id in w' then w else w - {id}
  }

  /** Each of some addresses looked at, in order. */
  ghost predicate DecidedRun(k: Key, order: seq<int>, books: seq<(Book, set<int>)>, nNow: int) {
    && |books| == |order| + 1
    && forall i :: 0 <= i < |order| ==>
         Decided(k, books[i].0, books[i].1, books[i + 1].0, books[i + 1].1, order[i], nNow)
  }

  lemma GoodKeepsWaiting(k: Key, s: Book, w: set<int>, s': Book, w': set<int>, id: int, nTime: int)
    requires MarkedGood(k, s, w, s', w', id, nTime, false)
    ensures w' == w
  {
    hide Promoted;
  }

  lemma ShrunkSame(m: map<int, Info>)
    ensures Shrunk(m, m)
  {
  }

  /** The largest number of addresses handed out. */
  function Share(entries: nat): int {
    var share := GETADDR_MAX_PCT * entries / 100;
    if share > GETADDR_MAX then GETADDR_MAX else share
  }

  /** The addresses are those of the given entries, which are distinct and not terrible. */
  ghost predicate Drawn(m: map<int, Info>, vAddr: seq<Service>, ids: seq<int>, nNow: int) {
    && |ids| == |vAddr|
    && (forall i :: 0 <= i < |ids| ==> ids[i] in m && vAddr[i] == m[ids[i]].addr && !IsTerrible(m[ids[i]], nNow))
    && (forall i, j :: 0 <= i < j < |ids| ==> ids[i] != ids[j])
  }

  /** The entries drawn so far are exactly those of the places seen that are not terrible. */
  ghost predicate Seen(m: map<int, Info>, v: seq<int>, ids: seq<int>, nNow: int) {
    && (forall i :: 0 <= i < |ids| ==> ids[i] in v)
    && (forall i :: 0 <= i < |v| ==> v[i] in m && (IsTerrible(m[v[i]], nNow) || v[i] in ids))
  }

  lemma NothingDrawn(m: map<int, Info>, v: seq<int>, nNow: int)
    ensures Drawn(m, [], [], nNow) && Seen(m, v[..0], [], nNow) && OthersKept(m, m, {})
  {
  }

  lemma DrawnKept(m: map<int, Info>, m': map<int, Info>, v: seq<int>, vAddr: seq<Service>, ids: seq<int>, nNow: int)
    requires Drawn(m, vAddr, ids, nNow) && Seen(m, v, ids, nNow) && OthersKept(m, m', {})
    ensures Drawn(m', vAddr, ids, nNow) && Seen(m', v, ids, nNow)
  {
    assert forall id :: id in m ==>
      id in m' && IsTerrible(m'[id], nNow) == IsTerrible(m[id], nNow) && m'[id].addr == m[id].addr;
  }

  lemma DrawNext(m: map<int, Info>, v: seq<int>, id: int, vAddr: seq<Service>, ids: seq<int>, nNow: int)
    requires Drawn(m, vAddr, ids, nNow) && Seen(m, v, ids, nNow) && id in m && id !in v
    ensures if IsTerrible(m[id], nNow) then Seen(m, v + [id], ids, nNow)
            else Drawn(m, vAddr + [m[id].addr], ids + [id], nNow) && Seen(m, v + [id], ids + [id], nNow)
  {
    hide IsTerrible;
    assert id !in ids;
  }

  lemma KeptTrans(m: map<int, Info>, m1: map<int, Info>, m2: map<int, Info>)
    requires OthersKept(m, m1, {}) && OthersKept(m1, m2, {})
    ensures OthersKept(m, m2, {})
  {
  }

  lemma KeptShrinks(m: map<int, Info>, m': map<int, Info>)
    requires OthersKept(m, m', {}) && m'.Keys == m.Keys
    ensures Shrunk(m, m')
  {
    assert forall id :: id in m' <==> id in m;
  }

  /** Whether a new bucket holds an entry. */
  predicate Holds(vvNew: Table, nKey: Key, nId: int, addr: Service, bucket: int)
    requires Shaped(vvNew, NEW_BUCKET_COUNT) && 0 <= bucket < NEW_BUCKET_COUNT
  {
    At(vvNew, bucket, nKey.Position(true, bucket, addr)) == nId
  }

  /** An entry as it is created: no attempts, no references, not tried. */
  function NewInfo(addr: Address, source: NetAddr, nRandomPos: int): Info {
    Info(addr.svc, addr.nServices, addr.nTime, source, 0, 0, 0, 0, 0, false, nRandomPos)
  }

  /** The book with an address seen for the first time, in no table yet. */
  ghost function FirstSeen(s: Book, addr: Address, source: NetAddr, nTimePenalty: int): Book {
    var info := NewInfo(addr, source, |s.vRandom|).(nTime := Max(0, addr.nTime - nTimePenalty));
    s.(mapInfo := s.mapInfo[s.nIdCount := info], mapAddr := s.mapAddr[addr.svc.net := s.nIdCount],
       vRandom := s.vRandom + [s.nIdCount], nIdCount := s.nIdCount + 1)
  }

  /** Whether a known address may enter another new bucket: there is news of it, it is not
      tried, it has fewer than eight references, and a random number falls into one of as
      many equal shares as two to the power of its references. */
  predicate MaySpread(info: Info, addr: Address, random: nat) {
    && addr.nTime != 0 && (info.nTime == 0 || info.nTime < addr.nTime)
    && !info.fInTried && 0 <= info.nRefCount < 8
    && (PowPositive(2, info.nRefCount); random % Pow(2, info.nRefCount) == 0)
  }

  lemma RefreshedSame(info: Info, addr: Address, nTimePenalty: int, nNow: int, timely: bool)
    ensures var r := Refreshed(info, addr, nTimePenalty, nNow);
            SameButStats(r, info) && (EntryOk(info, false, timely) ==> EntryOk(r, false, timely))
  {
  }

  /** An attempt is counted as a failure at most once since the last success anywhere. */
  function Attempted(info: Info, fCountFailure: bool, nTime: int, nLastGood: int): Info {
    if fCountFailure && info.nLastCountAttempt < nLastGood
    then info.(nLastTry := nTime, nLastCountAttempt := nTime, nAttempts := info.nAttempts + 1)
    else info.(nLastTry := nTime)
  }

  lemma AttemptedSame(info: Info, fCountFailure: bool, nTime: int, nLastGood: int, timely: bool)
    ensures var r := Attempted(info, fCountFailure, nTime, nLastGood);
            SameButStats(r, info) && (EntryOk(info, false, timely) ==> EntryOk(r, false, timely && nTime >= 0))
  {
  }

  /** What a reported success leaves: the entry has that time as its last try and success, no
      attempts, and is otherwise the same. If it was not tried and its slot of the tried table
      is taken and to be tested, it stays new; otherwise it is tried, in that slot, and an
      occupant of the slot is back among the new ones. */
  ghost predicate ReportedGood(k: Key, s: Book, s': Book, id: int, nTime: int, test: bool) {
    && id in s.mapInfo && id in s'.mapInfo && Shaped(s.vvTried, 256) && Shaped(s'.vvTried, 256)
    && var info, now := s.mapInfo[id], s'.mapInfo[id];
    var b := k.triedGroupHash(k.group(info.addr.net), k.triedHash(info.addr) % 8) % 256;
    var p := k.positionHash(false, b, info.addr) % 64;
    var e := At(s.vvTried, b, p);
    && now.nLastTry == nTime && now.nLastSuccess == nTime && now.nAttempts == 0
    && now == info.(nLastTry := nTime, nLastSuccess := nTime, nAttempts := 0, fInTried := now.fInTried,
                    nRefCount := now.nRefCount, nRandomPos := now.nRandomPos)
    && (now.fInTried <==> info.fInTried || !(test && e != -1))
    && (now.fInTried && !info.fInTried ==>
          At(s'.vvTried, b, p) == id && (e != -1 ==> e in s'.mapInfo && (e != id ==> !s'.mapInfo[e].fInTried)))
  }

  lemma GoodIsReported(
    k: Key, s: Book, w: set<int>, s': Book, w': set<int>, id: int, nTime: int, test: bool)
    requires MarkedGood(k, s, w, s', w', id, nTime, test) && Shaped(s.vvTried, TRIED_BUCKET_COUNT)
    ensures ReportedGood(k, s, s', id, nTime, test)
  {
    hide Released, OthersKept, WithoutId;
  }

  /** What another sighting does to the entry of a known address. Its time never falls, is
      moved to the time reported, less the penalty, exactly if that is news of more than an
      hour for an address seen within a day and of more than a day otherwise, and is then never
      behind by more; its services are joined; the rest is kept, but for its places. */
  ghost predicate SightedAgain(before: Info, now: Info, addr: Address, nTimePenalty: int, nNow: int) {
    var interval := if nNow - addr.nTime < 86400 then 3600 else 86400;
    && now.nTime >= before.nTime
    && (addr.nTime != 0 ==> now.nTime >= addr.nTime - nTimePenalty - interval)
    && (if addr.nTime != 0 && (before.nTime == 0 || addr.nTime - nTimePenalty - before.nTime > interval)
        then now.nTime == if addr.nTime > nTimePenalty then addr.nTime - nTimePenalty else 0
        else now.nTime == before.nTime)
    && now.nServices == BitOr(before.nServices, addr.nServices)
    && now == before.(nTime := now.nTime, nServices := now.nServices, nRefCount := now.nRefCount,
                      nRandomPos := now.nRandomPos)
  }

  /** The entry of an address seen for the first time and kept: dated back by the penalty, but
      not before 1970, never tried, and in one bucket. */
  ghost predicate SightedFirst(info: Info, addr: Address, source: NetAddr, nTimePenalty: int) {
    && info.addr == addr.svc && info.nServices == addr.nServices && info.source == source
    && info.nTime == (if addr.nTime - nTimePenalty > 0 then addr.nTime - nTimePenalty else 0)
    && info.nLastTry == 0 && info.nLastSuccess == 0 && info.nLastCountAttempt == 0 && info.nAttempts == 0
    && info.nRefCount == 1 && !info.fInTried
  }

  /** The slot an address told by a source belongs in is empty, or its occupant is terrible or
      also elsewhere. */
  ghost predicate NewSlotOpen(k: Key, s: Book, a: Service, source: NetAddr, nNow: int) {
    && Shaped(s.vvNew, 1024)
    && var b := k.newGroupHash(k.group(source), k.newHash(k.group(a.net), k.group(source)) % 64) % 1024;
    var v := At(s.vvNew, b, k.positionHash(true, b, a) % 64);
    v == -1 || (v in s.mapInfo && (IsTerrible(s.mapInfo[v], nNow) || s.mapInfo[v].nRefCount > 1))
  }

  /** The bucket of a known address told by another source holds it afterwards exactly if it
      did before, was empty there, or held a terrible entry there. */
  ghost predicate SpreadTo(k: Key, s: Book, s': Book, id: int, source: NetAddr, nNow: int) {
    && id in s.mapInfo && Shaped(s.vvNew, 1024) && Shaped(s'.vvNew, 1024)
    && var a := s.mapInfo[id].addr;
    var b := k.newGroupHash(k.group(source), k.newHash(k.group(a.net), k.group(source)) % 64) % 1024;
    var p := k.positionHash(true, b, a) % 64;
    var v := At(s.vvNew, b, p);
    At(s'.vvNew, b, p) == id <==> v == id || v == -1 || (v in s.mapInfo && IsTerrible(s.mapInfo[v], nNow))
  }

  lemma SpreadIs(k: Key, s0: Book, s: Book, s': Book, id: int, source: NetAddr, nNow: int)
    requires Placed(k, s, s', id, source, nNow) && s.mapInfo[id].nRefCount > 0
    requires s == s0.(mapInfo := s.mapInfo) && id in s0.mapInfo && s.mapInfo == s0.mapInfo[id := s.mapInfo[id]]
    requires s.mapInfo[id].addr == s0.mapInfo[id].addr
    ensures SpreadTo(k, s0, s', id, source, nNow)
  {
    hide IsTerrible, Released;
  }

  /** A known entry that is placed keeps all but its references and its place. */
  lemma PlacedKnown(k: Key, s: Book, s': Book, id: int, source: NetAddr, nNow: int)
    requires Placed(k, s, s', id, source, nNow) && s.mapInfo[id].nRefCount > 0
    ensures id in s'.mapInfo
    ensures s'.mapInfo[id] == s.mapInfo[id].(nRefCount := s'.mapInfo[id].nRefCount,
                                             nRandomPos := s'.mapInfo[id].nRandomPos)
  {
    hide Put, IsTerrible, Released;
  }

  lemma SightedPlaced(before: Info, now: Info, later: Info, addr: Address, nTimePenalty: int, nNow: int)
    requires SightedAgain(before, now, addr, nTimePenalty, nNow)
    requires later == now.(nRefCount := later.nRefCount, nRandomPos := later.nRandomPos)
    ensures SightedAgain(before, later, addr, nTimePenalty, nNow)
  {
  }

  /** The next id is in neither table. */
  lemma NoId(k: Key, s: Book)
    requires Sound(k, s, {})
    ensures s.nIdCount !in s.mapInfo && Shaped(s.vvNew, NEW_BUCKET_COUNT)
    ensures forall b, p :: Slot(s.vvNew, b, p) ==> At(s.vvNew, b, p) == -1 || At(s.vvNew, b, p) in s.mapInfo
  {
    forall b, p | Slot(s.vvNew, b, p)
      ensures At(s.vvNew, b, p) == -1 || At(s.vvNew, b, p) in s.mapInfo
    {
      assert NewSlotOk(k, s.mapInfo, b, p, At(s.vvNew, b, p));
    }
  }

  lemma PlacedFirst(k: Key, s: Book, s': Book, addr: Address, source: NetAddr, nTimePenalty: int, nNow: int)
    requires s.nIdCount !in s.mapInfo && Shaped(s.vvNew, NEW_BUCKET_COUNT)
    requires forall b, p :: Slot(s.vvNew, b, p) ==> At(s.vvNew, b, p) == -1 || At(s.vvNew, b, p) in s.mapInfo
    requires Placed(k, FirstSeen(s, addr, source, nTimePenalty), s', s.nIdCount, source, nNow) && s.nIdCount >= 0
    ensures s.nIdCount in s'.mapInfo <==> NewSlotOpen(k, s, addr.svc, source, nNow)
    ensures s.nIdCount in s'.mapInfo ==> SightedFirst(s'.mapInfo[s.nIdCount], addr, source, nTimePenalty)
  {
    hide IsTerrible, Put, Released;
    var b := k.NewBucket(addr.svc, source);
    var p := k.Position(true, b, addr.svc);
    assert Slot(s.vvNew, b, p);
  }

  /** The entry of a known address after another sighting of it. */
  function Refreshed(info: Info, addr: Address, nTimePenalty: int, nNow: int): Info {
    var nUpdateInterval := if nNow - addr.nTime < 24 * 60 * 60 then 60 * 60 else 24 * 60 * 60;
    var seen :=
      if addr.nTime != 0 && (info.nTime == 0 || info.nTime < addr.nTime - nUpdateInterval - nTimePenalty)
      then info.(nTime := Max(0, addr.nTime - nTimePenalty)) else info;
    seen.(nServices := BitOr(seen.nServices, addr.nServices))
  }
}
