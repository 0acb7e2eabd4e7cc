/** The address manager's tables as values: entries, the two bucket tables, the random
    order and the consistency conditions between them. */
module AddrTables {
  import opened Finite
  import opened Powers

  const NEW_BUCKET_COUNT := 1024
  const TRIED_BUCKET_COUNT := 256
  const BUCKET_SIZE := 64
  const NEW_BUCKETS_PER_ADDRESS := 8
  const HORIZON_DAYS := 30
  const RETRIES := 3
  const MAX_FAILURES := 10
  const MIN_FAIL_DAYS := 7

  datatype NetAddr = NetAddr(ip: seq<nat>, isValid: bool, isRoutable: bool)

  datatype Service = Service(net: NetAddr, port: nat)

  datatype Info = Info(
    addr: Service, nServices: nat, nTime: int, source: NetAddr, nLastTry: int, nLastSuccess: int,
    nLastCountAttempt: int, nAttempts: int, nRefCount: int, fInTried: bool, nRandomPos: int)

  const TRIED_BUCKETS_PER_GROUP := 8
  const NEW_BUCKETS_PER_SOURCE_GROUP := 64

  /** The secret key, as the keyed hashes the buckets and positions are taken from, and the
      network group of an address. */
  datatype Key = Key(
    group: NetAddr -> nat, triedHash: Service -> nat, triedGroupHash: (nat, nat) -> nat, newHash: (nat, nat) -> nat,
    newGroupHash: (nat, nat) -> nat, positionHash: (bool, int, Service) -> nat)
  {
    function NewBucket(a: Service, source: NetAddr): (b: int)
      ensures 0 <= b < NEW_BUCKET_COUNT
    {
      var hash1 := newHash(group(a.net), group(source));
      newGroupHash(group(source), hash1 % NEW_BUCKETS_PER_SOURCE_GROUP) % NEW_BUCKET_COUNT
    }

    function TriedBucket(a: Service): (b: int)
      ensures 0 <= b < TRIED_BUCKET_COUNT
    {
      triedGroupHash(group(a.net), triedHash(a) % TRIED_BUCKETS_PER_GROUP) % TRIED_BUCKET_COUNT
    }

    function Position(isNew: bool, bucket: int, a: Service): (p: int)
      ensures 0 <= p < BUCKET_SIZE
    {
      positionHash(isNew, bucket, a) % BUCKET_SIZE
    }
  }

  /** Whether the statistics of an entry are bad enough to drop it. */
  predicate IsTerrible(info: Info, nNow: int) {
    if info.nLastTry != 0 && info.nLastTry >= nNow - 60 then false
    else if info.nTime > nNow + 10 * 60 then true
    else if info.nTime == 0 || nNow - info.nTime > HORIZON_DAYS * 24 * 60 * 60 then true
    else if info.nLastSuccess == 0 && info.nAttempts >= RETRIES then true
    else nNow - info.nLastSuccess > MIN_FAIL_DAYS * 24 * 60 * 60 && info.nAttempts >= MAX_FAILURES
  }

  /** An entry is terrible unless it was tried within the last minute, and if it is dated more
      than ten minutes ahead, has no date or none within thirty days, has failed three times
      without a success, or ten times with the last success over a week ago. */
  lemma TerribleExactly(info: Info, nNow: int)
    ensures IsTerrible(info, nNow) <==>
      && !(info.nLastTry != 0 && nNow - info.nLastTry <= 60)
      && (|| info.nTime - nNow > 600
          || info.nTime == 0
          || nNow - info.nTime > 2592000
          || (info.nAttempts >= 3 && info.nLastSuccess == 0)
          || (info.nAttempts >= 10 && nNow - info.nLastSuccess > 604800))
  {
  }

  // ---- Buckets and groups ----

  /** An address of a network group can be tried in a bucket ... */
  ghost predicate TriedIn(k: Key, g: nat, b: int) {
    exists a: Service :: k.TriedBucket(a) == b && k.group(a.net) == g
  }

  /** ... or, told by a source of the group, new in it. */
  ghost predicate NewIn(k: Key, g: nat, b: int) {
    exists a: Service, source :: k.NewBucket(a, source) == b && k.group(source) == g
  }

  lemma {:induction false} ImageAtMost(s: set<int>, f: nat -> int, n: nat)
    requires forall b :: b in s ==> exists i: nat :: i < n && f(i) == b
    ensures |s| <= n
  {
    if s != {} {
      var x := PickOne(s);
      var i: nat :| i < n && f(i) == x;
      ImageAtMost(s - {f(n - 1)}, f, n - 1);
    }
  }

  /** One network group reaches at most eight of the 256 tried buckets, and one source group
      at most 64 of the 1024 new ones, whatever the hashes are. */
  lemma GroupsAreConfined(k: Key, g: nat)
    ensures |set b | 0 <= b < 256 && TriedIn(k, g, b)| <= 8
    ensures |set b | 0 <= b < 1024 && NewIn(k, g, b)| <= 64
  {
    var tried := set b | 0 <= b < 256 && TriedIn(k, g, b);
    var f := (i: nat) => k.triedGroupHash(g, i) % 256;
    forall b | b in tried
      ensures exists i: nat :: i < 8 && f(i) == b
    {
      var a: Service :| k.TriedBucket(a) == b && k.group(a.net) == g;
      assert f(k.triedHash(a) % 8) == b;
    }
    ImageAtMost(tried, f, 8);
    var told := set b | 0 <= b < 1024 && NewIn(k, g, b);
    var h := (i: nat) => k.newGroupHash(g, i) % 1024;
    forall b | b in told
      ensures exists i: nat :: i < 64 && h(i) == b
    {
      var a: Service, source :| k.NewBucket(a, source) == b && k.group(source) == g;
      assert h(k.newHash(k.group(a.net), g) % 64) == b;
    }
    ImageAtMost(told, h, 64);
  }

  // ---- Bucket tables: -1 marks an empty slot ----

  type Table = seq<seq<int>>

  predicate Shaped(t: Table, buckets: int) {
    |t| == buckets && forall b :: 0 <= b < buckets ==> |t[b]| == BUCKET_SIZE
  }

  predicate Slot(t: Table, b: int, p: int) {
    0 <= b < |t| && 0 <= p < |t[b]|
  }

  function At(t: Table, b: int, p: int): int
    requires Slot(t, b, p)
  {
    t[b][p]
  }

  function Put(t: Table, b: int, p: int, v: int): (r: Table)
    requires Slot(t, b, p)
    ensures |r| == |t| && forall b' :: 0 <= b' < |t| ==> |r[b']| == |t[b']|
    ensures At(r, b, p) == v
    ensures forall b', p' :: Slot(t, b', p') && (b', p') != (b, p) ==> At(r, b', p') == At(t, b', p')
  {
    t[b := t[b][p := v]]
  }

  // ---- Consistency ----

  ghost function NewIds(m: map<int, Info>): set<int> {
    set id | id in m && !m[id].fInTried
  }

  ghost function TriedIds(m: map<int, Info>): set<int> {
    set id | id in m && m[id].fInTried
  }

  /** mapAddr is the inverse of mapInfo. */
  ghost predicate AddrsMatch(m: map<int, Info>, mapAddr: map<NetAddr, int>) {
    && (forall id :: id in m ==> m[id].addr.net in mapAddr && mapAddr[m[id].addr.net] == id)
    && (forall a :: a in mapAddr ==> mapAddr[a] in m && m[mapAddr[a]].addr.net == a)
  }

  /** vRandom lists every entry once, at its nRandomPos. */
  ghost predicate RandomMatches(m: map<int, Info>, vRandom: seq<int>) {
    && |vRandom| == |m|
    && (forall id :: id in m ==> 0 <= m[id].nRandomPos < |vRandom| && vRandom[m[id].nRandomPos] == id)
    && (forall i :: 0 <= i < |vRandom| ==> vRandom[i] in m && m[vRandom[i]].nRandomPos == i)
  }

  ghost predicate NewSlotOk(k: Key, m: map<int, Info>, b: int, p: int, id: int) {
    id != -1 ==> id in m && !m[id].fInTried && k.Position(true, b, m[id].addr) == p
  }

  /** The new buckets that hold an entry. */
  ghost function Buckets(k: Key, t: Table, id: int, a: Service): set<int>
    requires Shaped(t, NEW_BUCKET_COUNT)
  {
    set b | 0 <= b < NEW_BUCKET_COUNT && At(t, b, k.Position(true, b, a)) == id
  }

  ghost predicate RefsOk(k: Key, m: map<int, Info>, t: Table, id: int)
    requires Shaped(t, NEW_BUCKET_COUNT) && id in m
  {
    m[id].nRefCount == if m[id].fInTried then 0 else |Buckets(k, t, id, m[id].addr)|
  }

  /** Every slot of the new table holds an entry that is not tried, at its own position,
      and reference counts count the slots. */
  ghost predicate NewTableOk(k: Key, m: map<int, Info>, t: Table) {
    && Shaped(t, NEW_BUCKET_COUNT)
    && (forall b, p :: Slot(t, b, p) ==> NewSlotOk(k, m, b, p, At(t, b, p)))
    && (forall id :: id in m ==> RefsOk(k, m, t, id))
  }

  ghost predicate TriedSlotOk(k: Key, m: map<int, Info>, b: int, p: int, id: int) {
    id != -1 ==> && id in m && m[id].fInTried
                 && k.TriedBucket(m[id].addr) == b && k.Position(false, b, m[id].addr) == p
  }

  /** The slot of the tried table an address belongs in. */
  function TriedSlot(k: Key, t: Table, a: Service): int
    requires Shaped(t, TRIED_BUCKET_COUNT)
  {
    var b := k.TriedBucket(a);
    At(t, b, k.Position(false, b, a))
  }

  /** Tried entries and occupied slots of the tried table are the same thing. */
  ghost predicate TriedTableOk(k: Key, m: map<int, Info>, t: Table) {
    && Shaped(t, TRIED_BUCKET_COUNT)
    && (forall b, p :: Slot(t, b, p) ==> TriedSlotOk(k, m, b, p, At(t, b, p)))
    && (forall id :: id in m && m[id].fInTried ==> TriedSlot(k, t, m[id].addr) == id)
  }

  /** The times the self check accepts. */
  ghost predicate TimesOk(info: Info) {
    0 <= info.nLastTry && 0 <= info.nLastSuccess && (info.fInTried ==> info.nLastSuccess != 0)
  }

  /** The times are in order as long as only proper times have been reported. */
  ghost predicate EntryOk(info: Info, isLimbo: bool, timely: bool) {
    && (timely ==> TimesOk(info))
    && (if isLimbo then !info.fInTried && info.nRefCount == 0
        else if info.fInTried then info.nRefCount == 0
        else 1 <= info.nRefCount <= NEW_BUCKETS_PER_ADDRESS)
  }

  /** Entries in limbo are being moved: they are in neither table. */
  ghost predicate EntriesOk(m: map<int, Info>, nIdCount: int, limbo: set<int>, timely: bool) {
    forall id :: id in m ==> 0 <= id < nIdCount && EntryOk(m[id], id in limbo, timely)
  }

  /** Entries only disappear, and keep their address. */
  ghost predicate Shrunk(m: map<int, Info>, m': map<int, Info>) {
    forall id :: id in m' ==> id in m && m'[id].addr == m[id].addr
  }

  /** An address waiting to enter the tried table waits for an occupied slot. */
  ghost predicate CollisionsOk(k: Key, m: map<int, Info>, t: Table, nIdCount: int, waiting: set<int>)
    requires Shaped(t, TRIED_BUCKET_COUNT)
  {
    forall id :: id in waiting ==> id < nIdCount && (id in m ==> TriedSlot(k, t, m[id].addr) != -1)
  }

  /** Occupied slots stay occupied. */
  ghost predicate StaysOccupied(t: Table, t': Table) {
    forall b, p :: Slot(t, b, p) ==> Slot(t', b, p) && (At(t, b, p) != -1 ==> At(t', b, p) != -1)
  }

  // ---- How the conditions move ----

  lemma CollisionsKept(k: Key, m: map<int, Info>, m': map<int, Info>, t: Table, t': Table, nIdCount: int, w: set<int>)
    requires Shaped(t, TRIED_BUCKET_COUNT) && Shaped(t', TRIED_BUCKET_COUNT)
    requires CollisionsOk(k, m, t, nIdCount, w) && Shrunk(m, m') && StaysOccupied(t, t')
    ensures CollisionsOk(k, m', t', nIdCount, w)
  {
    forall id | id in w && id in m'
      ensures TriedSlot(k, t', m'[id].addr) != -1
    {
      var b := k.TriedBucket(m[id].addr);
      assert Slot(t, b, k.Position(false, b, m[id].addr));
    }
  }

  /** What writing one slot does to the buckets of an entry. */
  lemma BucketsPut(k: Key, t: Table, b: int, p: int, v: int, id: int, a: Service)
    requires Shaped(t, NEW_BUCKET_COUNT) && Slot(t, b, p)
    ensures Shaped(Put(t, b, p, v), NEW_BUCKET_COUNT)
    ensures Buckets(k, Put(t, b, p, v), id, a)
         == if k.Position(true, b, a) != p then Buckets(k, t, id, a)
            else if v == id then Buckets(k, t, id, a) + {b} else Buckets(k, t, id, a) - {b}
  {
    var t' := Put(t, b, p, v);
    forall x | 0 <= x < NEW_BUCKET_COUNT && (x != b || k.Position(true, b, a) != p)
      ensures At(t', x, k.Position(true, x, a)) == At(t, x, k.Position(true, x, a))
    {
      assert Slot(t, x, k.Position(true, x, a));
    }
  }

  lemma SetCount(s: set<int>, b: int)
    ensures |s + {b}| == |s| + One(b !in s)
    ensures |s - {b}| == |s| - One(b in s)
  {
    if b in s {
      assert s + {b} == s;
    } else {
      assert s - {b} == s;
    }
  }

  /** How many buckets hold an entry after one slot is written. */
  lemma CountPut(k: Key, t: Table, b: int, p: int, v: int, id: int, a: Service)
    requires Shaped(t, NEW_BUCKET_COUNT) && Slot(t, b, p)
    ensures Shaped(Put(t, b, p, v), NEW_BUCKET_COUNT)
    ensures |Buckets(k, Put(t, b, p, v), id, a)| == |Buckets(k, t, id, a)|
              - One(k.Position(true, b, a) == p && At(t, b, p) == id) + One(k.Position(true, b, a) == p && v == id)
  {
    BucketsPut(k, t, b, p, v, id, a);
    assert k.Position(true, b, a) == p ==> (b in Buckets(k, t, id, a) <==> At(t, b, p) == id);
    SetCount(Buckets(k, t, id, a), b);
  }

  /** Emptying an occupied slot together with one reference of its entry. */
  lemma ClearSlotKeeps(k: Key, m: map<int, Info>, t: Table, b: int, p: int)
    requires NewTableOk(k, m, t) && -1 !in m && Slot(t, b, p) && At(t, b, p) != -1
    ensures var id := At(t, b, p);
            && id in m && m[id].nRefCount > 0
            && NewTableOk(k, m[id := m[id].(nRefCount := m[id].nRefCount - 1)], Put(t, b, p, -1))
  {
    var id := At(t, b, p);
    assert NewSlotOk(k, m, b, p, id);
    var m' := m[id := m[id].(nRefCount := m[id].nRefCount - 1)];
    var t' := Put(t, b, p, -1);
    assert b in Buckets(k, t, id, m[id].addr);
    hide Buckets, Put;
    forall x | x in m
      ensures RefsOk(k, m', t', x)
    {
      CountPut(k, t, b, p, -1, x, m[x].addr);
      assert RefsOk(k, m, t, x);
    }
    SlotsKept(k, m, m', t, b, p, -1);
  }

  /** Putting an entry that is not tried into an empty slot at its position. */
  lemma FillSlotKeeps(k: Key, m: map<int, Info>, t: Table, b: int, p: int, id: int)
    requires NewTableOk(k, m, t) && -1 !in m && Slot(t, b, p) && At(t, b, p) == -1
    requires id in m && !m[id].fInTried && k.Position(true, b, m[id].addr) == p
    ensures NewTableOk(k, m[id := m[id].(nRefCount := m[id].nRefCount + 1)], Put(t, b, p, id))
  {
    var m' := m[id := m[id].(nRefCount := m[id].nRefCount + 1)];
    var t' := Put(t, b, p, id);
    hide Buckets, Put;
    forall x | x in m
      ensures RefsOk(k, m', t', x)
    {
      CountPut(k, t, b, p, id, x, m[x].addr);
      assert RefsOk(k, m, t, x);
    }
    SlotsKept(k, m, m', t, b, p, id);
  }

  /** Slots other than the one written stay consistent when entries keep address and side. */
  lemma SlotsKept(k: Key, m: map<int, Info>, m': map<int, Info>, t: Table, b: int, p: int, v: int)
    requires Slot(t, b, p) && NewSlotOk(k, m', b, p, v)
    requires forall x, y :: Slot(t, x, y) ==> NewSlotOk(k, m, x, y, At(t, x, y))
    requires forall id :: id in m ==> id in m' && m'[id].addr == m[id].addr && m'[id].fInTried == m[id].fInTried
    ensures var t' := Put(t, b, p, v); forall x, y :: Slot(t', x, y) ==> NewSlotOk(k, m', x, y, At(t', x, y))
  {
    var t' := Put(t, b, p, v);
    forall x, y | Slot(t', x, y)
      ensures NewSlotOk(k, m', x, y, At(t', x, y))
    {
      assert Slot(t, x, y);
      assert NewSlotOk(k, m, x, y, At(t, x, y));
    }
  }

  /** No reference is left once no bucket holds the entry. */
  lemma NoBuckets(k: Key, m: map<int, Info>, t: Table, id: int)
    requires NewTableOk(k, m, t) && id in m && !m[id].fInTried
    requires forall b :: 0 <= b < NEW_BUCKET_COUNT ==> At(t, b, k.Position(true, b, m[id].addr)) != id
    ensures m[id].nRefCount == 0
  {
    assert RefsOk(k, m, t, id);
    assert Buckets(k, t, id, m[id].addr) == {};
  }

  /** An entry with references is found by scanning the buckets. */
  lemma SomeBucket(k: Key, m: map<int, Info>, t: Table, id: int) returns (b: int)
    requires NewTableOk(k, m, t) && id in m && !m[id].fInTried && m[id].nRefCount > 0
    ensures 0 <= b < NEW_BUCKET_COUNT && At(t, b, k.Position(true, b, m[id].addr)) == id
  {
    assert RefsOk(k, m, t, id);
    b :| b in Buckets(k, t, id, m[id].addr);
  }

  /** An entry without references is in no slot of the new table. */
  lemma NoSlot(k: Key, m: map<int, Info>, t: Table, id: int, b: int, p: int)
    requires NewTableOk(k, m, t) && id in m && m[id].nRefCount == 0 && id != -1 && Slot(t, b, p)
    ensures At(t, b, p) != id
  {
    assert RefsOk(k, m, t, id);
    assert NewSlotOk(k, m, b, p, At(t, b, p));
    assert Buckets(k, t, id, m[id].addr) == {};
    assert b !in Buckets(k, t, id, m[id].addr);
  }

  // ---- The whole book ----

  datatype Book = Book(
    mapInfo: map<int, Info>, mapAddr: map<NetAddr, int>, vRandom: seq<int>, vvNew: Table, vvTried: Table, nIdCount: int,
    timely: bool)

  ghost predicate Sound(k: Key, s: Book, limbo: set<int>) {
    && AddrsMatch(s.mapInfo, s.mapAddr)
    && RandomMatches(s.mapInfo, s.vRandom)
    && NewTableOk(k, s.mapInfo, s.vvNew)
    && TriedTableOk(k, s.mapInfo, s.vvTried)
    && EntriesOk(s.mapInfo, s.nIdCount, limbo, s.timely)
  }

  /** The same entries up to their statistics. */
  ghost predicate Alike(m: map<int, Info>, m': map<int, Info>) {
    && m'.Keys == m.Keys
    && forall id :: id in m ==> && m'[id].addr == m[id].addr && m'[id].fInTried == m[id].fInTried
                                && m'[id].nRefCount == m[id].nRefCount
  }

  lemma AlikeIds(m: map<int, Info>, m': map<int, Info>)
    requires Alike(m, m')
    ensures NewIds(m') == NewIds(m) && TriedIds(m') == TriedIds(m)
  {
    forall id | id in m'
      ensures id in m && m'[id].fInTried == m[id].fInTried
    {
      assert id in m'.Keys && id in m.Keys;
    }
    forall id | id in m
      ensures id in m'
    {
      assert id in m.Keys && id in m'.Keys;
    }
  }

  lemma AlikeAddrs(m: map<int, Info>, m': map<int, Info>, mapAddr: map<NetAddr, int>)
    requires Alike(m, m') && AddrsMatch(m, mapAddr)
    ensures AddrsMatch(m', mapAddr)
  {
    assert forall id :: id in m' <==> id in m;
  }

  lemma AlikeKeeps(k: Key, m: map<int, Info>, m': map<int, Info>, mapAddr: map<NetAddr, int>,
                   vvNew: Table, vvTried: Table)
    requires Alike(m, m')
    requires AddrsMatch(m, mapAddr) && NewTableOk(k, m, vvNew) && TriedTableOk(k, m, vvTried)
    ensures AddrsMatch(m', mapAddr) && NewTableOk(k, m', vvNew) && TriedTableOk(k, m', vvTried)
    ensures NewIds(m') == NewIds(m) && TriedIds(m') == TriedIds(m)
  {
    hide Buckets;
    AlikeIds(m, m');
    AlikeAddrs(m, m', mapAddr);
    forall id | id in m'
      ensures RefsOk(k, m', vvNew, id)
    {
      assert RefsOk(k, m, vvNew, id);
    }
    forall b, p | Slot(vvNew, b, p)
      ensures NewSlotOk(k, m', b, p, At(vvNew, b, p))
    {
      assert NewSlotOk(k, m, b, p, At(vvNew, b, p));
    }
    forall b, p | Slot(vvTried, b, p)
      ensures TriedSlotOk(k, m', b, p, At(vvTried, b, p))
    {
      assert TriedSlotOk(k, m, b, p, At(vvTried, b, p));
    }
  }

  /** Equal but for the place in the random order. */
  ghost predicate SameEntry(a: Info, b: Info) {
    a == b.(nRandomPos := a.nRandomPos)
  }

  /** Every entry but the given ones is kept. */
  ghost predicate OthersKept(m: map<int, Info>, m': map<int, Info>, except: set<int>) {
    forall id :: id in m && id !in except ==> id in m' && SameEntry(m'[id], m[id])
  }

  ghost predicate SameButStats(a: Info, b: Info) {
    && a.addr == b.addr && a.fInTried == b.fInTried && a.nRefCount == b.nRefCount && a.nRandomPos == b.nRandomPos
    && a.source == b.source
  }

  /** Changing the statistics of one entry. */
  lemma StatsKeep(k: Key, s: Book, limbo: set<int>, id: int, info: Info)
    requires Sound(k, s, limbo) && id in s.mapInfo && EntryOk(info, id in limbo, s.timely)
    requires SameButStats(info, s.mapInfo[id])
    ensures Sound(k, s.(mapInfo := s.mapInfo[id := info]), limbo)
    ensures NewIds(s.mapInfo[id := info]) == NewIds(s.mapInfo)
    ensures TriedIds(s.mapInfo[id := info]) == TriedIds(s.mapInfo)
  {
    hide NewTableOk, TriedTableOk, AddrsMatch;
    AlikeKeeps(k, s.mapInfo, s.mapInfo[id := info], s.mapAddr, s.vvNew, s.vvTried);
    assert |s.mapInfo[id := info]| == |s.mapInfo|;
  }

  ghost function Swapped(m: map<int, Info>, v: seq<int>, i: nat, j: nat): map<int, Info>
    requires i < |v| && j < |v| && v[i] in m && v[j] in m
  {
    m[v[i] := m[v[i]].(nRandomPos := j)][v[j] := m[v[j]].(nRandomPos := i)]
  }

  /** Swapping two places of the random order. */
  lemma SwapKeeps(m: map<int, Info>, v: seq<int>, i: nat, j: nat)
    requires RandomMatches(m, v) && i < |v| && j < |v| && i != j
    ensures RandomMatches(Swapped(m, v, i, j), v[i := v[j]][j := v[i]])
  {
    var m' := Swapped(m, v, i, j);
    var v' := v[i := v[j]][j := v[i]];
    SameSize(m, m');
    assert v[i] != v[j];
    forall id | id in m'
      ensures 0 <= m'[id].nRandomPos < |v'| && v'[m'[id].nRandomPos] == id
    {
      assert id in m;
    }
    forall x | 0 <= x < |v'|
      ensures v'[x] in m' && m'[v'[x]].nRandomPos == x
    {
      assert v[x] in m && m[v[x]].nRandomPos == x;
    }
  }

  lemma SwapAlike(m: map<int, Info>, v: seq<int>, i: nat, j: nat)
    requires i < |v| && j < |v| && v[i] in m && v[j] in m
    ensures Alike(m, Swapped(m, v, i, j))
  {
  }

  /** Where an entry stands in the random order. */
  lemma PlaceOf(k: Key, s: Book, limbo: set<int>, id: int)
    requires Sound(k, s, limbo) && id in s.mapInfo
    ensures 0 <= s.mapInfo[id].nRandomPos < |s.vRandom| && s.vRandom[s.mapInfo[id].nRandomPos] == id
  {
  }

  /** What stands at a place of the random order. */
  lemma EntryAt(k: Key, s: Book, limbo: set<int>, i: nat)
    requires Sound(k, s, limbo) && i < |s.vRandom|
    ensures s.vRandom[i] in s.mapInfo && s.mapInfo[s.vRandom[i]].nRandomPos == i
  {
  }

  lemma SwapSound(k: Key, s: Book, limbo: set<int>, i: nat, j: nat)
    requires Sound(k, s, limbo) && i < |s.vRandom| && j < |s.vRandom| && i != j
    ensures s.vRandom[i] in s.mapInfo && s.vRandom[j] in s.mapInfo
    ensures s.vRandom[i] != s.vRandom[j]
    ensures var m' := Swapped(s.mapInfo, s.vRandom, i, j);
            && Sound(k, s.(mapInfo := m', vRandom := s.vRandom[i := s.vRandom[j]][j := s.vRandom[i]]), limbo)
            && OthersKept(s.mapInfo, m', {}) && m'.Keys == s.mapInfo.Keys
            && NewIds(m') == NewIds(s.mapInfo) && TriedIds(m') == TriedIds(s.mapInfo)
  {
    hide NewTableOk, TriedTableOk, AddrsMatch, RandomMatches, NewIds, TriedIds;
    EntryAt(k, s, limbo, i);
    EntryAt(k, s, limbo, j);
    SwapKeeps(s.mapInfo, s.vRandom, i, j);
    SwapAlike(s.mapInfo, s.vRandom, i, j);
    AlikeKeeps(k, s.mapInfo, Swapped(s.mapInfo, s.vRandom, i, j), s.mapAddr, s.vvNew, s.vvTried);
  }

  lemma SameSize(m: map<int, Info>, m': map<int, Info>)
    requires m'.Keys == m.Keys
    ensures |m'| == |m|
  {
    assert |m'| == |m'.Keys| && |m| == |m.Keys|;
  }

  /** An entry that keeps its address and its place changes neither map nor order. */
  lemma EntryChange(m: map<int, Info>, id: int, info: Info, mapAddr: map<NetAddr, int>, vRandom: seq<int>)
    requires id in m && info.addr == m[id].addr && info.nRandomPos == m[id].nRandomPos
    requires AddrsMatch(m, mapAddr) && RandomMatches(m, vRandom)
    ensures AddrsMatch(m[id := info], mapAddr) && RandomMatches(m[id := info], vRandom)
  {
    RandomChange(m, id, info, vRandom);
    hide RandomMatches;
  }

  lemma RandomChange(m: map<int, Info>, id: int, info: Info, vRandom: seq<int>)
    requires id in m && info.nRandomPos == m[id].nRandomPos && RandomMatches(m, vRandom)
    ensures RandomMatches(m[id := info], vRandom)
  {
    SameSize(m, m[id := info]);
  }

  lemma DropRandom(m: map<int, Info>, v: seq<int>, id: int)
    requires RandomMatches(m, v) && id in m && m[id].nRandomPos == |v| - 1
    ensures RandomMatches(m - {id}, v[..|v| - 1])
  {
    var m', v' := m - {id}, v[..|v| - 1];
    assert m'.Keys == m.Keys - {id};
    assert |m'| == |m'.Keys| && |m| == |m.Keys|;
    forall x | x in m'
      ensures 0 <= m'[x].nRandomPos < |v'| && v'[m'[x].nRandomPos] == x
    {
      assert x in m;
    }
    forall i | 0 <= i < |v'|
      ensures v'[i] in m' && m'[v'[i]].nRandomPos == i
    {
      assert v[i] in m && m[v[i]].nRandomPos == i;
    }
  }

  lemma DropAddr(m: map<int, Info>, mapAddr: map<NetAddr, int>, id: int)
    requires AddrsMatch(m, mapAddr) && id in m
    ensures AddrsMatch(m - {id}, mapAddr - {m[id].addr.net})
  {
  }

  lemma CreateRandom(m: map<int, Info>, v: seq<int>, id: int, info: Info)
    requires RandomMatches(m, v) && id !in m && info.nRandomPos == |v|
    ensures RandomMatches(m[id := info], v + [id])
  {
    var m' := m[id := info];
    assert m'.Keys == m.Keys + {id};
    assert |m'| == |m'.Keys| && |m| == |m.Keys|;
  }

  lemma CreateAddr(m: map<int, Info>, mapAddr: map<NetAddr, int>, id: int, info: Info)
    requires AddrsMatch(m, mapAddr) && id !in m && info.addr.net !in mapAddr
    ensures AddrsMatch(m[id := info], mapAddr[info.addr.net := id])
  {
  }

  /** Dropping an entry that is last in the random order and in neither table. */
  lemma DropKeeps(k: Key, s: Book, limbo: set<int>, id: int)
    requires Sound(k, s, limbo) && id in s.mapInfo && id in limbo
    requires s.mapInfo[id].nRandomPos == |s.vRandom| - 1
    ensures Sound(k, s.(mapInfo := s.mapInfo - {id}, mapAddr := s.mapAddr - {s.mapInfo[id].addr.net},
                        vRandom := s.vRandom[..|s.vRandom| - 1]), limbo)
    ensures TriedIds(s.mapInfo - {id}) == TriedIds(s.mapInfo)
    ensures |NewIds(s.mapInfo - {id})| == |NewIds(s.mapInfo)| - 1
  {
    hide NewTableOk, TriedTableOk, RandomMatches, AddrsMatch;
    assert NewIds(s.mapInfo - {id}) == NewIds(s.mapInfo) - {id};
    SetCount(NewIds(s.mapInfo), id);
    DropTables(k, s, limbo, id);
    DropRandom(s.mapInfo, s.vRandom, id);
    DropAddr(s.mapInfo, s.mapAddr, id);
  }

  lemma DropTables(k: Key, s: Book, limbo: set<int>, id: int)
    requires Sound(k, s, limbo) && id in s.mapInfo && id in limbo
    ensures NewTableOk(k, s.mapInfo - {id}, s.vvNew) && TriedTableOk(k, s.mapInfo - {id}, s.vvTried)
  {
    hide Buckets, AddrsMatch, RandomMatches;
    var m' := s.mapInfo - {id};
    forall x | x in m'
      ensures RefsOk(k, m', s.vvNew, x)
    {
      assert RefsOk(k, s.mapInfo, s.vvNew, x);
    }
    forall b, p | Slot(s.vvNew, b, p)
      ensures NewSlotOk(k, m', b, p, At(s.vvNew, b, p))
    {
      assert NewSlotOk(k, s.mapInfo, b, p, At(s.vvNew, b, p));
      NoSlot(k, s.mapInfo, s.vvNew, id, b, p);
    }
    forall b, p | Slot(s.vvTried, b, p)
      ensures TriedSlotOk(k, m', b, p, At(s.vvTried, b, p))
    {
      assert TriedSlotOk(k, s.mapInfo, b, p, At(s.vvTried, b, p));
    }
  }

  lemma CreateIds(m: map<int, Info>, id: int, info: Info)
    requires id !in m && !info.fInTried
    ensures |NewIds(m[id := info])| == |NewIds(m)| + 1 && TriedIds(m[id := info]) == TriedIds(m)
  {
    assert NewIds(m[id := info]) == NewIds(m) + {id};
  }

  /** A new entry, in neither table yet. */
  lemma CreateKeeps(k: Key, s: Book, info: Info)
    requires Sound(k, s, {}) && info.addr.net !in s.mapAddr && EntryOk(info, true, s.timely)
    requires info.nRandomPos == |s.vRandom| && 0 <= s.nIdCount
    ensures Sound(k, s.(mapInfo := s.mapInfo[s.nIdCount := info], mapAddr := s.mapAddr[info.addr.net := s.nIdCount],
                        vRandom := s.vRandom + [s.nIdCount], nIdCount := s.nIdCount + 1), {s.nIdCount})
    ensures |NewIds(s.mapInfo[s.nIdCount := info])| == |NewIds(s.mapInfo)| + 1
    ensures TriedIds(s.mapInfo[s.nIdCount := info]) == TriedIds(s.mapInfo)
    ensures s.nIdCount !in s.mapInfo
  {
    hide NewTableOk, TriedTableOk, RandomMatches, AddrsMatch, NewIds, TriedIds;
    CreateIds(s.mapInfo, s.nIdCount, info);
    CreateTables(k, s, info);
    CreateRandom(s.mapInfo, s.vRandom, s.nIdCount, info);
    CreateAddr(s.mapInfo, s.mapAddr, s.nIdCount, info);
  }

  lemma CreateTables(k: Key, s: Book, info: Info)
    requires Sound(k, s, {}) && EntryOk(info, true, s.timely) && 0 <= s.nIdCount
    ensures NewTableOk(k, s.mapInfo[s.nIdCount := info], s.vvNew)
    ensures TriedTableOk(k, s.mapInfo[s.nIdCount := info], s.vvTried)
  {
    hide AddrsMatch, RandomMatches;
    var n := s.nIdCount;
    var m' := s.mapInfo[n := info];
    assert n !in s.mapInfo;
    forall b, p | Slot(s.vvNew, b, p)
      ensures NewSlotOk(k, m', b, p, At(s.vvNew, b, p)) && At(s.vvNew, b, p) != n
    {
      assert NewSlotOk(k, s.mapInfo, b, p, At(s.vvNew, b, p));
    }
    forall b, p | Slot(s.vvTried, b, p)
      ensures TriedSlotOk(k, m', b, p, At(s.vvTried, b, p))
    {
      assert TriedSlotOk(k, s.mapInfo, b, p, At(s.vvTried, b, p));
    }
    assert Buckets(k, s.vvNew, n, info.addr) == {};
    hide Buckets;
    forall x | x in m'
      ensures RefsOk(k, m', s.vvNew, x)
    {
      assert x != n ==> RefsOk(k, s.mapInfo, s.vvNew, x);
    }
  }

  lemma FlipIds(m: map<int, Info>, id: int, side: bool)
    requires id in m && m[id].fInTried != side
    ensures var m' := m[id := m[id].(fInTried := side)];
            if side then NewIds(m') == NewIds(m) - {id} && TriedIds(m') == TriedIds(m) + {id}
            else NewIds(m') == NewIds(m) + {id} && TriedIds(m') == TriedIds(m) - {id}
    ensures id in NewIds(m) <==> side
    ensures id in TriedIds(m) <==> !side
  {
  }

  lemma FlipCounts(m: map<int, Info>, id: int, side: bool)
    requires id in m && m[id].fInTried != side
    ensures var m' := m[id := m[id].(fInTried := side)];
            var d := if side then 1 else -1;
            |NewIds(m')| == |NewIds(m)| - d && |TriedIds(m')| == |TriedIds(m)| + d
  {
    hide NewIds, TriedIds;
    var m' := m[id := m[id].(fInTried := side)];
    FlipIds(m, id, side);
    SetCount(NewIds(m), id);
    SetCount(TriedIds(m), id);
  }

  /** Moving an entry from limbo into its empty slot of the tried table. */
  lemma EnterTried(k: Key, s: Book, limbo: set<int>, id: int)
    requires Sound(k, s, limbo) && id in s.mapInfo && id in limbo
    requires s.timely ==> s.mapInfo[id].nLastSuccess != 0
    requires TriedSlot(k, s.vvTried, s.mapInfo[id].addr) == -1
    ensures var a := s.mapInfo[id].addr; var b := k.TriedBucket(a);
            var m' := s.mapInfo[id := s.mapInfo[id].(fInTried := true)];
            && Sound(k, s.(mapInfo := m', vvTried := Put(s.vvTried, b, k.Position(false, b, a), id)), limbo - {id})
            && |NewIds(m')| == |NewIds(s.mapInfo)| - 1 && |TriedIds(m')| == |TriedIds(s.mapInfo)| + 1
  {
    hide NewTableOk, RandomMatches, AddrsMatch, NewIds, TriedIds;
    var a := s.mapInfo[id].addr;
    var b := k.TriedBucket(a);
    var p := k.Position(false, b, a);
    var m' := s.mapInfo[id := s.mapInfo[id].(fInTried := true)];
    FlipCounts(s.mapInfo, id, true);
    FlipTables(k, s, id, m', b, p, id);
    EntryChange(s.mapInfo, id, m'[id], s.mapAddr, s.vRandom);
  }

  /** Moving an entry out of its slot of the tried table into limbo. */
  lemma LeaveTried(k: Key, s: Book, limbo: set<int>, id: int)
    requires Sound(k, s, limbo) && id in s.mapInfo && s.mapInfo[id].fInTried
    ensures var a := s.mapInfo[id].addr; var b := k.TriedBucket(a);
            var m' := s.mapInfo[id := s.mapInfo[id].(fInTried := false)];
            && Sound(k, s.(mapInfo := m', vvTried := Put(s.vvTried, b, k.Position(false, b, a), -1)), limbo + {id})
            && |NewIds(m')| == |NewIds(s.mapInfo)| + 1 && |TriedIds(m')| == |TriedIds(s.mapInfo)| - 1
  {
    hide NewTableOk, RandomMatches, AddrsMatch, NewIds, TriedIds;
    var a := s.mapInfo[id].addr;
    var b := k.TriedBucket(a);
    var p := k.Position(false, b, a);
    var m' := s.mapInfo[id := s.mapInfo[id].(fInTried := false)];
    FlipCounts(s.mapInfo, id, false);
    FlipTables(k, s, id, m', b, p, -1);
    EntryChange(s.mapInfo, id, m'[id], s.mapAddr, s.vRandom);
  }

  /** The tables when an entry without references changes side and its tried slot with it. */
  lemma FlipTables(k: Key, s: Book, id: int, m': map<int, Info>, b: int, p: int, v: int)
    requires NewTableOk(k, s.mapInfo, s.vvNew) && TriedTableOk(k, s.mapInfo, s.vvTried)
    requires id in s.mapInfo && -1 !in s.mapInfo && s.mapInfo[id].nRefCount == 0
    requires m' == s.mapInfo[id := s.mapInfo[id].(fInTried := v == id)]
    requires b == k.TriedBucket(s.mapInfo[id].addr) && p == k.Position(false, b, s.mapInfo[id].addr)
    requires (v == id && TriedSlot(k, s.vvTried, s.mapInfo[id].addr) == -1)
          || (v == -1 && TriedSlot(k, s.vvTried, s.mapInfo[id].addr) == id)
    ensures NewTableOk(k, m', s.vvNew) && TriedTableOk(k, m', Put(s.vvTried, b, p, v))
  {
    forall x, y | Slot(s.vvNew, x, y)
      ensures NewSlotOk(k, m', x, y, At(s.vvNew, x, y)) && At(s.vvNew, x, y) != id
    {
      assert NewSlotOk(k, s.mapInfo, x, y, At(s.vvNew, x, y));
      NoSlot(k, s.mapInfo, s.vvNew, id, x, y);
    }
    assert Buckets(k, s.vvNew, id, s.mapInfo[id].addr) == {};
    hide Buckets;
    forall x | x in m'
      ensures RefsOk(k, m', s.vvNew, x)
    {
      assert RefsOk(k, s.mapInfo, s.vvNew, x);
    }
    FlipTried(k, s, id, m', b, p, v);
  }

  lemma FlipTried(k: Key, s: Book, id: int, m': map<int, Info>, b: int, p: int, v: int)
    requires TriedTableOk(k, s.mapInfo, s.vvTried)
    requires id in s.mapInfo && -1 !in s.mapInfo
    requires m' == s.mapInfo[id := s.mapInfo[id].(fInTried := v == id)]
    requires b == k.TriedBucket(s.mapInfo[id].addr) && p == k.Position(false, b, s.mapInfo[id].addr)
    requires (v == id && TriedSlot(k, s.vvTried, s.mapInfo[id].addr) == -1)
          || (v == -1 && TriedSlot(k, s.vvTried, s.mapInfo[id].addr) == id)
    ensures TriedTableOk(k, m', Put(s.vvTried, b, p, v))
  {
    var t' := Put(s.vvTried, b, p, v);
    forall x, y | Slot(t', x, y)
      ensures TriedSlotOk(k, m', x, y, At(t', x, y))
    {
      assert Slot(s.vvTried, x, y);
      assert TriedSlotOk(k, s.mapInfo, x, y, At(s.vvTried, x, y));
    }
    forall x | x in m' && m'[x].fInTried
      ensures TriedSlot(k, t', m'[x].addr) == x
    {
      var c := k.TriedBucket(m'[x].addr);
      assert Slot(s.vvTried, c, k.Position(false, c, m'[x].addr));
    }
  }

  /** Changing the reference count of an entry that is not tried, along with its slots. */
  lemma RefChange(k: Key, s: Book, limbo: set<int>, limbo': set<int>, id: int, n: int, vvNew': Table)
    requires Sound(k, s, limbo) && id in s.mapInfo && !s.mapInfo[id].fInTried
    requires NewTableOk(k, s.mapInfo[id := s.mapInfo[id].(nRefCount := n)], vvNew')
    requires EntryOk(s.mapInfo[id].(nRefCount := n), id in limbo', s.timely) && limbo' - {id} == limbo - {id}
    ensures Sound(k, s.(mapInfo := s.mapInfo[id := s.mapInfo[id].(nRefCount := n)], vvNew := vvNew'), limbo')
    ensures NewIds(s.mapInfo[id := s.mapInfo[id].(nRefCount := n)]) == NewIds(s.mapInfo)
    ensures TriedIds(s.mapInfo[id := s.mapInfo[id].(nRefCount := n)]) == TriedIds(s.mapInfo)
  {
    hide NewTableOk, AddrsMatch, RandomMatches;
    var m' := s.mapInfo[id := s.mapInfo[id].(nRefCount := n)];
    EntryChange(s.mapInfo, id, m'[id], s.mapAddr, s.vRandom);
    assert forall x :: x in limbo && x != id <==> x in limbo' - {id};
    forall b, p | Slot(s.vvTried, b, p)
      ensures TriedSlotOk(k, m', b, p, At(s.vvTried, b, p))
    {
      assert TriedSlotOk(k, s.mapInfo, b, p, At(s.vvTried, b, p));
    }
  }

  /** Taking one reference away from the entry in a slot of the new table. */
  lemma ClearRef(k: Key, s: Book, limbo: set<int>, b: int, p: int)
    requires Sound(k, s, limbo) && Slot(s.vvNew, b, p) && At(s.vvNew, b, p) != -1
    ensures var id := At(s.vvNew, b, p); id in s.mapInfo && id !in limbo && s.mapInfo[id].nRefCount > 0
    ensures var id := At(s.vvNew, b, p); var n := s.mapInfo[id].nRefCount - 1;
            var m' := s.mapInfo[id := s.mapInfo[id].(nRefCount := n)];
            && Sound(k, s.(mapInfo := m', vvNew := Put(s.vvNew, b, p, -1)), if n == 0 then limbo + {id} else limbo)
            && NewIds(m') == NewIds(s.mapInfo) && TriedIds(m') == TriedIds(s.mapInfo)
  {
    NoMinusOne(k, s, limbo);
    var id := At(s.vvNew, b, p);
    assert NewSlotOk(k, s.mapInfo, b, p, id);
    ClearSlotKeeps(k, s.mapInfo, s.vvNew, b, p);
    var n := s.mapInfo[id].nRefCount - 1;
    assert EntryOk(s.mapInfo[id], id in limbo, s.timely);
    hide NewTableOk, TriedTableOk, AddrsMatch, RandomMatches, NewIds, TriedIds, EntriesOk;
    RefChange(k, s, limbo, if n == 0 then limbo + {id} else limbo, id, n, Put(s.vvNew, b, p, -1));
  }

  /** Adding one reference of an entry in an empty slot of the new table. */
  lemma FillRef(k: Key, s: Book, limbo: set<int>, b: int, p: int, id: int)
    requires Sound(k, s, limbo) && Slot(s.vvNew, b, p) && At(s.vvNew, b, p) == -1
    requires id in s.mapInfo && !s.mapInfo[id].fInTried && k.Position(true, b, s.mapInfo[id].addr) == p
    requires s.mapInfo[id].nRefCount < NEW_BUCKETS_PER_ADDRESS
    ensures var m' := s.mapInfo[id := s.mapInfo[id].(nRefCount := s.mapInfo[id].nRefCount + 1)];
            && Sound(k, s.(mapInfo := m', vvNew := Put(s.vvNew, b, p, id)), limbo - {id})
            && NewIds(m') == NewIds(s.mapInfo) && TriedIds(m') == TriedIds(s.mapInfo)
  {
    NoMinusOne(k, s, limbo);
    FillSlotKeeps(k, s.mapInfo, s.vvNew, b, p, id);
    assert EntryOk(s.mapInfo[id], id in limbo, s.timely);
    hide NewTableOk, TriedTableOk, AddrsMatch, RandomMatches, NewIds, TriedIds, EntriesOk;
    RefChange(k, s, limbo, limbo - {id}, id, s.mapInfo[id].nRefCount + 1, Put(s.vvNew, b, p, id));
  }

  lemma NoMinusOne(k: Key, s: Book, limbo: set<int>)
    requires Sound(k, s, limbo)
    ensures -1 !in s.mapInfo
  {
  }

  /** What losing the reference of one slot, held by v, does to the entries. */
  ghost predicate Released(m: map<int, Info>, m': map<int, Info>, v: int, except: set<int>) {
    && m'.Keys == m.Keys - (if v in m && m[v].nRefCount == 1 then {v} else {})
    && OthersKept(m, m', except + {v})
    && (v in m' ==> SameEntry(m'[v], m[v].(nRefCount := m[v].nRefCount - 1)))
  }

  /** The table without the slots of an entry. */
  function WithoutId(t: Table, id: int): (r: Table)
    ensures |r| == |t| && forall b :: 0 <= b < |t| ==> |r[b]| == |t[b]|
    ensures forall b, p :: Slot(t, b, p) ==> At(r, b, p) == if At(t, b, p) == id then -1 else At(t, b, p)
  {
    seq(|t|, b requires 0 <= b < |t| =>
      seq(|t[b]|, p requires 0 <= p < |t[b]| => if t[b][p] == id then -1 else t[b][p]))
  }

  lemma SameTable(t: Table, t': Table)
    requires |t| == |t'| && forall b :: 0 <= b < |t| ==> |t[b]| == |t'[b]|
    requires forall b, p :: Slot(t, b, p) ==> At(t, b, p) == At(t', b, p)
    ensures t == t'
  {
    forall b | 0 <= b < |t|
      ensures t[b] == t'[b]
    {
      forall p | 0 <= p < |t[b]|
        ensures t[b][p] == t'[b][p]
      {
        assert Slot(t, b, p);
      }
    }
  }

  /** An entry that was in neither table is in the new table with one reference, which
      the entry in that slot has lost. */
  ghost predicate Reentered(k: Key, m: map<int, Info>, t: Table, m': map<int, Info>, t': Table, id: int)
    requires Shaped(t, NEW_BUCKET_COUNT)
  {
    && id in m && id in m' && SameEntry(m'[id], m[id].(nRefCount := 1))
    && var b := k.NewBucket(m[id].addr, m[id].source);
    var p := k.Position(true, b, m[id].addr);
    && t' == Put(t, b, p, id) && At(t, b, p) != id
    && Released(m, m', At(t, b, p), {id})
  }

  ghost predicate KeepsAll(m: map<int, Info>, m': map<int, Info>, ids: set<int>) {
    forall id :: id in ids && id in m ==> id in m' && SameEntry(m'[id], m[id])
  }

  /** The entries when one of them is not tried and has no references. */
  ghost function Untied(m: map<int, Info>, id: int): map<int, Info>
    requires id in m
  {
    m[id := m[id].(nRefCount := 0, fInTried := false)]
  }

  /** An entry has been moved to its slot of the tried table and out of the new table;
      the tried entry that was there is back in the new table; nothing else has changed. */
  ghost predicate Promoted(k: Key, s: Book, s': Book, id: int)
    requires Shaped(s.vvNew, NEW_BUCKET_COUNT) && Shaped(s.vvTried, TRIED_BUCKET_COUNT)
  {
    && id in s.mapInfo && id in s'.mapInfo
    && s'.mapInfo[id].fInTried && s'.mapInfo[id].nRefCount == 0
    && var a := s.mapInfo[id].addr;
    var b := k.TriedBucket(a);
    var p := k.Position(false, b, a);
    var e := At(s.vvTried, b, p);
    var m, m', t := Untied(s.mapInfo, id), Untied(s'.mapInfo, id), WithoutId(s.vvNew, id);
    && s'.vvTried == Put(s.vvTried, b, p, id)
    && SameEntry(m'[id], m[id])
    && if e != -1 then e in m && Reentered(k, Untied(m, e), t, m', s'.vvNew, e)
       else s'.vvNew == t && m' == m
  }

  /** Limbo only matters for entries that exist. */
  lemma LimboGone(k: Key, s: Book, limbo: set<int>, id: int)
    requires Sound(k, s, limbo + {id}) && id !in s.mapInfo
    ensures Sound(k, s, limbo)
  {
    hide NewTableOk, TriedTableOk, AddrsMatch, RandomMatches;
  }

  lemma NewTableOf(k: Key, s: Book, limbo: set<int>)
    requires Sound(k, s, limbo)
    ensures NewTableOk(k, s.mapInfo, s.vvNew) && -1 !in s.mapInfo
    ensures Shaped(s.vvNew, NEW_BUCKET_COUNT) && Shaped(s.vvTried, TRIED_BUCKET_COUNT)
    ensures AddrsMatch(s.mapInfo, s.mapAddr)
  {
  }

  /** An entry has been taken out of the first buckets. */
  ghost predicate Removing(k: Key, s: Book, m: map<int, Info>, t: Table, id: int, bucket: int) {
    && NewTableOk(k, m, t) && Shaped(s.vvNew, NEW_BUCKET_COUNT) && -1 !in s.mapInfo
    && id in s.mapInfo && id in m && !m[id].fInTried
    && m == s.mapInfo[id := s.mapInfo[id].(nRefCount := m[id].nRefCount)]
    && (forall b, p :: Slot(s.vvNew, b, p) ==>
          At(t, b, p) == At(s.vvNew, b, p) || (At(t, b, p) == -1 && At(s.vvNew, b, p) == id))
    && (forall b :: 0 <= b < bucket <= NEW_BUCKET_COUNT ==> At(t, b, k.Position(true, b, m[id].addr)) != id)
  }

  lemma RemovingStep(k: Key, s: Book, m: map<int, Info>, t: Table, id: int, bucket: int)
    requires Removing(k, s, m, t, id, bucket) && 0 <= bucket < NEW_BUCKET_COUNT
    requires At(t, bucket, k.Position(true, bucket, m[id].addr)) == id
    ensures Removing(k, s, m[id := m[id].(nRefCount := m[id].nRefCount - 1)],
                     Put(t, bucket, k.Position(true, bucket, m[id].addr), -1), id, bucket + 1)
  {
    var p := k.Position(true, bucket, m[id].addr);
    ClearSlotKeeps(k, m, t, bucket, p);
    hide NewTableOk, Put;
    var t' := Put(t, bucket, p, -1);
    forall x, y | Slot(s.vvNew, x, y)
      ensures At(t', x, y) == At(s.vvNew, x, y) || (At(t', x, y) == -1 && At(s.vvNew, x, y) == id)
    {
      assert Slot(t, x, y);
    }
    forall b | 0 <= b < bucket + 1
      ensures At(t', b, k.Position(true, b, m[id].addr)) != id
    {
      assert Slot(t, b, k.Position(true, b, m[id].addr));
    }
  }

  lemma RemovingDone(k: Key, s: Book, m: map<int, Info>, t: Table, id: int)
    requires Sound(k, s, {}) && Removing(k, s, m, t, id, NEW_BUCKET_COUNT)
    ensures Sound(k, s.(mapInfo := m, vvNew := t), {id})
    ensures m == s.mapInfo[id := s.mapInfo[id].(nRefCount := 0)]
    ensures NewIds(m) == NewIds(s.mapInfo) && TriedIds(m) == TriedIds(s.mapInfo)
  {
    NoBuckets(k, m, t, id);
    assert EntryOk(s.mapInfo[id], false, s.timely);
    hide NewTableOk, TriedTableOk, AddrsMatch, RandomMatches, EntriesOk;
    RefChange(k, s, {}, {id}, id, 0, t);
  }

  lemma RemovingTable(k: Key, s: Book, m: map<int, Info>, t: Table, id: int)
    requires Removing(k, s, m, t, id, NEW_BUCKET_COUNT)
    ensures t == WithoutId(s.vvNew, id)
  {
    NoBuckets(k, m, t, id);
    forall b, p | Slot(t, b, p)
      ensures At(t, b, p) == At(WithoutId(s.vvNew, id), b, p)
    {
      assert Slot(s.vvNew, b, p);
      NoSlot(k, m, t, id, b, p);
    }
    SameTable(t, WithoutId(s.vvNew, id));
  }

  lemma StartRemoving(k: Key, s: Book, id: int)
    requires Sound(k, s, {}) && id in s.mapInfo && !s.mapInfo[id].fInTried
    ensures Removing(k, s, s.mapInfo, s.vvNew, id, 0)
  {
    hide NewTableOk, TriedTableOk, AddrsMatch, RandomMatches;
    NewTableOf(k, s, {});
  }

  lemma RemovingFacts(k: Key, s: Book, m: map<int, Info>, t: Table, id: int, bucket: int)
    requires Removing(k, s, m, t, id, bucket) && 0 <= bucket < NEW_BUCKET_COUNT
    ensures Shaped(t, NEW_BUCKET_COUNT) && id in m && id in s.mapInfo && m[id].addr == s.mapInfo[id].addr
    ensures At(t, bucket, k.Position(true, bucket, m[id].addr)) != id ==> Removing(k, s, m, t, id, bucket + 1)
  {
  }

  /** The occupant of a slot of the tried table. */
  lemma TriedOccupant(k: Key, s: Book, limbo: set<int>, b: int, p: int)
    requires Sound(k, s, limbo) && Slot(s.vvTried, b, p) && At(s.vvTried, b, p) != -1
    ensures var e := At(s.vvTried, b, p);
            && e in s.mapInfo && s.mapInfo[e].fInTried && s.mapInfo[e].nRefCount == 0 && e !in limbo
            && k.TriedBucket(s.mapInfo[e].addr) == b && k.Position(false, b, s.mapInfo[e].addr) == p
  {
    assert TriedSlotOk(k, s.mapInfo, b, p, At(s.vvTried, b, p));
  }

  /** An entry in limbo is in no slot of the new table. */
  lemma LimboSlot(k: Key, s: Book, limbo: set<int>, id: int, b: int, p: int)
    requires Sound(k, s, limbo) && id in limbo && id in s.mapInfo && Slot(s.vvNew, b, p)
    ensures At(s.vvNew, b, p) != id && s.mapInfo[id].nRefCount == 0 && !s.mapInfo[id].fInTried
  {
    NoMinusOne(k, s, limbo);
    NoSlot(k, s.mapInfo, s.vvNew, id, b, p);
  }

  lemma PutTwice(t: Table, b: int, p: int, v: int, w: int)
    requires Slot(t, b, p)
    ensures Put(Put(t, b, p, v), b, p, w) == Put(t, b, p, w)
  {
    assert t[b][p := v][p := w] == t[b][p := w];
  }

  /** Entries other than the one in the cleared slot survive. */
  lemma ReleasedKeeps(m: map<int, Info>, m': map<int, Info>, v: int, id: int)
    requires Released(m, m', v, {}) && id in m && id != v
    ensures id in m' && SameEntry(m'[id], m[id])
  {
  }

  lemma ReleasedThenSet(m: map<int, Info>, m': map<int, Info>, v: int, e: int, info: Info)
    requires Released(m, m', v, {}) && e in m && e != v
    ensures Released(m, m'[e := info], v, {e})
  {
  }

  lemma ReenteredShrinks(k: Key, m: map<int, Info>, t: Table, m': map<int, Info>, t': Table, id: int)
    requires Shaped(t, NEW_BUCKET_COUNT) && Reentered(k, m, t, m', t', id)
    ensures Shrunk(m, m')
  {
    hide Put;
    forall x | x in m'
      ensures x in m && m'[x].addr == m[x].addr
    {
      assert x in m'.Keys && x in m.Keys;
    }
  }

  /** Promotion deletes entries at most and empties no slot of the tried table. */
  lemma PromotedKeeps(k: Key, s: Book, s': Book, id: int)
    requires Shaped(s.vvNew, NEW_BUCKET_COUNT) && Shaped(s.vvTried, TRIED_BUCKET_COUNT)
    requires Promoted(k, s, s', id) && -1 !in s.mapInfo
    ensures Shrunk(s.mapInfo, s'.mapInfo) && StaysOccupied(s.vvTried, s'.vvTried)
    ensures Shaped(s'.vvTried, TRIED_BUCKET_COUNT)
  {
    hide Put, WithoutId, Reentered;
    var m, m' := Untied(s.mapInfo, id), Untied(s'.mapInfo, id);
    var e := TriedSlot(k, s.vvTried, s.mapInfo[id].addr);
    if e != -1 {
      ReenteredShrinks(k, Untied(m, e), WithoutId(s.vvNew, id), m', s'.vvNew, e);
    }
    assert Shrunk(m, m');
    assert m.Keys == s.mapInfo.Keys && m'.Keys == s'.mapInfo.Keys;
  }

  /** What a successful connection records. */
  function Succeeded(info: Info, nTime: int): Info {
    info.(nLastSuccess := nTime, nLastTry := nTime, nAttempts := 0)
  }

  const SET_TRIED_COLLISION_SIZE := 10

  /** An address not tried yet is promoted, or set aside while its slot is taken and
      the occupant is to be given a chance first. */
  ghost predicate Advanced(k: Key, s: Book, waiting: set<int>, s': Book, waiting': set<int>, id: int, test: bool) {
    && id in s.mapInfo && Shaped(s.vvNew, NEW_BUCKET_COUNT) && Shaped(s.vvTried, TRIED_BUCKET_COUNT)
    && if test && TriedSlot(k, s.vvTried, s.mapInfo[id].addr) != -1 then
         s' == s && waiting' == if |waiting| < 10 then waiting + {id} else waiting
       else
         Promoted(k, s, s', id) && waiting' == waiting
  }

  /** What reporting a good address does. */
  ghost predicate MarkedGood(
    k: Key, s: Book, waiting: set<int>, s': Book, waiting': set<int>, id: int, nTime: int, test: bool)
  {
    && id in s.mapInfo
    && var r := s.(mapInfo := s.mapInfo[id := Succeeded(s.mapInfo[id], nTime)], timely := s.timely && nTime > 0);
    if s.mapInfo[id].fInTried then s' == r && waiting' == waiting
    else Advanced(k, r, waiting, s', waiting', id, test)
  }

  lemma CollisionsJoin(k: Key, m: map<int, Info>, t: Table, nIdCount: int, w: set<int>, id: int)
    requires Shaped(t, TRIED_BUCKET_COUNT) && CollisionsOk(k, m, t, nIdCount, w)
    requires id in m && id < nIdCount && TriedSlot(k, t, m[id].addr) != -1
    ensures CollisionsOk(k, m, t, nIdCount, w + {id})
  {
  }

  /** Times need not stay in order. */
  lemma Untimely(k: Key, s: Book, limbo: set<int>, timely: bool)
    requires Sound(k, s, limbo) && (timely ==> s.timely)
    ensures Sound(k, s.(timely := timely), limbo)
  {
  }

  lemma EntryIs(k: Key, s: Book, limbo: set<int>, id: int)
    requires Sound(k, s, limbo) && id in s.mapInfo
    ensures 0 <= id < s.nIdCount && EntryOk(s.mapInfo[id], id in limbo, s.timely)
  {
  }

  lemma StaysSame(t: Table)
    ensures StaysOccupied(t, t)
  {
  }

  lemma {:induction false} ShrunkTrans(m: map<int, Info>, m1: map<int, Info>, m2: map<int, Info>)
    requires Shrunk(m, m1) && Shrunk(m1, m2)
    ensures Shrunk(m, m2)
  {
  }

  lemma StaysTrans(t: Table, t1: Table, t2: Table)
    requires StaysOccupied(t, t1) && StaysOccupied(t1, t2)
    ensures StaysOccupied(t, t2)
  {
  }

  lemma CollisionsCreate(k: Key, m: map<int, Info>, t: Table, nIdCount: int, w: set<int>, info: Info)
    requires Shaped(t, TRIED_BUCKET_COUNT) && CollisionsOk(k, m, t, nIdCount, w)
    ensures CollisionsOk(k, m[nIdCount := info], t, nIdCount + 1, w)
  {
  }

  /** Whether the occupant of a slot makes way for an entry. */
  predicate GivesWay(occupant: Info, info: Info, nNow: int) {
    IsTerrible(occupant, nNow) || (occupant.nRefCount > 1 && info.nRefCount == 0)
  }

  /** What offering an entry for the new bucket of a source does: it takes an empty slot,
      one whose occupant is terrible, or, if it is in no bucket yet, one whose occupant is
      also elsewhere; otherwise an entry in no bucket is dropped. */
  ghost predicate Placed(k: Key, s: Book, s': Book, id: int, source: NetAddr, nNow: int) {
    && id in s.mapInfo && Shaped(s.vvNew, NEW_BUCKET_COUNT)
    && var info := s.mapInfo[id];
    var b := k.NewBucket(info.addr, source);
    var p := k.Position(true, b, info.addr);
    var v := At(s.vvNew, b, p);
    if v == id then
      s' == s
    else if v == -1 || (v in s.mapInfo && GivesWay(s.mapInfo[v], info, nNow)) then
      && s'.vvNew == Put(s.vvNew, b, p, id) && Released(s.mapInfo, s'.mapInfo, v, {id})
      && id in s'.mapInfo && SameEntry(s'.mapInfo[id], info.(nRefCount := info.nRefCount + 1))
    else if info.nRefCount == 0 then
      s'.vvNew == s.vvNew && s'.mapInfo.Keys == s.mapInfo.Keys - {id} && OthersKept(s.mapInfo, s'.mapInfo, {id})
    else
      s' == s
  }

  lemma PlacedShrinks(k: Key, s: Book, s': Book, id: int, source: NetAddr, nNow: int)
    requires Placed(k, s, s', id, source, nNow)
    ensures Shrunk(s.mapInfo, s'.mapInfo)
  {
    hide Put, IsTerrible;
    forall x | x in s'.mapInfo
      ensures x in s.mapInfo && s'.mapInfo[x].addr == s.mapInfo[x].addr
    {
      assert x in s'.mapInfo.Keys && x in s.mapInfo.Keys;
    }
  }

  /** The occupant of a slot of the new table. */
  lemma NewOccupant(k: Key, s: Book, limbo: set<int>, b: int, p: int)
    requires Sound(k, s, limbo) && Slot(s.vvNew, b, p) && At(s.vvNew, b, p) != -1
    ensures var v := At(s.vvNew, b, p);
            v in s.mapInfo && !s.mapInfo[v].fInTried && v !in limbo && s.mapInfo[v].nRefCount >= 1
  {
    var v := At(s.vvNew, b, p);
    assert NewSlotOk(k, s.mapInfo, b, p, v);
    assert RefsOk(k, s.mapInfo, s.vvNew, v);
    assert b in Buckets(k, s.vvNew, v, s.mapInfo[v].addr);
  }
}
