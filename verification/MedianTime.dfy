/** Median time past and the time-based fork activation tests built on it. */
module MedianTime {
  import opened Blocks

  const MEDIAN_TIME_SPAN: nat := 11

  // ---- Sorting and rank ----

  ghost predicate Sorted(s: seq<int>) {
    forall i, j :: 0 <= i <= j < |s| ==> s[i] <= s[j]
  }

  function Insert(x: int, s: seq<int>): (r: seq<int>)
    ensures |r| == |s| + 1
  {
    if s == [] || x <= s[0] then [x] + s else [s[0]] + Insert(x, s[1..])
  }

  lemma {:induction false} InsertSorts(x: int, s: seq<int>)
    requires Sorted(s)
    ensures Sorted(Insert(x, s)) && multiset(Insert(x, s)) == multiset(s) + multiset{x}
    ensures forall y :: y in Insert(x, s) ==> y == x || y in s
  {
    if s == [] || x <= s[0] {
      ConsSorted(x, s);
    } else {
      InsertSorts(x, s[1..]);
      assert s == [s[0]] + s[1..];
      ConsSorted(s[0], Insert(x, s[1..]));
    }
  }

  lemma ConsSorted(x: int, s: seq<int>)
    requires Sorted(s) && forall y :: y in s ==> x <= y
    ensures Sorted([x] + s)
  {
    forall i, j | 0 <= i <= j < |s| + 1 ensures ([x] + s)[i] <= ([x] + s)[j] {
      if i == 0 < j {
        assert s[j - 1] in s;
      }
    }
  }

  /** std::sort on a range. */
  function Sort(s: seq<int>): (r: seq<int>)
    ensures |r| == |s|
  {
    if s == [] then [] else Insert(s[0], Sort(s[1..]))
  }

  lemma {:induction false} SortSorts(s: seq<int>)
    ensures Sorted(Sort(s)) && multiset(Sort(s)) == multiset(s)
  {
    if s != [] {
      SortSorts(s[1..]);
      InsertSorts(s[0], Sort(s[1..]));
      assert s == [s[0]] + s[1..];
    }
  }

  function Median(s: seq<int>): int
    requires s != []
  {
    Sort(s)[|s| / 2]
  }

  /** How many elements are at least m. */
  ghost function AtLeast(s: seq<int>, m: int): nat {
    if s == [] then 0 else (if s[0] >= m then 1 else 0) + AtLeast(s[1..], m)
  }

  lemma {:induction false} AtLeastBound(s: seq<int>, m: int)
    ensures AtLeast(s, m) <= |s|
  {
    if s != [] {
      AtLeastBound(s[1..], m);
    }
  }

  lemma {:induction false} AtLeastInsert(x: int, s: seq<int>, m: int)
    ensures AtLeast(Insert(x, s), m) == (if x >= m then 1 else 0) + AtLeast(s, m)
  {
    if s == [] {
      assert [x][1..] == [];
    } else if x <= s[0] {
      assert ([x] + s)[1..] == s;
    } else {
      AtLeastInsert(x, s[1..], m);
      assert ([s[0]] + Insert(x, s[1..]))[1..] == Insert(x, s[1..]);
    }
  }

  lemma {:induction false} AtLeastSort(s: seq<int>, m: int)
    ensures AtLeast(Sort(s), m) == AtLeast(s, m)
  {
    if s != [] {
      AtLeastSort(s[1..], m);
      AtLeastInsert(s[0], Sort(s[1..]), m);
    }
  }

  /** In a sorted sequence the element of rank k reaches m exactly when enough
      elements do. */
  lemma {:induction false} RankByCount(s: seq<int>, k: nat, m: int)
    requires Sorted(s) && k < |s|
    ensures s[k] >= m <==> AtLeast(s, m) >= |s| - k
  {
    AtLeastBound(s[1..], m);
    if k == 0 {
      if s[0] >= m {
        AllAtLeast(s, m);
      }
    } else {
      RankByCount(s[1..], k - 1, m);
      if s[0] >= m {
        AllAtLeast(s, m);
      }
    }
  }

  lemma {:induction false} AllAtLeast(s: seq<int>, m: int)
    requires forall i :: 0 <= i < |s| ==> s[i] >= m
    ensures AtLeast(s, m) == |s|
  {
    if s != [] {
      AllAtLeast(s[1..], m);
    }
  }

  lemma {:induction false} AtLeastPrefix(s: seq<int>, n: nat, m: int)
    requires n <= |s|
    ensures AtLeast(s[..n], m) + (|s| - n) >= AtLeast(s, m)
  {
    if n == 0 {
      AtLeastBound(s, m);
    } else {
      AtLeastPrefix(s[1..], n - 1, m);
      assert s[1..][..n - 1] == s[..n][1..];
    }
  }

  /** Sliding the window over a new time that reaches its median cannot lower the
      median, whether the window is still filling or drops its oldest entry. */
  lemma SlidingMedian(w: seq<int>, t: int, keep: nat)
    requires w != [] && t >= Median(w)
    requires keep == |w| || (keep == |w| - 1 && |w| % 2 == 1)
    ensures Median([t] + w[..keep]) >= Median(w)
  {
    var m := Median(w);
    var next := [t] + w[..keep];
    SortSorts(w);
    SortSorts(next);
    AtLeastSort(w, m);
    RankByCount(Sort(w), |w| / 2, m);
    AtLeastPrefix(w, keep, m);
    assert next[1..] == w[..keep];
    AtLeastSort(next, m);
    RankByCount(Sort(next), |next| / 2, m);
  }

  // ---- Median time past ----

  /** The times of a block and its ancestors, newest first, at most n of them. */
  ghost function RecentTimes(b: BlockIndex, n: nat): (s: seq<int>)
    requires Linked(b)
    ensures |s| == if b.height + 1 < n then b.height + 1 else n
    decreases b.height
  {
    if n == 0 then []
    else if b.pprev == null then [b.time]
    else [b.time] + RecentTimes(b.pprev, n - 1)
  }

  ghost function MedianTimePast(b: BlockIndex): int
    requires Linked(b)
  {
    Median(RecentTimes(b, MEDIAN_TIME_SPAN))
  }

  /** The heights of the last n blocks up to b whose time is at least m. */
  ghost function HeightsFrom(b: BlockIndex, n: nat, m: int): set<int>
    requires Linked(b)
  {
    set h | 0 <= h <= b.height && b.height - n < h && Ancestor(b, h).time >= m
  }

  /** Counting times is counting heights. */
  lemma {:induction false} TimesAreHeights(b: BlockIndex, n: nat, m: int)
    requires Linked(b)
    ensures AtLeast(RecentTimes(b, n), m) == |HeightsFrom(b, n, m)|
    decreases b.height
  {
    if n == 0 {
      assert HeightsFrom(b, n, m) == {};
    } else {
      var own := if b.time >= m then {b.height} else {};
      if b.pprev == null {
        assert HeightsFrom(b, n, m) == own;
      } else {
        TimesAreHeights(b.pprev, n - 1, m);
        assert RecentTimes(b, n)[1..] == RecentTimes(b.pprev, n - 1);
        OneMoreHeight(b, n, m, own);
      }
    }
  }

  lemma OneMoreHeight(b: BlockIndex, n: nat, m: int, own: set<int>)
    requires Linked(b) && b.pprev != null && n > 0 && own == if b.time >= m then {b.height} else {}
    ensures HeightsFrom(b, n, m) == HeightsFrom(b.pprev, n - 1, m) + own
    ensures b.height !in HeightsFrom(b.pprev, n - 1, m)
  {
    forall h
      ensures h in HeightsFrom(b, n, m) <==> h in HeightsFrom(b.pprev, n - 1, m) + own
    {
    }
  }

  /** A median by counting: half of the elements, rounded up, are at least as large, and
      fewer are larger. */
  lemma MedianCounts(s: seq<int>)
    requires s != []
    ensures AtLeast(s, Median(s)) >= |s| - |s| / 2 > AtLeast(s, Median(s) + 1)
  {
    hide Sort, AtLeast;
    var m := Median(s);
    SortSorts(s);
    AtLeastSort(s, m);
    AtLeastSort(s, m + 1);
    RankByCount(Sort(s), |s| / 2, m);
    RankByCount(Sort(s), |s| / 2, m + 1);
  }

  /** Of the last eleven blocks, or all if there are fewer, at least half are no earlier than
      the median time past, and fewer than half are later. */
  lemma MedianOfBlocks(b: BlockIndex)
    requires Linked(b)
    ensures var n := if b.height + 1 < 11 then b.height + 1 else 11;
            var m := MedianTimePast(b);
            |HeightsFrom(b, 11, m)| >= n - n / 2 > |HeightsFrom(b, 11, m + 1)|
  {
    var w, m := RecentTimes(b, MEDIAN_TIME_SPAN), MedianTimePast(b);
    hide Sort, AtLeast, HeightsFrom;
    MedianCounts(w);
    TimesAreHeights(b, 11, m);
    TimesAreHeights(b, 11, m + 1);
  }

  /** GetMedianTimePast fills an array from its end, sorts the filled part and
      takes the middle. */
  method GetMedianTimePast(b: BlockIndex) returns (median: int)
    requires Linked(b)
    ensures median == MedianTimePast(b)
    ensures var n := if b.height + 1 < 11 then b.height + 1 else 11;
            |HeightsFrom(b, 11, median)| >= n - n / 2 > |HeightsFrom(b, 11, median + 1)|
  {
    hide Sort;
    MedianOfBlocks(b);
    var pmedian := new int[MEDIAN_TIME_SPAN](_ => 0);
    var pbegin := MEDIAN_TIME_SPAN;
    var pindex: BlockIndex? := b;
    var i := 0;
    ghost var window := RecentTimes(b, MEDIAN_TIME_SPAN);
    while i < MEDIAN_TIME_SPAN && pindex != null
      invariant 0 <= i <= |window| && pbegin == MEDIAN_TIME_SPAN - i
      invariant pindex == null ==> i == |window|
      invariant pindex != null ==> Linked(pindex) && window[i..] == RecentTimes(pindex, MEDIAN_TIME_SPAN - i)
      invariant forall j :: 0 <= j < i ==> pmedian[MEDIAN_TIME_SPAN - 1 - j] == window[j]
      decreases MEDIAN_TIME_SPAN - i
    {
      pbegin := pbegin - 1;
      pmedian[pbegin] := pindex.time;
      assert window[i + 1..] == window[i..][1..];
      assert window[i] == window[i..][0];
      i, pindex := i + 1, pindex.pprev;
    }
    var range := pmedian[pbegin..];
    SortReversed(window, range);
    median := Sort(range)[|range| / 2];
  }

  /** Sorting forgets the order the times were stored in. */
  lemma SortReversed(s: seq<int>, r: seq<int>)
    requires |r| == |s| && forall j :: 0 <= j < |s| ==> r[|s| - 1 - j] == s[j]
    ensures Sort(r) == Sort(s)
  {
    ReversedBag(s, r);
    SortSorts(r);
    SortSorts(s);
    SortedUnique(Sort(r), Sort(s));
  }

  lemma {:induction false} ReversedBag(s: seq<int>, r: seq<int>)
    requires |r| == |s| && forall j :: 0 <= j < |s| ==> r[|s| - 1 - j] == s[j]
    ensures multiset(r) == multiset(s)
  {
    if s != [] {
      var n := |s| - 1;
      assert r[n] == s[0];
      forall j | 0 <= j < n ensures r[..n][n - 1 - j] == s[1..][j] {
        assert r[|s| - 1 - (j + 1)] == s[j + 1];
      }
      ReversedBag(s[1..], r[..n]);
      assert s == [s[0]] + s[1..] && r == r[..n] + [r[n]];
    }
  }

  lemma {:induction false} SortedUnique(a: seq<int>, b: seq<int>)
    requires Sorted(a) && Sorted(b) && multiset(a) == multiset(b)
    ensures a == b
  {
    assert |multiset(a)| == |a| && |multiset(b)| == |b|;
    if a != [] {
      assert a[0] in multiset(b);
      assert b[0] in multiset(a);
      assert a[0] == b[0];
      TailBag(a);
      TailBag(b);
      SortedUnique(a[1..], b[1..]);
    }
  }

  lemma TailBag(a: seq<int>)
    requires a != []
    ensures multiset(a[1..]) == multiset(a) - multiset{a[0]}
  {
    assert a == [a[0]] + a[1..];
  }

  // ---- The median never falls along a branch ----

  /** Every block from b down is no earlier than its parent's median time past. */
  ghost predicate TimesAccepted(b: BlockIndex)
    requires Linked(b)
    decreases b.height
  {
    b.pprev != null ==> b.time >= MedianTimePast(b.pprev) && TimesAccepted(b.pprev)
  }

  lemma WindowSlides(b: BlockIndex, n: nat)
    requires Linked(b) && b.pprev != null && n > 0
    ensures var w := RecentTimes(b.pprev, n);
            RecentTimes(b, n) == [b.time] + w[..if |w| < n then |w| else n - 1]
  {
    RecentPrefix(b.pprev, n - 1);
  }

  lemma {:induction false} RecentPrefix(b: BlockIndex, n: nat)
    requires Linked(b)
    ensures RecentTimes(b, n) == RecentTimes(b, n + 1)[..|RecentTimes(b, n)|]
    decreases b.height
  {
    if b.pprev != null && n > 0 {
      RecentPrefix(b.pprev, n - 1);
    }
  }

  lemma MedianStep(b: BlockIndex)
    requires Linked(b) && b.pprev != null && b.time >= MedianTimePast(b.pprev)
    ensures MedianTimePast(b) >= MedianTimePast(b.pprev)
  {
    var w := RecentTimes(b.pprev, MEDIAN_TIME_SPAN);
    WindowSlides(b, MEDIAN_TIME_SPAN);
    SlidingMedian(w, b.time, if |w| < MEDIAN_TIME_SPAN then |w| else MEDIAN_TIME_SPAN - 1);
  }

  /** Median time past is monotone in height along any accepted branch, the first
      eleven blocks included. */
  lemma {:induction false} MedianMonotone(b: BlockIndex, lo: nat, hi: nat)
    requires Linked(b) && TimesAccepted(b) && lo <= hi <= b.height
    ensures MedianTimePast(Ancestor(b, lo)) <= MedianTimePast(Ancestor(b, hi))
    decreases b.height
  {
    if hi < b.height {
      MedianMonotone(b.pprev, lo, hi);
    } else if lo < b.height {
      MedianStep(b);
      MedianMonotone(b.pprev, lo, hi - 1);
    }
  }

  // ---- Fork activation ----

  ghost predicate ForkActivated(b: BlockIndex, time: int)
    requires Linked(b)
  {
    time != 0 && b.pprev != null && MedianTimePast(b.pprev) >= time
  }

  ghost predicate IsForkActiveOnNextBlock(b: BlockIndex, time: int)
    requires Linked(b)
  {
    time != 0 && (ForkActivated(b, time) || MedianTimePast(b) >= time)
  }

  ghost predicate ForkAtNextBlock(b: BlockIndex, time: int)
    requires Linked(b)
  {
    time != 0 && MedianTimePast(b) >= time && b.pprev != null && MedianTimePast(b.pprev) < time
  }

  ghost predicate ForkActivateNow(b: BlockIndex, time: int)
    requires Linked(b)
  {
    time != 0 && b.pprev != null && ForkAtNextBlock(b.pprev, time)
  }

  lemma {:induction false} ParentOf(b: BlockIndex, h: nat)
    requires Linked(b) && 0 < h <= b.height
    ensures Ancestor(b, h).pprev == Ancestor(b, h - 1)
    decreases b.height
  {
    if h < b.height {
      ParentOf(b.pprev, h);
    }
  }

  /** Once activated on a branch, a fork stays activated: [x, +inf). */
  lemma ActivationStays(b: BlockIndex, lo: nat, hi: nat, time: int)
    requires Linked(b) && TimesAccepted(b) && lo <= hi <= b.height
    requires ForkActivated(Ancestor(b, lo), time)
    ensures ForkActivated(Ancestor(b, hi), time)
  {
    hide MedianTimePast;
    ActivatedAt(b, lo, time);
    MedianMonotone(b, lo - 1, hi - 1);
    ActivatedAt(b, hi, time);
  }

  lemma ActivatedAt(b: BlockIndex, h: nat, time: int)
    requires Linked(b) && h <= b.height
    ensures ForkActivated(Ancestor(b, h), time)
       <==> time != 0 && h > 0 && MedianTimePast(Ancestor(b, h - 1)) >= time
  {
    if h > 0 {
      ParentOf(b, h);
    }
  }

  /** The question asked before a child exists has the child's own answer. */
  lemma NextBlockAgrees(b: BlockIndex, child: BlockIndex, time: int)
    requires Linked(child) && child.pprev == b && TimesAccepted(b)
    ensures IsForkActiveOnNextBlock(b, time) <==> ForkActivated(child, time)
  {
    if b.pprev != null {
      MedianStep(b);
    }
  }

  /** At most one block of a branch is the last one before the fork, and at most
      one is the first one after it. */
  lemma ForkBlockUnique(b: BlockIndex, lo: nat, hi: nat, time: int)
    requires Linked(b) && TimesAccepted(b) && lo < hi <= b.height
    ensures !(ForkAtNextBlock(Ancestor(b, lo), time) && ForkAtNextBlock(Ancestor(b, hi), time))
    ensures !(ForkActivateNow(Ancestor(b, lo), time) && ForkActivateNow(Ancestor(b, hi), time))
  {
    hide MedianTimePast;
    ParentOf(b, hi);
    MedianMonotone(b, lo, hi - 1);
    if lo > 0 {
      ParentOf(b, lo);
      ParentOf(b, hi - 1);
      MedianMonotone(b, lo - 1, hi - 2);
    }
  }

  /** If the genesis has already reached the fork time, no block is ever singled out. */
  lemma NoForkBlock(b: BlockIndex, h: nat, time: int)
    requires Linked(b) && TimesAccepted(b) && h <= b.height
    ensures MedianTimePast(Ancestor(b, 0)) >= time ==>
      !ForkAtNextBlock(Ancestor(b, h), time) && !ForkActivateNow(Ancestor(b, h), time)
  {
    hide MedianTimePast;
    if h > 0 {
      ParentOf(b, h);
      MedianMonotone(b, 0, h - 1);
    }
    if h > 1 {
      ParentOf(b, h - 1);
      MedianMonotone(b, 0, h - 2);
    }
  }

  /** An activated branch has a first activated block x, and exactly the blocks from x on
      are activated. It is singled out if and only if the genesis was before the fork time;
      otherwise it is the block after the genesis. */
  lemma {:induction false} FirstActivated(b: BlockIndex, time: int) returns (x: nat)
    requires Linked(b) && TimesAccepted(b) && ForkActivated(b, time)
    ensures 0 < x <= b.height
    ensures forall h :: 0 <= h <= b.height ==> (ForkActivated(Ancestor(b, h), time) <==> h >= x)
    ensures ForkActivateNow(Ancestor(b, x), time) <==> MedianTimePast(Ancestor(b, 0)) < time
    ensures MedianTimePast(Ancestor(b, 0)) >= time ==> x == 1
    decreases b.height
  {
    hide MedianTimePast;
    var p := b.pprev;
    if ForkActivated(p, time) {
      x := FirstActivated(p, time);
    } else {
      x := b.height;
      forall h | 0 <= h < b.height ensures !ForkActivated(Ancestor(b, h), time) {
        if ForkActivated(Ancestor(b, h), time) {
          ActivationStays(p, h, p.height, time);
        }
      }
    }
    NoForkBlock(b, x, time);
  }

  /** A branch has a fork block if and only if it is activated and its genesis was before
      the fork time. */
  lemma ForkBlockExists(b: BlockIndex, time: int)
    requires Linked(b) && TimesAccepted(b)
    ensures (exists x :: 0 <= x <= b.height && ForkActivateNow(Ancestor(b, x), time))
      <==> ForkActivated(b, time) && MedianTimePast(Ancestor(b, 0)) < time
  {
    hide MedianTimePast;
    if ForkActivated(b, time) {
      var x := FirstActivated(b, time);
    }
    if x :| 0 <= x <= b.height && ForkActivateNow(Ancestor(b, x), time) {
      ParentOf(b, x);
      ActivatedAt(b, x, time);
      ActivationStays(b, x, b.height, time);
      NoForkBlock(b, x, time);
    }
  }
}
