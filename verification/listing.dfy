/**
 * The listing rules of the crime-records page: records sorted newest first
 * with undated records ahead of all dated ones, then split into those
 * created today, yesterday and earlier.
 */
module RecordListing {
  import opened Wrappers
  import opened Crimes

  // ---- the sort ---------------------------------------------------------

  /**
   * The order of comparing(getCreatedAt, nullsLast(naturalOrder())).reversed():
   * a key strictly ahead of another is null against a date, or the later date.
   */
  predicate Newer(a: Option<Timestamp>, b: Option<Timestamp>) {
    (a.None? && b.Some?) || (a.Some? && b.Some? && a.value > b.value)
  }

  /** The comparator is a strict total order on keys: two keys neither ahead of the other are equal. */
  lemma NewerIsTotalOrder(a: Option<Timestamp>, b: Option<Timestamp>, c: Option<Timestamp>)
    ensures !Newer(a, a)
    ensures Newer(a, b) && Newer(b, c) ==> Newer(a, c)
    ensures !Newer(a, b) && !Newer(b, a) ==> a == b
  {
  }

  /** x sorts strictly ahead of y. */
  predicate Ahead(x: CrimeData, y: CrimeData) {
    Newer(x.createdAt, y.createdAt)
  }

  /** No record is strictly ahead of one listed before it. */
  predicate SortedNewestFirst(s: seq<CrimeData>) {
    forall i, j :: 0 <= i < j < |s| ==> !Ahead(s[j], s[i])
  }

  /** The records whose key is k, in order. */
  function WithKey(s: seq<CrimeData>, k: Option<Timestamp>): (r: seq<CrimeData>)
    ensures |r| <= |s|
  {
    if s == [] then []
    else (if s[0].createdAt == k then [s[0]] else []) + WithKey(s[1..], k)
  }

  /** Inserting a record into a sorted list: in front of the first record it is ahead of. */
  function Insert(r: seq<CrimeData>, x: CrimeData): (q: seq<CrimeData>)
    ensures |q| == |r| + 1
  {
    if r == [] then [x]
    else if Ahead(x, r[0]) then [x] + r
    else [r[0]] + Insert(r[1..], x)
  }

  /**
   * List.sort with that comparator: a stable sort, written as insertion of
   * each record in input order.
   */
  function SortNewestFirst(s: seq<CrimeData>): (r: seq<CrimeData>)
    ensures |r| == |s|
  {
    if s == [] then [] else Insert(SortNewestFirst(s[..|s| - 1]), s[|s| - 1])
  }

  lemma {:induction false} WithKeyAppend(a: seq<CrimeData>, b: seq<CrimeData>, k: Option<Timestamp>)
    ensures WithKey(a + b, k) == WithKey(a, k) + WithKey(b, k)
  {
    if a == [] {
      assert a + b == b;
    } else {
      var ab := a + b;
      assert ab[1..] == a[1..] + b && ab[0] == a[0];
      WithKeyAppend(a[1..], b, k);
      var h := if a[0].createdAt == k then [a[0]] else [];
      assert WithKey(ab, k) == h + WithKey(a[1..] + b, k);
      assert h + (WithKey(a[1..], k) + WithKey(b, k)) == (h + WithKey(a[1..], k)) + WithKey(b, k);
    }
  }

  lemma {:induction false} WithKeyNone(s: seq<CrimeData>, k: Option<Timestamp>)
    requires forall i :: 0 <= i < |s| ==> s[i].createdAt != k
    ensures WithKey(s, k) == []
  {
    if s != [] {
      WithKeyNone(s[1..], k);
    }
  }

  /** Insertion adds exactly the one record. */
  lemma {:induction false} InsertMembers(r: seq<CrimeData>, x: CrimeData)
    ensures multiset(Insert(r, x)) == multiset(r) + multiset{x}
  {
    if r != [] {
      assert r == [r[0]] + r[1..];
      if !Ahead(x, r[0]) {
        InsertMembers(r[1..], x);
      }
    }
  }

  /** Insertion keeps the list sorted. */
  lemma {:induction false} InsertSorted(r: seq<CrimeData>, x: CrimeData)
    requires SortedNewestFirst(r)
    ensures SortedNewestFirst(Insert(r, x))
  {
    if r == [] {
    } else if Ahead(x, r[0]) {
      var q := [x] + r;
      forall i, j | 0 <= i < j < |q| ensures !Ahead(q[j], q[i]) {
        if i == 0 {
          assert q[j] == r[j - 1];
          NewerIsTotalOrder(r[j - 1].createdAt, x.createdAt, r[0].createdAt);
        } else {
          assert q[i] == r[i - 1] && q[j] == r[j - 1];
        }
      }
    } else {
      var tail := r[1..];
      InsertSorted(tail, x);
      InsertMembers(tail, x);
      var t := Insert(tail, x);
      var q := [r[0]] + t;
      forall i, j | 0 <= i < j < |q| ensures !Ahead(q[j], q[i]) {
        if i == 0 {
          HeadNotBehind(r, x, t, j - 1);
        } else {
          assert q[i] == t[i - 1] && q[j] == t[j - 1];
        }
      }
    }
  }

  /** Nothing inserted behind the head of a sorted list is ahead of it. */
  lemma HeadNotBehind(r: seq<CrimeData>, x: CrimeData, t: seq<CrimeData>, m: int)
    requires SortedNewestFirst(r) && r != [] && !Ahead(x, r[0])
    requires multiset(t) == multiset(r[1..]) + multiset{x}
    requires 0 <= m < |t|
    ensures !Ahead(t[m], r[0])
  {
    var y := t[m];
    assert y in multiset(t);
    if y != x {
      assert y in multiset(r[1..]);
      var n :| 0 <= n < |r[1..]| && r[1..][n] == y;
      assert r[n + 1] == y;
    }
  }

  /** Insertion puts the record after every record with its key: each key's records keep their order. */
  lemma {:induction false} InsertStable(r: seq<CrimeData>, x: CrimeData, k: Option<Timestamp>)
    requires SortedNewestFirst(r)
    ensures WithKey(Insert(r, x), k) == WithKey(r, k) + (if x.createdAt == k then [x] else [])
  {
    if r == [] {
      assert WithKey([x], k) == (if x.createdAt == k then [x] else []) + WithKey([], k);
    } else if Ahead(x, r[0]) {
      if x.createdAt == k {
        AheadOfAllKeys(r, x, k);
        WithKeyNone(r, k);
      }
      assert ([x] + r)[1..] == r;
    } else {
      SortedTail(r);
      InsertStable(r[1..], x, k);
      InsertBehindHead(r, x, k);
    }
  }

  /** One step of InsertStable: past the head, the head's key entry stays in front. */
  lemma InsertBehindHead(r: seq<CrimeData>, x: CrimeData, k: Option<Timestamp>)
    requires r != [] && !Ahead(x, r[0])
    requires WithKey(Insert(r[1..], x), k) == WithKey(r[1..], k) + (if x.createdAt == k then [x] else [])
    ensures WithKey(Insert(r, x), k) == WithKey(r, k) + (if x.createdAt == k then [x] else [])
  {
    var t := r[1..];
    var mine := if x.createdAt == k then [x] else [];
    var head := if r[0].createdAt == k then [r[0]] else [];
    assert ([r[0]] + Insert(t, x))[1..] == Insert(t, x);
    calc {
      WithKey(Insert(r, x), k);
      head + WithKey(Insert(t, x), k);
      head + (WithKey(t, k) + mine);
      (head + WithKey(t, k)) + mine;
      WithKey(r, k) + mine;
    }
  }

  /** A record ahead of the head of a sorted list shares its key with none of the list. */
  lemma AheadOfAllKeys(r: seq<CrimeData>, x: CrimeData, k: Option<Timestamp>)
    requires SortedNewestFirst(r) && r != [] && Ahead(x, r[0]) && x.createdAt == k
    ensures forall i :: 0 <= i < |r| ==> r[i].createdAt != k
  {
    forall i | 0 <= i < |r| ensures r[i].createdAt != k {
      if i > 0 {
        assert !Ahead(r[i], r[0]);
      }
    }
  }

  lemma SortedTail(r: seq<CrimeData>)
    requires SortedNewestFirst(r) && r != []
    ensures SortedNewestFirst(r[1..])
  {
    forall i, j | 0 <= i < j < |r| - 1 ensures !Ahead(r[1..][j], r[1..][i]) {
      assert r[1..][i] == r[i + 1] && r[1..][j] == r[j + 1];
    }
  }

  /**
   * The sort's result is ordered newest first, holds the same records, and
   * lists the records of each key in their input order (stability).
   */
  lemma {:induction false} SortSpec(s: seq<CrimeData>)
    ensures SortedNewestFirst(SortNewestFirst(s))
    ensures multiset(SortNewestFirst(s)) == multiset(s)
    ensures forall k :: WithKey(SortNewestFirst(s), k) == WithKey(s, k)
  {
    if s != [] {
      var init := s[..|s| - 1];
      var x := s[|s| - 1];
      SortSpec(init);
      var r := SortNewestFirst(init);
      InsertSorted(r, x);
      InsertMembers(r, x);
      assert s == init + [x];
      forall k ensures WithKey(SortNewestFirst(s), k) == WithKey(s, k) {
        InsertStable(r, x, k);
        WithKeyAppend(init, [x], k);
      }
    }
  }

  /** Undated records come first: nothing dated precedes an undated record in the sorted list. */
  lemma UndatedFirst(s: seq<CrimeData>, i: int, j: int)
    requires 0 <= i < j < |SortNewestFirst(s)|
    requires SortNewestFirst(s)[j].createdAt.None?
    ensures SortNewestFirst(s)[i].createdAt.None?
  {
    SortSpec(s);
  }

  // ---- grouping by date -------------------------------------------------

  const MillisPerDay: int := 86_400_000

  /** toLocalDate(): the day number of a local timestamp, counted from the epoch (floor division). */
  function DayOf(t: Timestamp): int {
    t / MillisPerDay
  }

  datatype Period = Today | Yesterday | Earlier

  /** Where a record is listed: undated records and records older than yesterday go to Earlier. */
  function PeriodOf(c: CrimeData, today: int): Period {
    if c.createdAt.None? then Earlier
    else if DayOf(c.createdAt.value) == today then Today
    else if DayOf(c.createdAt.value) == today - 1 then Yesterday
    else Earlier
  }

  /** The records listed under period p, in list order. */
  function InPeriod(s: seq<CrimeData>, p: Period, today: int): (r: seq<CrimeData>)
    ensures |r| <= |s|
  {
    if s == [] then []
    else
      var rest := InPeriod(s[..|s| - 1], p, today);
      if PeriodOf(s[|s| - 1], today) == p then rest + [s[|s| - 1]] else rest
  }

  /** a can be obtained from b by deleting elements. */
  predicate SubsequenceOf(a: seq<CrimeData>, b: seq<CrimeData>)
    decreases |b|
  {
    if a == [] then true
    else if b == [] then false
    else if a[|a| - 1] == b[|b| - 1] then SubsequenceOf(a[..|a| - 1], b[..|b| - 1])
    else SubsequenceOf(a, b[..|b| - 1])
  }

  lemma {:induction false} SubsequenceOfSelf(a: seq<CrimeData>)
    ensures SubsequenceOf(a, a)
  {
    if a != [] {
      SubsequenceOfSelf(a[..|a| - 1]);
    }
  }

  lemma InPeriodStep(s: seq<CrimeData>, c: CrimeData, p: Period, today: int)
    ensures InPeriod(s + [c], p, today) == InPeriod(s, p, today) + (if PeriodOf(c, today) == p then [c] else [])
  {
    assert (s + [c])[..|s|] == s;
  }

  /**
   * Every record lands in exactly one of the three groups: their sizes add
   * up to the list's and together they hold the list's records.
   */
  lemma {:induction false} PeriodsPartition(s: seq<CrimeData>, today: int)
    ensures |InPeriod(s, Today, today)| + |InPeriod(s, Yesterday, today)| + |InPeriod(s, Earlier, today)| == |s|
    ensures multiset(InPeriod(s, Today, today)) + multiset(InPeriod(s, Yesterday, today))
      + multiset(InPeriod(s, Earlier, today)) == multiset(s)
  {
    if s != [] {
      var init := s[..|s| - 1];
      var c := s[|s| - 1];
      PeriodsPartition(init, today);
      assert s == init + [c];
      InPeriodStep(init, c, Today, today);
      InPeriodStep(init, c, Yesterday, today);
      InPeriodStep(init, c, Earlier, today);
    }
  }

  /** A group holds exactly the list's records of its period. */
  lemma {:induction false} PeriodMembers(s: seq<CrimeData>, p: Period, today: int)
    ensures forall c :: c in InPeriod(s, p, today) <==> c in s && PeriodOf(c, today) == p
  {
    if s != [] {
      var init := s[..|s| - 1];
      PeriodMembers(init, p, today);
      assert s == init + [s[|s| - 1]];
    }
  }

  /** A group keeps the list's order: it is the list with the other periods' records deleted. */
  lemma {:induction false} PeriodIsSubsequence(s: seq<CrimeData>, p: Period, today: int)
    ensures SubsequenceOf(InPeriod(s, p, today), s)
  {
    if s != [] {
      var init := s[..|s| - 1];
      var c := s[|s| - 1];
      var r := InPeriod(init, p, today);
      PeriodIsSubsequence(init, p, today);
      if PeriodOf(c, today) == p {
        assert InPeriod(s, p, today)[..|r|] == r;
      } else if r != [] {
        PeriodMembers(init, p, today);
        assert r[|r| - 1] in r;
      }
    }
  }

  /** The grouping loop: each record appended to the list of its period. */
  method GroupByDate(crimes: seq<CrimeData>, today: int)
    returns (todayCrimes: seq<CrimeData>, yesterdayCrimes: seq<CrimeData>, earlierCrimes: seq<CrimeData>)
    ensures todayCrimes == InPeriod(crimes, Today, today)
    ensures yesterdayCrimes == InPeriod(crimes, Yesterday, today)
    ensures earlierCrimes == InPeriod(crimes, Earlier, today)
  {
    todayCrimes, yesterdayCrimes, earlierCrimes := [], [], [];
    var i := 0;
    while i < |crimes|
      invariant i <= |crimes|
      invariant todayCrimes == InPeriod(crimes[..i], Today, today)
      invariant yesterdayCrimes == InPeriod(crimes[..i], Yesterday, today)
      invariant earlierCrimes == InPeriod(crimes[..i], Earlier, today)
    {
      var c := crimes[i];
      assert crimes[..i + 1][..i] == crimes[..i];
      i := i + 1;
      if c.createdAt.None? {
        earlierCrimes := earlierCrimes + [c];
        continue;
      }
      var d := DayOf(c.createdAt.value);
      if d == today {
        todayCrimes := todayCrimes + [c];
      } else if d == today - 1 {
        yesterdayCrimes := yesterdayCrimes + [c];
      } else {
        earlierCrimes := earlierCrimes + [c];
      }
    }
    assert crimes[..i] == crimes;
  }
}
