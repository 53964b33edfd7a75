/** The collector's domain record, and Python's stable `list.sort` keyed on
    the review id. */
module ProductReviews {
  import opened Wrappers
  import opened Dates

  /** One review as handed to callers. `productDomain` and `productName`
      exist on the record but the collector never fills them. */
  datatype ProductReview = ProductReview(
    id: int,
    content: string,
    productDomain: Option<string>,
    productName: Option<string>,
    reviewWriter: Option<string>,
    grade: Option<real>,
    createdAt: Option<CalendarDate>,
    sourceUrl: Option<string>)

  predicate SortedById(s: seq<ProductReview>) {
    forall i, j :: 0 <= i < j < |s| ==> s[i].id <= s[j].id
  }

  predicate StrictlyIncreasingIds(s: seq<ProductReview>) {
    forall i, j :: 0 <= i < j < |s| ==> s[i].id < s[j].id
  }

  /** The reviews of `s` carrying id `k`, in their order in `s`. */
  function WithId(s: seq<ProductReview>, k: int): seq<ProductReview> {
    if s == [] then [] else (if s[0].id == k then [s[0]] else []) + WithId(s[1..], k)
  }

  lemma {:induction false} WithIdAppend(a: seq<ProductReview>, b: seq<ProductReview>, k: int)
    ensures WithId(a + b, k) == WithId(a, k) + WithId(b, k)
  {
    if a != [] {
      assert (a + b)[1..] == a[1..] + b;
      WithIdAppend(a[1..], b, k);
    } else {
      assert a + b == b;
    }
  }

  lemma {:induction false} WithIdAbsent(s: seq<ProductReview>, k: int)
    requires forall i :: 0 <= i < |s| ==> s[i].id != k
    ensures WithId(s, k) == []
  {
    if s != [] {
      WithIdAbsent(s[1..], k);
    }
  }

  /** Inserts `x` after every element whose id is at most `x.id`. */
  function InsertById(s: seq<ProductReview>, x: ProductReview): (r: seq<ProductReview>)
    requires SortedById(s)
    ensures SortedById(r)
    ensures |r| == |s| + 1
    ensures r[0] == x || (s != [] && r[0] == s[0])
  {
    if s == [] then [x]
    else if x.id < s[0].id then
      ConsSorted(x, s);
      [x] + s
    else
      var t := InsertById(s[1..], x);
      ConsSorted(s[0], t);
      [s[0]] + t
  }

  lemma ConsSorted(h: ProductReview, t: seq<ProductReview>)
    requires SortedById(t) && (t != [] ==> h.id <= t[0].id)
    ensures SortedById([h] + t)
  {
    var s := [h] + t;
    forall i, j | 0 <= i < j < |s| ensures s[i].id <= s[j].id {
      if i == 0 {
        assert s[j] == t[j - 1];
      } else {
        assert s[i] == t[i - 1] && s[j] == t[j - 1];
      }
    }
  }

  /** Insertion adds `x` and keeps everything else. */
  lemma {:induction false} InsertByIdPermutes(s: seq<ProductReview>, x: ProductReview)
    requires SortedById(s)
    ensures multiset(InsertById(s, x)) == multiset(s) + multiset{x}
    decreases |s|
  {
    if s != [] && x.id >= s[0].id {
      InsertByIdPermutes(s[1..], x);
      assert s == [s[0]] + s[1..];
    }
  }

  /** Insertion puts `x` after every element that shares its id. */
  lemma {:induction false} InsertByIdGroups(s: seq<ProductReview>, x: ProductReview, k: int)
    requires SortedById(s)
    ensures WithId(InsertById(s, x), k) == WithId(s, k) + WithId([x], k)
    decreases |s|
  {
    if s == [] {
      assert InsertById(s, x) == [x];
    } else if x.id < s[0].id {
      assert InsertById(s, x) == [x] + s;
      FrontGroups(s, x, k);
    } else {
      var t := InsertById(s[1..], x);
      assert InsertById(s, x) == [s[0]] + t;
      InsertByIdGroups(s[1..], x, k);
      AfterGroups(s, x, t, k);
    }
  }

  lemma FrontGroups(s: seq<ProductReview>, x: ProductReview, k: int)
    requires SortedById(s) && s != [] && x.id < s[0].id
    ensures WithId([x] + s, k) == WithId(s, k) + WithId([x], k)
  {
    WithIdAppend([x], s, k);
    if x.id == k {
      assert forall i :: 0 <= i < |s| ==> s[0].id <= s[i].id;
      WithIdAbsent(s, k);
    }
  }

  lemma AfterGroups(s: seq<ProductReview>, x: ProductReview, t: seq<ProductReview>, k: int)
    requires s != [] && WithId(t, k) == WithId(s[1..], k) + WithId([x], k)
    ensures WithId([s[0]] + t, k) == WithId(s, k) + WithId([x], k)
  {
    var h := if s[0].id == k then [s[0]] else [];
    assert ([s[0]] + t)[1..] == t;
    assert WithId([s[0]] + t, k) == h + WithId(t, k);
    assert WithId(s, k) == h + WithId(s[1..], k);
  }

  /** `list.sort(key=lambda r: r.id)`: ascending by id. */
  function SortById(s: seq<ProductReview>): (r: seq<ProductReview>)
    ensures SortedById(r)
    ensures |r| == |s|
  {
    if s == [] then [] else InsertById(SortById(s[..|s| - 1]), s[|s| - 1])
  }

  /** Sorting is a permutation. */
  lemma {:induction false} SortByIdPermutes(s: seq<ProductReview>)
    ensures multiset(SortById(s)) == multiset(s)
    decreases |s|
  {
    if s != [] {
      var init, last := s[..|s| - 1], s[|s| - 1];
      SortByIdPermutes(init);
      InsertByIdPermutes(SortById(init), last);
      assert s == init + [last];
    }
  }

  /** Sorting is stable: the reviews that share an id keep their input
      order. */
  lemma {:induction false} SortByIdStable(s: seq<ProductReview>, k: int)
    ensures WithId(SortById(s), k) == WithId(s, k)
    decreases |s|
  {
    if s != [] {
      var init, last := s[..|s| - 1], s[|s| - 1];
      SortByIdStable(init, k);
      InsertByIdGroups(SortById(init), last, k);
      WithIdAppend(init, [last], k);
      assert s == init + [last];
    }
  }

  /** Sorting a list that is already in order changes nothing. */
  lemma {:induction false} SortSortedIsIdentity(s: seq<ProductReview>)
    requires SortedById(s)
    ensures SortById(s) == s
    decreases |s|
  {
    if s != [] {
      var init, last := s[..|s| - 1], s[|s| - 1];
      SortSortedIsIdentity(init);
      InsertLast(init, last);
      assert init + [last] == s;
    }
  }

  lemma {:induction false} InsertLast(s: seq<ProductReview>, x: ProductReview)
    requires SortedById(s)
    requires forall i :: 0 <= i < |s| ==> s[i].id <= x.id
    ensures InsertById(s, x) == s + [x]
    decreases |s|
  {
    if s != [] {
      InsertLast(s[1..], x);
      assert [s[0]] + (s[1..] + [x]) == s + [x];
    }
  }
}
