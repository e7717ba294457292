/** Due-set selection and the statistics rollup, over a listing of questions
    (the rows a store query returns, in the store's own order). */
module Due {
  import opened Common
  import opened Schedule

  /** Ascending by next review time, oldest-overdue first. */
  predicate SortedByNextReview(s: seq<Question>)
  {
    forall i, j | 0 <= i < j < |s| :: s[i].nextReview <= s[j].nextReview
  }

  /** Inserts `q` after every element due no later than it. */
  function Insert(q: Question, s: seq<Question>): (r: seq<Question>)
    requires SortedByNextReview(s)
    ensures SortedByNextReview(r)
    ensures multiset(r) == multiset(s) + multiset{q}
    ensures |r| == |s| + 1
    ensures r[0] == q || (|s| > 0 && r[0] == s[0])
  {
    if |s| == 0 then [q]
    else if q.nextReview < s[0].nextReview then [q] + s
    else
      var t := Insert(q, s[1..]);
      assert s == [s[0]] + s[1..];
      assert s[0].nextReview <= t[0].nextReview;
      assert forall j | 0 <= j < |t| :: s[0].nextReview <= t[j].nextReview;
      [s[0]] + t
  }

  /** The listing sorted by next review time (the `ORDER BY next_review ASC`
      of the query, or the `sort.Slice` of the CLI). Elements with equal
      times keep their listing order. */
  function SortByNextReview(s: seq<Question>): (r: seq<Question>)
    ensures SortedByNextReview(r)
    ensures multiset(r) == multiset(s)
    ensures |r| == |s|
  {
    if |s| == 0 then []
    else
      assert s == s[..|s| - 1] + [s[|s| - 1]];
      Insert(s[|s| - 1], SortByNextReview(s[..|s| - 1]))
  }

  /** The questions of the listing that are due at `now`, in listing order. */
  function FilterDue(s: seq<Question>, now: int): (r: seq<Question>)
    ensures forall q :: q in r <==> q in s && IsDue(q, now)
    ensures |r| <= |s|
    ensures Distinct(s) ==> Distinct(r)
  {
    if |s| == 0 then []
    else
      var rest := FilterDue(s[1..], now);
      assert forall q :: q in s <==> q == s[0] || q in s[1..];
      assert Distinct(s) ==> s[0] !in s[1..] && Distinct(s[1..]);
      if IsDue(s[0], now) then [s[0]] + rest else rest
  }

  function SumReviews(s: seq<Question>): int
  {
    if |s| == 0 then 0 else s[0].reviewCount + SumReviews(s[1..])
  }

  function SumCorrect(s: seq<Question>): int
  {
    if |s| == 0 then 0 else s[0].correctCount + SumCorrect(s[1..])
  }

  /** Every question of the listing keeps the documented invariant. */
  predicate AllValid(s: seq<Question>)
  {
    forall i | 0 <= i < |s| :: Valid(s[i])
  }

  /** A percentage kept as an exact fraction `num / den`; the source's float
      and its "%.2f" rendering are not modelled. */
  datatype Percent = Percent(num: int, den: int)

  /** correct / reviews * 100, or 0 when there were no reviews. */
  function Accuracy(correct: int, reviews: int): (p: Percent)
    ensures p.den > 0
    ensures reviews <= 0 ==> p.num == 0
    ensures reviews > 0 ==> p.num * reviews == 100 * correct * p.den
  {
    if reviews > 0 then Percent(100 * correct, reviews) else Percent(0, 1)
  }

  datatype Stats = Stats(
    totalQuestions: int,
    dueQuestions: int,
    totalReviews: int,
    totalCorrect: int,
    accuracy: Percent)

  /** The rollup over one listing: count, due count, the two sums, accuracy. */
  function StatsOf(s: seq<Question>, now: int): (st: Stats)
    ensures st.totalQuestions == |s|
    ensures st.dueQuestions == |FilterDue(s, now)| <= st.totalQuestions
    ensures st.totalReviews == SumReviews(s) && st.totalCorrect == SumCorrect(s)
    ensures st.accuracy == Accuracy(st.totalCorrect, st.totalReviews)
    ensures st.totalReviews == 0 ==> st.accuracy.num == 0
  {
    var reviews := SumReviews(s);
    var correct := SumCorrect(s);
    Stats(|s|, |FilterDue(s, now)|, reviews, correct, Accuracy(correct, reviews))
  }

  // ----- Totals over a keyed collection -----

  /** Which counter a total adds up. */
  datatype Counter = Reviews | Correct

  function Count(q: Question, c: Counter): int
  {
    match c
    case Reviews => q.reviewCount
    case Correct => q.correctCount
  }

  /** The sum of one counter over all entries of a map, in no particular order. */
  ghost function Total(st: map<string, Question>, c: Counter): int
    decreases |st|
  {
    if st == map[] then 0
    else
      var k :| k in st;
      Count(st[k], c) + Total(st - {k}, c)
  }

  /** The total does not depend on which entry is taken first. */
  lemma {:induction false} TotalRemove(st: map<string, Question>, c: Counter, k: string)
    requires k in st
    ensures Total(st, c) == Count(st[k], c) + Total(st - {k}, c)
    decreases |st|
  {
    var j :| j in st && Total(st, c) == Count(st[j], c) + Total(st - {j}, c);
    if j != k {
      TotalRemove(st - {j}, c, k);
      TotalRemove(st - {k}, c, j);
      assert st - {j} - {k} == st - {k} - {j};
    }
  }

  /** `qs` lists the entries of `m`, each once, under their own ids. */
  predicate Lists(qs: seq<Question>, m: map<string, Question>)
  {
    && |qs| == |m|
    && (forall i | 0 <= i < |qs| :: qs[i].id in m && m[qs[i].id] == qs[i])
    && (forall i, j | 0 <= i < j < |qs| :: qs[i].id != qs[j].id)
  }

  /** Summing a listing in its order gives the totals of the map it lists. */
  lemma {:induction false} ListingTotals(qs: seq<Question>, m: map<string, Question>)
    requires Lists(qs, m)
    ensures SumReviews(qs) == Total(m, Reviews) && SumCorrect(qs) == Total(m, Correct)
    decreases |qs|
  {
    if |qs| == 0 {
      assert m == map[];
    } else {
      var k := qs[0].id;
      TotalRemove(m, Reviews, k);
      TotalRemove(m, Correct, k);
      assert Lists(qs[1..], m - {k});
      ListingTotals(qs[1..], m - {k});
    }
  }

  // ----- Lemmas -----

  /** Over valid questions no more answers are correct than were given. */
  lemma {:induction false} SumsBounded(s: seq<Question>)
    requires AllValid(s)
    ensures 0 <= SumCorrect(s) <= SumReviews(s)
  {
    if |s| > 0 {
      assert Valid(s[0]);
      SumsBounded(s[1..]);
    }
  }

  /** Accuracy over valid questions lies between 0% and 100%. */
  lemma AccuracyInRange(s: seq<Question>, now: int)
    requires AllValid(s)
    ensures var a := StatsOf(s, now).accuracy;
      0 <= a.num <= 100 * a.den
  {
    SumsBounded(s);
  }

  /** Sorting keeps exactly the same questions. */
  lemma SortKeepsMembers(s: seq<Question>)
    ensures forall q :: q in SortByNextReview(s) <==> q in s
  {
    var r := SortByNextReview(s);
    assert forall q :: q in r <==> q in multiset(r);
  }

  /** Removing one element keeps a listing sorted. */
  lemma SortedRemove(b: seq<Question>, i: int)
    requires SortedByNextReview(b) && 0 <= i < |b|
    ensures SortedByNextReview(b[..i] + b[i + 1..])
  {
    var b' := b[..i] + b[i + 1..];
    forall x, y | 0 <= x < y < |b'|
      ensures b'[x].nextReview <= b'[y].nextReview
    {
      var x' := if x < i then x else x + 1;
      var y' := if y < i then y else y + 1;
      assert b'[x] == b[x'] && b'[y] == b[y'];
    }
  }

  /** Two sorted arrangements of the same questions start at the same time. */
  lemma SortedHeads(a: seq<Question>, b: seq<Question>)
    requires SortedByNextReview(a) && SortedByNextReview(b)
    requires multiset(a) == multiset(b) && |a| > 0
    ensures |b| > 0 && a[0].nextReview == b[0].nextReview
  {
    assert a[0] in multiset(b);
    assert b[0] in multiset(a);
    var i :| 0 <= i < |b| && b[i] == a[0];
    var j :| 0 <= j < |a| && a[j] == b[0];
  }

  lemma RemoveAtMultiset(b: seq<Question>, i: int)
    requires 0 <= i < |b|
    ensures multiset(b[..i] + b[i + 1..]) == multiset(b) - multiset{b[i]}
  {
    assert b == b[..i] + [b[i]] + b[i + 1..];
  }

  /** Sorting by next review time is determined up to ties: two sorted
      arrangements of the same questions agree, position by position, on
      their times. */
  lemma {:induction false} SortedUnique(a: seq<Question>, b: seq<Question>)
    requires SortedByNextReview(a) && SortedByNextReview(b)
    requires multiset(a) == multiset(b)
    ensures |a| == |b|
    ensures forall k | 0 <= k < |a| :: a[k].nextReview == b[k].nextReview
    decreases |a|
  {
    assert |a| == |multiset(a)| == |b|;
    if |a| > 0 {
      SortedHeads(a, b);
      assert a[0] in multiset(b);
      var i :| 0 <= i < |b| && b[i] == a[0];
      var b' := b[..i] + b[i + 1..];
      DropMatched(a, b, i);
      SortedUnique(a[1..], b');
      forall k | 0 < k < |a|
        ensures a[k].nextReview == b[k].nextReview
      {
        ShiftedTime(a, b, i, k);
      }
    }
  }

  /** Removing the head of `a` and a matching element of `b` keeps both
      sorted and their multisets equal. */
  lemma DropMatched(a: seq<Question>, b: seq<Question>, i: int)
    requires SortedByNextReview(a) && SortedByNextReview(b)
    requires multiset(a) == multiset(b) && |a| > 0 && 0 <= i < |b| && b[i] == a[0]
    ensures SortedByNextReview(a[1..]) && SortedByNextReview(b[..i] + b[i + 1..])
    ensures multiset(a[1..]) == multiset(b[..i] + b[i + 1..])
  {
    RemoveAtMultiset(b, i);
    assert a == [a[0]] + a[1..];
    assert multiset(a[1..]) == multiset(a) - multiset{a[0]};
    SortedRemove(b, i);
  }

  /** One step of the above: position `k` after removing the head of `a`
      and the matching element of `b`. */
  lemma ShiftedTime(a: seq<Question>, b: seq<Question>, i: int, k: int)
    requires SortedByNextReview(a) && SortedByNextReview(b)
    requires |a| == |b| && 0 <= i < |b| && b[i] == a[0] && 0 < k < |a|
    requires a[1..][k - 1].nextReview == (b[..i] + b[i + 1..])[k - 1].nextReview
    ensures a[k].nextReview == b[k].nextReview
  {
    var b' := b[..i] + b[i + 1..];
    assert a[k] == a[1..][k - 1];
    if k - 1 < i {
      assert b'[k - 1] == b[k - 1];
      assert b[k - 1].nextReview <= b[k].nextReview <= b[i].nextReview;
      assert a[0].nextReview <= a[k].nextReview;
    } else {
      assert b'[k - 1] == b[k];
    }
  }
}
