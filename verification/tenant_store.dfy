/** The multi-tenant question store behind the web server: one table of rows
    keyed by question id, each row owned by one user. Every operation is
    scoped to a user, as the `user_id = ?` condition of each query is. */
module TenantStore {
  import opened Common
  import opened Schedule
  import opened Due

  /** A stored row: the owning user and the question. */
  datatype Row = Row(userId: nat, question: Question)

  /** The table, keyed by the primary key `id`. */
  type Store = map<string, Row>

  datatype StoreError = DuplicateKey | NotFound

  /** `(userID, id)` names an existing row. */
  predicate Owns(st: Store, user: nat, id: string)
  {
    id in st && st[id].userId == user
  }

  /** Every row is stored under its own id. */
  predicate WellKeyed(st: Store)
  {
    forall k | k in st :: st[k].question.id == k
  }

  /** Rows of users other than `user` are exactly as they were. */
  predicate OthersUnchanged(st: Store, st': Store, user: nat)
  {
    && (forall k | k in st && st[k].userId != user :: k in st' && st'[k] == st[k])
    && (forall k | k in st' && st'[k].userId != user :: k in st && st[k] == st'[k])
  }

  function OwnedKeys(st: Store, user: nat): set<string>
  {
    set k | k in st && st[k].userId == user
  }

  function DueKeys(st: Store, user: nat, now: int): set<string>
  {
    set k | k in st && st[k].userId == user && IsDue(st[k].question, now)
  }

  /** `AddQuestion`: insert the initial state; the insert fails when the
      primary key is taken, by any user. */
  function AddQuestion(st: Store, user: nat, id: string, question: string, answer: string, source: string, now: int)
    : (r: Result<Store, StoreError>)
    ensures r.Err? <==> id in st
    ensures r.Err? ==> r.error == DuplicateKey
    ensures r.Ok? ==> r.value.Keys == st.Keys + {id}
    ensures r.Ok? ==> Owns(r.value, user, id) && r.value[id].question == NewQuestion(id, question, answer, source, now)
    ensures r.Ok? ==> forall k | k in st :: r.value[k] == st[k]
  {
    if id in st then Err(DuplicateKey)
    else Ok(st[id := Row(user, NewQuestion(id, question, answer, source, now))])
  }

  /** `GetQuestion`: the user's question with that id, if any. */
  function GetQuestion(st: Store, user: nat, id: string): (r: Option<Question>)
    ensures r.Some? <==> Owns(st, user, id)
    ensures r.Some? ==> Row(user, r.value) == st[id]
  {
    if Owns(st, user, id) then Some(st[id].question) else None
  }

  /** `UpdateReview`: not found leaves the table alone; otherwise the row is
      replaced by the reviewed question and nothing else changes. */
  function UpdateReview(st: Store, user: nat, id: string, feedback: int, now: int): (r: Result<Store, StoreError>)
    ensures r.Err? <==> !Owns(st, user, id)
    ensures r.Err? ==> r.error == NotFound
    ensures r.Ok? ==> r.value.Keys == st.Keys
    ensures r.Ok? ==> r.value[id] == Row(user, Review(st[id].question, feedback, now))
    ensures r.Ok? ==> forall k | k in st && k != id :: r.value[k] == st[k]
  {
    match GetQuestion(st, user, id)
    case None => Err(NotFound)
    case Some(q) => Ok(st[id := Row(user, Review(q, feedback, now))])
  }

  /** `DeleteQuestion`: removes the user's row; a missing row is not an
      error, as a delete that matches no row is not one for the database. */
  function DeleteQuestion(st: Store, user: nat, id: string): (r: Store)
    ensures r.Keys == if Owns(st, user, id) then st.Keys - {id} else st.Keys
    ensures forall k | k in r :: r[k] == st[k]
    ensures GetQuestion(r, user, id) == None
  {
    if Owns(st, user, id) then st - {id} else st
  }

  /** The user's questions satisfying `keep`, in the store's order. */
  method Select(st: Store, user: nat, dueOnly: bool, now: int) returns (qs: seq<Question>)
    requires WellKeyed(st)
    ensures forall q :: q in qs <==> q.id in st && st[q.id] == Row(user, q) && (dueOnly ==> IsDue(q, now))
    ensures Distinct(qs)
    ensures |qs| == if dueOnly then |DueKeys(st, user, now)| else |OwnedKeys(st, user)|
  {
    var keep := (r: Row) => r.userId == user && (dueOnly ==> IsDue(r.question, now));
    var ks := SelectKeys(st, keep);
    ghost var chosen := set k | k in ks;
    DistinctCard(ks);
    if dueOnly {
      assert chosen == DueKeys(st, user, now);
    } else {
      assert chosen == OwnedKeys(st, user);
    }
    qs := seq(|ks|, i requires 0 <= i < |ks| => st[ks[i]].question);
    forall q: Question | q.id in st && st[q.id] == Row(user, q) && (dueOnly ==> IsDue(q, now))
      ensures q in qs
    {
      var i :| 0 <= i < |ks| && ks[i] == q.id;
      assert qs[i] == q;
    }
    assert forall i | 0 <= i < |qs| :: qs[i].id == ks[i];
    assert |qs| == |ks|;
  }

  /** `GetDueQuestions`: exactly the user's questions due at `now`, oldest
      first. */
  method GetDueQuestions(st: Store, user: nat, now: int) returns (due: seq<Question>)
    requires WellKeyed(st)
    ensures SortedByNextReview(due)
    ensures forall q :: q in due <==> q.id in st && st[q.id] == Row(user, q) && IsDue(q, now)
    ensures |due| == |DueKeys(st, user, now)|
  {
    var qs := Select(st, user, true, now);
    due := SortByNextReview(qs);
    SortKeepsMembers(qs);
  }

  /** The user's questions, by id. */
  function Owned(st: Store, user: nat): (m: map<string, Question>)
    ensures m.Keys == OwnedKeys(st, user)
    ensures forall k | k in m :: Row(user, m[k]) == st[k]
  {
    map k | k in st && st[k].userId == user :: st[k].question
  }

  /** `s` is the rollup of the user's questions at `now`: their number, the
      number due, the sums of both counters, and the accuracy over those. */
  ghost predicate IsRollup(s: Stats, st: Store, user: nat, now: int)
  {
    && s.totalQuestions == |OwnedKeys(st, user)|
    && s.dueQuestions == |DueKeys(st, user, now)|
    && s.totalReviews == Total(Owned(st, user), Reviews)
    && s.totalCorrect == Total(Owned(st, user), Correct)
    && s.accuracy == Accuracy(s.totalCorrect, s.totalReviews)
  }

  /** `GetStats`: the rollup over all of the user's questions. */
  method GetStats(st: Store, user: nat, now: int) returns (s: Stats)
    requires WellKeyed(st)
    ensures IsRollup(s, st, user, now)
    ensures (forall k | k in st && st[k].userId == user :: Valid(st[k].question)) ==>
      0 <= s.totalCorrect <= s.totalReviews && 0 <= s.accuracy.num <= 100 * s.accuracy.den
    ensures s.totalReviews == 0 ==> s.accuracy.num == 0
  {
    var qs := Select(st, user, false, now);
    var due := Select(st, user, true, now);
    s := StatsOf(qs, now);
    assert forall q :: q in FilterDue(qs, now) <==> q in due;
    DueCount(qs, due, now);
    OwnedListing(st, user, qs);
    ListingTotals(qs, Owned(st, user));
    if forall k | k in st && st[k].userId == user :: Valid(st[k].question) {
      assert AllValid(qs) by {
        forall i | 0 <= i < |qs| ensures Valid(qs[i]) {
          assert qs[i] in qs;
        }
      }
      SumsBounded(qs);
      AccuracyInRange(qs, now);
    }
  }

  /** The selection of all the user's rows lists `Owned`. */
  lemma OwnedListing(st: Store, user: nat, qs: seq<Question>)
    requires WellKeyed(st) && Distinct(qs) && |qs| == |OwnedKeys(st, user)|
    requires forall q :: q in qs <==> q.id in st && st[q.id] == Row(user, q)
    ensures Lists(qs, Owned(st, user))
  {
    var m := Owned(st, user);
    forall i | 0 <= i < |qs|
      ensures qs[i].id in m && m[qs[i].id] == qs[i]
    {
      assert qs[i] in qs;
    }
    forall i, j | 0 <= i < j < |qs|
      ensures qs[i].id != qs[j].id
    {
      assert qs[i] in qs && qs[j] in qs;
    }
  }

  /** Counting the due questions of a listing gives the size of the due
      selection. */
  lemma DueCount(qs: seq<Question>, due: seq<Question>, now: int)
    requires Distinct(qs) && Distinct(due)
    requires forall q :: q in FilterDue(qs, now) <==> q in due
    ensures |FilterDue(qs, now)| == |due|
  {
    var f := FilterDue(qs, now);
    DistinctCard(f);
    DistinctCard(due);
    assert (set x | x in f) == (set x | x in due);
  }

  /** The store invariant: well keyed, every question valid. */
  predicate Invariant(st: Store)
  {
    WellKeyed(st) && forall k | k in st :: Valid(st[k].question)
  }

  /** Every write keeps the store invariant and leaves other tenants alone. */
  lemma OperationsPreserveInvariant(st: Store, user: nat, id: string, question: string, answer: string,
                                    source: string, feedback: int, now: int)
    requires Invariant(st)
    ensures var r := AddQuestion(st, user, id, question, answer, source, now);
      r.Ok? ==> Invariant(r.value) && OthersUnchanged(st, r.value, user)
    ensures var r := UpdateReview(st, user, id, feedback, now);
      r.Ok? ==> Invariant(r.value) && OthersUnchanged(st, r.value, user)
    ensures var r := DeleteQuestion(st, user, id);
      Invariant(r) && OthersUnchanged(st, r, user)
  {
  }
}
