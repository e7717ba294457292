/** The single-user store of the command-line tool: a map from question id to
    question, kept in memory and written to a JSON file after every change
    (the file is not modelled). Where the source reads the clock, `now` is a
    parameter. */
module CliStore {
  import opened Common
  import opened Text
  import opened Schedule
  import opened Due
  import opened Identity
  import opened Dedup
  import opened Parser

  type Store = map<string, Question>

  /** The keys whose question is due at `now`. */
  function DueKeys(st: Store, now: int): set<string>
  {
    set k | k in st && IsDue(st[k], now)
  }

  /** `AddQuestion`: a new id gets the initial state; an id already present
      leaves the map exactly as it was. */
  function AddQuestion(st: Store, id: string, question: string, answer: string, source: string, now: int): (r: Store)
    ensures r.Keys == st.Keys + {id}
    ensures forall k | k in st :: r[k] == st[k]
    ensures id !in st ==> r[id] == NewQuestion(id, question, answer, source, now)
  {
    if id in st then st else st[id := NewQuestion(id, question, answer, source, now)]
  }

  /** `GetQuestion`: the question stored under `id`, if any. */
  function GetQuestion(st: Store, id: string): (r: Option<Question>)
    ensures r.Some? <==> id in st
    ensures r.Some? ==> r.value == st[id]
  {
    if id in st then Some(st[id]) else None
  }

  /** `UpdateReview`: false and no change for a missing id; otherwise the
      engine's transition on that entry alone. */
  function UpdateReview(st: Store, id: string, feedback: int, now: int): (r: (bool, Store))
    ensures r.0 <==> id in st
    ensures !r.0 ==> r.1 == st
    ensures r.1.Keys == st.Keys
    ensures r.0 ==> r.1[id] == Review(st[id], feedback, now)
    ensures forall k | k in st && k != id :: r.1[k] == st[k]
  {
    match GetQuestion(st, id)
    case None => (false, st)
    case Some(q) => (true, st[id := Review(q, feedback, now)])
  }

  /** `DeleteQuestion`: true and the key removed iff it was present. */
  function DeleteQuestion(st: Store, id: string): (r: (bool, Store))
    ensures r.0 <==> id in st
    ensures r.1.Keys == st.Keys - {id}
    ensures forall k | k in r.1 :: r.1[k] == st[k]
  {
    if id in st then (true, st - {id}) else (false, st)
  }

  /** `GetDueQuestions`: every due question of the map, oldest first. The
      map's iteration order is not specified, and neither is the order
      `sort.Slice` leaves equal times in. */
  method GetDueQuestions(st: Store, now: int) returns (due: seq<Question>)
    ensures SortedByNextReview(due)
    ensures forall q :: q in due <==> exists k | k in st :: st[k] == q && IsDue(q, now)
    ensures |due| == |DueKeys(st, now)|
  {
    var keep := (q: Question) => IsDue(q, now);
    var ks := SelectKeys(st, keep);
    DistinctCard(ks);
    assert (set k | k in ks) == DueKeys(st, now);
    var listing := Values(st, ks);
    forall q: Question
      ensures q in listing <==> exists k | k in st :: st[k] == q && IsDue(q, now)
    {
      if q in listing {
        var i :| 0 <= i < |listing| && listing[i] == q;
        assert ks[i] in ks;
      }
      if exists k | k in st :: st[k] == q && IsDue(q, now) {
        var k :| k in st && st[k] == q && IsDue(q, now);
        var i :| 0 <= i < |ks| && ks[i] == k;
        assert listing[i] == q;
      }
    }
    due := SortByNextReview(listing);
    SortKeepsMembers(listing);
  }

  /** The questions stored under `ks`, in that order. */
  function Values(st: Store, ks: seq<string>): (r: seq<Question>)
    requires forall k | k in ks :: k in st
    ensures |r| == |ks| && forall i | 0 <= i < |ks| :: r[i] == st[ks[i]]
  {
    seq(|ks|, i requires 0 <= i < |ks| => st[ks[i]])
  }

  // ----- Statistics -----

  /** Over valid questions no more answers are correct than were given. */
  lemma {:induction false} TotalsBounded(st: Store)
    requires forall k | k in st :: Valid(st[k])
    ensures 0 <= Total(st, Correct) <= Total(st, Reviews)
    decreases |st|
  {
    if st != map[] {
      var k :| k in st;
      TotalRemove(st, Correct, k);
      TotalRemove(st, Reviews, k);
      TotalsBounded(st - {k});
    }
  }

  /** The entries of `st` under the keys in `ks`. */
  function Restrict(st: Store, ks: set<string>): (r: Store)
    ensures r.Keys == st.Keys * ks
    ensures forall k | k in r :: r[k] == st[k]
  {
    map k | k in st && k in ks :: st[k]
  }

  /** `GetStats`: the map's size, the length of the due list, both totals,
      and the accuracy over them. */
  method GetStats(st: Store, now: int) returns (s: Stats)
    ensures s.totalQuestions == |st|
    ensures s.dueQuestions == |DueKeys(st, now)|
    ensures s.totalReviews == Total(st, Reviews) && s.totalCorrect == Total(st, Correct)
    ensures s.totalReviews == 0 ==> s.accuracy.num == 0
    ensures s.totalReviews > 0 ==> s.accuracy.num * s.totalReviews == 100 * s.totalCorrect * s.accuracy.den
    ensures (forall k | k in st :: Valid(st[k])) ==>
      0 <= s.totalCorrect <= s.totalReviews && 0 <= s.accuracy.num <= 100 * s.accuracy.den
  {
    var due := GetDueQuestions(st, now);
    var reviews, correct := 0, 0;
    var rest := st.Keys;
    assert Restrict(st, rest) == st;
    while rest != {}
      invariant rest <= st.Keys
      invariant reviews + Total(Restrict(st, rest), Reviews) == Total(st, Reviews)
      invariant correct + Total(Restrict(st, rest), Correct) == Total(st, Correct)
      decreases rest
    {
      var k :| k in rest;
      TotalRemove(Restrict(st, rest), Reviews, k);
      TotalRemove(Restrict(st, rest), Correct, k);
      assert Restrict(st, rest) - {k} == Restrict(st, rest - {k});
      reviews := reviews + st[k].reviewCount;
      correct := correct + st[k].correctCount;
      rest := rest - {k};
    }
    assert Restrict(st, {}) == map[];
    s := Stats(|st|, |due|, reviews, correct, Accuracy(correct, reviews));
    if forall k | k in st :: Valid(st[k]) {
      TotalsBounded(st);
    }
  }

  // ----- Feedback input -----

  /** `feedbackMap`: the digit, the label, digit and label together, and the
      label with the adjectival "的", for each of the four levels. */
  const FeedbackMap: map<string, int> := map[
    "1" := 1, "2" := 2, "3" := 3, "4" := 4,
    "熟练" := 1, "一般" := 2, "忘记" := 3, "完全忘记" := 4,
    "1熟练" := 1, "2一般" := 2, "3忘记" := 3, "4完全忘记" := 4,
    "熟练的" := 1, "一般的" := 2, "忘记的" := 3, "完全忘记的" := 4]

  /** `feedbackLabels`: the label printed after a rating. */
  const FeedbackLabels: map<int, string> := map[1 := "熟练", 2 := "一般", 3 := "忘记", 4 := "完全忘记"]

  /** Every accepted input names one of the four levels, and every level's
      label and digit read back as that level. */
  lemma FeedbackTables()
    ensures forall s | s in FeedbackMap :: 1 <= FeedbackMap[s] <= 4
    ensures forall f | 1 <= f <= 4 ::
      f in FeedbackLabels && FeedbackLabels[f] in FeedbackMap && FeedbackMap[FeedbackLabels[f]] == f
    ensures forall f | 1 <= f <= 4 :: Dec(f) in FeedbackMap && FeedbackMap[Dec(f)] == f
  {
    assert Dec(1) == "1" && Dec(2) == "2" && Dec(3) == "3" && Dec(4) == "4";
  }

  /** What one line typed at the feedback prompt asks for. */
  datatype FeedbackCommand = Quit | Delete | Skip | Rate(feedback: int) | Invalid

  /** The feedback prompt reads the trimmed line: quit, delete, skip, a
      rating from `feedbackMap`, or anything else, which is refused. */
  function ReadFeedback(line: string): (c: FeedbackCommand)
    ensures c.Rate? <==> Trim(line) in FeedbackMap
    ensures c.Rate? ==> 1 <= c.feedback <= 4 && c.feedback == FeedbackMap[Trim(line)]
  {
    FeedbackTables();
    var input := Trim(line);
    if input == "q" || input == "quit" || input == "退出" then Quit
    else if input == "d" || input == "delete" || input == "删除" then Delete
    else if input == "skip" then Skip
    else if input in FeedbackMap then Rate(FeedbackMap[input])
    else Invalid
  }

  /** Only a rating reaches the engine: the CLI never reviews with a
      feedback outside 1..4, so a rated question is due strictly later and
      stays valid. */
  lemma RatingIsInRange(st: Store, id: string, line: string, now: int)
    requires ReadFeedback(line).Rate? && id in st && Valid(st[id])
    ensures var r := UpdateReview(st, id, ReadFeedback(line).feedback, now).1;
      r[id].nextReview > now && Valid(r[id])
  {
  }

  // ----- Import -----

  /** The CLI keys duplicates and existing questions on the trimmed text. */
  function TrimmedText(p: ParsedQuestion): string
  {
    Trim(p.questionText)
  }

  /** The trimmed texts of the stored questions, collected before the
      import loop starts. */
  function ExistingTexts(st: Store): set<string>
  {
    set k | k in st :: Trim(st[k].questionText)
  }

  /** The questions of `us` the loop adds: those whose trimmed text is not
      yet known, in order. */
  function Fresh(us: seq<ParsedQuestion>, existing: set<string>): (r: seq<ParsedQuestion>)
    ensures |r| <= |us|
    ensures forall p :: p in r <==> p in us && TrimmedText(p) !in existing
  {
    if |us| == 0 then []
    else (if TrimmedText(us[0]) in existing then [] else [us[0]]) + Fresh(us[1..], existing)
  }

  /** The ids of the questions of `us` whose trimmed text is not yet
      known. */
  function FreshIds(digest: string -> HexDigest, us: seq<ParsedQuestion>, existing: set<string>): set<string>
  {
    if |us| == 0 then {}
    else
      var own := if TrimmedText(us[0]) in existing then {} else {CliId(digest, us[0].questionText)};
      own + FreshIds(digest, us[1..], existing)
  }

  /** A question whose text is not yet known contributes its id. */
  lemma {:induction false} FreshIdsContain(digest: string -> HexDigest, us: seq<ParsedQuestion>, existing: set<string>,
                                           p: ParsedQuestion)
    requires p in us && TrimmedText(p) !in existing
    ensures CliId(digest, p.questionText) in FreshIds(digest, us, existing)
    decreases |us|
  {
    if us[0] != p {
      assert p in us[1..];
      FreshIdsContain(digest, us[1..], existing, p);
    }
  }

  /** The loop over the unique questions: a question whose trimmed text was
      in the store before the loop is skipped; any other is added under
      "q_" + Hash(text) and counted as imported, even when that id is
      already taken and the add changes nothing. */
  function ImportLoop(digest: string -> HexDigest, st: Store, existing: set<string>, us: seq<ParsedQuestion>, now: int)
    : (r: (Store, nat, nat))
    ensures r.1 == |Fresh(us, existing)| && r.1 + r.2 == |us|
    ensures r.0.Keys == st.Keys + FreshIds(digest, us, existing)
    ensures forall k | k in st :: r.0[k] == st[k]
    decreases |us|
  {
    if |us| == 0 then (st, 0, 0)
    else
      var p := us[0];
      if TrimmedText(p) in existing then
        var r := ImportLoop(digest, st, existing, us[1..], now);
        (r.0, r.1, r.2 + 1)
      else
        var st' := AddQuestion(st, CliId(digest, p.questionText), p.questionText, p.answerText, p.sourceFile, now);
        var r := ImportLoop(digest, st', existing, us[1..], now);
        (r.0, r.1 + 1, r.2)
  }

  datatype ImportError = NoQuestions

  /** What `--init` reports: the store after the import, and the three
      counts it prints. */
  datatype ImportReport = ImportReport(store: Store, duplicates: nat, imported: nat, skipped: nat)

  /** `initDatabase` after parsing: nothing parsed is an error; otherwise
      deduplicate on the trimmed text, keeping first occurrences, and import
      the unique questions. */
  function Import(digest: string -> HexDigest, st: Store, questions: seq<ParsedQuestion>, now: int)
    : (r: Result<ImportReport, ImportError>)
    ensures r.Err? <==> |questions| == 0
    ensures r.Ok? ==> r.value.duplicates + r.value.imported + r.value.skipped == |questions|
    ensures r.Ok? ==> r.value.store.Keys >= st.Keys && forall k | k in st :: r.value.store[k] == st[k]
  {
    if |questions| == 0 then Err(NoQuestions)
    else
      var pass := DedupBy(questions, TrimmedText);
      var r := ImportLoop(digest, st, ExistingTexts(st), pass.unique, now);
      Ok(ImportReport(r.0, pass.duplicates, r.1, r.2))
  }

  /** Every question the import adds is stored under the id of its text,
      with the initial state, when no other question shares that id. */
  lemma {:induction false} ImportLoopAdds(digest: string -> HexDigest, st: Store, existing: set<string>,
                                          us: seq<ParsedQuestion>, now: int, p: ParsedQuestion)
    requires p in us && TrimmedText(p) !in existing && CliId(digest, p.questionText) !in st
    requires forall q | q in us && q != p :: CliId(digest, q.questionText) != CliId(digest, p.questionText)
    ensures var id := CliId(digest, p.questionText); var r := ImportLoop(digest, st, existing, us, now).0;
      id in r && r[id] == NewQuestion(id, p.questionText, p.answerText, p.sourceFile, now)
    decreases |us|
  {
    FreshIdsContain(digest, us, existing, p);
    var q := us[0];
    var st' := AddQuestion(st, CliId(digest, q.questionText), q.questionText, q.answerText, q.sourceFile, now);
    if q != p {
      assert p in us[1..];
      if TrimmedText(q) in existing {
        ImportLoopAdds(digest, st, existing, us[1..], now, p);
      } else {
        ImportLoopAdds(digest, st', existing, us[1..], now, p);
      }
    }
  }

  /** A store in which every question sits under the id of its own text, as
      the import leaves it. */
  predicate KeyedByText(digest: string -> HexDigest, st: Store)
  {
    forall k | k in st :: k == CliId(digest, st[k].questionText)
  }

  /** The trimmed texts of a list of parsed questions. */
  function Texts(us: seq<ParsedQuestion>): set<string>
  {
    set p | p in us :: TrimmedText(p)
  }

  /** The loop keeps a store keyed by text, and every text it stores was
      either stored before or parsed. */
  lemma {:induction false} ImportLoopTexts(digest: string -> HexDigest, st: Store, existing: set<string>,
                                           us: seq<ParsedQuestion>, now: int)
    requires KeyedByText(digest, st)
    ensures var r := ImportLoop(digest, st, existing, us, now).0;
      KeyedByText(digest, r) && ExistingTexts(r) <= ExistingTexts(st) + Texts(us)
    decreases |us|
  {
    if |us| > 0 {
      var p := us[0];
      assert Texts(us) == {TrimmedText(p)} + Texts(us[1..]) by {
        assert forall q :: q in us <==> q == p || q in us[1..];
      }
      if TrimmedText(p) in existing {
        ImportLoopTexts(digest, st, existing, us[1..], now);
      } else {
        var st' := AddQuestion(st, CliId(digest, p.questionText), p.questionText, p.answerText, p.sourceFile, now);
        AddKeepsTexts(digest, st, p, now);
        ImportLoopTexts(digest, st', existing, us[1..], now);
      }
    }
  }

  /** One add keeps a store keyed by text and stores at most the added
      text. */
  lemma AddKeepsTexts(digest: string -> HexDigest, st: Store, p: ParsedQuestion, now: int)
    requires KeyedByText(digest, st)
    ensures var st' := AddQuestion(st, CliId(digest, p.questionText), p.questionText, p.answerText, p.sourceFile, now);
      KeyedByText(digest, st') && ExistingTexts(st') <= ExistingTexts(st) + {TrimmedText(p)}
  {
  }

  /** When every question is already known, the loop skips them all. */
  lemma {:induction false} ImportLoopAllKnown(digest: string -> HexDigest, st: Store, existing: set<string>,
                                              us: seq<ParsedQuestion>, now: int)
    requires forall p | p in us :: TrimmedText(p) in existing
    ensures ImportLoop(digest, st, existing, us, now) == (st, 0, |us|)
    decreases |us|
  {
    if |us| > 0 {
      assert forall p | p in us[1..] :: p in us;
      ImportLoopAllKnown(digest, st, existing, us[1..], now);
    }
  }

  /** No two of the given texts share a digest. */
  predicate CollisionFree(digest: string -> HexDigest, texts: set<string>)
  {
    forall a, b | a in texts && b in texts && a != b :: digest(a) != digest(b)
  }

  /** Two CLI ids are equal only if the digests of the trimmed texts are. */
  lemma CliIdDigest(digest: string -> HexDigest, a: string, b: string)
    requires CliId(digest, a) == CliId(digest, b)
    ensures digest(Trim(a)) == digest(Trim(b))
  {
    assert CliId(digest, a)[2..] == CliId(digest, b)[2..];
  }

  /** After the loop, every unique question's trimmed text is in the store,
      provided no two texts involved share a digest. */
  lemma ImportedTextsExist(digest: string -> HexDigest, st: Store, us: seq<ParsedQuestion>, now: int)
    requires KeyedByText(digest, st)
    requires CollisionFree(digest, ExistingTexts(st) + Texts(us))
    ensures var st1 := ImportLoop(digest, st, ExistingTexts(st), us, now).0;
      forall p | p in us :: TrimmedText(p) in ExistingTexts(st1)
  {
    var existing := ExistingTexts(st);
    var st1 := ImportLoop(digest, st, existing, us, now).0;
    ImportLoopTexts(digest, st, existing, us, now);
    forall p | p in us
      ensures TrimmedText(p) in ExistingTexts(st1)
    {
      if TrimmedText(p) in existing {
        var k :| k in st && Trim(st[k].questionText) == TrimmedText(p);
        assert st1[k] == st[k];
      } else {
        var id := CliId(digest, p.questionText);
        FreshIdsContain(digest, us, existing, p);
        assert id in st1;
        var t := st1[id].questionText;
        CliIdDigest(digest, t, p.questionText);
        assert Trim(t) in ExistingTexts(st1);
        assert TrimmedText(p) in Texts(us);
      }
    }
  }

  /** Running `--init` a second time on the same files changes nothing:
      every question is skipped, provided the store was keyed by text and no
      two texts share a digest. */
  lemma ReimportImportsNothing(digest: string -> HexDigest, st: Store, questions: seq<ParsedQuestion>, now: int, later: int)
    requires |questions| > 0 && KeyedByText(digest, st)
    requires CollisionFree(digest, ExistingTexts(st) + Texts(questions))
    ensures var first := Import(digest, st, questions, now).value;
      var second := Import(digest, first.store, questions, later).value;
      second.store == first.store && second.imported == 0 && second.skipped == first.imported + first.skipped
  {
    var us := DedupBy(questions, TrimmedText).unique;
    var first := Import(digest, st, questions, now).value;
    UniqueFromInput(questions, TrimmedText);
    assert Texts(us) <= Texts(questions);
    ImportedTextsExist(digest, st, us, now);
    ImportLoopAllKnown(digest, first.store, ExistingTexts(first.store), us, later);
  }

  /** A question deleted right after it was added leaves the store as it
      was. */
  lemma DeleteUndoesAdd(st: Store, id: string, question: string, answer: string, source: string, now: int)
    requires id !in st
    ensures DeleteQuestion(AddQuestion(st, id, question, answer, source, now), id) == (true, st)
  {
    assert AddQuestion(st, id, question, answer, source, now) - {id} == st;
  }

  /** Adding twice under one id is adding once. */
  lemma AddIdempotent(st: Store, id: string, q1: string, a1: string, s1: string, t1: int,
                      q2: string, a2: string, s2: string, t2: int)
    ensures var r := AddQuestion(st, id, q1, a1, s1, t1);
      AddQuestion(r, id, q2, a2, s2, t2) == r
  {
  }

  /** Every write keeps all questions valid and keeps the store keyed by
      id. */
  predicate Invariant(st: Store)
  {
    forall k | k in st :: Valid(st[k]) && st[k].id == k
  }

  lemma OperationsPreserveInvariant(st: Store, id: string, question: string, answer: string, source: string,
                                    feedback: int, now: int)
    requires Invariant(st)
    ensures Invariant(AddQuestion(st, id, question, answer, source, now))
    ensures Invariant(UpdateReview(st, id, feedback, now).1)
    ensures Invariant(DeleteQuestion(st, id).1)
  {
  }
}
