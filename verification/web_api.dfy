/** The decision logic of the web server's learning endpoints, over the
    multi-tenant store: which reply each request gets and what it does to
    the table. HTTP, JSON encoding, authentication and database failures
    are not modelled; the authenticated user is a parameter. */
module WebApi {
  import opened Common
  import opened Schedule
  import opened Due
  import opened Identity
  import opened TenantStore
  import opened Dedup
  import opened Parser

  /** The outcome of a request: 400 for a body that fails binding or an
      empty import, 404 for a review of a question the user does not own,
      200 with a payload otherwise. */
  datatype Reply<T> = BadRequest | NotFound | Done(value: T)

  // ----- Due questions -----

  /** One entry of the due list as the client receives it. */
  datatype Summary = Summary(id: string, question: string, answer: string, reviewCount: int, correctCount: int, source: string)

  function Summarize(q: Question): Summary
  {
    Summary(q.id, q.questionText, q.answerText, q.reviewCount, q.correctCount, q.source)
  }

  function Summaries(qs: seq<Question>): (r: seq<Summary>)
    ensures |r| == |qs| && forall i | 0 <= i < |qs| :: r[i] == Summarize(qs[i])
  {
    seq(|qs|, i requires 0 <= i < |qs| => Summarize(qs[i]))
  }

  /** The three answers of the due-questions endpoint. */
  datatype DueReply = NeedsInit | NothingDue | DueList(questions: seq<Summary>, total: nat)

  /** `getDueQuestionsHandler`: an empty knowledge base asks for an import;
      a user with questions but none due gets an empty list; otherwise the
      due questions in the engine's order, with their number. */
  method GetDueQuestionsHandler(st: Store, user: nat, now: int) returns (reply: DueReply)
    requires WellKeyed(st)
    ensures reply.NeedsInit? <==> OwnedKeys(st, user) == {}
    ensures reply.NothingDue? <==> OwnedKeys(st, user) != {} && DueKeys(st, user, now) == {}
    ensures reply.DueList? ==> reply.total == |reply.questions| == |DueKeys(st, user, now)| > 0
    ensures reply.DueList? ==> exists due: seq<Question> ::
      && SortedByNextReview(due)
      && (forall q :: q in due <==> q.id in st && st[q.id] == Row(user, q) && IsDue(q, now))
      && reply.questions == Summaries(due)
  {
    var due := GetDueQuestions(st, user, now);
    if |due| == 0 {
      var count := |OwnedKeys(st, user)|;
      if count == 0 {
        return NeedsInit;
      }
      assert DueKeys(st, user, now) == {};
      return NothingDue;
    }
    assert DueKeys(st, user, now) <= OwnedKeys(st, user);
    reply := DueList(Summaries(due), |due|);
  }

  /** The parts of the JSON body the client looks at: the success flag, the
      `data` object and a top-level `needs_init` field, which the server
      never sets. */
  datatype Response = Response(success: bool, data: Option<Payload>, needsInit: Option<bool>)

  /** What `data` holds on the due-questions endpoint. */
  datatype Payload = QuestionList(questions: seq<Summary>) | InitFlag(needsInit: bool)

  /** The response the server writes for each due reply: `needs_init` sits
      inside `data`. */
  function DueBody(reply: DueReply): (b: Response)
    ensures b.success <==> !reply.NeedsInit?
    ensures b.needsInit.None? && b.data.Some?
    ensures reply.NeedsInit? ==> b.data.value == InitFlag(true)
    ensures reply.NothingDue? ==> b.data.value == QuestionList([])
    ensures reply.DueList? ==> b.data.value == QuestionList(reply.questions)
  {
    match reply
    case NeedsInit => Response(false, Some(InitFlag(true)), None)
    case NothingDue => Response(true, Some(QuestionList([])), None)
    case DueList(qs, _) => Response(true, Some(QuestionList(qs)), None)
  }

  // ----- Review -----

  /** The review request body. */
  datatype ReviewRequest = ReviewRequest(questionId: string, feedback: int)

  /** Gin's binding rules: `question_id` required (non-empty), `feedback`
      required with `min=1,max=4`. */
  predicate BindsReview(req: ReviewRequest)
  {
    req.questionId != "" && 1 <= req.feedback <= 4
  }

  /** `updateReviewHandler`: a body outside the binding rules is refused
      before the engine sees it, so every review the engine applies has a
      feedback in 1..4 and moves the question strictly into the future. */
  method UpdateReviewHandler(st: Store, user: nat, req: ReviewRequest, now: int) returns (st': Store, reply: Reply<Stats>)
    requires WellKeyed(st)
    ensures !BindsReview(req) ==> reply.BadRequest? && st' == st
    ensures BindsReview(req) && !Owns(st, user, req.questionId) ==> reply.NotFound? && st' == st
    ensures reply.Done? <==> BindsReview(req) && Owns(st, user, req.questionId)
    ensures reply.Done? ==>
      && st'.Keys == st.Keys && OthersUnchanged(st, st', user)
      && st'[req.questionId] == Row(user, Review(st[req.questionId].question, req.feedback, now))
      && st'[req.questionId].question.nextReview > now
      && (forall k | k in st && k != req.questionId :: st'[k] == st[k])
      && reply.value.totalQuestions == |OwnedKeys(st', user)| == |OwnedKeys(st, user)|
      && reply.value.dueQuestions == |DueKeys(st', user, now)|
      && IsRollup(reply.value, st', user, now)
    ensures WellKeyed(st')
  {
    if !BindsReview(req) {
      return st, BadRequest;
    }
    match UpdateReview(st, user, req.questionId, req.feedback, now)
    case Err(_) =>
      return st, Reply.NotFound;
    case Ok(updated) =>
      st' := updated;
      assert OwnedKeys(st', user) == OwnedKeys(st, user);
      var stats := GetStats(st', user, now);
      reply := Done(stats);
  }

  // ----- Delete -----

  /** `deleteQuestionHandler`: an empty id fails binding; any other id
      succeeds, whether or not the user owned it, because a delete that
      matches no row is not an error. */
  method DeleteQuestionHandler(st: Store, user: nat, id: string, now: int) returns (st': Store, reply: Reply<Stats>)
    requires WellKeyed(st)
    ensures id == "" ==> reply.BadRequest? && st' == st
    ensures id != "" ==> reply.Done?
    ensures reply.Done? ==>
      && GetQuestion(st', user, id) == None
      && OthersUnchanged(st, st', user)
      && st'.Keys == st.Keys - (if Owns(st, user, id) then {id} else {})
      && reply.value.totalQuestions == |OwnedKeys(st, user)| - (if Owns(st, user, id) then 1 else 0)
      && IsRollup(reply.value, st', user, now)
    ensures WellKeyed(st')
  {
    if id == "" {
      return st, BadRequest;
    }
    st' := DeleteQuestion(st, user, id);
    if Owns(st, user, id) {
      assert OwnedKeys(st', user) == OwnedKeys(st, user) - {id};
    } else {
      assert OwnedKeys(st', user) == OwnedKeys(st, user);
    }
    var stats := GetStats(st', user, now);
    reply := Done(stats);
  }

  // ----- Import -----

  /** The web server deduplicates and looks up existing questions on the
      exact text. */
  function ExactText(p: ParsedQuestion): string
  {
    p.questionText
  }

  /** The user already has a live row with exactly this question text. */
  predicate HasText(st: Store, user: nat, text: string)
  {
    exists k | k in st :: st[k].userId == user && st[k].question.questionText == text
  }

  /** The row the loop inserts for `p`: the initial state under the web id
      of its text. */
  function NewRow(digest: string -> HexDigest, user: nat, p: ParsedQuestion, now: int): Row
  {
    Row(user, NewQuestion(WebId(digest, user, p.questionText), p.questionText, p.answerText, p.sourceFile, now))
  }

  /** The rows the loop may insert for the questions of `us`. */
  function NewRows(digest: string -> HexDigest, user: nat, us: seq<ParsedQuestion>, now: int): set<Row>
  {
    if |us| == 0 then {} else {NewRow(digest, user, us[0], now)} + NewRows(digest, user, us[1..], now)
  }

  /** How many questions of `us` have a text the user already has in `st`. */
  function CountKnown(st: Store, user: nat, us: seq<ParsedQuestion>): nat
  {
    if |us| == 0 then 0
    else (if HasText(st, user, us[0].questionText) then 1 else 0) + CountKnown(st, user, us[1..])
  }

  /** The loop over the unique questions: skip a text the user already has;
      otherwise insert under "q_<user>_" + Hash(text), and when the insert
      fails (the id is taken) go on without counting the question as
      imported or skipped. The result is the table and the imported, skipped
      and failed counts. */
  function ImportLoop(digest: string -> HexDigest, st: Store, user: nat, us: seq<ParsedQuestion>, now: int)
    : (r: (Store, nat, nat, nat))
    ensures r.1 + r.2 + r.3 == |us|
    ensures r.0.Keys >= st.Keys && forall k | k in st :: r.0[k] == st[k]
    ensures OthersUnchanged(st, r.0, user)
    ensures WellKeyed(st) ==> WellKeyed(r.0)
    decreases |us|
  {
    if |us| == 0 then (st, 0, 0, 0)
    else
      var p := us[0];
      if HasText(st, user, p.questionText) then
        var r := ImportLoop(digest, st, user, us[1..], now);
        (r.0, r.1, r.2 + 1, r.3)
      else
        match AddQuestion(st, user, WebId(digest, user, p.questionText), p.questionText, p.answerText, p.sourceFile, now)
        case Err(_) =>
          var r := ImportLoop(digest, st, user, us[1..], now);
          (r.0, r.1, r.2, r.3 + 1)
        case Ok(st') =>
          var r := ImportLoop(digest, st', user, us[1..], now);
          (r.0, r.1 + 1, r.2, r.3)
  }

  /** Every imported question adds exactly one row, and every added row is
      the inserted row of one of the questions, under its own id. */
  lemma {:induction false} ImportLoopAdds(digest: string -> HexDigest, st: Store, user: nat, us: seq<ParsedQuestion>, now: int)
    ensures var r := ImportLoop(digest, st, user, us, now);
      && |r.0.Keys| == |st.Keys| + r.1
      && forall k | k in r.0 && k !in st :: r.0[k] in NewRows(digest, user, us, now) && r.0[k].question.id == k
    decreases |us|
  {
    if |us| > 0 {
      var p := us[0];
      var id := WebId(digest, user, p.questionText);
      if HasText(st, user, p.questionText) {
        ImportLoopAdds(digest, st, user, us[1..], now);
      } else if id in st {
        ImportLoopAdds(digest, st, user, us[1..], now);
      } else {
        var st' := st[id := NewRow(digest, user, p, now)];
        assert AddQuestion(st, user, id, p.questionText, p.answerText, p.sourceFile, now) == Ok(st');
        assert st'.Keys == st.Keys + {id};
        ImportLoopAdds(digest, st', user, us[1..], now);
      }
    }
  }

  /** Over distinct texts, the skipped questions are exactly those whose
      text the user had before the loop. */
  lemma {:induction false} ImportLoopSkips(digest: string -> HexDigest, st: Store, user: nat, us: seq<ParsedQuestion>, now: int)
    requires KeysDistinct(us, ExactText)
    ensures ImportLoop(digest, st, user, us, now).2 == CountKnown(st, user, us)
    decreases |us|
  {
    if |us| > 0 {
      var p := us[0];
      var id := WebId(digest, user, p.questionText);
      assert KeysDistinct(us[1..], ExactText);
      if HasText(st, user, p.questionText) || id in st {
        ImportLoopSkips(digest, st, user, us[1..], now);
      } else {
        var st' := st[id := NewRow(digest, user, p, now)];
        assert AddQuestion(st, user, id, p.questionText, p.answerText, p.sourceFile, now) == Ok(st');
        KnownAfterAdd(st, st', user, us, now, digest);
        ImportLoopSkips(digest, st', user, us[1..], now);
      }
    }
  }

  /** Inserting the row of a question whose text no later question shares
      does not change how many later questions are known. */
  lemma KnownAfterAdd(st: Store, st': Store, user: nat, us: seq<ParsedQuestion>, now: int, digest: string -> HexDigest)
    requires |us| > 0
    requires WebId(digest, user, us[0].questionText) !in st
    requires st' == st[WebId(digest, user, us[0].questionText) := NewRow(digest, user, us[0], now)]
    ensures KeysDistinct(us, ExactText) ==> CountKnown(st', user, us[1..]) == CountKnown(st, user, us[1..])
  {
    if KeysDistinct(us, ExactText) {
      forall i | 1 <= i < |us|
        ensures us[i].questionText != us[0].questionText
      {
        assert ExactText(us[0]) != ExactText(us[i]);
      }
      KnownUnchanged(st, st', user, us[1..], us[0].questionText, WebId(digest, user, us[0].questionText));
    }
  }

  /** Adding a row whose text is none of the texts of `rest` does not change
      how many of them are known. */
  lemma {:induction false} KnownUnchanged(st: Store, st': Store, user: nat, rest: seq<ParsedQuestion>, text: string, id: string)
    requires id !in st && id in st' && st'[id].question.questionText == text
    requires st' == st[id := st'[id]]
    requires forall i | 0 <= i < |rest| :: rest[i].questionText != text
    ensures CountKnown(st', user, rest) == CountKnown(st, user, rest)
    decreases |rest|
  {
    if |rest| > 0 {
      var t := rest[0].questionText;
      if HasText(st', user, t) {
        var k :| k in st' && st'[k].userId == user && st'[k].question.questionText == t;
        assert k != id && k in st && st[k] == st'[k];
      }
      if HasText(st, user, t) {
        var k :| k in st && st[k].userId == user && st[k].question.questionText == t;
        assert k in st' && st'[k] == st[k];
      }
      KnownUnchanged(st, st', user, rest[1..], text, id);
    }
  }

  /** What the init endpoint reports. */
  datatype InitData = InitData(imported: nat, skipped: nat, duplicates: nat, stats: Stats)

  /** `initDatabaseHandler` after parsing: nothing parsed is a bad request;
      otherwise deduplicate on the exact text and run the loop. */
  method InitDatabaseHandler(digest: string -> HexDigest, st: Store, user: nat, questions: seq<ParsedQuestion>, now: int)
    returns (st': Store, reply: Reply<InitData>)
    requires WellKeyed(st)
    ensures reply.BadRequest? <==> |questions| == 0
    ensures reply.BadRequest? ==> st' == st
    ensures reply.Done? ==>
      && reply.value.imported + reply.value.skipped + reply.value.duplicates <= |questions|
      && reply.value.duplicates == DedupBy(questions, ExactText).duplicates
      && reply.value.imported == |st'.Keys| - |st.Keys|
      && reply.value.skipped == CountKnown(st, user, DedupBy(questions, ExactText).unique)
      && st'.Keys >= st.Keys && (forall k | k in st :: st'[k] == st[k])
      && OthersUnchanged(st, st', user)
      && IsRollup(reply.value.stats, st', user, now)
    ensures WellKeyed(st')
  {
    if |questions| == 0 {
      return st, BadRequest;
    }
    var pass := DedupBy(questions, ExactText);
    var r := ImportLoop(digest, st, user, pass.unique, now);
    ImportLoopAdds(digest, st, user, pass.unique, now);
    ImportLoopSkips(digest, st, user, pass.unique, now);
    st' := r.0;
    var stats := GetStats(st', user, now);
    reply := Done(InitData(r.1, r.2, pass.duplicates, stats));
  }

  /** Every question of `us` is either a text the user has or an id that is
      taken. */
  predicate Covered(digest: string -> HexDigest, st: Store, user: nat, us: seq<ParsedQuestion>)
  {
    forall p | p in us :: HasText(st, user, p.questionText) || WebId(digest, user, p.questionText) in st
  }

  /** Keeping every row keeps a question covered. */
  lemma CoveredGrows(digest: string -> HexDigest, st: Store, st': Store, user: nat, us: seq<ParsedQuestion>)
    requires Covered(digest, st, user, us)
    requires st'.Keys >= st.Keys && forall k | k in st :: st'[k] == st[k]
    ensures Covered(digest, st', user, us)
  {
    forall p | p in us
      ensures HasText(st', user, p.questionText) || WebId(digest, user, p.questionText) in st'
    {
      if HasText(st, user, p.questionText) {
        var k :| k in st && st[k].userId == user && st[k].question.questionText == p.questionText;
        assert st'[k] == st[k];
      }
    }
  }

  /** After the loop every question it saw is covered. */
  lemma {:induction false} ImportLoopCovers(digest: string -> HexDigest, st: Store, user: nat,
                                            us: seq<ParsedQuestion>, now: int)
    ensures Covered(digest, ImportLoop(digest, st, user, us, now).0, user, us)
    decreases |us|
  {
    if |us| > 0 {
      var p := us[0];
      var id := WebId(digest, user, p.questionText);
      var r := ImportLoop(digest, st, user, us, now).0;
      var mid: Store;
      if HasText(st, user, p.questionText) {
        mid := st;
      } else {
        match AddQuestion(st, user, id, p.questionText, p.answerText, p.sourceFile, now)
        case Err(_) => mid := st;
        case Ok(st') => mid := st';
      }
      assert Covered(digest, mid, user, [p]);
      ImportLoopCovers(digest, mid, user, us[1..], now);
      CoveredGrows(digest, mid, r, user, [p]);
      forall q | q in us
        ensures HasText(r, user, q.questionText) || WebId(digest, user, q.questionText) in r
      {
        if q != p {
          assert q in us[1..];
        }
      }
    }
  }

  /** On a store that covers every question, the loop changes nothing and
      imports nothing. */
  lemma {:induction false} CoveredLoopIsIdle(digest: string -> HexDigest, st: Store, user: nat,
                                             us: seq<ParsedQuestion>, now: int)
    requires Covered(digest, st, user, us)
    ensures var r := ImportLoop(digest, st, user, us, now); r.0 == st && r.1 == 0
    decreases |us|
  {
    if |us| > 0 {
      assert forall p | p in us[1..] :: p in us;
      CoveredLoopIsIdle(digest, st, user, us[1..], now);
    }
  }

  /** Pressing "initialize" twice imports nothing the second time and
      leaves the table as the first press left it, whatever the digest. */
  lemma ReimportImportsNothing(digest: string -> HexDigest, st: Store, user: nat, us: seq<ParsedQuestion>,
                               now: int, later: int)
    ensures var first := ImportLoop(digest, st, user, us, now).0;
      var second := ImportLoop(digest, first, user, us, later);
      second.0 == first && second.1 == 0
  {
    ImportLoopCovers(digest, st, user, us, now);
    CoveredLoopIsIdle(digest, ImportLoop(digest, st, user, us, now).0, user, us, later);
  }

  /** Importing for one user never touches another user's rows, and the two
      users' ids never meet, so each user's import is independent. */
  lemma ImportIsolatesUsers(digest: string -> HexDigest, st: Store, u1: nat, u2: nat, text: string,
                            us: seq<ParsedQuestion>, now: int)
    requires u1 != u2
    ensures OthersUnchanged(st, ImportLoop(digest, st, u1, us, now).0, u1)
    ensures WebId(digest, u1, text) != WebId(digest, u2, text)
  {
    WebIdsSeparateUsers(digest, u1, u2, text);
  }
}
