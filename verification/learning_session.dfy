/** The browser's learning store: the list of due questions fetched from the
    server, a cursor into it and whether the answer is shown. Each action
    that calls the server takes the server's reply as a parameter and
    reports which call it made; the statistics it copies are not modelled. */
module LearningSession {
  import opened Common
  import opened Text
  import opened Due
  import opened WebApi

  datatype Session = Session(questions: seq<Summary>, index: nat, answerVisible: bool)

  /** The state the store starts in, and `reset` returns to. */
  const Initial: Session := Session([], 0, false)

  /** `currentQuestion`: the question under the cursor, none past the end. */
  function Current(s: Session): (r: Option<Summary>)
    ensures r.Some? <==> s.index < |s.questions|
    ensures r.Some? ==> r.value == s.questions[s.index]
  {
    if s.index < |s.questions| then Some(s.questions[s.index]) else None
  }

  /** `progressText`: "position/total", where the position is one-based and
      never shown beyond the total. */
  function ProgressText(s: Session): (r: string)
    ensures exists pos: nat, total: nat ::
      && r == Dec(pos) + "/" + Dec(total)
      && total == |s.questions| && pos <= total
      && (total > 0 ==> 1 <= pos && (s.index < total ==> pos == s.index + 1))
      && (total > 0 && s.index >= total ==> pos == total)
  {
    var n := |s.questions|;
    var pos := if n == 0 then 0 else if s.index + 1 < n then s.index + 1 else n;
    Dec(pos) + "/" + Dec(n)
  }

  /** Whatever the cursor, an empty list reads "0/0". */
  lemma EmptyProgress(s: Session)
    requires |s.questions| == 0
    ensures ProgressText(s) == "0/0"
  {
    assert Dec(0) == "0";
  }

  /** `showAnswer`. */
  function ShowAnswer(s: Session): (r: Session)
    ensures r.answerVisible && r.questions == s.questions && r.index == s.index
    ensures Current(r) == Current(s)
  {
    s.(answerVisible := true)
  }

  /** `nextQuestion`: the cursor moves one on, past the end if need be, and
      the answer is hidden again. */
  function Next(s: Session): (r: Session)
    ensures r.questions == s.questions && r.index == s.index + 1 && !r.answerVisible
    ensures Current(r).Some? ==> Current(s).Some?
  {
    s.(index := s.index + 1, answerVisible := false)
  }

  /** `reset`. */
  function Reset(s: Session): (r: Session)
    ensures Current(r) == None && r == Initial
  {
    Initial
  }

  /** `k` calls of `nextQuestion`. */
  function Advance(s: Session, k: nat): Session
    decreases k
  {
    if k == 0 then s else Next(Advance(s, k - 1))
  }

  /** Walking a freshly loaded list: after `k` moves the cursor is on the
      k-th question and the progress reads "k+1/n"; after the last move
      there is no current question and the progress stays at "n/n". */
  lemma {:induction false} WalkInOrder(qs: seq<Summary>, k: nat)
    requires k <= |qs|
    ensures var s := Advance(Session(qs, 0, false), k);
      && s.questions == qs && s.index == k && !s.answerVisible
      && (k < |qs| ==> Current(s) == Some(qs[k]) && ProgressText(s) == Dec(k + 1) + "/" + Dec(|qs|))
      && (k == |qs| ==> Current(s) == None && ProgressText(s) == Dec(|qs|) + "/" + Dec(|qs|))
    decreases k
  {
    if k > 0 {
      WalkInOrder(qs, k - 1);
    }
  }

  /** Showing the answer changes neither what comes next nor the progress. */
  lemma ShowAnswerKeepsPlace(s: Session)
    ensures Next(ShowAnswer(s)) == Next(s)
    ensures ProgressText(ShowAnswer(s)) == ProgressText(s)
  {
  }

  // ----- Fetching the due list -----

  /** What `fetchDueQuestions` returns to the page. */
  datatype Fetched = Fetched(count: nat, needsInit: bool)

  /** The list the client takes from a successful reply's `data`, empty when
      `data.questions` is absent. */
  function ListOf(p: Payload): seq<Summary>
  {
    match p
    case QuestionList(qs) => qs
    case InitFlag(_) => []
  }

  /** `fetchDueQuestions` as written: on a failed reply it looks for
      `needs_init` at the top level of the body. */
  function FetchDueQuestionsAsWritten(s: Session, body: Response): (r: (Session, Fetched))
    ensures body.success && body.data.Some? ==> r.0 == Session(ListOf(body.data.value), 0, false)
    ensures r.1.count == |r.0.questions| || r.0 == s
    ensures r.1.needsInit <==> !(body.success && body.data.Some?) && body.needsInit == Some(true)
  {
    if body.success && body.data.Some? then
      var qs := ListOf(body.data.value);
      (Session(qs, 0, false), Fetched(|qs|, false))
    else if body.needsInit == Some(true) then (s, Fetched(0, true))
    else (s, Fetched(0, false))
  }

  /** The server puts `needs_init` inside `data`, so the page is never told
      that the knowledge base is empty: a user without questions sees the
      same result as one with nothing due. */
  lemma NeedsInitIsLost(s: Session)
    ensures FetchDueQuestionsAsWritten(s, DueBody(NeedsInit)).1 == Fetched(0, false)
    ensures forall reply :: !FetchDueQuestionsAsWritten(s, DueBody(reply)).1.needsInit
  {
  }

  /** `fetchDueQuestions` reading `needs_init` where the server writes it. */
  function FetchDueQuestions(s: Session, body: Response): (r: (Session, Fetched))
    ensures body.success && body.data.Some? ==> r.0 == Session(ListOf(body.data.value), 0, false)
    ensures r.1.needsInit <==> !body.success && body.data.Some? && body.data.value == InitFlag(true)
  {
    if body.success && body.data.Some? then
      var qs := ListOf(body.data.value);
      (Session(qs, 0, false), Fetched(|qs|, false))
    else if body.data.Some? && body.data.value == InitFlag(true) then (s, Fetched(0, true))
    else (s, Fetched(0, false))
  }

  /** With the corrected reading, the page learns exactly what the server
      decided: the import prompt iff the user has no questions, and
      otherwise the due list in the server's order, cursor on the first. */
  lemma FetchFollowsServer(s: Session, reply: DueReply)
    ensures var r := FetchDueQuestions(s, DueBody(reply));
      && (r.1.needsInit <==> reply.NeedsInit?)
      && (reply.NothingDue? ==> r.0 == Initial && r.1 == Fetched(0, false))
      && (reply.DueList? ==> r.0 == Session(reply.questions, 0, false) && r.1.count == |reply.questions|)
  {
  }

  // ----- Actions on the current question -----

  /** The outcome of an action: the new session, what the action returns,
      and the id it sent to the server (none when there was no current
      question and no request was made). */
  datatype Outcome = Outcome(session: Session, ok: bool, sent: Option<string>)

  /** `submitFeedback`: no current question means no request and false; a
      successful reply moves to the next question; any other reply (an
      error status is thrown and caught) leaves the session and gives
      false. */
  function SubmitFeedback(s: Session, reply: Reply<Stats>): (r: Outcome)
    ensures Current(s).None? ==> r == Outcome(s, false, None)
    ensures Current(s).Some? ==> r.sent == Some(Current(s).value.id)
    ensures r.ok <==> Current(s).Some? && reply.Done?
    ensures r.ok ==> r.session == Next(s)
    ensures !r.ok ==> r.session == s
  {
    match Current(s)
    case None => Outcome(s, false, None)
    case Some(q) => if reply.Done? then Outcome(Next(s), true, Some(q.id)) else Outcome(s, false, Some(q.id))
  }

  /** The list with position `i` removed, as `splice(i, 1)` leaves it. */
  function RemoveAt<T>(xs: seq<T>, i: nat): (r: seq<T>)
    requires i < |xs|
    ensures |r| == |xs| - 1
    ensures forall j | 0 <= j < i :: r[j] == xs[j]
    ensures forall j | i <= j < |r| :: r[j] == xs[j + 1]
  {
    xs[..i] + xs[i + 1..]
  }

  /** `deleteCurrentQuestion`: on success the current question leaves the
      list and the cursor stays put, or falls back to the last question when
      it ran off the end. */
  function DeleteCurrent(s: Session, reply: Reply<Stats>): (r: Outcome)
    ensures Current(s).None? ==> r == Outcome(s, false, None)
    ensures Current(s).Some? ==> r.sent == Some(Current(s).value.id)
    ensures r.ok <==> Current(s).Some? && reply.Done?
    ensures !r.ok ==> r.session == s
    ensures r.ok ==> r.session.questions == RemoveAt(s.questions, s.index) && r.session.answerVisible == s.answerVisible
    ensures r.ok ==>
      && (|r.session.questions| == 0 ==> r.session.index == 0)
      && (|r.session.questions| > 0 ==> r.session.index < |r.session.questions|)
      && (s.index < |r.session.questions| ==> r.session.index == s.index)
  {
    match Current(s)
    case None => Outcome(s, false, None)
    case Some(q) =>
      if reply.Done? then
        var qs := RemoveAt(s.questions, s.index);
        var i := if s.index >= |qs| then (if |qs| - 1 > 0 then |qs| - 1 else 0) else s.index;
        Outcome(Session(qs, i, s.answerVisible), true, Some(q.id))
      else Outcome(s, false, Some(q.id))
  }

  /** After a successful delete the cursor is on the question that followed
      the deleted one, or on the new last question when the deleted one was
      last; only an emptied list leaves no current question. */
  lemma DeleteAdvances(s: Session, reply: Reply<Stats>)
    requires Current(s).Some? && reply.Done?
    ensures var t := DeleteCurrent(s, reply).session;
      && (s.index + 1 < |s.questions| ==> Current(t) == Some(s.questions[s.index + 1]))
      && (s.index + 1 == |s.questions| && |s.questions| > 1 ==> Current(t) == Some(s.questions[s.index - 1]))
      && (Current(t).None? <==> |s.questions| == 1)
  {
  }
}
