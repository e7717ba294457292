/** The maintenance script that wipes learning progress from the CLI's JSON
    store: every question keeps its identity and content and starts over.
    The file is modelled as its `questions` object, entry by entry, with
    the `last_reviewed` field as written; timestamps are integers, not
    RFC 3339 text. A missing file is `None`; the SQLite half of the script
    is not modelled. */
module Reset {
  import opened Common
  import opened Schedule
  import CliStore
  import Due

  /** `ResetQuestion`: same id, texts, source and creation time; level 1,
      due at `now`, no reviews, never reviewed. */
  function ResetQuestion(q: Question, now: int): (r: Question)
    ensures r.id == q.id && r.questionText == q.questionText && r.answerText == q.answerText
    ensures r.source == q.source && r.createdAt == q.createdAt
    ensures r.level == 1 && r.reviewCount == 0 && r.correctCount == 0 && r.lastReviewed == None
    ensures Valid(r) && IsDue(r, now) && !IsDue(r, now - 1)
  {
    Question(q.id, q.questionText, q.answerText, q.source, 1, now, 0, 0, q.createdAt, None)
  }

  /** Resetting twice is resetting once. */
  lemma ResetIdempotent(q: Question, now: int, later: int)
    ensures ResetQuestion(ResetQuestion(q, now), later) == ResetQuestion(q, later)
  {
  }

  /** A reset forgets every review: reviewing first makes no difference. */
  lemma ResetForgetsReview(q: Question, feedback: int, t: int, now: int)
    ensures ResetQuestion(Review(q, feedback, t), now) == ResetQuestion(q, now)
  {
  }

  /** A reset question differs from a freshly added one only in its level:
      the import starts a question at 4 (completely forgotten), the reset at
      1 (proficient). */
  lemma ResetVersusNew(id: string, question: string, answer: string, source: string, now: int)
    ensures var n := NewQuestion(id, question, answer, source, now);
      ResetQuestion(n, now) == n.(level := 1) && n.level == 4
  {
  }

  // ----- The data file -----

  /** The value of a `last_reviewed` field in the file: `null`, a timestamp
      string, or the empty string. */
  datatype TimeField = Null | Stamp(t: int) | EmptyText

  /** One entry of the file's `questions` object. The CLI and the script use
      the same field names; the script keeps every time as a string. */
  datatype Record = Record(
    id: string,
    questionText: string,
    answerText: string,
    source: string,
    level: int,
    nextReview: int,
    reviewCount: int,
    correctCount: int,
    createdAt: int,
    lastReviewed: TimeField)

  type File = map<string, Record>

  /** How the CLI writes a question: a nil `LastReviewed` becomes `null`. */
  function Encode(q: Question): Record
  {
    Record(q.id, q.questionText, q.answerText, q.source, q.level, q.nextReview,
           q.reviewCount, q.correctCount, q.createdAt,
           match q.lastReviewed case None => Null case Some(t) => Stamp(t))
  }

  /** How the CLI reads an entry back: `last_reviewed` goes into a
      `*time.Time`, which takes `null` as nil and a timestamp string as that
      time, and rejects every other string, the empty one included. */
  function Decode(r: Record): (q: Option<Question>)
    ensures q.None? <==> r.lastReviewed == EmptyText
    ensures q.Some? ==> Encode(q.value) == r
  {
    match r.lastReviewed
    case EmptyText => None
    case Null => Some(Question(r.id, r.questionText, r.answerText, r.source, r.level, r.nextReview,
                               r.reviewCount, r.correctCount, r.createdAt, None))
    case Stamp(t) => Some(Question(r.id, r.questionText, r.answerText, r.source, r.level, r.nextReview,
                                   r.reviewCount, r.correctCount, r.createdAt, Some(t)))
  }

  /** Reading back what the CLI wrote gives the question it wrote. */
  lemma DecodeEncode(q: Question)
    ensures Decode(Encode(q)) == Some(q)
  {
  }

  /** `SaveData`: every entry of the store, encoded. */
  function Save(st: CliStore.Store): (file: File)
    ensures file.Keys == st.Keys
    ensures forall k | k in file :: Decode(file[k]) == Some(st[k])
  {
    map k | k in st :: Encode(st[k])
  }

  /** The store the CLI starts with (`NewSpacedRepetition`): `LoadData`
      fails on an entry it cannot decode, the error is ignored, and the
      empty default store stays; otherwise the decoded entries. */
  function Load(file: File): (st: CliStore.Store)
    ensures (exists k | k in file :: Decode(file[k]).None?) ==> st == map[]
    ensures (forall k | k in file :: Decode(file[k]).Some?) ==>
      st.Keys == file.Keys && forall k | k in st :: Some(st[k]) == Decode(file[k])
  {
    if exists k | k in file :: Decode(file[k]).None? then map[]
    else map k | k in file :: Decode(file[k]).value
  }

  /** The CLI reads back the store it saved. */
  lemma LoadSaved(st: CliStore.Store)
    ensures Load(Save(st)) == st
  {
  }

  // ----- The script -----

  /** The script's `ResetQuestion` on a file entry, as written: the cleared
      last review is the empty string, which the CLI cannot read. */
  function ResetRecordAsWritten(e: Record, now: int): (r: Record)
    ensures Decode(r).None?
    ensures r == ResetRecord(e, now).(lastReviewed := EmptyText)
  {
    Record(e.id, e.questionText, e.answerText, e.source, 1, now, 0, 0, e.createdAt, EmptyText)
  }

  /** The reset writing `null` for the cleared last review, as the SQLite
      half of the script writes nil: the CLI reads back exactly the reset
      question. */
  function ResetRecord(e: Record, now: int): (r: Record)
    ensures forall q | Encode(q) == e :: Decode(r) == Some(ResetQuestion(q, now))
  {
    Record(e.id, e.questionText, e.answerText, e.source, 1, now, 0, 0, e.createdAt, Null)
  }

  /** The loop of `clearJSONData`: every entry is replaced by `reset` of
      it under its own key, at the time `clock` gives for it (the script
      reads the clock once per question). */
  method ClearEntries(m: File, reset: (Record, int) -> Record, clock: string -> int) returns (out: File)
    ensures out.Keys == m.Keys
    ensures forall k | k in out :: out[k] == reset(m[k], clock(k))
  {
    out := m;
    var rest := m.Keys;
    while rest != {}
      invariant rest <= m.Keys && out.Keys == m.Keys
      invariant forall k | k in m && k !in rest :: out[k] == reset(m[k], clock(k))
      invariant forall k | k in rest :: out[k] == m[k]
      decreases rest
    {
      var k :| k in rest;
      out := out[k := reset(out[k], clock(k))];
      rest := rest - {k};
    }
  }

  /** `clearJSONData` with the corrected record: a missing file is skipped
      with count 0; otherwise every entry is reset to a record the CLI can
      read, and the count is the number of entries before the loop. */
  method ClearJsonData(file: Option<File>, clock: string -> int) returns (r: Option<File>, count: nat)
    ensures file.None? ==> r.None? && count == 0
    ensures file.Some? ==> r.Some? && r.value.Keys == file.value.Keys && count == |file.value|
    ensures file.Some? ==> forall k | k in r.value :: r.value[k] == ResetRecord(file.value[k], clock(k))
  {
    if file.None? {
      return None, 0;
    }
    var out := ClearEntries(file.value, ResetRecord, clock);
    r, count := Some(out), |file.value|;
  }

  /** `clearJSONData` as written: the same loop with the script's record,
      so any non-empty file it writes loads as the empty store. */
  method ClearJsonDataAsWritten(file: Option<File>, clock: string -> int) returns (r: Option<File>, count: nat)
    ensures file.None? ==> r.None? && count == 0
    ensures file.Some? ==> r.Some? && r.value.Keys == file.value.Keys && count == |file.value|
    ensures file.Some? ==> forall k | k in r.value :: r.value[k] == ResetRecordAsWritten(file.value[k], clock(k))
    ensures file.Some? && file.value != map[] ==> Load(r.value) == map[]
  {
    if file.None? {
      return None, 0;
    }
    var out := ClearEntries(file.value, ResetRecordAsWritten, clock);
    r, count := Some(out), |file.value|;
    if out != map[] {
      var k :| k in out;
      assert Decode(out[k]).None?;
    }
  }

  /** As written, the script leaves a file the CLI cannot load: a store
      with any question at all comes back empty. */
  lemma ClearedFileLoadsEmpty(st: CliStore.Store, clock: string -> int)
    requires st != map[]
    ensures Load(map k | k in st :: ResetRecordAsWritten(Save(st)[k], clock(k))) == map[]
  {
    var k :| k in st;
    var cleared := map k | k in st :: ResetRecordAsWritten(Save(st)[k], clock(k));
    assert Decode(cleared[k]).None?;
  }

  /** Writing `null`, the CLI loads every question of its store, reset. */
  lemma ClearedFileLoadsReset(st: CliStore.Store, clock: string -> int)
    ensures Load(map k | k in st :: ResetRecord(Save(st)[k], clock(k))) == map k | k in st :: ResetQuestion(st[k], clock(k))
  {
    var cleared := map k | k in st :: ResetRecord(Save(st)[k], clock(k));
    forall k | k in cleared
      ensures Decode(cleared[k]) == Some(ResetQuestion(st[k], clock(k)))
    {
      assert Save(st)[k] == Encode(st[k]);
    }
  }

  /** After a clear every question is due once the last clock reading has
      passed, valid, and unreviewed, so the store's totals are zero. */
  lemma ClearedStoreIsFresh(m: CliStore.Store, r: CliStore.Store, clock: string -> int, now: int)
    requires r.Keys == m.Keys && forall k | k in r :: r[k] == ResetQuestion(m[k], clock(k))
    requires forall k | k in m :: clock(k) <= now
    ensures CliStore.DueKeys(r, now) == r.Keys
    ensures forall k | k in r :: Valid(r[k])
    ensures Due.Total(r, Due.Reviews) == 0 && Due.Total(r, Due.Correct) == 0
  {
    TotalZero(r, Due.Reviews);
    TotalZero(r, Due.Correct);
  }

  /** A store whose every counter is zero totals zero. */
  lemma {:induction false} TotalZero(st: CliStore.Store, c: Due.Counter)
    requires forall k | k in st :: Due.Count(st[k], c) == 0
    ensures Due.Total(st, c) == 0
    decreases |st|
  {
    if st != map[] {
      var k :| k in st;
      Due.TotalRemove(st, c, k);
      TotalZero(st - {k}, c);
    }
  }
}
