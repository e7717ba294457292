/** The line-based markdown parser: a file is split on "\n", lines whose
    trimmed form is "# q" (or starts with "# q ") open a question, lines
    "# a" (or "# a ...") open an answer, the i-th question marker is paired
    with the i-th answer marker, and the trimmed text between the markers
    becomes one question/answer pair. */
module Parser {
  import opened Common
  import opened Text
  import opened Schedule
  import opened Identity
  import TenantStore

  /** One parsed question/answer pair. */
  datatype ParsedQuestion = ParsedQuestion(questionText: string, answerText: string, sourceFile: string)

  /** Where the source's slice expressions would panic (an answer marker
      before its question marker, or after the next question marker), the
      model returns this error instead. */
  datatype ParseError = SliceOutOfRange

  datatype LineKind = QuestionMarker | AnswerMarker | Body

  predicate IsQuestionMarker(line: string)
  {
    var t := Trim(line);
    t == "# q" || HasPrefix(t, "# q ")
  }

  predicate IsAnswerMarker(line: string)
  {
    var t := Trim(line);
    t == "# a" || HasPrefix(t, "# a ")
  }

  /** No line is both a question marker and an answer marker. */
  lemma MarkersExclusive(line: string)
    ensures !(IsQuestionMarker(line) && IsAnswerMarker(line))
  {
    var t := Trim(line);
    if IsQuestionMarker(line) {
      assert t[2] == 'q' by {
        if t != "# q" {
          assert t[..4] == "# q ";
          assert t[2] == t[..4][2];
        }
      }
    }
    if IsAnswerMarker(line) {
      assert t[2] == 'a' by {
        if t != "# a" {
          assert t[..4] == "# a ";
          assert t[2] == t[..4][2];
        }
      }
    }
  }

  /** The classification of the scanning loop: a question-marker test first,
      then an answer-marker test. */
  function Classify(line: string): (k: LineKind)
    ensures k == QuestionMarker <==> IsQuestionMarker(line)
    ensures k == AnswerMarker <==> IsAnswerMarker(line)
    ensures k == Body <==> !IsQuestionMarker(line) && !IsAnswerMarker(line)
  {
    MarkersExclusive(line);
    if IsQuestionMarker(line) then QuestionMarker
    else if IsAnswerMarker(line) then AnswerMarker
    else Body
  }

  /** The line is not a marker. */
  predicate IsBody(line: string)
  {
    Classify(line) == Body
  }

  /** No line of `ls` is a marker. */
  predicate AllBody(ls: seq<string>)
  {
    forall j | 0 <= j < |ls| :: IsBody(ls[j])
  }

  /** Every entry indexes a line. */
  predicate InRange(ps: seq<int>, n: int)
  {
    forall j | 0 <= j < |ps| :: 0 <= ps[j] < n
  }

  predicate Increasing(ps: seq<int>)
  {
    forall j, m | 0 <= j < m < |ps| :: ps[j] < ps[m]
  }

  /** The kind of every line. */
  function Kinds(lines: seq<string>): (ks: seq<LineKind>)
    ensures |ks| == |lines|
    ensures forall j | 0 <= j < |lines| :: ks[j] == Classify(lines[j])
  {
    seq(|lines|, j requires 0 <= j < |lines| => Classify(lines[j]))
  }

  /** The indexes holding kind `k`, in ascending order. */
  function Positions(ks: seq<LineKind>, k: LineKind): (ps: seq<int>)
    ensures InRange(ps, |ks|)
  {
    if |ks| == 0 then []
    else
      var n := |ks| - 1;
      Positions(ks[..n], k) + if ks[n] == k then [n] else []
  }

  /** `Positions` lists exactly the indexes of kind `k`, in ascending
      order. */
  lemma {:induction false} PositionsFacts(ks: seq<LineKind>, k: LineKind)
    ensures var ps := Positions(ks, k);
      && Increasing(ps)
      && (forall j | 0 <= j < |ps| :: ks[ps[j]] == k)
      && (forall x | 0 <= x < |ks| && ks[x] == k :: x in ps)
  {
    if |ks| > 0 {
      var n := |ks| - 1;
      PositionsFacts(ks[..n], k);
      assert forall x | 0 <= x < n :: ks[..n][x] == ks[x];
    }
  }

  /** Where the i-th answer ends: at the next question marker, or at the end
      of the file. */
  function AnswerEnd(qs: seq<int>, i: int, n: int): int
  {
    if 0 <= i && i + 1 < |qs| then qs[i + 1] else n
  }

  /** Both slices for pair `i` are in bounds: the question marker comes
      before its answer marker, which comes before the next question marker. */
  predicate Sliceable(qs: seq<int>, ans: seq<int>, i: int, n: int)
    requires 0 <= i < |qs| && i < |ans|
  {
    qs[i] < ans[i] < AnswerEnd(qs, i, n)
  }

  /** Every pair the loop visits from `i` on can be sliced. */
  predicate SliceableFrom(qs: seq<int>, ans: seq<int>, i: int, n: int)
  {
    forall j | 0 <= i <= j && j < |qs| && j < |ans| :: Sliceable(qs, ans, j, n)
  }

  /** The trimmed join of `lines[lo..hi]`. */
  function Window(lines: seq<string>, lo: int, hi: int): (t: string)
    requires 0 <= lo <= hi <= |lines|
    ensures Trimmed(t)
  {
    TrimIsTrimmed(Join(lines[lo..hi]));
    Trim(Join(lines[lo..hi]))
  }

  /** An emitted pair: both texts non-empty and trimmed, and the source as
      given. */
  predicate WellFormed(p: ParsedQuestion, src: string)
  {
    p.questionText != "" && p.answerText != "" && Trimmed(p.questionText) && Trimmed(p.answerText)
    && p.sourceFile == src
  }

  /** The loop emits a pair only when both trimmed texts are non-empty. */
  function Emit(q: string, a: string, src: string): (r: seq<ParsedQuestion>)
    requires Trimmed(q) && Trimmed(a)
    ensures |r| <= 1
    ensures |r| == 1 <==> q != "" && a != ""
    ensures forall j | 0 <= j < |r| :: r[j] == ParsedQuestion(q, a, src) && WellFormed(r[j], src)
  {
    if q != "" && a != "" then [ParsedQuestion(q, a, src)] else []
  }

  /** What the loop emits for pair `i`: the trimmed question and answer
      windows, unless either is empty. */
  function PairAt(lines: seq<string>, qs: seq<int>, ans: seq<int>, i: int, src: string): (r: seq<ParsedQuestion>)
    requires 0 <= i < |qs| && i < |ans| && InRange(qs, |lines|) && Sliceable(qs, ans, i, |lines|)
    ensures |r| <= 1
    ensures forall j | 0 <= j < |r| :: WellFormed(r[j], src)
  {
    Emit(Window(lines, qs[i] + 1, ans[i]), Window(lines, ans[i] + 1, AnswerEnd(qs, i, |lines|)), src)
  }

  /** The pairing loop from pair `i` on. */
  function PairFrom(lines: seq<string>, qs: seq<int>, ans: seq<int>, i: nat, src: string)
    : (r: Result<seq<ParsedQuestion>, ParseError>)
    requires InRange(qs, |lines|) && InRange(ans, |lines|)
    requires i <= |qs| && i <= |ans|
    ensures r.Ok? ==> SliceableFrom(qs, ans, i, |lines|)
    ensures SliceableFrom(qs, ans, i, |lines|) ==> r.Ok?
    ensures r.Ok? ==> |r.value| <= |qs| - i && |r.value| <= |ans| - i
    ensures r.Ok? ==> forall j | 0 <= j < |r.value| :: WellFormed(r.value[j], src)
    decreases |qs| - i
  {
    if i == |qs| || i == |ans| then Ok([])
    else if !Sliceable(qs, ans, i, |lines|) then Err(SliceOutOfRange)
    else
      match PairFrom(lines, qs, ans, i + 1, src)
      case Err(e) => Err(e)
      case Ok(rest) =>
        var head := PairAt(lines, qs, ans, i, src);
        WellFormedAppend(head, rest, src);
        Ok(head + rest)
  }

  lemma WellFormedAppend(a: seq<ParsedQuestion>, b: seq<ParsedQuestion>, src: string)
    requires forall j | 0 <= j < |a| :: WellFormed(a[j], src)
    requires forall j | 0 <= j < |b| :: WellFormed(b[j], src)
    ensures forall j | 0 <= j < |a + b| :: WellFormed((a + b)[j], src)
  {
    forall j | 0 <= j < |a + b| ensures WellFormed((a + b)[j], src) {
      if j < |a| {
        assert (a + b)[j] == a[j];
      } else {
        assert (a + b)[j] == b[j - |a|];
      }
    }
  }

  /** `ParseContent`: split into lines, collect the marker positions, pair
      them up. */
  function ParseContent(content: string, src: string): (r: Result<seq<ParsedQuestion>, ParseError>)
    ensures var lines := Split(content);
      var qs := Positions(Kinds(lines), QuestionMarker);
      var ans := Positions(Kinds(lines), AnswerMarker);
      && (r.Ok? <==> SliceableFrom(qs, ans, 0, |lines|))
      && (r.Ok? ==> |r.value| <= |qs| && |r.value| <= |ans|)
      && (r.Ok? ==> forall j | 0 <= j < |r.value| :: WellFormed(r.value[j], src))
  {
    var lines := Split(content);
    PairFrom(lines, Positions(Kinds(lines), QuestionMarker), Positions(Kinds(lines), AnswerMarker), 0, src)
  }

  // ----- What each pair holds -----

  /** The question text of pair `k`: the trimmed join of the lines strictly
      between its question marker and its answer marker. */
  function QuestionTextOf(lines: seq<string>, qs: seq<int>, ans: seq<int>, k: int): string
    requires 0 <= k < |qs| && k < |ans| && InRange(qs, |lines|) && Sliceable(qs, ans, k, |lines|)
  {
    Window(lines, qs[k] + 1, ans[k])
  }

  /** The answer text of pair `k`: the trimmed join of the lines after its
      answer marker, up to the next question marker or the end. */
  function AnswerTextOf(lines: seq<string>, qs: seq<int>, ans: seq<int>, k: int): string
    requires 0 <= k < |qs| && k < |ans| && InRange(qs, |lines|) && Sliceable(qs, ans, k, |lines|)
  {
    Window(lines, ans[k] + 1, AnswerEnd(qs, k, |lines|))
  }

  /** The pair built from pair `k`'s texts. */
  function PairOf(lines: seq<string>, qs: seq<int>, ans: seq<int>, k: int, src: string): ParsedQuestion
    requires 0 <= k < |qs| && k < |ans| && InRange(qs, |lines|) && Sliceable(qs, ans, k, |lines|)
  {
    ParsedQuestion(QuestionTextOf(lines, qs, ans, k), AnswerTextOf(lines, qs, ans, k), src)
  }

  /** Pair `k` has two non-empty texts. */
  predicate Kept(lines: seq<string>, qs: seq<int>, ans: seq<int>, k: int)
    requires 0 <= k < |qs| && k < |ans| && InRange(qs, |lines|) && Sliceable(qs, ans, k, |lines|)
  {
    QuestionTextOf(lines, qs, ans, k) != "" && AnswerTextOf(lines, qs, ans, k) != ""
  }

  /** Entry `j` of `out` is built from pair `ks[j]`, a pair from `i` on. */
  predicate OriginsTexts(lines: seq<string>, qs: seq<int>, ans: seq<int>, i: int, src: string,
                         out: seq<ParsedQuestion>, ks: seq<int>)
    requires InRange(qs, |lines|) && 0 <= i && SliceableFrom(qs, ans, i, |lines|)
  {
    |ks| == |out| &&
    forall j | 0 <= j < |ks| :: i <= ks[j] < |qs| && ks[j] < |ans| && out[j] == PairOf(lines, qs, ans, ks[j], src)
  }

  /** `ks` names exactly the kept pairs from `i` on. */
  predicate OriginsComplete(lines: seq<string>, qs: seq<int>, ans: seq<int>, i: int, ks: seq<int>)
    requires InRange(qs, |lines|) && 0 <= i && SliceableFrom(qs, ans, i, |lines|)
  {
    forall k | i <= k < |qs| && k < |ans| :: k in ks <==> Kept(lines, qs, ans, k)
  }

  /** `out` lists, in ascending pair order `ks`, the pairs from `i` on whose
      question and answer are both non-empty, and no other. */
  predicate Origins(lines: seq<string>, qs: seq<int>, ans: seq<int>, i: int, src: string,
                    out: seq<ParsedQuestion>, ks: seq<int>)
    requires InRange(qs, |lines|) && 0 <= i && SliceableFrom(qs, ans, i, |lines|)
  {
    Increasing(ks) && OriginsTexts(lines, qs, ans, i, src, out, ks) && OriginsComplete(lines, qs, ans, i, ks)
  }

  /** The kept pairs from `i` on, in ascending order. */
  ghost function KeptFrom(lines: seq<string>, qs: seq<int>, ans: seq<int>, i: nat): seq<int>
    requires InRange(qs, |lines|) && i <= |qs| && i <= |ans| && SliceableFrom(qs, ans, i, |lines|)
    decreases |qs| - i
  {
    if i == |qs| || i == |ans| then []
    else if Kept(lines, qs, ans, i) then [i] + KeptFrom(lines, qs, ans, i + 1)
    else KeptFrom(lines, qs, ans, i + 1)
  }

  /** The pairing loop from `i` on emits exactly the pairs with two
      non-empty texts, in question-marker order. */
  lemma {:induction false} PairFromOrigins(lines: seq<string>, qs: seq<int>, ans: seq<int>, i: nat, src: string)
    requires InRange(qs, |lines|) && InRange(ans, |lines|) && i <= |qs| && i <= |ans|
    requires SliceableFrom(qs, ans, i, |lines|)
    ensures PairFrom(lines, qs, ans, i, src).Ok?
    ensures Origins(lines, qs, ans, i, src, PairFrom(lines, qs, ans, i, src).value, KeptFrom(lines, qs, ans, i))
    decreases |qs| - i
  {
    if i == |qs| || i == |ans| {
      assert Origins(lines, qs, ans, i, src, [], []);
    } else {
      PairFromOrigins(lines, qs, ans, i + 1, src);
      var rest := PairFrom(lines, qs, ans, i + 1, src).value;
      var ks := KeptFrom(lines, qs, ans, i + 1);
      PairFromUnfold(lines, qs, ans, i, src);
      var head := PairAt(lines, qs, ans, i, src);
      assert PairFrom(lines, qs, ans, i, src).value == head + rest;
      if Kept(lines, qs, ans, i) {
        OriginsCons(lines, qs, ans, i, src, rest, ks);
        assert head == [PairOf(lines, qs, ans, i, src)];
      } else {
        OriginsSkip(lines, qs, ans, i, src, rest, ks);
        assert head == [];
        assert head + rest == rest;
      }
    }
  }

  /** Pair `i` emitted in front of the pairs from `i + 1`. */
  lemma OriginsCons(lines: seq<string>, qs: seq<int>, ans: seq<int>, i: nat, src: string,
                    rest: seq<ParsedQuestion>, ks: seq<int>)
    requires InRange(qs, |lines|) && i < |qs| && i < |ans| && SliceableFrom(qs, ans, i, |lines|)
    requires Origins(lines, qs, ans, i + 1, src, rest, ks)
    requires Kept(lines, qs, ans, i)
    ensures Origins(lines, qs, ans, i, src, [PairOf(lines, qs, ans, i, src)] + rest, [i] + ks)
  {
    var ks2 := [i] + ks;
    assert forall j | 1 <= j < |ks2| :: ks2[j] == ks[j - 1];
    assert Increasing(ks2);
    TextsCons(lines, qs, ans, i, src, rest, ks);
    CompleteCons(lines, qs, ans, i, ks);
  }

  lemma TextsCons(lines: seq<string>, qs: seq<int>, ans: seq<int>, i: nat, src: string,
                  rest: seq<ParsedQuestion>, ks: seq<int>)
    requires InRange(qs, |lines|) && i < |qs| && i < |ans| && SliceableFrom(qs, ans, i, |lines|)
    requires OriginsTexts(lines, qs, ans, i + 1, src, rest, ks)
    ensures OriginsTexts(lines, qs, ans, i, src, [PairOf(lines, qs, ans, i, src)] + rest, [i] + ks)
  {
    var out := [PairOf(lines, qs, ans, i, src)] + rest;
    var ks2 := [i] + ks;
    forall j | 1 <= j < |ks2|
      ensures i <= ks2[j] < |qs| && ks2[j] < |ans| && out[j] == PairOf(lines, qs, ans, ks2[j], src)
    {
      assert ks2[j] == ks[j - 1] && out[j] == rest[j - 1];
    }
  }

  lemma CompleteCons(lines: seq<string>, qs: seq<int>, ans: seq<int>, i: nat, ks: seq<int>)
    requires InRange(qs, |lines|) && i < |qs| && i < |ans| && SliceableFrom(qs, ans, i, |lines|)
    requires OriginsComplete(lines, qs, ans, i + 1, ks) && Kept(lines, qs, ans, i)
    ensures OriginsComplete(lines, qs, ans, i, [i] + ks)
  {
    forall k | i <= k < |qs| && k < |ans|
      ensures k in [i] + ks <==> Kept(lines, qs, ans, k)
    {
      if k != i {
        assert k in [i] + ks <==> k in ks;
      }
    }
  }

  /** Pair `i` dropped. */
  lemma OriginsSkip(lines: seq<string>, qs: seq<int>, ans: seq<int>, i: nat, src: string,
                    rest: seq<ParsedQuestion>, ks: seq<int>)
    requires InRange(qs, |lines|) && i < |qs| && i < |ans| && SliceableFrom(qs, ans, i, |lines|)
    requires Origins(lines, qs, ans, i + 1, src, rest, ks)
    requires !Kept(lines, qs, ans, i)
    ensures Origins(lines, qs, ans, i, src, rest, ks)
  {
  }

  /** The output of `ParseContent`, when it succeeds: one pair for every
      question marker whose question text and answer text are both
      non-empty, in the order of the question markers, and nothing else
      (`Origins` pins the index list down: ascending, and exactly the kept
      pairs). */
  lemma ParseContentPairs(content: string, src: string)
    ensures var lines := Split(content);
      var qs := Positions(Kinds(lines), QuestionMarker);
      var ans := Positions(Kinds(lines), AnswerMarker);
      var r := ParseContent(content, src);
      r.Ok? ==> Origins(lines, qs, ans, 0, src, r.value, KeptFrom(lines, qs, ans, 0))
  {
    var lines := Split(content);
    var qs := Positions(Kinds(lines), QuestionMarker);
    var ans := Positions(Kinds(lines), AnswerMarker);
    var r := ParseContent(content, src);
    assert r == PairFrom(lines, qs, ans, 0, src);
    if r.Ok? {
      PairFromOrigins(lines, qs, ans, 0, src);
    }
  }

  // ----- Alternating markers -----

  /** Markers alternate q, a, q, a, ...: every answer marker sits between its
      question marker and the next one, and no answer marker is left over. */
  predicate Alternating(lines: seq<string>)
  {
    var qs := Positions(Kinds(lines), QuestionMarker);
    var ans := Positions(Kinds(lines), AnswerMarker);
    |ans| <= |qs| && SliceableFrom(qs, ans, 0, |lines|)
  }

  /** A line's kind depends only on its trimmed form, so white space
      added at either end never changes it. */
  lemma KindIgnoresEdgeSpace(c: char, r: string)
    requires IsSpace(c)
    ensures Classify([c] + r) == Classify(r)
    ensures Classify(r + [c]) == Classify(r)
  {
    TrimConsSpace(c, r);
    TrimSnocSpace(r, c);
  }

  /** Trimming a text whose lines are all body lines leaves only body
      lines: it removes white space at the ends of lines and nothing else. */
  lemma TrimKeepsBody(s: string)
    requires AllBody(Split(s))
    ensures AllBody(Split(Trim(s)))
  {
    forall c, r | IsSpace(c) && IsBody([c] + r) ensures IsBody(r) {
      KindIgnoresEdgeSpace(c, r);
    }
    forall r, c | IsSpace(c) && IsBody(r + [c]) ensures IsBody(r) {
      KindIgnoresEdgeSpace(c, r);
    }
    TrimLeftKeepsLines(s, IsBody);
    TrimRightKeepsLines(TrimLeft(s), IsBody);
  }

  /** The text of a window of body lines has no marker line. */
  lemma WindowKeepsBody(lines: seq<string>, lo: int, hi: int)
    requires 0 <= lo <= hi <= |lines|
    requires forall j | 0 <= j < |lines| :: '\n' !in lines[j]
    requires AllBody(lines[lo..hi])
    ensures AllBody(Split(Window(lines, lo, hi)))
  {
    var ls := lines[lo..hi];
    if |ls| == 0 {
      assert Join(ls) == "";
      assert Split("") == [""];
    } else {
      assert forall j | 0 <= j < |ls| :: '\n' !in ls[j] by {
        assert forall j | 0 <= j < |ls| :: ls[j] == lines[lo + j];
      }
      SplitJoin(ls);
    }
    TrimKeepsBody(Join(ls));
  }

  /** An increasing sequence has no entry strictly between two consecutive
      entries (or before its first, or after its last). */
  lemma NotBetween(ps: seq<int>, i: int, x: int)
    requires Increasing(ps) && -1 <= i < |ps|
    requires 0 <= i ==> ps[i] < x
    requires i + 1 < |ps| ==> x < ps[i + 1]
    ensures x !in ps
  {
    forall m | 0 <= m < |ps| ensures ps[m] != x {
      if m <= i {
        assert ps[m] <= ps[i];
      } else {
        assert ps[i + 1] <= ps[m];
      }
    }
  }

  /** All lines of kind `k` are listed. */
  predicate Complete(ks: seq<LineKind>, ps: seq<int>, k: LineKind)
  {
    forall x | 0 <= x < |ks| && ks[x] == k :: x in ps
  }

  lemma KindWindowsAreBody(ks: seq<LineKind>, qs: seq<int>, ans: seq<int>, i: int, x: int)
    requires Increasing(qs) && Increasing(ans) && InRange(qs, |ks|) && InRange(ans, |ks|)
    requires Complete(ks, qs, QuestionMarker) && Complete(ks, ans, AnswerMarker)
    requires |ans| <= |qs| && SliceableFrom(qs, ans, 0, |ks|) && 0 <= i < |ans|
    requires qs[i] < x < ans[i] || ans[i] < x < AnswerEnd(qs, i, |ks|)
    ensures ks[x] == Body
  {
    assert Sliceable(qs, ans, i, |ks|);
    NotBetween(qs, i, x);
    if x < ans[i] {
      if i > 0 {
        assert Sliceable(qs, ans, i - 1, |ks|);
      }
      NotBetween(ans, i - 1, x);
    } else {
      if i + 1 < |ans| {
        assert Sliceable(qs, ans, i + 1, |ks|);
      }
      NotBetween(ans, i, x);
    }
  }

  /** A run of lines whose kinds are all `Body` holds no marker. */
  lemma BodyRange(lines: seq<string>, lo: int, hi: int)
    requires 0 <= lo <= hi <= |lines|
    requires forall x | lo <= x < hi :: Kinds(lines)[x] == Body
    ensures AllBody(lines[lo..hi])
  {
    forall j | 0 <= j < hi - lo ensures IsBody(lines[lo..hi][j]) {
      assert lines[lo..hi][j] == lines[lo + j];
      assert Kinds(lines)[lo + j] == Body;
    }
  }

  /** The lines of a question window lie strictly between its markers. */
  lemma QuestionWindowIsBody(lines: seq<string>, qs: seq<int>, ans: seq<int>, i: int)
    requires Increasing(qs) && Increasing(ans) && InRange(qs, |lines|) && InRange(ans, |lines|)
    requires Complete(Kinds(lines), qs, QuestionMarker) && Complete(Kinds(lines), ans, AnswerMarker)
    requires |ans| <= |qs| && SliceableFrom(qs, ans, 0, |lines|) && 0 <= i < |ans|
    requires Sliceable(qs, ans, i, |lines|)
    ensures AllBody(lines[qs[i] + 1..ans[i]])
  {
    var ks := Kinds(lines);
    forall x | qs[i] + 1 <= x < ans[i] ensures ks[x] == Body {
      KindWindowsAreBody(ks, qs, ans, i, x);
    }
    BodyRange(lines, qs[i] + 1, ans[i]);
  }

  /** The lines of an answer window lie strictly between its marker and the
      next question marker. */
  lemma AnswerWindowIsBody(lines: seq<string>, qs: seq<int>, ans: seq<int>, i: int)
    requires Increasing(qs) && Increasing(ans) && InRange(qs, |lines|) && InRange(ans, |lines|)
    requires Complete(Kinds(lines), qs, QuestionMarker) && Complete(Kinds(lines), ans, AnswerMarker)
    requires |ans| <= |qs| && SliceableFrom(qs, ans, 0, |lines|) && 0 <= i < |ans|
    requires Sliceable(qs, ans, i, |lines|)
    ensures AllBody(lines[ans[i] + 1..AnswerEnd(qs, i, |lines|)])
  {
    var ks := Kinds(lines);
    var end := AnswerEnd(qs, i, |lines|);
    forall x | ans[i] + 1 <= x < end ensures ks[x] == Body {
      KindWindowsAreBody(ks, qs, ans, i, x);
    }
    BodyRange(lines, ans[i] + 1, end);
  }

  /** Neither text of the pair holds a marker line. */
  predicate PairIsBody(p: ParsedQuestion)
  {
    AllBody(Split(p.questionText)) && AllBody(Split(p.answerText))
  }

  /** No emitted text holds a marker line. */
  predicate MarkerFree(ps: seq<ParsedQuestion>)
  {
    |ps| == 0 || (PairIsBody(ps[0]) && MarkerFree(ps[1..]))
  }

  lemma QuestionTextBody(lines: seq<string>, qs: seq<int>, ans: seq<int>, i: nat)
    requires Increasing(qs) && Increasing(ans) && InRange(qs, |lines|) && InRange(ans, |lines|)
    requires Complete(Kinds(lines), qs, QuestionMarker) && Complete(Kinds(lines), ans, AnswerMarker)
    requires |ans| <= |qs| && SliceableFrom(qs, ans, 0, |lines|) && i < |ans|
    requires Sliceable(qs, ans, i, |lines|)
    requires forall j | 0 <= j < |lines| :: '\n' !in lines[j]
    ensures AllBody(Split(Window(lines, qs[i] + 1, ans[i])))
  {
    QuestionWindowIsBody(lines, qs, ans, i);
    WindowKeepsBody(lines, qs[i] + 1, ans[i]);
  }

  lemma AnswerTextBody(lines: seq<string>, qs: seq<int>, ans: seq<int>, i: nat)
    requires Increasing(qs) && Increasing(ans) && InRange(qs, |lines|) && InRange(ans, |lines|)
    requires Complete(Kinds(lines), qs, QuestionMarker) && Complete(Kinds(lines), ans, AnswerMarker)
    requires |ans| <= |qs| && SliceableFrom(qs, ans, 0, |lines|) && i < |ans|
    requires Sliceable(qs, ans, i, |lines|)
    requires forall j | 0 <= j < |lines| :: '\n' !in lines[j]
    ensures AllBody(Split(Window(lines, ans[i] + 1, AnswerEnd(qs, i, |lines|))))
  {
    AnswerWindowIsBody(lines, qs, ans, i);
    WindowKeepsBody(lines, ans[i] + 1, AnswerEnd(qs, i, |lines|));
  }

  lemma PairAtKeepsBody(lines: seq<string>, qs: seq<int>, ans: seq<int>, i: nat, src: string)
    requires Increasing(qs) && Increasing(ans) && InRange(qs, |lines|) && InRange(ans, |lines|)
    requires Complete(Kinds(lines), qs, QuestionMarker) && Complete(Kinds(lines), ans, AnswerMarker)
    requires |ans| <= |qs| && SliceableFrom(qs, ans, 0, |lines|) && i < |ans|
    requires Sliceable(qs, ans, i, |lines|)
    requires forall j | 0 <= j < |lines| :: '\n' !in lines[j]
    ensures MarkerFree(PairAt(lines, qs, ans, i, src))
  {
    var q := Window(lines, qs[i] + 1, ans[i]);
    var a := Window(lines, ans[i] + 1, AnswerEnd(qs, i, |lines|));
    QuestionTextBody(lines, qs, ans, i);
    AnswerTextBody(lines, qs, ans, i);
    var r := Emit(q, a, src);
    assert PairAt(lines, qs, ans, i, src) == r;
    if |r| == 1 {
      assert r[0] == ParsedQuestion(q, a, src) && r[1..] == [];
    }
  }

  /** The pairing loop emits marker-free pairs from `i` on when every pair
      it visits is marker-free. */
  lemma {:induction false} PairFromKeepsBody(lines: seq<string>, qs: seq<int>, ans: seq<int>, i: nat, src: string)
    requires InRange(qs, |lines|) && InRange(ans, |lines|) && |ans| <= |qs| && i <= |ans|
    requires SliceableFrom(qs, ans, i, |lines|)
    requires forall k | i <= k < |ans| :: Sliceable(qs, ans, k, |lines|) && MarkerFree(PairAt(lines, qs, ans, k, src))
    ensures var r := PairFrom(lines, qs, ans, i, src);
      r.Ok? && MarkerFree(r.value)
    decreases |ans| - i
  {
    if i < |ans| {
      PairFromKeepsBody(lines, qs, ans, i + 1, src);
      PairFromUnfold(lines, qs, ans, i, src);
      MarkerFreeAppend(PairAt(lines, qs, ans, i, src), PairFrom(lines, qs, ans, i + 1, src).value);
    } else {
      assert PairFrom(lines, qs, ans, i, src) == Ok([]);
    }
  }

  /** One step of the pairing loop, when pair `i` and the rest succeed. */
  lemma PairFromUnfold(lines: seq<string>, qs: seq<int>, ans: seq<int>, i: nat, src: string)
    requires InRange(qs, |lines|) && InRange(ans, |lines|) && i < |qs| && i < |ans|
    requires Sliceable(qs, ans, i, |lines|) && PairFrom(lines, qs, ans, i + 1, src).Ok?
    ensures PairFrom(lines, qs, ans, i, src)
      == Ok(PairAt(lines, qs, ans, i, src) + PairFrom(lines, qs, ans, i + 1, src).value)
  {
  }

  lemma {:induction false} MarkerFreeAppend(a: seq<ParsedQuestion>, b: seq<ParsedQuestion>)
    requires MarkerFree(a) && MarkerFree(b)
    ensures MarkerFree(a + b)
  {
    if |a| > 0 {
      MarkerFreeAppend(a[1..], b);
      assert (a + b)[0] == a[0] && (a + b)[1..] == a[1..] + b;
    } else {
      assert a + b == b;
    }
  }

  /** Every pair of a complete, alternating marker layout over newline-free
      lines can be sliced and emits only marker-free texts. */
  lemma CleanPairs(lines: seq<string>, qs: seq<int>, ans: seq<int>, src: string)
    requires Increasing(qs) && Increasing(ans) && InRange(qs, |lines|) && InRange(ans, |lines|)
    requires Complete(Kinds(lines), qs, QuestionMarker) && Complete(Kinds(lines), ans, AnswerMarker)
    requires |ans| <= |qs| && SliceableFrom(qs, ans, 0, |lines|)
    requires forall j | 0 <= j < |lines| :: '\n' !in lines[j]
    ensures forall k | 0 <= k < |ans| :: Sliceable(qs, ans, k, |lines|) && MarkerFree(PairAt(lines, qs, ans, k, src))
  {
    forall k | 0 <= k < |ans|
      ensures Sliceable(qs, ans, k, |lines|) && MarkerFree(PairAt(lines, qs, ans, k, src))
    {
      assert Sliceable(qs, ans, k, |lines|);
      PairAtKeepsBody(lines, qs, ans, k, src);
    }
  }

  /** When the markers alternate, parsing succeeds and no emitted text
      contains a marker line. */
  lemma AlternatingParsesClean(content: string, src: string)
    requires Alternating(Split(content))
    ensures var r := ParseContent(content, src);
      r.Ok? && MarkerFree(r.value)
  {
    var lines := Split(content);
    var ks := Kinds(lines);
    var qs := Positions(ks, QuestionMarker);
    var ans := Positions(ks, AnswerMarker);
    PositionsFacts(ks, QuestionMarker);
    PositionsFacts(ks, AnswerMarker);
    SplitPiecesHaveNoNewline(content);
    CleanPairs(lines, qs, ans, src);
    PairFromKeepsBody(lines, qs, ans, 0, src);
  }

  // ----- Conversion to stored questions -----

  /** `ConvertToModel`: the stored row for a parsed pair, owned by `user`,
      keyed "q_" + Hash(text), at level 4; every field the source leaves
      unset keeps its Go zero value. */
  function ConvertToModel(digest: string -> HexDigest, user: nat, p: ParsedQuestion): (r: TenantStore.Row)
    ensures r.userId == user && r.question.level == 4
    ensures r.question.id == CliId(digest, p.questionText)
    ensures r.question.questionText == p.questionText && r.question.answerText == p.answerText
    ensures r.question.source == p.sourceFile
    ensures r.question.reviewCount == 0 && r.question.correctCount == 0 && r.question.lastReviewed == None
    ensures r.question.nextReview == r.question.createdAt == ZeroTime
  {
    TenantStore.Row(user, Question(CliId(digest, p.questionText), p.questionText, p.answerText, p.sourceFile,
                                   4, ZeroTime, 0, 0, ZeroTime, None))
  }

  /** `ConvertToModels`: one row per pair, in order. */
  function ConvertToModels(digest: string -> HexDigest, user: nat, ps: seq<ParsedQuestion>)
    : (rs: seq<TenantStore.Row>)
    ensures |rs| == |ps|
    ensures forall j | 0 <= j < |ps| :: rs[j] == ConvertToModel(digest, user, ps[j])
  {
    if |ps| == 0 then [] else [ConvertToModel(digest, user, ps[0])] + ConvertToModels(digest, user, ps[1..])
  }

  /** Converting a concatenation converts each part. */
  lemma ConvertToModelsAppend(digest: string -> HexDigest, user: nat, a: seq<ParsedQuestion>, b: seq<ParsedQuestion>)
    ensures ConvertToModels(digest, user, a + b) == ConvertToModels(digest, user, a) + ConvertToModels(digest, user, b)
  {
  }
}
