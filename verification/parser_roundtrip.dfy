/** Rendering parsed pairs back into the markdown layout the parser reads,
    and the round trip: parsing the rendering of well-formed pairs gives the
    same pairs back. */
module ParserRoundTrip {
  import opened Common
  import opened Text
  import opened Parser

  /** One pair in the file layout, followed by `rest`: a "# q" line, the
      question, a "# a" line, the answer, each ended by a newline. */
  function Block(p: ParsedQuestion, rest: string): string
  {
    "# q" + "\n" + (p.questionText + "\n" + ("# a" + "\n" + (p.answerText + "\n" + rest)))
  }

  function Render(ps: seq<ParsedQuestion>): string
  {
    if |ps| == 0 then "" else Block(ps[0], Render(ps[1..]))
  }

  /** The lines of one block, without the empty piece after its final
      newline. */
  function BlockLines(p: ParsedQuestion): seq<string>
  {
    ["# q"] + Split(p.questionText) + ["# a"] + Split(p.answerText)
  }

  function Lines(ps: seq<ParsedQuestion>): seq<string>
  {
    if |ps| == 0 then [] else BlockLines(ps[0]) + Lines(ps[1..])
  }

  /** A pair the parser can emit for `src` whose texts hold no marker line. */
  predicate Renderable(p: ParsedQuestion, src: string)
  {
    WellFormed(p, src) && PairIsBody(p)
  }

  // ----- Lines of a rendering -----

  lemma QuestionLine()
    ensures Classify("# q") == QuestionMarker
  {
    TrimmedIsFixed("# q");
    assert IsQuestionMarker("# q");
  }

  lemma AnswerLine()
    ensures Classify("# a") == AnswerMarker
  {
    TrimmedIsFixed("# a");
    assert IsAnswerMarker("# a");
  }

  lemma EmptyLine()
    ensures Classify("") == Body
  {
    assert Trim("") == "";
  }

  /** A marker line followed by a newline is one piece of its own. */
  lemma SplitMarker(m: string, r: string)
    requires m == "# q" || m == "# a"
    ensures Split(m + "\n" + r) == [m] + Split(r)
  {
    SplitSingleLine(m);
    SplitConcat(m, r);
  }

  /** A block splits into its lines, and whatever follows it splits on. */
  lemma SplitBlock(p: ParsedQuestion, r: string)
    ensures Split(Block(p, r)) == BlockLines(p) + Split(r)
  {
    var q, a := p.questionText, p.answerText;
    var x3 := a + "\n" + r;
    var x2 := "# a" + "\n" + x3;
    var x1 := q + "\n" + x2;
    SplitConcat(a, r);
    SplitMarker("# a", x3);
    SplitConcat(q, x2);
    SplitMarker("# q", x1);
    RightToLeft(["# q"], Split(q), ["# a"], Split(a), Split(r));
  }

  lemma RightToLeft<T>(a: seq<T>, b: seq<T>, c: seq<T>, d: seq<T>, e: seq<T>)
    ensures a + (b + (c + (d + e))) == a + b + c + d + e
  {
  }

  /** The lines of a rendering: every block's lines, then the empty piece
      after the final newline. */
  lemma {:induction false} SplitRender(ps: seq<ParsedQuestion>)
    ensures Split(Render(ps)) == Lines(ps) + [""]
  {
    if |ps| > 0 {
      SplitBlock(ps[0], Render(ps[1..]));
      assert Lines(ps) + [""] == BlockLines(ps[0]) + (Lines(ps[1..]) + [""]);
      SplitRender(ps[1..]);
    }
  }

  // ----- Marker positions -----

  function Shift(ps: seq<int>, d: int): (r: seq<int>)
    ensures |r| == |ps| && forall j | 0 <= j < |ps| :: r[j] == ps[j] + d
  {
    seq(|ps|, j requires 0 <= j < |ps| => ps[j] + d)
  }

  lemma KindsAppend(a: seq<string>, b: seq<string>)
    ensures Kinds(a + b) == Kinds(a) + Kinds(b)
  {
    assert forall j | 0 <= j < |a + b| :: (a + b)[j] == if j < |a| then a[j] else b[j - |a|];
  }

  lemma ShiftAppend(a: seq<int>, b: seq<int>, d: int)
    ensures Shift(a + b, d) == Shift(a, d) + Shift(b, d)
  {
  }

  /** The last step of `Positions`. */
  lemma PositionsSnoc(ks: seq<LineKind>, k: LineKind)
    requires |ks| > 0
    ensures Positions(ks, k)
      == Positions(ks[..|ks| - 1], k) + if ks[|ks| - 1] == k then [|ks| - 1] else []
  {
  }

  /** The positions of a concatenation: those of the first part, then those
      of the second moved past the first. */
  lemma {:induction false} PositionsAppend(k1: seq<LineKind>, k2: seq<LineKind>, k: LineKind)
    ensures Positions(k1 + k2, k) == Positions(k1, k) + Shift(Positions(k2, k), |k1|)
    decreases |k2|
  {
    if |k2| == 0 {
      assert k1 + k2 == k1;
    } else {
      var n := |k2| - 1;
      var ks := k1 + k2;
      assert ks[..|ks| - 1] == k1 + k2[..n] && ks[|ks| - 1] == k2[n];
      PositionsSnoc(ks, k);
      PositionsSnoc(k2, k);
      PositionsAppend(k1, k2[..n], k);
      var tail := if k2[n] == k then [n] else [];
      ShiftAppend(Positions(k2[..n], k), tail, |k1|);
      assert Shift(tail, |k1|) == if k2[n] == k then [|ks| - 1] else [];
    }
  }

  lemma NoOccurrence(ks: seq<LineKind>, k: LineKind)
    requires forall y | 0 <= y < |ks| :: ks[y] != k
    ensures Positions(ks, k) == []
  {
  }

  lemma Singleton(k0: LineKind, k: LineKind)
    ensures Positions([k0], k) == if k0 == k then [0] else []
  {
    PositionsSnoc([k0], k);
    assert [k0][..0] == [];
  }

  /** The kinds of a block's lines are a question marker, body lines, an
      answer marker and body lines; the question marker is found first. */
  lemma BlockQuestionPositions(kq: seq<LineKind>, ka: seq<LineKind>)
    requires forall j | 0 <= j < |kq| :: kq[j] == Body
    requires forall j | 0 <= j < |ka| :: ka[j] == Body
    ensures Positions([QuestionMarker] + kq + [AnswerMarker] + ka, QuestionMarker) == [0]
  {
    var k1 := [QuestionMarker] + kq;
    Singleton(QuestionMarker, QuestionMarker);
    Singleton(AnswerMarker, QuestionMarker);
    NoOccurrence(kq, QuestionMarker);
    NoOccurrence(ka, QuestionMarker);
    PositionsAppend([QuestionMarker], kq, QuestionMarker);
    assert Positions(k1, QuestionMarker) == [0];
    PositionsAppend(k1, [AnswerMarker], QuestionMarker);
    assert Positions(k1 + [AnswerMarker], QuestionMarker) == [0];
    PositionsAppend(k1 + [AnswerMarker], ka, QuestionMarker);
  }

  /** ... and the answer marker right after the question's lines. */
  lemma BlockAnswerPositions(kq: seq<LineKind>, ka: seq<LineKind>)
    requires forall j | 0 <= j < |kq| :: kq[j] == Body
    requires forall j | 0 <= j < |ka| :: ka[j] == Body
    ensures Positions([QuestionMarker] + kq + [AnswerMarker] + ka, AnswerMarker) == [1 + |kq|]
  {
    var k1 := [QuestionMarker] + kq;
    Singleton(QuestionMarker, AnswerMarker);
    Singleton(AnswerMarker, AnswerMarker);
    NoOccurrence(kq, AnswerMarker);
    NoOccurrence(ka, AnswerMarker);
    PositionsAppend([QuestionMarker], kq, AnswerMarker);
    assert Positions(k1, AnswerMarker) == [];
    PositionsAppend(k1, [AnswerMarker], AnswerMarker);
    assert Positions(k1 + [AnswerMarker], AnswerMarker) == [1 + |kq|];
    PositionsAppend(k1 + [AnswerMarker], ka, AnswerMarker);
  }

  lemma BodyKinds(ls: seq<string>)
    requires AllBody(ls)
    ensures forall j | 0 <= j < |ls| :: Kinds(ls)[j] == Body
  {
  }

  /** The markers of one block: its "# q" line and its "# a" line. */
  lemma BlockPositions(p: ParsedQuestion, src: string)
    requires Renderable(p, src)
    ensures Positions(Kinds(BlockLines(p)), QuestionMarker) == [0]
    ensures Positions(Kinds(BlockLines(p)), AnswerMarker) == [1 + |Split(p.questionText)|]
  {
    var lq, la := Split(p.questionText), Split(p.answerText);
    QuestionLine();
    AnswerLine();
    KindsAppend(["# q"], lq);
    KindsAppend(["# q"] + lq, ["# a"]);
    KindsAppend(["# q"] + lq + ["# a"], la);
    assert Kinds(["# q"]) == [QuestionMarker];
    assert Kinds(["# a"]) == [AnswerMarker];
    BodyKinds(lq);
    BodyKinds(la);
    BlockQuestionPositions(Kinds(lq), Kinds(la));
    BlockAnswerPositions(Kinds(lq), Kinds(la));
  }

  /** Where the question markers of a rendering sit: at the start of each
      block. */
  function QPos(ps: seq<ParsedQuestion>): (r: seq<int>)
    ensures |r| == |ps|
  {
    if |ps| == 0 then [] else [0] + Shift(QPos(ps[1..]), |BlockLines(ps[0])|)
  }

  /** Where the answer markers of a rendering sit: right after each
      question's lines. */
  function APos(ps: seq<ParsedQuestion>): (r: seq<int>)
    ensures |r| == |ps|
  {
    if |ps| == 0 then []
    else [1 + |Split(ps[0].questionText)|] + Shift(APos(ps[1..]), |BlockLines(ps[0])|)
  }

  lemma EmptyRenderPositions()
    ensures Positions(Kinds([""]), QuestionMarker) == []
    ensures Positions(Kinds([""]), AnswerMarker) == []
  {
    EmptyLine();
    NoOccurrence(Kinds([""]), QuestionMarker);
    NoOccurrence(Kinds([""]), AnswerMarker);
  }

  /** The marker positions of a rendering's lines. */
  lemma {:induction false} LinePositions(ps: seq<ParsedQuestion>, src: string)
    requires forall j | 0 <= j < |ps| :: Renderable(ps[j], src)
    ensures Positions(Kinds(Lines(ps) + [""]), QuestionMarker) == QPos(ps)
    ensures Positions(Kinds(Lines(ps) + [""]), AnswerMarker) == APos(ps)
  {
    if |ps| == 0 {
      assert Lines(ps) + [""] == [""];
      EmptyRenderPositions();
    } else {
      var b := BlockLines(ps[0]);
      var rest := Lines(ps[1..]) + [""];
      assert Lines(ps) + [""] == b + rest;
      KindsAppend(b, rest);
      LinePositions(ps[1..], src);
      BlockPositions(ps[0], src);
      PositionsAppend(Kinds(b), Kinds(rest), QuestionMarker);
      PositionsAppend(Kinds(b), Kinds(rest), AnswerMarker);
    }
  }

  // ----- The pairing loop over a rendering -----

  /** Joining and trimming the lines of a trimmed text gives it back, with
      or without the empty piece of a final newline. */
  lemma WindowText(s: string)
    requires Trimmed(s) && s != ""
    ensures Trim(Join(Split(s))) == s
    ensures Trim(Join(Split(s) + [""])) == s
  {
    JoinSplit(s);
    TrimmedIsFixed(s);
    JoinSnocEmpty(Split(s));
    TrimNewlineSuffix(s);
  }

  /** Pairs whose line windows agree emit the same. */
  lemma PairAtSame(l1: seq<string>, q1: seq<int>, a1: seq<int>, i1: int,
                   l2: seq<string>, q2: seq<int>, a2: seq<int>, i2: int, src: string)
    requires 0 <= i1 < |q1| && i1 < |a1| && InRange(q1, |l1|) && Sliceable(q1, a1, i1, |l1|)
    requires 0 <= i2 < |q2| && i2 < |a2| && InRange(q2, |l2|) && Sliceable(q2, a2, i2, |l2|)
    requires l1[q1[i1] + 1..a1[i1]] == l2[q2[i2] + 1..a2[i2]]
    requires l1[a1[i1] + 1..AnswerEnd(q1, i1, |l1|)] == l2[a2[i2] + 1..AnswerEnd(q2, i2, |l2|)]
    ensures PairAt(l1, q1, a1, i1, src) == PairAt(l2, q2, a2, i2, src)
  {
  }

  /** Moving the lines past a prefix `b` and every position by `|b|`
      (behind one extra leading pair) moves pair `j + 1`'s windows onto pair
      `j`'s. */
  lemma ShiftedSlices(b: seq<string>, l: seq<string>, qs: seq<int>, ans: seq<int>, x: int, y: int, j: nat)
    requires InRange(qs, |l|) && InRange(ans, |l|) && j < |qs| && j < |ans|
    requires 0 <= x < |b| && 0 <= y < |b|
    requires Sliceable(qs, ans, j, |l|)
    ensures var qq := [x] + Shift(qs, |b|);
      var aa := [y] + Shift(ans, |b|);
      && InRange(qq, |b + l|)
      && Sliceable(qq, aa, j + 1, |b + l|)
      && (b + l)[qq[j + 1] + 1..aa[j + 1]] == l[qs[j] + 1..ans[j]]
      && (b + l)[aa[j + 1] + 1..AnswerEnd(qq, j + 1, |b + l|)] == l[ans[j] + 1..AnswerEnd(qs, j, |l|)]
  {
    var qq := [x] + Shift(qs, |b|);
    var aa := [y] + Shift(ans, |b|);
    PairAtShift(b, l, qs, ans, x, y, j);
    var e := AnswerEnd(qs, j, |l|);
    assert (b + l)[|b| + qs[j] + 1..|b| + ans[j]] == l[qs[j] + 1..ans[j]];
    assert (b + l)[|b| + ans[j] + 1..|b| + e] == l[ans[j] + 1..e];
  }

  /** Moving the lines past a prefix `b` and every position by `|b|` (behind
      one extra leading pair) does not change where pair `j` ends or whether
      it can be sliced. */
  lemma PairAtShift(b: seq<string>, l: seq<string>, qs: seq<int>, ans: seq<int>, x: int, y: int, j: nat)
    requires InRange(qs, |l|) && InRange(ans, |l|) && j < |qs| && j < |ans|
    ensures var qq := [x] + Shift(qs, |b|);
      var aa := [y] + Shift(ans, |b|);
      && AnswerEnd(qq, j + 1, |b + l|) == |b| + AnswerEnd(qs, j, |l|)
      && (Sliceable(qq, aa, j + 1, |b + l|) <==> Sliceable(qs, ans, j, |l|))
  {
  }

  lemma PairAtShiftEmits(b: seq<string>, l: seq<string>, qs: seq<int>, ans: seq<int>, x: int, y: int,
                         j: nat, src: string)
    requires InRange(qs, |l|) && InRange(ans, |l|) && j < |qs| && j < |ans|
    requires 0 <= x < |b| && 0 <= y < |b|
    requires Sliceable(qs, ans, j, |l|)
    ensures var qq := [x] + Shift(qs, |b|);
      var aa := [y] + Shift(ans, |b|);
      && InRange(qq, |b + l|)
      && Sliceable(qq, aa, j + 1, |b + l|)
      && PairAt(b + l, qq, aa, j + 1, src) == PairAt(l, qs, ans, j, src)
  {
    var qq := [x] + Shift(qs, |b|);
    var aa := [y] + Shift(ans, |b|);
    ShiftedSlices(b, l, qs, ans, x, y, j);
    PairAtSame(b + l, qq, aa, j + 1, l, qs, ans, j, src);
  }

  /** Two pairing loops that agree on whether pair `i` can be sliced, on
      what it emits, and on everything after it, agree from pair `i` on. */
  lemma PairFromSameStep(l1: seq<string>, q1: seq<int>, a1: seq<int>, i1: nat,
                         l2: seq<string>, q2: seq<int>, a2: seq<int>, i2: nat, src: string)
    requires InRange(q1, |l1|) && InRange(a1, |l1|) && i1 < |q1| && i1 < |a1|
    requires InRange(q2, |l2|) && InRange(a2, |l2|) && i2 < |q2| && i2 < |a2|
    requires Sliceable(q1, a1, i1, |l1|) <==> Sliceable(q2, a2, i2, |l2|)
    requires Sliceable(q1, a1, i1, |l1|) ==> PairAt(l1, q1, a1, i1, src) == PairAt(l2, q2, a2, i2, src)
    requires PairFrom(l1, q1, a1, i1 + 1, src) == PairFrom(l2, q2, a2, i2 + 1, src)
    ensures PairFrom(l1, q1, a1, i1, src) == PairFrom(l2, q2, a2, i2, src)
  {
  }

  /** One step of the shift: if the two loops agree after pair `j`, they
      agree from pair `j` on. */
  lemma PairFromShiftStep(b: seq<string>, l: seq<string>, qs: seq<int>, ans: seq<int>,
                          x: int, y: int, j: nat, src: string)
    requires InRange(qs, |l|) && InRange(ans, |l|) && j < |qs| && j < |ans|
    requires 0 <= x < |b| && 0 <= y < |b|
    requires InRange([x] + Shift(qs, |b|), |b + l|) && InRange([y] + Shift(ans, |b|), |b + l|)
    requires ShiftAgrees(b, l, qs, ans, x, y, j + 1, src)
    ensures ShiftAgrees(b, l, qs, ans, x, y, j, src)
  {
    PairAtShift(b, l, qs, ans, x, y, j);
    if Sliceable(qs, ans, j, |l|) {
      PairAtShiftEmits(b, l, qs, ans, x, y, j, src);
    }
    PairFromSameStep(b + l, [x] + Shift(qs, |b|), [y] + Shift(ans, |b|), j + 1, l, qs, ans, j, src);
  }

  /** The pairing loop over `b + l` from pair `j + 1`, with shifted
      positions, is the loop over `l` from pair `j`. */
  predicate ShiftAgrees(b: seq<string>, l: seq<string>, qs: seq<int>, ans: seq<int>, x: int, y: int, j: nat, src: string)
    requires InRange(qs, |l|) && InRange(ans, |l|) && j <= |qs| && j <= |ans|
    requires InRange([x] + Shift(qs, |b|), |b + l|) && InRange([y] + Shift(ans, |b|), |b + l|)
  {
    PairFrom(b + l, [x] + Shift(qs, |b|), [y] + Shift(ans, |b|), j + 1, src) == PairFrom(l, qs, ans, j, src)
  }

  lemma {:induction false} PairFromShift(b: seq<string>, l: seq<string>, qs: seq<int>, ans: seq<int>,
                                         x: int, y: int, j: nat, src: string)
    requires InRange(qs, |l|) && InRange(ans, |l|) && j <= |qs| && j <= |ans|
    requires 0 <= x < |b| && 0 <= y < |b|
    requires InRange([x] + Shift(qs, |b|), |b + l|) && InRange([y] + Shift(ans, |b|), |b + l|)
    ensures ShiftAgrees(b, l, qs, ans, x, y, j, src)
    decreases |qs| - j
  {
    if j < |qs| && j < |ans| {
      PairFromShift(b, l, qs, ans, x, y, j + 1, src);
      PairFromShiftStep(b, l, qs, ans, x, y, j, src);
    } else {
      PairFromShiftEnd(b, l, qs, ans, x, y, j, src);
    }
  }

  /** Past the last pair both loops emit nothing. */
  lemma PairFromShiftEnd(b: seq<string>, l: seq<string>, qs: seq<int>, ans: seq<int>,
                         x: int, y: int, j: nat, src: string)
    requires InRange(qs, |l|) && InRange(ans, |l|) && j <= |qs| && j <= |ans| && !(j < |qs| && j < |ans|)
    requires InRange([x] + Shift(qs, |b|), |b + l|) && InRange([y] + Shift(ans, |b|), |b + l|)
    ensures ShiftAgrees(b, l, qs, ans, x, y, j, src)
  {
  }

  /** The slices of a block `[mq] + lq + [ma] + la` at the front of a
      sequence. */
  lemma HeadSlices<T>(mq: T, lq: seq<T>, ma: T, la: seq<T>, post: seq<T>)
    ensures var s := [mq] + lq + [ma] + la + post;
      && s[1..1 + |lq|] == lq
      && s[2 + |lq|..2 + |lq| + |la|] == la
      && s[2 + |lq|..] == la + post
  {
    var s := [mq] + lq + [ma] + la + post;
    assert s[1..1 + |lq|] == lq;
    assert s[2 + |lq|..] == la + post;
    assert s[2 + |lq|..2 + |lq| + |la|] == (la + post)[..|la|];
  }

  /** The second question marker of a rendering opens its second block. */
  lemma SecondQuestion(ps: seq<ParsedQuestion>)
    requires |ps| > 1
    ensures QPos(ps)[1] == |BlockLines(ps[0])|
  {
    assert QPos(ps[1..])[0] == 0;
  }

  lemma AppendAssoc<T>(a: seq<T>, b: seq<T>, c: seq<T>)
    ensures a + b + c == a + (b + c)
  {
  }

  /** Where the first block's answer starts and ends. */
  lemma FirstBlockBounds(ps: seq<ParsedQuestion>)
    requires |ps| > 0
    ensures var lq, la := Split(ps[0].questionText), Split(ps[0].answerText);
      && QPos(ps)[0] == 0 && APos(ps)[0] == 1 + |lq|
      && AnswerEnd(QPos(ps), 0, |Lines(ps) + [""]|) == 2 + |lq| + |la| + (if |ps| == 1 then 1 else 0)
      && 2 + |lq| + |la| <= |Lines(ps) + [""]| - 1
      && (|ps| == 1 ==> |Lines(ps[1..])| == 0)
  {
    if |ps| > 1 {
      SecondQuestion(ps);
    }
  }

  /** The first block's windows hold its question lines and its answer
      lines, the latter followed by the rest of the rendering. */
  lemma FirstBlockSlices(ps: seq<ParsedQuestion>)
    requires |ps| > 0
    ensures var lines := Lines(ps) + [""];
      var lq, la := Split(ps[0].questionText), Split(ps[0].answerText);
      && lines[1..1 + |lq|] == lq
      && lines[2 + |lq|..2 + |lq| + |la|] == la
      && lines[2 + |lq|..] == la + (Lines(ps[1..]) + [""])
  {
    var lq, la := Split(ps[0].questionText), Split(ps[0].answerText);
    AppendAssoc(BlockLines(ps[0]), Lines(ps[1..]), [""]);
    HeadSlices("# q", lq, "# a", la, Lines(ps[1..]) + [""]);
  }

  /** A pair whose windows hold the lines of its question and of its answer
      (the latter possibly followed by one empty line) is emitted as is. */
  lemma EmitsWindows(lines: seq<string>, qs: seq<int>, ans: seq<int>, i: int, src: string,
                     p: ParsedQuestion, tail: seq<string>)
    requires 0 <= i < |qs| && i < |ans| && InRange(qs, |lines|) && Sliceable(qs, ans, i, |lines|)
    requires Renderable(p, src) && (tail == [] || tail == [""])
    requires lines[qs[i] + 1..ans[i]] == Split(p.questionText)
    requires lines[ans[i] + 1..AnswerEnd(qs, i, |lines|)] == Split(p.answerText) + tail
    ensures PairAt(lines, qs, ans, i, src) == [p]
  {
    WindowText(p.questionText);
    WindowText(p.answerText);
    assert Split(p.answerText) + [] == Split(p.answerText);
  }

  /** The windows of a block `[mq] + lq + [ma] + la` heading `lines`, given
      where its markers sit and where its answer ends: after `la`, or one
      line further when the block is the last one and the closing empty line
      follows it. */
  lemma BlockWindows(lines: seq<string>, lq: seq<string>, la: seq<string>, rest: seq<string>,
                     q0: int, a0: int, end: int, last: bool)
    requires q0 == 0 && a0 == 1 + |lq|
    requires end == 2 + |lq| + |la| + (if last then 1 else 0) && 2 + |lq| + |la| <= |lines| - 1
    requires last ==> |rest| == 0
    requires lines[1..1 + |lq|] == lq
    requires lines[2 + |lq|..2 + |lq| + |la|] == la
    requires lines[2 + |lq|..] == la + (rest + [""])
    ensures q0 < a0 < end <= |lines|
    ensures lines[q0 + 1..a0] == lq
    ensures lines[a0 + 1..end] == la + (if last then [""] else [])
  {
    if last {
      assert rest + [""] == [""];
      assert lines[2 + |lq|..end] == lines[2 + |lq|..];
    }
  }

  /** The first block's windows hold its question lines, and its answer
      lines followed by the closing empty line when it is the only block. */
  lemma FirstBlockWindows(ps: seq<ParsedQuestion>)
    requires |ps| > 0
    requires InRange(QPos(ps), |Lines(ps) + [""]|) && InRange(APos(ps), |Lines(ps) + [""]|)
    ensures var lines := Lines(ps) + [""];
      && Sliceable(QPos(ps), APos(ps), 0, |lines|)
      && lines[QPos(ps)[0] + 1..APos(ps)[0]] == Split(ps[0].questionText)
      && lines[APos(ps)[0] + 1..AnswerEnd(QPos(ps), 0, |lines|)]
         == Split(ps[0].answerText) + (if |ps| == 1 then [""] else [])
  {
    FirstBlockBounds(ps);
    FirstBlockSlices(ps);
    var lines := Lines(ps) + [""];
    BlockWindows(lines, Split(ps[0].questionText), Split(ps[0].answerText), Lines(ps[1..]),
                 QPos(ps)[0], APos(ps)[0], AnswerEnd(QPos(ps), 0, |lines|), |ps| == 1);
  }

  /** The first block of a rendering emits its pair. */
  lemma FirstBlockEmits(ps: seq<ParsedQuestion>, src: string)
    requires |ps| > 0 && Renderable(ps[0], src)
    requires InRange(QPos(ps), |Lines(ps) + [""]|) && InRange(APos(ps), |Lines(ps) + [""]|)
    ensures Sliceable(QPos(ps), APos(ps), 0, |Lines(ps) + [""]|)
    ensures PairAt(Lines(ps) + [""], QPos(ps), APos(ps), 0, src) == [ps[0]]
  {
    FirstBlockWindows(ps);
    EmitsWindows(Lines(ps) + [""], QPos(ps), APos(ps), 0, src, ps[0], if |ps| == 1 then [""] else []);
  }

  /** Every marker position of a rendering indexes one of its lines. */
  lemma {:induction false} RenderPositionsInRange(ps: seq<ParsedQuestion>)
    ensures InRange(QPos(ps), |Lines(ps)| + 1) && InRange(APos(ps), |Lines(ps)| + 1)
  {
    if |ps| > 0 {
      RenderPositionsInRange(ps[1..]);
    }
  }

  /** A block in front of lines that pair up as `rest` adds its own pair in
      front of `rest`. */
  lemma PairFromCons(lines: seq<string>, qs: seq<int>, ans: seq<int>, src: string,
                     b: seq<string>, post: seq<string>, qs': seq<int>, ans': seq<int>, x: int, y: int,
                     p: ParsedQuestion, rest: seq<ParsedQuestion>)
    requires lines == b + post && qs == [x] + Shift(qs', |b|) && ans == [y] + Shift(ans', |b|)
    requires InRange(qs', |post|) && InRange(ans', |post|) && 0 <= x < |b| && 0 <= y < |b|
    requires InRange(qs, |lines|) && InRange(ans, |lines|)
    requires Sliceable(qs, ans, 0, |lines|) && PairAt(lines, qs, ans, 0, src) == [p]
    requires PairFrom(post, qs', ans', 0, src) == Ok(rest)
    ensures PairFrom(lines, qs, ans, 0, src) == Ok([p] + rest)
  {
    PairFromShift(b, post, qs', ans', x, y, 0, src);
    PairFromUnfold(lines, qs, ans, 0, src);
  }

  /** The pairing loop over a rendering gives back the rendered pairs. */
  lemma {:induction false} PairsOfRendering(ps: seq<ParsedQuestion>, src: string)
    requires forall j | 0 <= j < |ps| :: Renderable(ps[j], src)
    ensures InRange(QPos(ps), |Lines(ps)| + 1) && InRange(APos(ps), |Lines(ps)| + 1)
    ensures PairFrom(Lines(ps) + [""], QPos(ps), APos(ps), 0, src) == Ok(ps)
  {
    RenderPositionsInRange(ps);
    if |ps| == 0 {
      assert PairFrom(Lines(ps) + [""], QPos(ps), APos(ps), 0, src) == Ok([]);
    } else {
      var b := BlockLines(ps[0]);
      var post := Lines(ps[1..]) + [""];
      AppendAssoc(b, Lines(ps[1..]), [""]);
      PairsOfRendering(ps[1..], src);
      FirstBlockEmits(ps, src);
      PairFromCons(Lines(ps) + [""], QPos(ps), APos(ps), src, b, post, QPos(ps[1..]), APos(ps[1..]),
                   0, 1 + |Split(ps[0].questionText)|, ps[0], ps[1..]);
      assert ps == [ps[0]] + ps[1..];
    }
  }

  /** Parsing a rendering gives back exactly the rendered pairs. */
  lemma RenderParses(ps: seq<ParsedQuestion>, src: string)
    requires forall j | 0 <= j < |ps| :: Renderable(ps[j], src)
    ensures ParseContent(Render(ps), src) == Ok(ps)
  {
    SplitRender(ps);
    LinePositions(ps, src);
    PairsOfRendering(ps, src);
  }
}
