/** The string primitives of Go's `strings` and `fmt` packages that the core
    relies on: `TrimSpace`, `HasPrefix`, `Split`/`Join` on "\n", and `%d`.
    Strings are sequences of Unicode code points. */
module Text {

  /** Go's `unicode.IsSpace`: the Latin-1 spaces and the other Unicode
      White_Space characters. */
  predicate IsSpace(c: char)
  {
    || c == ' ' || c == '\t' || c == '\n' || c == '\r'
    || c == '\U{000B}' || c == '\U{000C}' || c == '\U{0085}' || c == '\U{00A0}'
    || c == '\U{1680}' || ('\U{2000}' <= c <= '\U{200A}')
    || c == '\U{2028}' || c == '\U{2029}' || c == '\U{202F}' || c == '\U{205F}'
    || c == '\U{3000}'
  }

  function TrimLeft(s: string): (r: string)
    ensures |r| <= |s|
    ensures |r| == 0 || !IsSpace(r[0])
  {
    if |s| > 0 && IsSpace(s[0]) then TrimLeft(s[1..]) else s
  }

  /** `TrimLeft` keeps a suffix. */
  lemma {:induction false} TrimLeftSuffix(s: string)
    ensures TrimLeft(s) == s[|s| - |TrimLeft(s)|..]
  {
    if |s| > 0 && IsSpace(s[0]) {
      TrimLeftSuffix(s[1..]);
      assert s[1..][|s| - 1 - |TrimLeft(s)|..] == s[|s| - |TrimLeft(s)|..];
    }
  }

  function TrimRight(s: string): (r: string)
    ensures |r| <= |s|
    ensures |r| == 0 || !IsSpace(r[|r| - 1])
  {
    if |s| > 0 && IsSpace(s[|s| - 1]) then TrimRight(s[..|s| - 1]) else s
  }

  /** `TrimRight` keeps a prefix. */
  lemma {:induction false} TrimRightPrefix(s: string)
    ensures TrimRight(s) == s[..|TrimRight(s)|]
  {
    if |s| > 0 && IsSpace(s[|s| - 1]) {
      TrimRightPrefix(s[..|s| - 1]);
    }
  }

  /** Go's `strings.TrimSpace`. */
  function Trim(s: string): string
  {
    TrimRight(TrimLeft(s))
  }

  /** Neither end of `s` is white space. */
  predicate Trimmed(s: string)
  {
    |s| == 0 || (!IsSpace(s[0]) && !IsSpace(s[|s| - 1]))
  }

  predicate HasPrefix(s: string, prefix: string)
  {
    |prefix| <= |s| && s[..|prefix|] == prefix
  }

  /** Go's `strings.Split(s, "\n")`: always at least one piece, and one
      more piece than there are newlines. */
  function Split(s: string): (r: seq<string>)
    ensures |r| >= 1
  {
    if |s| == 0 then [""]
    else
      var rest := Split(s[1..]);
      if s[0] == '\n' then [""] + rest
      else [[s[0]] + rest[0]] + rest[1..]
  }

  /** No piece of a split holds the separator. */
  lemma {:induction false} SplitPiecesHaveNoNewline(s: string)
    ensures forall i | 0 <= i < |Split(s)| :: '\n' !in Split(s)[i]
  {
    if |s| > 0 {
      var rest := Split(s[1..]);
      SplitPiecesHaveNoNewline(s[1..]);
      if s[0] != '\n' {
        assert forall c | c in [s[0]] + rest[0] :: c == s[0] || c in rest[0];
      }
    }
  }

  /** Go's `strings.Join(xs, "\n")`. */
  function Join(xs: seq<string>): string
  {
    if |xs| == 0 then ""
    else if |xs| == 1 then xs[0]
    else xs[0] + "\n" + Join(xs[1..])
  }

  function Digit(d: nat): char
    requires d < 10
  {
    ('0' as int + d) as char
  }

  /** The decimal rendering of `fmt.Sprintf("%d", n)` for an unsigned `n`. */
  function Dec(n: nat): (r: string)
    ensures |r| >= 1
    ensures n >= 10 ==> |r| >= 2
  {
    if n < 10 then [Digit(n)] else Dec(n / 10) + [Digit(n % 10)]
  }

  // ----- Trim -----

  lemma {:induction false} TrimmedIsFixed(s: string)
    requires Trimmed(s)
    ensures Trim(s) == s
  {
  }

  lemma TrimIsTrimmed(s: string)
    ensures Trimmed(Trim(s))
  {
    var l := TrimLeft(s);
    var r := TrimRight(l);
    if |r| > 0 {
      TrimRightPrefix(l);
      assert r[0] == l[0];
    }
  }

  /** Trimming is idempotent. */
  lemma TrimIdempotent(s: string)
    ensures Trim(Trim(s)) == Trim(s)
  {
    TrimIsTrimmed(s);
    TrimmedIsFixed(Trim(s));
  }

  /** A leading space never survives trimming. */
  lemma TrimConsSpace(c: char, s: string)
    requires IsSpace(c)
    ensures Trim([c] + s) == Trim(s)
  {
    assert ([c] + s)[1..] == s;
  }

  lemma {:induction false} TrimLeftAppend(x: string, y: string)
    ensures TrimLeft(x) != "" ==> TrimLeft(x + y) == TrimLeft(x) + y
    ensures TrimLeft(x) == "" ==> TrimLeft(x + y) == TrimLeft(y)
    decreases |x|
  {
    if |x| == 0 {
      assert x + y == y;
    } else if IsSpace(x[0]) {
      assert (x + y)[1..] == x[1..] + y;
      TrimLeftAppend(x[1..], y);
    }
  }

  /** A trailing space never survives trimming. */
  lemma TrimSnocSpace(s: string, c: char)
    requires IsSpace(c)
    ensures Trim(s + [c]) == Trim(s)
  {
    TrimLeftAppend(s, [c]);
    if TrimLeft(s) != "" {
      assert (TrimLeft(s) + [c])[..|TrimLeft(s) + [c]| - 1] == TrimLeft(s);
    }
  }

  /** A trimmed, non-empty text followed by a newline trims back to itself. */
  lemma TrimNewlineSuffix(s: string)
    requires Trimmed(s) && |s| > 0
    ensures Trim(s + "\n") == s
  {
    TrimSnocSpace(s, '\n');
    TrimmedIsFixed(s);
  }

  // ----- Split and Join -----

  /** Joining the pieces of a split gives back the original text. */
  lemma {:induction false} JoinSplit(s: string)
    ensures Join(Split(s)) == s
    decreases |s|
  {
    if |s| > 0 {
      var rest := Split(s[1..]);
      JoinSplit(s[1..]);
      if s[0] == '\n' {
        assert Split(s) == [""] + rest;
        assert ([""] + rest)[1..] == rest;
      } else {
        var r := Split(s);
        assert r == [[s[0]] + rest[0]] + rest[1..];
        if |rest| == 1 {
          assert Join(r) == [s[0]] + rest[0];
        } else {
          assert r[1..] == rest[1..];
          assert Join(rest) == rest[0] + "\n" + Join(rest[1..]);
        }
      }
    }
  }

  /** A newline separates the pieces of its two sides. */
  lemma {:induction false} SplitConcat(a: string, b: string)
    ensures Split(a + "\n" + b) == Split(a) + Split(b)
    decreases |a|
  {
    var s := a + "\n" + b;
    if |a| == 0 {
      assert s == "\n" + b;
      assert s[1..] == b;
    } else {
      assert s[0] == a[0];
      assert s[1..] == a[1..] + "\n" + b;
      SplitConcat(a[1..], b);
    }
  }

  /** Text without a newline is a single piece. */
  lemma {:induction false} SplitSingleLine(s: string)
    requires '\n' !in s
    ensures Split(s) == [s]
    decreases |s|
  {
    if |s| > 0 {
      assert '\n' !in s[1..];
      SplitSingleLine(s[1..]);
      assert [s[0]] + s[1..] == s;
    }
  }

  /** Splitting the join of single-line pieces gives the pieces back. */
  lemma {:induction false} SplitJoin(xs: seq<string>)
    requires |xs| >= 1
    requires forall i | 0 <= i < |xs| :: '\n' !in xs[i]
    ensures Split(Join(xs)) == xs
    decreases |xs|
  {
    if |xs| == 1 {
      SplitSingleLine(xs[0]);
    } else {
      SplitJoin(xs[1..]);
      SplitConcat(xs[0], Join(xs[1..]));
      SplitSingleLine(xs[0]);
      assert [xs[0]] + xs[1..] == xs;
    }
  }

  /** Appending a newline to a text opens a new, empty last piece. */
  lemma {:induction false} SplitSnocNewline(s: string)
    ensures Split(s + "\n") == Split(s) + [""]
    decreases |s|
  {
    var t := s + "\n";
    if |s| == 0 {
      assert t[1..] == "";
    } else {
      assert t[0] == s[0];
      assert t[1..] == s[1..] + "\n";
      SplitSnocNewline(s[1..]);
      var p' := Split(s[1..]);
      if s[0] != '\n' {
        assert Split(t) == [[s[0]] + p'[0]] + (p' + [""])[1..];
        assert (p' + [""])[1..] == p'[1..] + [""];
      }
    }
  }

  /** Appending any other character to a text extends its last piece. */
  lemma {:induction false} SplitSnocChar(s: string, c: char)
    requires c != '\n'
    ensures var p := Split(s);
      Split(s + [c]) == p[..|p| - 1] + [p[|p| - 1] + [c]]
    decreases |s|
  {
    var t := s + [c];
    var p := Split(s);
    if |s| == 0 {
      assert t[1..] == "";
      assert p == [""];
      var rest := Split(t[1..]);
      assert rest == [""];
      assert Split(t) == [[c] + rest[0]] + rest[1..];
      assert rest[1..] == [];
      assert [c] + rest[0] == [c];
      assert Split(t) == [[c]];
      assert |p| == 1 && p[0] == "";
      assert p[0] + [c] == [c];
      assert p[..|p| - 1] == [];
    } else {
      assert t[0] == s[0];
      assert t[1..] == s[1..] + [c];
      SplitSnocChar(s[1..], c);
      var p' := Split(s[1..]);
      var q' := Split(t[1..]);
      var n := |p'|;
      assert q' == p'[..n - 1] + [p'[n - 1] + [c]];
      if s[0] == '\n' {
        assert p == [""] + p';
        assert Split(t) == [""] + q';
        assert p[..|p| - 1] == [""] + p'[..n - 1];
      } else if n == 1 {
        assert q' == [p'[0] + [c]];
        assert Split(t) == [[s[0]] + q'[0]] + q'[1..];
        assert q'[1..] == [];
        assert p == [[s[0]] + p'[0]] + p'[1..];
        assert p'[1..] == [];
        assert [s[0]] + (p'[0] + [c]) == ([s[0]] + p'[0]) + [c];
      } else {
        assert Split(t) == [[s[0]] + q'[0]] + q'[1..];
        assert q'[0] == p'[0];
        assert p'[..n - 1][1..] == p'[1..n - 1];
        assert q'[1..] == p'[..n - 1][1..] + [p'[n - 1] + [c]];
        assert p == [[s[0]] + p'[0]] + p'[1..];
        assert |p| == n;
        assert p[..n - 1] == [[s[0]] + p'[0]] + p'[1..n - 1];
        assert p[n - 1] == p'[n - 1];
      }
    }
  }

  /** Joining one more empty piece appends one newline. */
  lemma {:induction false} JoinSnocEmpty(xs: seq<string>)
    requires |xs| >= 1
    ensures Join(xs + [""]) == Join(xs) + "\n"
    decreases |xs|
  {
    if |xs| == 1 {
      assert (xs + [""])[1..] == [""];
    } else {
      assert (xs + [""])[1..] == xs[1..] + [""];
      JoinSnocEmpty(xs[1..]);
    }
  }

  // ----- Line properties under trimming -----

  /** A property of lines that removing a leading white-space character
      cannot break holds for every line of `TrimLeft(s)` when it holds for
      every line of `s`. */
  lemma {:induction false} TrimLeftKeepsLines(s: string, P: string -> bool)
    requires forall c, r | IsSpace(c) && P([c] + r) :: P(r)
    requires forall j | 0 <= j < |Split(s)| :: P(Split(s)[j])
    ensures forall j | 0 <= j < |Split(TrimLeft(s))| :: P(Split(TrimLeft(s))[j])
    decreases |s|
  {
    if |s| > 0 && IsSpace(s[0]) {
      var rest := Split(s[1..]);
      if s[0] == '\n' {
        assert Split(s) == [""] + rest;
        assert forall j | 0 <= j < |rest| :: rest[j] == Split(s)[j + 1];
      } else {
        assert Split(s) == [[s[0]] + rest[0]] + rest[1..];
        assert P([s[0]] + rest[0]) by {
          assert Split(s)[0] == [s[0]] + rest[0];
        }
        assert forall j | 1 <= j < |rest| :: rest[j] == Split(s)[j];
      }
      TrimLeftKeepsLines(s[1..], P);
    }
  }

  /** The same for a trailing white-space character and `TrimRight`. */
  lemma {:induction false} TrimRightKeepsLines(s: string, P: string -> bool)
    requires forall r, c | IsSpace(c) && P(r + [c]) :: P(r)
    requires forall j | 0 <= j < |Split(s)| :: P(Split(s)[j])
    ensures forall j | 0 <= j < |Split(TrimRight(s))| :: P(Split(TrimRight(s))[j])
    decreases |s|
  {
    if |s| > 0 && IsSpace(s[|s| - 1]) {
      var n := |s| - 1;
      var s' := s[..n];
      var c := s[n];
      assert s == s' + [c];
      var p := Split(s');
      if c == '\n' {
        SplitSnocNewline(s');
        assert s' + "\n" == s;
        assert forall j | 0 <= j < |p| :: p[j] == Split(s)[j];
      } else {
        SplitSnocChar(s', c);
        assert Split(s) == p[..|p| - 1] + [p[|p| - 1] + [c]];
        assert forall j | 0 <= j < |p| - 1 :: p[j] == Split(s)[j];
        assert P(p[|p| - 1] + [c]) by {
          assert Split(s)[|p| - 1] == p[|p| - 1] + [c];
        }
      }
      TrimRightKeepsLines(s', P);
    }
  }

  // ----- Decimal rendering -----

  /** Distinct numbers have distinct decimal renderings. */
  lemma {:induction false} DecInjective(a: nat, b: nat)
    requires Dec(a) == Dec(b)
    ensures a == b
    decreases a
  {
    if a < 10 && b < 10 {
      assert Dec(a)[0] == Digit(a);
    } else if a >= 10 && b >= 10 {
      var da := Dec(a / 10);
      var db := Dec(b / 10);
      assert Dec(a) == da + [Digit(a % 10)];
      assert Dec(b) == db + [Digit(b % 10)];
      assert Dec(a)[|Dec(a)| - 1] == Digit(a % 10);
      assert Dec(a)[..|Dec(a)| - 1] == da;
      assert Dec(b)[..|Dec(b)| - 1] == db;
      DecInjective(a / 10, b / 10);
    }
  }
}
