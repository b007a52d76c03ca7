/** Cutting text into lines as `onepass` does (exact.c:57-72). */
module Lines {
  import opened Common

  predicate EndsLine(c: char) {
    c == '\n' || c == '\0'
  }

  /** Text that stops at the end of a line, or has not begun. */
  predicate Ended(text: string) {
    text == "" || EndsLine(text[|text| - 1])
  }

  /** The lines that are ended, without their terminators. */
  function LinesOf(text: string): seq<string> {
    if text == "" then []
    else
      var front, last := text[..|text| - 1], text[|text| - 1];
      if EndsLine(last) then LinesOf(front) + [Unended(front)] else LinesOf(front)
  }

  /** What follows the last terminator. */
  function Unended(text: string): string {
    if text == "" then ""
    else
      var front, last := text[..|text| - 1], text[|text| - 1];
      if EndsLine(last) then "" else Unended(front) + [last]
  }

  lemma {:induction false} OneMore(text: string, c: char)
    ensures LinesOf(text + [c]) == if EndsLine(c) then LinesOf(text) + [Unended(text)] else LinesOf(text)
    ensures Unended(text + [c]) == if EndsLine(c) then "" else Unended(text) + [c]
  {
    assert (text + [c])[..|text|] == text;
  }

  /** The lines, each with a newline after it. */
  function Unlines(lines: seq<string>): string {
    if lines == [] then "" else Unlines(lines[..|lines| - 1]) + lines[|lines| - 1] + ['\n']
  }

  /**
   * Nothing is lost, added or reordered: the lines and the rest make up the text again, character by
   * character, but that a NUL that ended a line has become a newline. There are as many lines as there are
   * newlines and NULs, and none of them is inside a line.
   */
  lemma {:induction false} LinesRebuild(text: string)
    ensures var again := Unlines(LinesOf(text)) + Unended(text);
      && |again| == |text|
      && (forall i :: 0 <= i < |text| ==> again[i] == if text[i] == '\0' then '\n' else text[i])
    ensures |LinesOf(text)| == multiset(text)['\n'] + multiset(text)['\0']
    ensures '\n' !in Unended(text) && '\0' !in Unended(text)
    ensures forall l :: l in LinesOf(text) ==> '\n' !in l && '\0' !in l
  {
    if text != "" {
      var front, last := text[..|text| - 1], text[|text| - 1];
      LinesRebuild(front);
      assert text == front + [last];
      if EndsLine(last) {
        var ls := LinesOf(front) + [Unended(front)];
        assert ls[..|ls| - 1] == LinesOf(front);
      }
    }
  }

  /** The rest of the previous piece belongs to the first line of the next. */
  function Glue(rest: string, lines: seq<string>): seq<string> {
    if lines == [] then [] else [rest + lines[0]] + lines[1..]
  }

  lemma GlueAppend(rest: string, lines: seq<string>, last: string)
    ensures lines == [] ==> Glue(rest, lines) == []
    ensures Glue(rest, lines + [last]) == if lines == [] then [rest + last] else Glue(rest, lines) + [last]
  {
  }

  ghost predicate Appends(a: string, b: string) {
    && LinesOf(a + b) == LinesOf(a) + Glue(Unended(a), LinesOf(b))
    && Unended(a + b) == (if LinesOf(b) == [] then Unended(a) + b else Unended(b))
    && (LinesOf(b) == [] ==> Unended(b) == b)
  }

  /** The lines of two pieces of text are those of the first, and those of the second glued to its rest. */
  lemma {:induction false} LinesAppend(a: string, b: string)
    ensures Appends(a, b)
  {
    if b == "" {
      assert a + b == a;
    } else {
      hide LinesOf, Unended, Glue;
      LinesAppend(a, b[..|b| - 1]);
      LinesAppendStep(a, b[..|b| - 1], b[|b| - 1]);
      assert b == b[..|b| - 1] + [b[|b| - 1]];
    }
  }

  lemma {:induction false} LinesAppendStep(a: string, front: string, last: char)
    requires Appends(a, front)
    ensures Appends(a, front + [last])
  {
    hide LinesOf, Unended, Glue;
    assert a + (front + [last]) == (a + front) + [last];
    OneMore(a + front, last);
    OneMore(front, last);
    GlueAppend(Unended(a), LinesOf(front), Unended(front));
    if LinesOf(front) == [] {
      assert Unended(a) + (front + [last]) == (Unended(a) + front) + [last];
    }
  }

  // ----- text that arrives in pieces

  /** The lines found when every piece is cut by itself. */
  function LinesOfPieces(pieces: seq<string>): seq<string> {
    if pieces == [] then [] else LinesOf(pieces[0]) + LinesOfPieces(pieces[1..])
  }

  /** No line is cut in two: a piece that ends inside a line is followed by no terminator at all. */
  ghost predicate Uncut(pieces: seq<string>) {
    pieces != [] ==>
      && (Unended(pieces[0]) == "" || LinesOf(Flatten(pieces[1..])) == [])
      && Uncut(pieces[1..])
  }

  /** Cutting piece by piece finds as many lines, none of them longer. */
  ghost predicate Shortened(short: seq<string>, long: seq<string>) {
    |short| == |long| && forall i :: 0 <= i < |short| ==> |short[i]| <= |long[i]|
  }

  lemma {:induction false} PiecesShorten(pieces: seq<string>)
    ensures Shortened(LinesOfPieces(pieces), LinesOf(Flatten(pieces)))
  {
    if pieces != [] {
      PiecesShorten(pieces[1..]);
      LinesAppend(pieces[0], Flatten(pieces[1..]));
      hide LinesOf, Unended;
      GlueShortens(LinesOf(pieces[0]), LinesOfPieces(pieces[1..]), Unended(pieces[0]), LinesOf(Flatten(pieces[1..])));
    }
  }

  lemma GlueShortens(before: seq<string>, short: seq<string>, rest: string, long: seq<string>)
    requires Shortened(short, long)
    ensures Shortened(before + short, before + Glue(rest, long))
  {
  }

  /** Cutting piece by piece gives the lines of the whole text exactly when no line is cut in two. */
  lemma {:induction false} PiecesIff(pieces: seq<string>)
    ensures LinesOfPieces(pieces) == LinesOf(Flatten(pieces)) <==> Uncut(pieces)
  {
    if pieces != [] {
      var a, more := pieces[0], pieces[1..];
      var b := Flatten(more);
      PiecesIff(more);
      PiecesShorten(more);
      LinesAppend(a, b);
      if LinesOfPieces(pieces) == LinesOf(Flatten(pieces)) {
        SamePrefix(LinesOf(a), LinesOfPieces(more), Glue(Unended(a), LinesOf(b)));
        if LinesOf(b) != [] {
          assert LinesOfPieces(more)[0] == Unended(a) + LinesOf(b)[0];
          assert Unended(a) == "";
        }
        GlueNothing(LinesOf(b));
      } else if Unended(a) == "" {
        GlueNothing(LinesOf(b));
      }
    }
  }

  lemma {:induction false} GlueNothing(lines: seq<string>)
    ensures Glue("", lines) == lines
  {
    if lines != [] {
      assert "" + lines[0] == lines[0];
    }
  }

  lemma {:induction false} SamePrefix(p: seq<string>, x: seq<string>, y: seq<string>)
    requires p + x == p + y
    ensures x == y
  {
    assert x == (p + x)[|p|..] && y == (p + y)[|p|..];
  }

  /** In particular it does when every piece is empty or ends at a line end. */
  lemma {:induction false} WholeLines(pieces: seq<string>)
    requires forall i :: 0 <= i < |pieces| ==> Ended(pieces[i])
    ensures LinesOfPieces(pieces) == LinesOf(Flatten(pieces))
  {
    WholeIsUncut(pieces);
    PiecesIff(pieces);
  }

  lemma {:induction false} WholeIsUncut(pieces: seq<string>)
    requires forall i :: 0 <= i < |pieces| ==> Ended(pieces[i])
    ensures Uncut(pieces)
  {
    if pieces != [] {
      WholeIsUncut(pieces[1..]);
    }
  }

  lemma {:induction false} OpenText(text: string)
    requires '\n' !in text && '\0' !in text
    ensures LinesOf(text) == [] && Unended(text) == text
  {
    if text != "" {
      OpenText(text[..|text| - 1]);
    }
  }

  /** Whatever contains neither a newline nor a NUL is a line as soon as one of them follows. */
  lemma {:induction false} OneLine(line: string, end: char)
    requires '\n' !in line && '\0' !in line && (end == '\n' || end == '\0')
    ensures LinesOf(line + [end]) == [line]
  {
    OpenText(line);
    OneMore(line, end);
  }

  /** A line split over two reads: neither half is the line, and the second is taken for one. */
  lemma {:induction false} CutLine(a: string, b: string)
    requires a != "" && '\n' !in a + b && '\0' !in a + b
    ensures LinesOf(a + b + ['\n']) == [a + b]
    ensures LinesOf(a) + LinesOf(b + ['\n']) == [b] && b != a + b
  {
    assert forall c :: c in a || c in b ==> c in a + b;
    hide LinesOf, Unended;
    OpenText(a);
    OneLine(a + b, '\n');
    OneLine(b, '\n');
    assert |b| < |a + b|;
  }

  // ----- C strings

  /** The characters from `start` up to the first NUL. */
  function CString(s: seq<char>, start: nat): string
    requires start <= |s|
    decreases |s| - start
  {
    if start == |s| || s[start] == '\0' then "" else [s[start]] + CString(s, start + 1)
  }

  lemma {:induction false} CStringIs(s: seq<char>, start: nat, end: nat)
    requires start <= end < |s| && s[end] == '\0' && '\0' !in s[start..end]
    ensures CString(s, start) == s[start..end]
    decreases end - start
  {
    if start < end {
      assert s[start] == s[start..end][0];
      assert s[start..end] == [s[start]] + s[start + 1..end];
      CStringIs(s, start + 1, end);
    }
  }
}
