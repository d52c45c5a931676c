/** Splitting a text into lines that keep their breaks, joining these lines again, and trimming the space at its end. */
module Splitting {
  import opened Lists

  function Last<T>(s: seq<T>): T
    requires s != []
  {
    s[|s| - 1]
  }

  function Init<T>(s: seq<T>): seq<T>
    requires s != []
  {
    s[..|s| - 1]
  }

  /** `text.splitlines(keepends=True)`, for breaks of one character. */
  function Lines<T>(text: seq<T>, isBreak: T -> bool): (r: seq<seq<T>>)
    ensures text == [] <==> r == []
  {
    if text == [] then []
    else
      var before, c := Init(text), Last(text);
      if before == [] || isBreak(Last(before)) then Lines(before, isBreak) + [[c]]
      else Init(Lines(before, isBreak)) + [Last(Lines(before, isBreak)) + [c]]
  }

  function Join<T>(lines: seq<seq<T>>): seq<T> {
    if lines == [] then [] else Join(Init(lines)) + Last(lines)
  }

  /** `text.rstrip()`. */
  function RStrip<T>(s: seq<T>, isSpace: T -> bool): (r: seq<T>)
    ensures r <= s && (r != [] ==> !isSpace(Last(r)))
  {
    if s != [] && isSpace(Last(s)) then RStrip(Init(s), isSpace) else s
  }

  /** Adding one element extends the last line, or starts a new one after a break. */
  lemma LinesSnoc<T>(text: seq<T>, c: T, isBreak: T -> bool)
    ensures Lines(text + [c], isBreak)
         == if text == [] || isBreak(Last(text)) then Lines(text, isBreak) + [[c]]
            else Init(Lines(text, isBreak)) + [Last(Lines(text, isBreak)) + [c]]
  {
    assert Init(text + [c]) == text && Last(text + [c]) == c;
  }

  lemma {:induction false} JoinLines<T>(text: seq<T>, isBreak: T -> bool)
    ensures Join(Lines(text, isBreak)) == text
  {
    if text != [] {
      var before, c := Init(text), Last(text);
      var lines := Lines(before, isBreak);
      JoinLines(before, isBreak);
      assert text == before + [c];
      if before == [] || isBreak(Last(before)) {
        InitLastSnoc(lines, [c]);
      } else {
        InitLastSnoc(Init(lines), Last(lines) + [c]);
        ConcatAssociative(Join(Init(lines)), Last(lines), [c]);
      }
    }
  }

  // ----- well-formed lines

  /** Not empty, with a break at most at the end. */
  ghost predicate IsLine<T>(line: seq<T>, isBreak: T -> bool) {
    line != [] && forall i :: 0 <= i < |line| - 1 ==> !isBreak(line[i])
  }

  /** Lines of which only the last may lack its break. */
  ghost predicate AreLines<T>(lines: seq<seq<T>>, isBreak: T -> bool) {
    lines == [] ||
      (AreLines(Init(lines), isBreak) && AllComplete(Init(lines), isBreak) && IsLine(Last(lines), isBreak))
  }

  ghost predicate AllComplete<T>(lines: seq<seq<T>>, isBreak: T -> bool) {
    lines == [] || (Last(lines) != [] && isBreak(Last(Last(lines))))
  }

  lemma LastOfLines<T>(text: seq<T>, isBreak: T -> bool)
    requires text != []
    ensures Last(Lines(text, isBreak)) != [] && Last(Last(Lines(text, isBreak))) == Last(text)
  {
  }

  lemma ExtendLine<T>(line: seq<T>, c: T, isBreak: T -> bool)
    requires IsLine(line, isBreak) && !isBreak(Last(line))
    ensures IsLine(line + [c], isBreak)
  {
  }

  lemma AreLinesSnoc<T>(front: seq<seq<T>>, line: seq<T>, isBreak: T -> bool)
    requires AreLines(front, isBreak) && AllComplete(front, isBreak) && IsLine(line, isBreak)
    ensures AreLines(front + [line], isBreak)
  {
    assert Init(front + [line]) == front && Last(front + [line]) == line;
  }

  lemma {:induction false} LinesWellFormed<T>(text: seq<T>, isBreak: T -> bool)
    ensures AreLines(Lines(text, isBreak), isBreak)
  {
    if text != [] {
      var before, c := Init(text), Last(text);
      var lines := Lines(before, isBreak);
      LinesWellFormed(before, isBreak);
      if before == [] {
        AreLinesSnoc([], [c], isBreak);
      } else {
        LastOfLines(before, isBreak);
        if isBreak(Last(before)) {
          AreLinesSnoc(lines, [c], isBreak);
        } else {
          ExtendLine(Last(lines), c, isBreak);
          AreLinesSnoc(Init(lines), Last(lines) + [c], isBreak);
        }
      }
    }
  }

  lemma InitLastSnoc<T>(s: seq<T>, x: T)
    ensures Init(s + [x]) == s && Last(s + [x]) == x
  {
  }

  /** A line added after a complete text is one more line. */
  lemma {:induction false} AddLine<T>(text: seq<T>, line: seq<T>, isBreak: T -> bool)
    requires text == [] || isBreak(Last(text))
    requires IsLine(line, isBreak)
    ensures Lines(text + line, isBreak) == Lines(text, isBreak) + [line]
  {
    var front, c := Init(line), Last(line);
    assert line == front + [c];
    if front == [] {
      assert line == [c];
      LinesSnoc(text, c, isBreak);
    } else {
      AddLine(text, front, isBreak);
      InitLastSnoc(Lines(text, isBreak), front);
      assert Last(text + front) == Last(front);
      LinesSnoc(text + front, c, isBreak);
      ConcatAssociative(text, front, [c]);
    }
  }

  lemma {:induction false} SplitJoin<T>(lines: seq<seq<T>>, isBreak: T -> bool)
    requires AreLines(lines, isBreak)
    ensures Lines(Join(lines), isBreak) == lines
  {
    if lines != [] {
      var front := Init(lines);
      SplitJoin(front, isBreak);
      if front != [] { assert Last(Join(front)) == Last(Last(front)); }
      AddLine(Join(front), Last(lines), isBreak);
      assert lines == front + [Last(lines)];
    }
  }

  // ----- properties of lines that white space does not change

  ghost predicate All<T>(items: seq<T>, p: T -> bool) {
    forall i :: 0 <= i < |items| ==> p(items[i])
  }

  lemma AllSnoc<T>(items: seq<T>, x: T, p: T -> bool)
    ensures All(items + [x], p) <==> All(items, p) && p(x)
  {
    assert (items + [x])[|items|] == x;
    assert forall i :: 0 <= i < |items| ==> (items + [x])[i] == items[i];
  }

  lemma AllWeaken<T>(items: seq<T>, p: T -> bool, q: T -> bool)
    requires All(items, p) && forall x :: x in items && p(x) ==> q(x)
    ensures All(items, q)
  {
  }

  /** Trailing white space does not decide the property. */
  ghost predicate IgnoresSpace<T(!new)>(p: seq<T> -> bool, isSpace: T -> bool) {
    forall line, c {:trigger p(line + [c])} :: isSpace(c) ==> (p(line + [c]) <==> p(line))
  }

  /** Dropping one trailing white-space element keeps the property on every line; adding one after a text that
      does not end in a break keeps it too. */
  lemma AllSpace<T(!new)>(text: seq<T>, c: T, isBreak: T -> bool, isSpace: T -> bool, p: seq<T> -> bool)
    requires isSpace(c) && IgnoresSpace(p, isSpace)
    ensures All(Lines(text + [c], isBreak), p) ==> All(Lines(text, isBreak), p)
    ensures text != [] && !isBreak(Last(text)) && All(Lines(text, isBreak), p) ==> All(Lines(text + [c], isBreak), p)
  {
    var lines := Lines(text, isBreak);
    LinesSnoc(text, c, isBreak);
    if text != [] {
      if isBreak(Last(text)) {
        AllSnoc(lines, [c], p);
      } else {
        assert lines == Init(lines) + [Last(lines)];
        AllSnoc(Init(lines), Last(lines), p);
        AllSnoc(Init(lines), Last(lines) + [c], p);
      }
    }
  }

  lemma {:induction false} AllRStrip<T(!new)>(text: seq<T>, isBreak: T -> bool, isSpace: T -> bool, p: seq<T> -> bool)
    requires IgnoresSpace(p, isSpace) && All(Lines(text, isBreak), p)
    ensures All(Lines(RStrip(text, isSpace), isBreak), p)
  {
    if text != [] && isSpace(Last(text)) {
      assert text == Init(text) + [Last(text)];
      AllSpace(Init(text), Last(text), isBreak, isSpace, p);
      AllRStrip(Init(text), isBreak, isSpace, p);
    }
  }

  /** Trimming the end and adding one newline keeps the property on every line. */
  lemma AllTrimmed<T(!new)>(text: seq<T>, newline: T, isBreak: T -> bool, isSpace: T -> bool, p: seq<T> -> bool)
    requires IgnoresSpace(p, isSpace) && All(Lines(text, isBreak), p) && p([newline])
    requires isSpace(newline) && forall c :: isBreak(c) ==> isSpace(c)
    ensures All(Lines(RStrip(text, isSpace) + [newline], isBreak), p)
  {
    var r := RStrip(text, isSpace);
    AllRStrip(text, isBreak, isSpace, p);
    if r == [] {
      LinesSnoc(r, newline, isBreak);
    } else {
      AllSpace(r, newline, isBreak, isSpace, p);
    }
  }

  lemma RStripAgain<T>(text: seq<T>, newline: T, isSpace: T -> bool)
    requires isSpace(newline)
    ensures RStrip(RStrip(text, isSpace) + [newline], isSpace) == RStrip(text, isSpace)
  {
    var r := RStrip(text, isSpace);
    assert Init(r + [newline]) == r && Last(r + [newline]) == newline;
  }
}
