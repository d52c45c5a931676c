/** Taking an interface's stanzas out of /etc/network/interfaces. */
module Interfaces {
  import opened Splitting

  // ----- characters and lines

  /** White space as `str.isspace` sees it. */
  predicate IsSpace(c: char) {
    var n := c as int;
    || 9 <= n <= 13 || 28 <= n <= 32 || n == 0x85 || n == 0xA0 || n == 0x1680 || 0x2000 <= n <= 0x200A
    || n == 0x2028 || n == 0x2029 || n == 0x202F || n == 0x205F || n == 0x3000
  }

  /** Characters that end a line for `str.splitlines`. Reading the file has already turned every
      carriage return into a newline, so no line break is longer than one character. */
  predicate IsBreak(c: char) {
    var n := c as int;
    10 <= n <= 12 || 28 <= n <= 30 || n == 0x85 || n == 0x2028 || n == 0x2029
  }

  function LStrip(s: string): string {
    if s != [] && IsSpace(s[0]) then LStrip(s[1..]) else s
  }

  function Strip(s: string): string { LStrip(RStrip(s, IsSpace)) }

  /** The first word of a stripped text and what follows it. */
  function WordEnd(s: string): (r: nat)
    ensures r <= |s| && (s != [] && !IsSpace(s[0]) ==> r > 0)
  {
    if s == [] || IsSpace(s[0]) then 0 else 1 + WordEnd(s[1..])
  }

  /** `s.split()`. */
  function Words(s: string): seq<string>
    decreases |s|
  {
    if s == [] then []
    else if IsSpace(s[0]) then Words(s[1..])
    else [s[..WordEnd(s)]] + Words(s[WordEnd(s)..])
  }

  // ----- the rule for one line

  predicate IsHeader(line: string, iface: string) {
    var words := Words(Strip(line));
    words != [] && words[0] in {"auto", "allow-hotplug", "iface"} && iface in words
  }

  predicate IsMarker(line: string, marker: string) { Strip(line) == marker }

  /** A line that ends a stanza: not blank, not indented, not a bare-# comment. */
  predicate Ends(line: string) {
    var words := Words(Strip(line));
    Strip(line) != "" && line != "" && !IsSpace(line[0]) && words != [] && words[0] != "#"
  }

  datatype Target = Target(iface: string, marker: string)

  datatype Kind = Marker | Header | Ending | Inner

  function KindOf(line: string, t: Target): Kind {
    if IsMarker(line, t.marker) then Marker
    else if IsHeader(line, t.iface) then Header
    else if Ends(line) then Ending
    else Inner
  }

  function Kinds(lines: seq<string>, t: Target): seq<Kind> {
    seq(|lines|, i requires 0 <= i < |lines| => KindOf(lines[i], t))
  }

  // ----- the line loop

  /** Whether the loop is inside a stanza after the first n lines. */
  function SkippingAfter(kinds: seq<Kind>, n: nat): bool
    requires n <= |kinds|
  {
    if n == 0 then false
    else
      match kinds[n - 1]
      case Header => true
      case Ending => false
      case _ => SkippingAfter(kinds, n - 1)
  }

  /** Reference: a line is part of a stanza when a header for the interface is at or above it and no line after
      that header, down to it, is of the kind that ends a stanza. */
  ghost predicate InStanza(kinds: seq<Kind>, i: nat)
    requires i < |kinds|
  {
    exists h :: 0 <= h <= i && kinds[h].Header? && forall m :: h < m <= i ==> !kinds[m].Ending?
  }

  ghost predicate Dropped(kinds: seq<Kind>, i: nat)
    requires i < |kinds|
  {
    kinds[i].Marker? || InStanza(kinds, i)
  }

  /** The loop's flag after a line says whether that line is part of a stanza. */
  lemma {:induction false} SkippingIffInStanza(kinds: seq<Kind>, i: nat)
    requires i < |kinds|
    ensures SkippingAfter(kinds, i + 1) <==> InStanza(kinds, i)
  {
    if i > 0 && (kinds[i].Marker? || kinds[i].Inner?) {
      SkippingIffInStanza(kinds, i - 1);
    }
  }

  /** The lines of the first n that are not dropped, in order. */
  ghost function KeptByKind(lines: seq<string>, kinds: seq<Kind>, n: nat): seq<string>
    requires n <= |lines| == |kinds|
  {
    if n == 0 then []
    else if Dropped(kinds, n - 1) then KeptByKind(lines, kinds, n - 1)
    else KeptByKind(lines, kinds, n - 1) + [lines[n - 1]]
  }

  ghost function Kept(lines: seq<string>, n: nat, t: Target): seq<string>
    requires n <= |lines|
  {
    KeptByKind(lines, Kinds(lines, t), n)
  }

  /** The loop of `_strip_iface_stanzas`, with the kind of each line given. */
  method KeepLines(lines: seq<string>, kinds: seq<Kind>) returns (keep: seq<string>)
    requires |kinds| == |lines|
    ensures keep == KeptByKind(lines, kinds, |lines|)
  {
    keep := [];
    var skipping := false;
    for i := 0 to |lines|
      invariant keep == KeptByKind(lines, kinds, i)
      invariant skipping == SkippingAfter(kinds, i)
    {
      SkippingIffInStanza(kinds, i);
      if kinds[i].Marker? { continue; }
      if kinds[i].Header? {
        skipping := true;
        continue;
      }
      if skipping {
        if kinds[i].Ending? {
          skipping := false;
        } else {
          continue;
        }
      }
      keep := keep + [lines[i]];
    }
  }

  // ----- the rewritten text

  predicate OccursAt(text: string, part: string, i: nat) {
    i + |part| <= |text| && text[i..i + |part|] == part
  }

  /** `part in text`. */
  predicate Contains(text: string, part: string) {
    exists i | 0 <= i <= |text| :: OccursAt(text, part, i)
  }

  ghost function KeptText(text: string, t: Target): string {
    Join(Kept(Lines(text, IsBreak), |Lines(text, IsBreak)|, t))
  }

  /** What is written before the marker is looked for. */
  ghost function Base(text: string, t: Target): string {
    RStrip(KeptText(text, t), IsSpace) + ['\n']
  }

  ghost function Stripped(text: string, t: Target): string {
    if Contains(Base(text, t), t.marker) then Base(text, t) else Base(text, t) + (t.marker + ['\n'])
  }

  /** `_strip_iface_stanzas`. */
  method StripStanzas(text: string, t: Target) returns (rebuilt: string)
    ensures rebuilt == Stripped(text, t)
  {
    var lines := Lines(text, IsBreak);
    var keep := KeepLines(lines, Kinds(lines, t));
    rebuilt := RStrip(Join(keep), IsSpace) + ['\n'];
    if !Contains(rebuilt, t.marker) {
      rebuilt := rebuilt + (t.marker + ['\n']);
    }
  }

  /** Neither a header for the interface nor its marker. */
  predicate Foreign(line: string, t: Target) {
    !IsHeader(line, t.iface) && !IsMarker(line, t.marker)
  }

  function IsForeign(t: Target): string -> bool {
    (line: string) => Foreign(line, t)
  }

  lemma KindForeign(line: string, t: Target)
    ensures IsForeign(t)(line) <==> KindOf(line, t).Ending? || KindOf(line, t).Inner?
  {
  }

  /** Nothing that is kept is a header for the interface or the marker. */
  lemma {:induction false} KeptForeign(lines: seq<string>, n: nat, t: Target)
    requires n <= |lines|
    ensures All(Kept(lines, n, t), IsForeign(t))
  {
    if n > 0 {
      KeptForeign(lines, n - 1, t);
      KindForeign(lines[n - 1], t);
      assert Kinds(lines, t)[n - 1] == KindOf(lines[n - 1], t);
      AllSnoc(Kept(lines, n - 1, t), lines[n - 1], IsForeign(t));
    }
  }

  /** Without headers and markers nothing is dropped. */
  lemma {:induction false} ForeignKept(lines: seq<string>, n: nat, t: Target)
    requires n <= |lines| && All(lines[..n], IsForeign(t))
    ensures Kept(lines, n, t) == lines[..n]
  {
    if n > 0 {
      assert lines[..n] == lines[..n - 1] + [lines[n - 1]];
      AllSnoc(lines[..n - 1], lines[n - 1], IsForeign(t));
      ForeignKept(lines, n - 1, t);
      ForeignKinds(lines, n, t);
    }
  }

  lemma ForeignKinds(lines: seq<string>, n: nat, t: Target)
    requires n <= |lines| && All(lines[..n], IsForeign(t))
    ensures forall i :: 0 <= i < n ==> !Kinds(lines, t)[i].Header? && !Kinds(lines, t)[i].Marker?
  {
    forall i | 0 <= i < n ensures !Kinds(lines, t)[i].Header? && !Kinds(lines, t)[i].Marker? {
      assert lines[..n][i] == lines[i];
      KindForeign(lines[i], t);
    }
  }

  lemma {:induction false} KeptAreLines(lines: seq<string>, n: nat, t: Target)
    requires n <= |lines| && AreLines(lines[..n], IsBreak)
    ensures AreLines(Kept(lines, n, t), IsBreak)
    ensures AllComplete(lines[..n], IsBreak) ==> AllComplete(Kept(lines, n, t), IsBreak)
  {
    if n > 0 {
      assert Init(lines[..n]) == lines[..n - 1] && Last(lines[..n]) == lines[n - 1];
      KeptAreLines(lines, n - 1, t);
      if !Dropped(Kinds(lines, t), n - 1) {
        AreLinesSnoc(Kept(lines, n - 1, t), lines[n - 1], IsBreak);
        assert Last(Kept(lines, n, t)) == lines[n - 1];
      }
    }
  }

  // ----- white space at the end of a line does not decide its kind

  lemma StripSpace(line: string, c: char)
    requires IsSpace(c)
    ensures Strip(line + [c]) == Strip(line)
  {
    assert Init(line + [c]) == line;
  }

  lemma ForeignIgnoresSpace(t: Target)
    ensures IgnoresSpace(IsForeign(t), IsSpace)
  {
    forall line: string, c: char | IsSpace(c) ensures IsForeign(t)(line + [c]) <==> IsForeign(t)(line) {
      StripSpace(line, c);
    }
  }

  lemma NewlineForeign(t: Target)
    requires t.marker != ""
    ensures IsForeign(t)(['\n'])
  {
    StripSpace("", '\n');
    assert "" + ['\n'] == ['\n'];
    assert Strip("") == "";
  }

  // ----- applying the function twice

  /** A marker that is one trimmed, non-empty line. */
  ghost predicate ProperMarker(marker: string) {
    marker != "" && Strip(marker) == marker && forall i :: 0 <= i < |marker| ==> !IsBreak(marker[i])
  }

  lemma MarkerLine(t: Target)
    requires ProperMarker(t.marker)
    ensures IsLine(t.marker + ['\n'], IsBreak) && KindOf(t.marker + ['\n'], t).Marker?
  {
    StripSpace(t.marker, '\n');
  }

  /** A second pass keeps all of a text without headers and markers. */
  lemma SecondPassPlain(base: string, t: Target)
    requires All(Lines(base, IsBreak), IsForeign(t))
    ensures KeptText(base, t) == base
  {
    var lines := Lines(base, IsBreak);
    assert lines[..|lines|] == lines;
    ForeignKept(lines, |lines|, t);
    JoinLines(base, IsBreak);
  }

  lemma KeptDropsMarker(lines: seq<string>, last: string, t: Target)
    requires All(lines, IsForeign(t)) && KindOf(last, t).Marker?
    ensures Kept(lines + [last], |lines| + 1, t) == lines
  {
    var all := lines + [last];
    assert all[..|lines|] == lines;
    ForeignKept(all, |lines|, t);
    assert Kinds(all, t)[|lines|] == KindOf(last, t);
  }

  lemma MarkerLineDropped(text: string, lines: seq<string>, last: string, t: Target)
    requires Lines(text, IsBreak) == lines + [last] && All(lines, IsForeign(t)) && KindOf(last, t).Marker?
    ensures KeptText(text, t) == Join(lines)
  {
    KeptDropsMarker(lines, last, t);
  }

  /** A line added after a complete text is one more line. */
  lemma {:induction false} AddedLine(base: string, line: string)
    requires base != [] && IsBreak(Last(base)) && IsLine(line, IsBreak)
    ensures Lines(base + line, IsBreak) == Lines(base, IsBreak) + [line]
  {
    AddLine(base, line, IsBreak);
  }

  /** A marker line at the end of a complete text is dropped by the next pass. */
  lemma {:induction false} SecondPassMarked(base: string, t: Target)
    requires base != [] && IsBreak(Last(base)) && All(Lines(base, IsBreak), IsForeign(t)) && ProperMarker(t.marker)
    ensures KeptText(base + (t.marker + ['\n']), t) == base
  {
    var line := t.marker + ['\n'];
    MarkerLine(t);
    AddedLine(base, line);
    MarkerLineDropped(base + line, Lines(base, IsBreak), line, t);
    JoinLines(base, IsBreak);
  }

  /** What is written before the marker has no header and no marker among its lines. */
  lemma {:induction false} BaseForeign(text: string, t: Target)
    requires t.marker != ""
    ensures All(Lines(Base(text, t), IsBreak), IsForeign(t))
  {
    var lines := Lines(text, IsBreak);
    LinesWellFormed(text, IsBreak);
    assert lines[..|lines|] == lines;
    KeptAreLines(lines, |lines|, t);
    KeptForeign(lines, |lines|, t);
    SplitJoin(Kept(lines, |lines|, t), IsBreak);
    ForeignIgnoresSpace(t);
    NewlineForeign(t);
    AllTrimmed(KeptText(text, t), '\n', IsBreak, IsSpace, IsForeign(t));
  }

  /** Rewriting a file that has already been rewritten changes nothing, for every text. */
  lemma StrippingIdempotent(text: string, t: Target)
    requires ProperMarker(t.marker)
    ensures Stripped(Stripped(text, t), t) == Stripped(text, t)
  {
    var base := Base(text, t);
    assert Last(base) == '\n';
    BaseForeign(text, t);
    SecondPassPlain(base, t);
    SecondPassMarked(base, t);
    RStripAgain(KeptText(text, t), '\n', IsSpace);
  }

  /** No line of the rewritten file is a header for the interface. */
  lemma NoHeaderLeft(text: string, t: Target)
    requires ProperMarker(t.marker) && !IsHeader(t.marker, t.iface)
    ensures All(Lines(Stripped(text, t), IsBreak), (line: string) => !IsHeader(line, t.iface))
  {
    var plain := (line: string) => !IsHeader(line, t.iface);
    BaseForeign(text, t);
    AllWeaken(Lines(Base(text, t), IsBreak), IsForeign(t), plain);
    MarkerLine(t);
    StripSpace(t.marker, '\n');
    assert Last(Base(text, t)) == '\n';
    AddLine(Base(text, t), t.marker + ['\n'], IsBreak);
    AllSnoc(Lines(Base(text, t), IsBreak), t.marker + ['\n'], plain);
  }

  // ----- the marker of a valid interface name

  predicate IsNameChar(c: char) {
    'a' <= c <= 'z' || 'A' <= c <= 'Z' || '0' <= c <= '9' || c in {'.', '_', ':', '-'}
  }

  /** IFACE_RE: a letter followed by at most fifteen letters, digits, dots, underscores, colons or dashes. */
  predicate ValidName(iface: string) {
    && 1 <= |iface| <= 16 && ('a' <= iface[0] <= 'z' || 'A' <= iface[0] <= 'Z')
    && forall i :: 0 <= i < |iface| ==> IsNameChar(iface[i])
  }

  const MARKER_HEAD := "# WireScope manages "
  const MARKER_MIDDLE := " in /etc/network/interfaces.d/wirescope-"

  function MarkerFor(iface: string): string {
    MARKER_HEAD + iface + MARKER_MIDDLE + iface
  }

  predicate NoBreak(c: char) { !IsBreak(c) }

  lemma NoBreaks(a: string, b: string)
    requires All(a, NoBreak) && All(b, NoBreak)
    ensures All(a + b, NoBreak)
  {
  }

  lemma FixedTextNoBreaks()
    ensures All(MARKER_HEAD, NoBreak) && All(MARKER_MIDDLE, NoBreak)
  {
  }

  lemma NameNoBreaks(iface: string)
    requires ValidName(iface)
    ensures All(iface, NoBreak) && !IsSpace(Last(iface))
  {
    assert IsNameChar(Last(iface));
    assert forall i :: 0 <= i < |iface| ==> IsNameChar(iface[i]);
  }

  lemma TrimmedStrip(s: string)
    requires s != [] && !IsSpace(s[0]) && !IsSpace(Last(s))
    ensures Strip(s) == s
  {
  }

  lemma FirstWord(s: string)
    requires |s| > 1 && s[0] == '#' && s[1] == ' ' && Strip(s) == s
    ensures Words(Strip(s)) != [] && Words(Strip(s))[0] == "#"
  {
    assert WordEnd(s[1..]) == 0;
    assert s[..1] == "#";
  }

  lemma {:induction false} MarkerNoBreaks(iface: string)
    requires ValidName(iface)
    ensures All(MarkerFor(iface), NoBreak)
  {
    FixedTextNoBreaks();
    NameNoBreaks(iface);
    NoBreaks(MARKER_HEAD, iface);
    NoBreaks(MARKER_HEAD + iface, MARKER_MIDDLE);
    NoBreaks(MARKER_HEAD + iface + MARKER_MIDDLE, iface);
  }

  lemma MarkerEnds(iface: string)
    requires iface != []
    ensures var m := MarkerFor(iface); |m| > 1 && m[0] == '#' && m[1] == ' ' && Last(m) == Last(iface)
  {
    assert MARKER_HEAD[0] == '#' && MARKER_HEAD[1] == ' ';
  }

  /** The marker written for a valid interface name is a proper marker and not a header. */
  lemma {:induction false} MarkerIsProper(iface: string)
    requires ValidName(iface)
    ensures ProperMarker(MarkerFor(iface)) && !IsHeader(MarkerFor(iface), iface)
  {
    MarkerNoBreaks(iface);
    MarkerEnds(iface);
    NameNoBreaks(iface);
    MarkerParts(MarkerFor(iface), iface);
  }

  lemma MarkerParts(m: string, iface: string)
    requires |m| > 1 && m[0] == '#' && m[1] == ' ' && !IsSpace(Last(m)) && All(m, NoBreak)
    ensures ProperMarker(m) && !IsHeader(m, iface)
  {
    TrimmedStrip(m);
    FirstWord(m);
    assert forall i :: 0 <= i < |m| ==> NoBreak(m[i]);
  }

  // ----- the rule for one line, spelled out

  /** The ASCII characters that are white space, and those that end a line. */
  lemma AsciiSpace(c: char)
    requires c < 128 as char
    ensures IsSpace(c) <==> c in {' ', '\t', '\n', '\r', 11 as char, 12 as char, 28 as char, 29 as char, 30 as char, 31 as char}
    ensures IsBreak(c) <==> c in {'\n', 11 as char, 12 as char, 28 as char, 29 as char, 30 as char}
  {
  }

  /** And the others. */
  lemma WideSpace(c: char)
    requires c >= 128 as char
    ensures IsBreak(c) <==> c in {0x85 as char, 0x2028 as char, 0x2029 as char}
    ensures IsSpace(c) <==>
              || IsBreak(c)
              || c in {0xA0 as char, 0x1680 as char, 0x202F as char, 0x205F as char, 0x3000 as char}
              || c in {0x2000 as char, 0x2001 as char, 0x2002 as char, 0x2003 as char, 0x2004 as char, 0x2005 as char,
                       0x2006 as char, 0x2007 as char, 0x2008 as char, 0x2009 as char, 0x200A as char}
  {
  }

  const LOWER := "abcdefghijklmnopqrstuvwxyz"
  const UPPER := "ABCDEFGHIJKLMNOPQRSTUVWXYZ"
  const DIGITS := "0123456789"

  /** A valid name has one to sixteen characters: a letter, then letters, digits, dots, underscores, colons and dashes. */
  lemma {:induction false} ValidNameMeans(iface: string)
    ensures ValidName(iface) <==>
              && 1 <= |iface| <= 16 && (iface[0] in LOWER || iface[0] in UPPER)
              && forall i :: 0 <= i < |iface| ==> iface[i] in LOWER || iface[i] in UPPER || iface[i] in DIGITS || iface[i] in "._:-"
  {
    forall c: char ensures c in LOWER <==> 'a' <= c <= 'z' { RowOfCharacters(LOWER, 'a', c); }
    forall c: char ensures c in UPPER <==> 'A' <= c <= 'Z' { RowOfCharacters(UPPER, 'A', c); }
    forall c: char ensures c in DIGITS <==> '0' <= c <= '9' { RowOfCharacters(DIGITS, '0', c); }
    forall i | 0 <= i < |iface| ensures IsNameChar(iface[i]) <==>
      iface[i] in LOWER || iface[i] in UPPER || iface[i] in DIGITS || iface[i] in "._:-" {}
  }

  /** Consecutive characters from the first on. */
  lemma RowOfCharacters(row: string, first: char, c: char)
    requires forall i :: 0 <= i < |row| ==> row[i] as int == first as int + i
    ensures c in row <==> first as int <= c as int < first as int + |row|
  {
    if first as int <= c as int < first as int + |row| { assert row[c as int - first as int] == c; }
  }

  /** The comment that stands in for the stanzas of an interface. */
  lemma MarkerText(iface: string)
    ensures MarkerFor(iface) == "# WireScope manages " + iface + " in /etc/network/interfaces.d/wirescope-" + iface
  {
  }

  /** One text contains another when it is the other with something before and something after it. */
  lemma ContainsMeans(text: string, part: string)
    ensures Contains(text, part) <==> exists before, after :: text == before + part + after
  {
    if before, after :| text == before + part + after {
      assert OccursAt(text, part, |before|);
    }
    if Contains(text, part) {
      var i :| 0 <= i <= |text| && OccursAt(text, part, i);
      assert text == text[..i] + part + text[i + |part|..];
    }
  }

  ghost predicate AllSpaces(s: string) {
    forall c :: c in s ==> IsSpace(c)
  }

  ghost predicate NoSpaces(s: string) {
    forall c :: c in s ==> !IsSpace(c)
  }

  /** The words of a text: white space between them does not matter, a word ends at the next white space. */
  lemma WordsMean(word: string, c: char, rest: string)
    ensures IsSpace(c) ==> Words([c] + rest) == Words(rest)
    ensures word != "" && NoSpaces(word) && IsSpace(c) ==> Words(word + [c] + rest) == [word] + Words(rest)
    ensures word != "" && NoSpaces(word) ==> Words(word) == [word]
    ensures Words("") == []
  {
    assert ([c] + rest)[1..] == rest;
    if word != "" && NoSpaces(word) {
      WordEndAt(word, []);
      assert word + [] == word;
      if IsSpace(c) {
        WordEndAt(word, [c] + rest);
        assert word + [c] + rest == word + ([c] + rest);
        assert (word + ([c] + rest))[|word|..] == [c] + rest;
      }
    }
  }

  lemma {:induction false} WordEndAt(word: string, rest: string)
    requires NoSpaces(word) && (rest == [] || IsSpace(rest[0]))
    ensures WordEnd(word + rest) == |word|
  {
    if word == [] {
      assert word + rest == rest;
    } else {
      WordEndAt(word[1..], rest);
      assert (word + rest)[1..] == word[1..] + rest;
    }
  }

  /** Stripping takes white space off both ends and nothing else. */
  lemma StripMeans(s: string)
    ensures exists before, after :: s == before + Strip(s) + after && AllSpaces(before) && AllSpaces(after)
    ensures Strip(s) != "" ==> !IsSpace(Strip(s)[0]) && !IsSpace(Last(Strip(s)))
  {
    var right := RStrip(s, IsSpace);
    var after := RStripRest(s);
    var before := LStripRest(right);
    assert s == before + Strip(s) + after;
  }

  lemma {:induction false} RStripRest(s: string) returns (after: string)
    ensures s == RStrip(s, IsSpace) + after && AllSpaces(after)
  {
    if s != [] && IsSpace(Last(s)) {
      var rest := RStripRest(Init(s));
      after := rest + [Last(s)];
      assert s == Init(s) + [Last(s)];
    } else {
      after := [];
    }
  }

  lemma {:induction false} LStripRest(s: string) returns (before: string)
    ensures s == before + LStrip(s) && AllSpaces(before)
    ensures LStrip(s) != "" ==> !IsSpace(LStrip(s)[0]) && Last(LStrip(s)) == Last(s)
  {
    if s != [] && IsSpace(s[0]) {
      var rest := LStripRest(s[1..]);
      before := [s[0]] + rest;
    } else {
      before := [];
    }
  }

  /** A header for the interface: "auto", "allow-hotplug" or "iface", with the interface among its words. */
  ghost predicate NamesInterface(line: string, iface: string) {
    var words := Words(Strip(line));
    && words != [] && (words[0] == "auto" || words[0] == "allow-hotplug" || words[0] == "iface")
    && exists i :: 0 <= i < |words| && words[i] == iface
  }

  /** A line that ends the stanza above it: it starts in the first column, with something else than a lone hash. */
  ghost predicate StartsAnew(line: string) {
    line != "" && !IsSpace(line[0]) && Words(Strip(line)) != [] && Words(Strip(line))[0] != "#"
  }

  /** A header for the interface that is not the marker. */
  ghost predicate Opens(line: string, t: Target) {
    NamesInterface(line, t.iface) && Strip(line) != t.marker
  }

  /** A line that does not end a stanza: another header for the interface, the marker, or one that does not start anew. */
  ghost predicate GoesOn(line: string, t: Target) {
    NamesInterface(line, t.iface) || Strip(line) == t.marker || !StartsAnew(line)
  }

  /** Line by line: the marker goes; so does a header for the interface, and every line after one until a line that starts
      anew without being a header for it or the marker. */
  lemma LineRule(lines: seq<string>, t: Target, i: nat)
    requires i < |lines|
    ensures Dropped(Kinds(lines, t), i) <==>
              || Strip(lines[i]) == t.marker
              || exists h: nat :: h <= i && Opens(lines[h], t) && forall m :: h < m <= i ==> GoesOn(lines[m], t)
  {
    var kinds := Kinds(lines, t);
    forall m: nat | m < |lines|
      ensures kinds[m].Marker? <==> Strip(lines[m]) == t.marker
      ensures kinds[m].Header? <==> Opens(lines[m], t)
      ensures kinds[m].Ending? <==> !GoesOn(lines[m], t)
    {
      LineKinds(lines[m], t);
    }
    StanzaIff(kinds, i, (m: int) => 0 <= m < |lines| && Opens(lines[m], t), (m: int) => 0 <= m < |lines| && GoesOn(lines[m], t));
  }

  /** The stanza rule, for any description of headers and of lines that end nothing. */
  lemma StanzaIff(kinds: seq<Kind>, i: nat, opens: int -> bool, goesOn: int -> bool)
    requires i < |kinds|
    requires forall m :: 0 <= m < |kinds| ==> (kinds[m].Header? <==> opens(m)) && (kinds[m].Ending? <==> !goesOn(m))
    ensures InStanza(kinds, i) <==> exists h: nat :: h <= i && opens(h) && forall m :: h < m <= i ==> goesOn(m)
  {
  }

  lemma LineKinds(line: string, t: Target)
    ensures KindOf(line, t).Marker? <==> Strip(line) == t.marker
    ensures KindOf(line, t).Header? <==> Opens(line, t)
    ensures KindOf(line, t).Ending? <==> !GoesOn(line, t)
  {
  }

  /** The marker stands in every rewritten file; nothing else is added to what is kept but a final newline. */
  lemma MarkerStands(text: string, t: Target)
    ensures Contains(Stripped(text, t), t.marker)
    ensures RStrip(KeptText(text, t), IsSpace) + ['\n'] <= Stripped(text, t)
  {
    var base := Base(text, t);
    if !Contains(base, t.marker) {
      assert OccursAt(base + (t.marker + ['\n']), t.marker, |base|);
    }
  }
}
