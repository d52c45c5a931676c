/** Escaping search text for the LIKE operator, and what the escaped pattern matches, with and without case folding. */
module Like {

  /** `text.replace(c, substitute)` for a single character c. */
  function Replace(text: string, c: char, substitute: string): string {
    if text == [] then []
    else (if text[0] == c then substitute else [text[0]]) + Replace(text[1..], c, substitute)
  }

  /** `escape_like`: three replacements, one after the other. */
  function EscapeLike(value: string): string {
    Replace(Replace(Replace(value, '\\', "\\\\"), '%', "\\%"), '_', "\\_")
  }

  predicate IsSpecial(c: char) { c == '\\' || c == '%' || c == '_' }

  function EscapeChar(c: char): string {
    if IsSpecial(c) then ['\\', c] else [c]
  }

  /** Reference: one pass that puts a backslash before each special character. */
  function EscapeEach(value: string): string {
    if value == [] then [] else EscapeChar(value[0]) + EscapeEach(value[1..])
  }

  lemma {:induction false} ReplaceConcat(a: string, b: string, c: char, substitute: string)
    ensures Replace(a + b, c, substitute) == Replace(a, c, substitute) + Replace(b, c, substitute)
  {
    if a == [] {
      assert a + b == b;
    } else {
      var image := if a[0] == c then substitute else [a[0]];
      var front, back := Replace(a[1..], c, substitute), Replace(b, c, substitute);
      assert (a + b)[1..] == a[1..] + b && (a + b)[0] == a[0];
      calc {
        Replace(a + b, c, substitute);
        image + Replace(a[1..] + b, c, substitute);
        { ReplaceConcat(a[1..], b, c, substitute); }
        image + (front + back);
        (image + front) + back;
        Replace(a, c, substitute) + back;
      }
    }
  }

  lemma ReplaceOne(x: char, c: char, substitute: string)
    ensures Replace([x], c, substitute) == if x == c then substitute else [x]
  {
    assert [x][1..] == [];
  }

  lemma ReplacePair(x: char, y: char, c: char, substitute: string)
    ensures Replace([x, y], c, substitute) == (if x == c then substitute else [x]) + (if y == c then substitute else [y])
  {
    assert [x, y][1..] == [y];
    ReplaceOne(y, c, substitute);
  }

  /** The replacements do not interfere: later ones leave the backslashes of earlier ones alone. */
  lemma EscapeLikeChar(x: char)
    ensures EscapeLike([x]) == EscapeChar(x)
  {
    ReplaceOne(x, '\\', "\\\\");
    ReplaceOne(x, '%', "\\%");
    ReplaceOne(x, '_', "\\_");
    ReplacePair('\\', '\\', '%', "\\%");
    ReplacePair('\\', '\\', '_', "\\_");
    ReplacePair('\\', '%', '_', "\\_");
    assert "\\\\" == ['\\', '\\'] && "\\%" == ['\\', '%'] && "\\_" == ['\\', '_'];
  }

  /** The three sequential replacements are one per-character escape. */
  lemma {:induction false} EscapeLikeIsPerCharacter(value: string)
    ensures EscapeLike(value) == EscapeEach(value)
  {
    if value != [] {
      var head, tail := [value[0]], value[1..];
      assert value == head + tail;
      ReplaceConcat(head, tail, '\\', "\\\\");
      var h1, t1 := Replace(head, '\\', "\\\\"), Replace(tail, '\\', "\\\\");
      ReplaceConcat(h1, t1, '%', "\\%");
      ReplaceConcat(Replace(h1, '%', "\\%"), Replace(t1, '%', "\\%"), '_', "\\_");
      EscapeLikeChar(value[0]);
      EscapeLikeIsPerCharacter(tail);
    }
  }

  // ----- matching

  /** `text LIKE pattern ESCAPE '\'`, compared character by character. */
  predicate Matches(pattern: string, text: string)
    decreases |pattern| + |text|
  {
    if pattern == [] then text == []
    else if pattern[0] == '\\' then
      |pattern| > 1 && text != [] && text[0] == pattern[1] && Matches(pattern[2..], text[1..])
    else if pattern[0] == '%' then
      Matches(pattern[1..], text) || (text != [] && Matches(pattern, text[1..]))
    else if pattern[0] == '_' then text != [] && Matches(pattern[1..], text[1..])
    else text != [] && text[0] == pattern[0] && Matches(pattern[1..], text[1..])
  }

  /** An escaped value matches exactly itself at the front of the text. */
  lemma {:induction false} EscapedPrefix(value: string, rest: string, text: string)
    ensures Matches(EscapeEach(value) + rest, text) <==> value <= text && Matches(rest, text[|value|..])
    decreases |value|
  {
    if value == [] {
      assert EscapeEach(value) + rest == rest && text[0..] == text;
    } else {
      var c, tail := value[0], value[1..];
      var pattern := EscapeEach(value) + rest;
      assert pattern == EscapeChar(c) + (EscapeEach(tail) + rest);
      assert pattern[|EscapeChar(c)|..] == EscapeEach(tail) + rest;
      if text != [] {
        EscapedPrefix(tail, rest, text[1..]);
        assert value <= text <==> text[0] == c && tail <= text[1..] by { assert value == [c] + tail; assert text == [text[0]] + text[1..]; }
        if value <= text { assert text[1..][|tail|..] == text[|value|..]; }
      }
    }
  }

  /** The escaped pattern matches a text exactly when the text is the original value. */
  lemma EscapedMatchesOnlyItself(value: string, text: string)
    ensures Matches(EscapeLike(value), text) <==> text == value
  {
    EscapeLikeIsPerCharacter(value);
    EscapedPrefix(value, [], text);
    assert EscapeEach(value) + [] == EscapeEach(value);
    if value <= text { assert text[|value|..] == [] <==> text == value; }
  }

  predicate OccursAt(value: string, text: string, i: nat) {
    i <= |text| && value <= text[i..]
  }

  ghost predicate Occurs(value: string, text: string) {
    exists i: nat :: OccursAt(value, text, i)
  }

  lemma {:induction false} PercentMatchesAll(text: string)
    ensures Matches("%", text)
  {
    assert "%"[1..] == [];
    if text != [] { PercentMatchesAll(text[1..]); }
  }

  /** The filters of the inventory look for `%value%`: they match exactly the texts that contain the value. */
  lemma {:induction false} ContainsPattern(value: string, text: string)
    ensures Matches("%" + EscapeLike(value) + "%", text) <==> Occurs(value, text)
  {
    var pattern := "%" + EscapeLike(value) + "%";
    EscapeLikeIsPerCharacter(value);
    assert pattern[1..] == EscapeEach(value) + "%";
    EscapedPrefix(value, "%", text);
    if value <= text { PercentMatchesAll(text[|value|..]); }
    assert value <= text <==> OccursAt(value, text, 0) by { assert text[0..] == text; }
    if text != [] {
      ContainsPattern(value, text[1..]);
      if Occurs(value, text[1..]) {
        var i: nat :| OccursAt(value, text[1..], i);
        assert text[1..][i..] == text[i + 1..];
        assert OccursAt(value, text, i + 1);
      }
      if Occurs(value, text) {
        var i: nat :| OccursAt(value, text, i);
        if i > 0 {
          assert text[1..][i - 1..] == text[i..];
          assert OccursAt(value, text[1..], i - 1);
        }
      }
    }
  }

  // ----- case-insensitive matching

  function MapChars(f: char -> char, s: string): string {
    if s == [] then [] else [f(s[0])] + MapChars(f, s[1..])
  }

  /** A case folding that neither moves a special character nor makes one. */
  ghost predicate KeepsSpecials(f: char -> char) {
    forall c :: if IsSpecial(c) then f(c) == c else !IsSpecial(f(c))
  }

  lemma {:induction false} FoldEscapes(f: char -> char, value: string)
    requires KeepsSpecials(f)
    ensures MapChars(f, EscapeEach(value)) == EscapeEach(MapChars(f, value))
  {
    if value != [] {
      var c := value[0];
      FoldEscapes(f, value[1..]);
      MapConcat(f, EscapeChar(c), EscapeEach(value[1..]));
      assert MapChars(f, EscapeChar(c)) == EscapeChar(f(c)) by {
        assert [c][1..] == [];
        assert ['\\', c][1..] == [c];
        assert IsSpecial('\\');
      }
      assert MapChars(f, value) == [f(c)] + MapChars(f, value[1..]);
      assert MapChars(f, value)[1..] == MapChars(f, value[1..]);
    }
  }

  lemma {:induction false} MapConcat(f: char -> char, a: string, b: string)
    ensures MapChars(f, a + b) == MapChars(f, a) + MapChars(f, b)
  {
    if a == [] {
      assert a + b == b;
    } else {
      assert (a + b)[1..] == a[1..] + b && (a + b)[0] == a[0];
      calc {
        MapChars(f, a + b);
        [f(a[0])] + MapChars(f, a[1..] + b);
        { MapConcat(f, a[1..], b); }
        [f(a[0])] + (MapChars(f, a[1..]) + MapChars(f, b));
        ([f(a[0])] + MapChars(f, a[1..])) + MapChars(f, b);
      }
    }
  }

  /** `ilike("%value%")` folds both sides: it finds exactly the texts that contain the value up to case. */
  lemma CaseInsensitiveSearch(f: char -> char, value: string, text: string)
    requires KeepsSpecials(f)
    ensures Matches(MapChars(f, "%" + EscapeLike(value) + "%"), MapChars(f, text)) <==> Occurs(MapChars(f, value), MapChars(f, text))
  {
    EscapeLikeIsPerCharacter(value);
    EscapeLikeIsPerCharacter(MapChars(f, value));
    FoldEscapes(f, value);
    MapConcat(f, "%" + EscapeLike(value), "%");
    MapConcat(f, "%", EscapeLike(value));
    assert MapChars(f, "%") == "%" by { assert "%"[1..] == []; assert IsSpecial('%'); }
    ContainsPattern(MapChars(f, value), MapChars(f, text));
  }

  /** What the pattern characters mean: a percent sign stands for any text, an underscore for any one character, a
      backslash takes away the meaning of the next character, and every other character stands for itself. */
  lemma {:induction false} PatternCharacters(rest: string, text: string, c: char)
    ensures Matches("%" + rest, text) <==> exists i :: 0 <= i <= |text| && Matches(rest, text[i..])
    ensures Matches("_" + rest, text) <==> text != [] && Matches(rest, text[1..])
    ensures Matches("\\" + [c] + rest, text) <==> text != [] && text[0] == c && Matches(rest, text[1..])
    ensures !IsSpecial(c) ==> (Matches([c] + rest, text) <==> text != [] && text[0] == c && Matches(rest, text[1..]))
    ensures IsSpecial(c) <==> c == '\\' || c == '%' || c == '_'
  {
    PercentAnywhere(rest, text);
    assert ("_" + rest)[1..] == rest && ("\\" + [c] + rest)[2..] == rest && ([c] + rest)[1..] == rest;
  }

  lemma {:induction false} PercentAnywhere(rest: string, text: string)
    ensures Matches("%" + rest, text) <==> exists i :: 0 <= i <= |text| && Matches(rest, text[i..])
  {
    assert ("%" + rest)[1..] == rest;
    assert text[0..] == text;
    if text != [] {
      PercentAnywhere(rest, text[1..]);
      if i :| 0 <= i <= |text| && Matches(rest, text[i..]) {
        assert i > 0 ==> text[1..][i - 1..] == text[i..];
      }
      if i :| 0 <= i < |text| && Matches(rest, text[1..][i..]) {
        assert text[1..][i..] == text[i + 1..];
      }
    }
  }
}
