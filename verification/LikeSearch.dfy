/**
 * The search box against the LIKE operator.
 *
 * `Like` is the matcher of section 9.7.1 of the PostgreSQL documentation, with its default escape character: `%` stands
 * for any text, `_` for any one character, and a backslash makes the next character stand for itself. ILIKE folds both
 * sides first.
 */
module LikeSearch {
  import opened Wrappers

  predicate Meta(c: char) {
    c == '\\' || c == '%' || c == '_'
  }

  function EscapeChar(c: char): string {
    if Meta(c) then ['\\', c] else [c]
  }

  /** `value.replace(/[\\%_]/g, "\\$&")`. */
  function EscapeLike(value: string): string {
    if value == [] then []
    else EscapeChar(value[0]) + EscapeLike(value[1..])
  }

  /** A pattern that ends in the middle of an escape is an error in PostgreSQL. */
  predicate WellFormed(pattern: string) {
    if pattern == [] then true
    else if pattern[0] == '\\' then |pattern| >= 2 && WellFormed(pattern[2..])
    else WellFormed(pattern[1..])
  }

  predicate Like(pattern: string, text: string)
    requires WellFormed(pattern)
    decreases |pattern|, |text|
  {
    if pattern == [] then text == []
    else if pattern[0] == '%' then Like(pattern[1..], text) || (text != [] && Like(pattern, text[1..]))
    else if text == [] then false
    else if pattern[0] == '\\' then text[0] == pattern[1] && Like(pattern[2..], text[1..])
    else if pattern[0] == '_' then Like(pattern[1..], text[1..])
    else text[0] == pattern[0] && Like(pattern[1..], text[1..])
  }

  /** What the search compares: `%` before and after the escaped text. */
  function SearchPattern(search: string): string {
    "%" + EscapeLike(search) + "%"
  }

  ghost predicate Occurs(search: string, text: string) {
    exists k :: OccursAt(search, text, k)
  }

  predicate OccursAt(search: string, text: string, k: int) {
    0 <= k <= |text| - |search| && text[k..k + |search|] == search
  }

  lemma EscapedCharMatchesItself(c: char, rest: string, text: string)
    requires WellFormed(rest)
    ensures WellFormed(EscapeChar(c) + rest)
    ensures Like(EscapeChar(c) + rest, text) <==> text != [] && text[0] == c && Like(rest, text[1..])
  {
    var pattern := EscapeChar(c) + rest;
    assert pattern[|EscapeChar(c)|..] == rest;
  }

  /** The escaped text, whatever follows it, matches itself and then what follows. */
  lemma {:induction false} EscapedMatchesItself(search: string, rest: string, text: string)
    requires WellFormed(rest)
    ensures WellFormed(EscapeLike(search) + rest)
    ensures Like(EscapeLike(search) + rest, text) <==> search <= text && Like(rest, text[|search|..])
  {
    if search == [] {
      assert EscapeLike(search) + rest == rest;
      assert text[0..] == text;
    } else {
      assert EscapeLike(search) + rest == EscapeChar(search[0]) + (EscapeLike(search[1..]) + rest);
      EscapedMatchesItself(search[1..], rest, if text == [] then [] else text[1..]);
      EscapedCharMatchesItself(search[0], EscapeLike(search[1..]) + rest, text);
      if text != [] {
        assert search <= text <==> search[0] == text[0] && search[1..] <= text[1..];
        if search <= text {
          assert text[1..][|search[1..]|..] == text[|search|..];
        }
      }
    }
  }

  lemma {:induction false} PercentMatchesAll(text: string)
    ensures Like("%", text)
  {
    if text == [] {
      assert "%"[1..] == [];
    } else {
      PercentMatchesAll(text[1..]);
    }
  }

  /** A leading `%` tries every starting point. */
  lemma {:induction false} PercentTriesAll(pattern: string, text: string)
    requires WellFormed(pattern)
    ensures WellFormed("%" + pattern)
    ensures Like("%" + pattern, text) <==> exists k | 0 <= k <= |text| :: Like(pattern, text[k..])
  {
    assert ("%" + pattern)[1..] == pattern;
    assert text[0..] == text;
    if text != [] {
      PercentTriesAll(pattern, text[1..]);
      assert forall k | 0 <= k <= |text[1..]| :: text[1..][k..] == text[k + 1..];
      if k :| 0 <= k <= |text| && Like(pattern, text[k..]) {
        if k > 0 {
          assert text[1..][k - 1..] == text[k..];
        }
      }
    }
  }

  /** The search finds exactly the texts that contain what was typed, wildcards included. */
  lemma SearchIsSubstring(search: string, text: string)
    ensures WellFormed(SearchPattern(search))
    ensures Like(SearchPattern(search), text) <==> Occurs(search, text)
  {
    var pattern := EscapeLike(search) + "%";
    assert WellFormed("%") by {
      assert "%"[1..] == [];
    }
    EscapedMatchesItself(search, "%", text);
    PercentTriesAll(pattern, text);
    assert SearchPattern(search) == "%" + pattern;
    forall k | 0 <= k <= |text| ensures Like(pattern, text[k..]) <==> OccursAt(search, text, k) {
      EscapedMatchesItself(search, "%", text[k..]);
      assert k + |search| <= |text| ==> text[k..][..|search|] == text[k..k + |search|];
      if search <= text[k..] {
        PercentMatchesAll(text[k..][|search|..]);
      }
    }
  }

  // ----- case-insensitive -----

  function Folded(fold: char -> char, s: string): string {
    seq(|s|, i requires 0 <= i < |s| => fold(s[i]))
  }

  /** Folding the case leaves the special characters alone, and makes no other character special. */
  ghost predicate KeepsMeta(fold: char -> char) {
    forall c :: if Meta(c) then fold(c) == c else !Meta(fold(c))
  }

  lemma FoldedConcat(fold: char -> char, a: string, b: string)
    ensures Folded(fold, a + b) == Folded(fold, a) + Folded(fold, b)
  {
  }

  lemma EscapeCharCommutesWithFolding(fold: char -> char, c: char)
    requires KeepsMeta(fold)
    ensures Folded(fold, EscapeChar(c)) == EscapeChar(fold(c))
  {
    assert Meta('\\');
  }

  lemma {:induction false} EscapeCommutesWithFolding(fold: char -> char, s: string)
    requires KeepsMeta(fold)
    ensures Folded(fold, EscapeLike(s)) == EscapeLike(Folded(fold, s))
  {
    if s != [] {
      EscapeCommutesWithFolding(fold, s[1..]);
      assert Folded(fold, s)[1..] == Folded(fold, s[1..]);
      FoldedConcat(fold, EscapeChar(s[0]), EscapeLike(s[1..]));
      EscapeCharCommutesWithFolding(fold, s[0]);
    }
  }

  /** ILIKE, for the patterns of the search box. */
  predicate SearchMatches(fold: char -> char, search: string, text: string)
    requires WellFormed(Folded(fold, SearchPattern(search)))
  {
    Like(Folded(fold, SearchPattern(search)), Folded(fold, text))
  }

  /** `search` stands at `k` in `text`, up to case. */
  predicate FoldedAt(fold: char -> char, search: string, text: string, k: int) {
    0 <= k <= |text| - |search| && forall i | 0 <= i < |search| :: fold(text[k + i]) == fold(search[i])
  }

  lemma FoldedAtMeansOccursAt(fold: char -> char, search: string, text: string, k: int)
    ensures OccursAt(Folded(fold, search), Folded(fold, text), k) <==> FoldedAt(fold, search, text, k)
  {
    var s, t := Folded(fold, search), Folded(fold, text);
    if OccursAt(s, t, k) {
      forall i | 0 <= i < |search| ensures fold(text[k + i]) == fold(search[i]) {
        assert t[k..k + |s|][i] == s[i];
      }
    }
  }

  /** The search finds exactly the texts that contain what was typed, up to case. */
  lemma SearchIgnoresCase(fold: char -> char, search: string, text: string)
    requires KeepsMeta(fold)
    ensures WellFormed(Folded(fold, SearchPattern(search)))
    ensures SearchMatches(fold, search, text) <==> Occurs(Folded(fold, search), Folded(fold, text))
    ensures SearchMatches(fold, search, text) <==> exists k :: FoldedAt(fold, search, text, k)
  {
    EscapeCommutesWithFolding(fold, search);
    assert Meta('%');
    assert Folded(fold, SearchPattern(search)) == SearchPattern(Folded(fold, search));
    SearchIsSubstring(Folded(fold, search), Folded(fold, text));
    forall k ensures OccursAt(Folded(fold, search), Folded(fold, text), k) <==> FoldedAt(fold, search, text, k) {
      FoldedAtMeansOccursAt(fold, search, text, k);
    }
  }

  // ----- the condition of the list -----

  /** `toSearchCondition`: no condition without a search (an empty box is none) or without a searchable column. */
  predicate SearchCondition(fold: char -> char, search: Option<string>, columns: seq<Option<string>>)
    requires search.Some? ==> WellFormed(Folded(fold, SearchPattern(search.value)))
  {
    || search.None? || search.value == "" || columns == []
    || exists i :: 0 <= i < |columns| && columns[i].Some? && SearchMatches(fold, search.value, columns[i].value)
  }

  /** A row passes exactly when nothing was typed, when the list has no column to search, or when some column contains what
      was typed; a NULL column never does. */
  lemma RowPassesSearch(fold: char -> char, search: Option<string>, columns: seq<Option<string>>)
    requires KeepsMeta(fold)
    ensures search.Some? ==> WellFormed(Folded(fold, SearchPattern(search.value)))
    ensures SearchCondition(fold, search, columns)
            <==> (search.Some? && search.value != "" && columns != [] ==>
                    exists i, k :: 0 <= i < |columns| && columns[i].Some? && FoldedAt(fold, search.value, columns[i].value, k))
  {
    if search.Some? {
      SearchIgnoresCase(fold, search.value, "");
      forall i | 0 <= i < |columns| && columns[i].Some?
        ensures SearchMatches(fold, search.value, columns[i].value)
                <==> exists k :: FoldedAt(fold, search.value, columns[i].value, k)
      {
        SearchIgnoresCase(fold, search.value, columns[i].value);
      }
    }
  }
}
