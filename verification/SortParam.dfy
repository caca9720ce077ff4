/** The `sort` parameter of a list's URL: a printer and its parser, `-createdAt,ssid`. */
module SortParam {
  import opened Splitting
  import opened Wrappers

  datatype SortItem = SortItem(id: string, desc: bool)

  const SORT_SEPARATOR: char := ','
  const DESC_PREFIX: char := '-'

  /** `desc ? "-" + id : id`. */
  function ToToken(item: SortItem): string {
    if item.desc then [DESC_PREFIX] + item.id else item.id
  }

  /** `tokens.join(",")`. */
  function Join(tokens: seq<string>): string {
    if tokens == [] then []
    else if |tokens| == 1 then tokens[0]
    else tokens[0] + [SORT_SEPARATOR] + Join(tokens[1..])
  }

  function Tokens(sorting: seq<SortItem>): seq<string> {
    seq(|sorting|, i requires 0 <= i < |sorting| => ToToken(sorting[i]))
  }

  function SerializeSorting(sorting: seq<SortItem>): string {
    Join(Tokens(sorting))
  }

  function ToItem(token: string): SortItem {
    if token != [] && token[0] == DESC_PREFIX then SortItem(token[1..], true) else SortItem(token, false)
  }

  function ToItems(tokens: seq<string>): seq<SortItem> {
    seq(|tokens|, i requires 0 <= i < |tokens| => ToItem(tokens[i]))
  }

  /** `None` when nothing is left to sort by. */
  function ParseSorting(value: string): Option<seq<SortItem>> {
    var sorting := ToItems(NonEmpty(Split(value, SORT_SEPARATOR)));
    if |sorting| > 0 then Some(sorting) else None
  }

  // ----- what survives the URL -----

  /** An id the URL can carry: no separator in it, and an ascending one is not empty and does not look descending. */
  predicate Printable(item: SortItem) {
    && SORT_SEPARATOR !in item.id
    && (!item.desc ==> item.id != [] && item.id[0] != DESC_PREFIX)
  }

  predicate AllPrintable(sorting: seq<SortItem>) {
    forall i | 0 <= i < |sorting| :: Printable(sorting[i])
  }

  lemma {:induction false} SplitJoin(tokens: seq<string>)
    requires tokens != [] && forall t | t in tokens :: SORT_SEPARATOR !in t
    ensures Split(Join(tokens), SORT_SEPARATOR) == tokens
  {
    SplitToken(tokens[0], SORT_SEPARATOR, Join(tokens[1..]));
    if |tokens| > 1 {
      SplitJoin(tokens[1..]);
    }
  }

  /** Whatever the URL says, what is parsed from it is printable. */
  lemma ParsedIsPrintable(value: string)
    requires ParseSorting(value).Some?
    ensures AllPrintable(ParseSorting(value).value)
  {
    SplitTokensAreClean(value, SORT_SEPARATOR);
    NonEmptyKeeps(Split(value, SORT_SEPARATOR));
    var tokens := NonEmpty(Split(value, SORT_SEPARATOR));
    forall i | 0 <= i < |tokens| ensures Printable(ToItem(tokens[i])) {
      assert tokens[i] in tokens;
    }
  }

  lemma PrintableSurvives(sorting: seq<SortItem>)
    requires sorting != [] && AllPrintable(sorting)
    ensures ParseSorting(SerializeSorting(sorting)) == Some(sorting)
  {
    TokensComeBack(sorting);
    NonEmptyKeeps(Tokens(sorting));
  }

  /** A sort comes back from the URL as it was exactly when it is not empty and every item is printable. */
  lemma SortRoundTrip(sorting: seq<SortItem>)
    ensures ParseSorting(SerializeSorting(sorting)) == Some(sorting) <==> sorting != [] && AllPrintable(sorting)
  {
    if ParseSorting(SerializeSorting(sorting)) == Some(sorting) {
      ParsedIsPrintable(SerializeSorting(sorting));
    } else if sorting != [] && AllPrintable(sorting) {
      PrintableSurvives(sorting);
    }
  }

  /** A URL that parses is normalised once: printing what was parsed and parsing it again changes nothing. */
  lemma ParseIsStable(value: string)
    requires ParseSorting(value).Some?
    ensures ParseSorting(SerializeSorting(ParseSorting(value).value)) == ParseSorting(value)
  {
    ParsedIsPrintable(value);
    PrintableSurvives(ParseSorting(value).value);
  }

  // ----- the same parameter, read by the API -----

  /** What JavaScript's `trim` removes: white space and line ends. */
  predicate Blank(c: char) {
    || '\t' <= c <= '\r' || c == ' ' || c == '\U{00A0}' || c == '\U{1680}' || '\U{2000}' <= c <= '\U{200A}'
    || c == '\U{2028}' || c == '\U{2029}' || c == '\U{202F}' || c == '\U{205F}' || c == '\U{3000}' || c == '\U{FEFF}'
  }

  function TrimStart(s: string): string {
    if s != [] && Blank(s[0]) then TrimStart(s[1..]) else s
  }

  function TrimEnd(s: string): string {
    if s != [] && Blank(s[|s| - 1]) then TrimEnd(s[..|s| - 1]) else s
  }

  function Trim(s: string): string {
    TrimEnd(TrimStart(s))
  }

  function TrimAll(tokens: seq<string>): seq<string> {
    seq(|tokens|, i requires 0 <= i < |tokens| => Trim(tokens[i]))
  }

  /** The API splits, trims, drops the empty tokens and reads each one; a column it does not sort by refuses the query. */
  function ApiSort(value: string, sortable: set<string>): Option<seq<SortItem>> {
    var sorting := ToItems(NonEmpty(TrimAll(Split(value, SORT_SEPARATOR))));
    if AllSortable(sorting, sortable) then Some(sorting) else None
  }

  predicate AllSortable(sorting: seq<SortItem>, sortable: set<string>) {
    forall i | 0 <= i < |sorting| :: sorting[i].id in sortable
  }

  predicate Trimmed(s: string) {
    s != [] ==> !Blank(s[0]) && !Blank(s[|s| - 1])
  }

  lemma {:induction false} TrimStartShortens(s: string)
    ensures |TrimStart(s)| <= |s| && (TrimStart(s) == s <==> s == [] || !Blank(s[0]))
    ensures TrimStart(s) != [] ==> !Blank(TrimStart(s)[0])
  {
    if s != [] && Blank(s[0]) {
      TrimStartShortens(s[1..]);
    }
  }

  lemma {:induction false} TrimEndShortens(s: string)
    ensures TrimEnd(s) <= s && (TrimEnd(s) == s <==> s == [] || !Blank(s[|s| - 1]))
  {
    if s != [] && Blank(s[|s| - 1]) {
      TrimEndShortens(s[..|s| - 1]);
    }
  }

  /** Trimming changes nothing exactly where there is nothing to trim. */
  lemma TrimKeeps(s: string)
    ensures Trim(s) == s <==> Trimmed(s)
  {
    TrimStartShortens(s);
    TrimEndShortens(TrimStart(s));
  }

  /** Reading a token loses nothing: two tokens read alike are one. */
  lemma ToItemIsInjective(a: string, b: string)
    requires ToItem(a) == ToItem(b)
    ensures a == b
  {
    if ToItem(a).desc {
      assert a == [DESC_PREFIX] + a[1..] && b == [DESC_PREFIX] + b[1..];
    }
  }

  lemma ToItemsIsInjective(a: seq<string>, b: seq<string>)
    requires ToItems(a) == ToItems(b)
    ensures a == b
  {
    assert |ToItems(a)| == |a| && |ToItems(b)| == |b|;
    forall i | 0 <= i < |a| ensures a[i] == b[i] {
      assert ToItems(a)[i] == ToItems(b)[i];
      ToItemIsInjective(a[i], b[i]);
    }
  }

  lemma {:induction false} NonEmptyShortens(tokens: seq<string>)
    ensures |NonEmpty(tokens)| <= |tokens|
    ensures |NonEmpty(tokens)| == |tokens| ==> NonEmpty(tokens) == tokens
  {
    if tokens != [] {
      NonEmptyShortens(tokens[1..]);
      assert tokens == [tokens[0]] + tokens[1..];
    }
  }

  /** A printable sort is cut back into its tokens, and each is read back. */
  lemma TokensComeBack(sorting: seq<SortItem>)
    requires sorting != [] && AllPrintable(sorting)
    ensures Split(SerializeSorting(sorting), SORT_SEPARATOR) == Tokens(sorting) && ToItems(Tokens(sorting)) == sorting
    ensures [] !in Tokens(sorting)
  {
    var tokens := Tokens(sorting);
    forall t | t in tokens ensures SORT_SEPARATOR !in t && t != [] {
      var i :| 0 <= i < |tokens| && tokens[i] == t;
      assert Printable(sorting[i]);
    }
    SplitJoin(tokens);
    forall i | 0 <= i < |sorting| ensures ToItem(tokens[i]) == sorting[i] {
      assert Printable(sorting[i]);
    }
    assert ToItems(tokens) == sorting;
  }

  predicate AllTrimmed(tokens: seq<string>) {
    forall i | 0 <= i < |tokens| :: Trimmed(tokens[i])
  }

  lemma TrimAllKeeps(tokens: seq<string>)
    ensures TrimAll(tokens) == tokens <==> AllTrimmed(tokens)
  {
    forall i | 0 <= i < |tokens| ensures Trim(tokens[i]) == tokens[i] <==> Trimmed(tokens[i]) {
      TrimKeeps(tokens[i]);
    }
    if TrimAll(tokens) == tokens {
      forall i | 0 <= i < |tokens| ensures Trimmed(tokens[i]) {
        assert TrimAll(tokens)[i] == Trim(tokens[i]);
      }
    }
  }

  /** The API reads a printable sort as the web wrote it exactly when no token has a blank at its ends and every column is
      one it sorts by; an unknown column refuses the query. */
  lemma ApiReadsTheWeb(sorting: seq<SortItem>, sortable: set<string>)
    requires sorting != [] && AllPrintable(sorting)
    ensures ApiSort(SerializeSorting(sorting), sortable) == Some(sorting)
            <==> AllTrimmed(Tokens(sorting)) && AllSortable(sorting, sortable)
    ensures AllTrimmed(Tokens(sorting)) && !AllSortable(sorting, sortable) ==>
              ApiSort(SerializeSorting(sorting), sortable) == None
  {
    var tokens := Tokens(sorting);
    TokensComeBack(sorting);
    TrimAllKeeps(tokens);
    NonEmptyKeeps(tokens);
    var read := NonEmpty(TrimAll(tokens));
    NonEmptyShortens(TrimAll(tokens));
    if ToItems(read) == sorting {
      ToItemsIsInjective(read, tokens);
      assert |read| == |TrimAll(tokens)|;
    }
  }
}
