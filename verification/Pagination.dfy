/**
 * Sorted, tie-broken pages.
 *
 * A row is known by its unique id, the tie breaker. What a column holds, and how two of its values compare, is a rank;
 * NULL comes last in ascending order, as in PostgreSQL. `where` is the set of rows it keeps.
 */
module Pagination {
  import opened SortParam
  import opened Wrappers

  type RowId = nat

  /** The rank of a row in a column; `None` for NULL. */
  type Ranks = (string, RowId) -> Option<int>

  /** The sort asked for, or the default one; the tie breaker always comes last. */
  function OrderBy(sort: seq<SortItem>, defaultSort: seq<SortItem>): seq<SortItem> {
    if |sort| > 0 then sort else defaultSort
  }

  predicate RankLess(x: Option<int>, y: Option<int>) {
    x.Some? && (y.None? || x.value < y.value)
  }

  predicate Precedes(ranks: Ranks, item: SortItem, a: RowId, b: RowId) {
    if item.desc then RankLess(ranks(item.id, b), ranks(item.id, a)) else RankLess(ranks(item.id, a), ranks(item.id, b))
  }

  /** `order by` the items, then by id: `a` comes before `b`. */
  predicate Before(ranks: Ranks, order: seq<SortItem>, a: RowId, b: RowId) {
    if order == [] then a < b
    else
      || Precedes(ranks, order[0], a, b)
      || (!Precedes(ranks, order[0], b, a) && Before(ranks, order[1..], a, b))
  }

  // ----- what the order means -----

  /** The first item in which the two rows differ. */
  predicate FirstDifference(ranks: Ranks, items: seq<SortItem>, a: RowId, b: RowId, k: nat) {
    && k < |items| && ranks(items[k].id, a) != ranks(items[k].id, b)
    && forall i | 0 <= i < k :: ranks(items[i].id, a) == ranks(items[i].id, b)
  }

  predicate SameRanks(ranks: Ranks, items: seq<SortItem>, a: RowId, b: RowId) {
    forall i | 0 <= i < |items| :: ranks(items[i].id, a) == ranks(items[i].id, b)
  }

  /** Two different values in the order of the item: ascending, the smaller first and NULL last; descending, NULL first and
      then the larger. */
  predicate InItemOrder(desc: bool, x: Option<int>, y: Option<int>) {
    match (x, y)
    case (Some(v), Some(u)) => if desc then v > u else v < u
    case (Some(_), None) => !desc
    case (None, Some(_)) => desc
    case (None, None) => false
  }

  /** The first item in which two rows differ decides; where none does, the smaller id comes first. */
  ghost predicate SortedPair(ranks: Ranks, items: seq<SortItem>, a: RowId, b: RowId) {
    && (SameRanks(ranks, items, a, b) ==> a < b)
    && forall k: nat | FirstDifference(ranks, items, a, b, k) ::
         InItemOrder(items[k].desc, ranks(items[k].id, a), ranks(items[k].id, b))
  }

  lemma DifferenceInRest(ranks: Ranks, items: seq<SortItem>, a: RowId, b: RowId, k: nat)
    requires items != [] && ranks(items[0].id, a) == ranks(items[0].id, b)
    ensures FirstDifference(ranks, items, a, b, k) <==> k > 0 && FirstDifference(ranks, items[1..], a, b, k - 1)
  {
    var rest := items[1..];
    assert forall i | 0 < i < |items| :: items[i] == rest[i - 1];
    assert forall i | 0 <= i < |rest| :: rest[i] == items[i + 1];
  }

  lemma SortedInRest(ranks: Ranks, items: seq<SortItem>, a: RowId, b: RowId)
    requires items != [] && ranks(items[0].id, a) == ranks(items[0].id, b)
    ensures SortedPair(ranks, items, a, b) <==> SortedPair(ranks, items[1..], a, b)
  {
    var rest := items[1..];
    assert SameRanks(ranks, items, a, b) <==> SameRanks(ranks, rest, a, b) by {
      assert forall i | 0 < i < |items| :: items[i] == rest[i - 1];
      assert forall i | 0 <= i < |rest| :: rest[i] == items[i + 1];
    }
    forall k: nat ensures FirstDifference(ranks, items, a, b, k) <==> k > 0 && FirstDifference(ranks, rest, a, b, k - 1) {
      DifferenceInRest(ranks, items, a, b, k);
    }
    forall k: nat ensures FirstDifference(ranks, rest, a, b, k) <==> FirstDifference(ranks, items, a, b, k + 1) {
      DifferenceInRest(ranks, items, a, b, k + 1);
    }
  }

  /** `order by` means what it says of two rows. */
  lemma {:induction false} BeforeIsSorted(ranks: Ranks, order: seq<SortItem>, a: RowId, b: RowId)
    ensures Before(ranks, order, a, b) <==> SortedPair(ranks, order, a, b)
  {
    if order != [] {
      if ranks(order[0].id, a) == ranks(order[0].id, b) {
        BeforeIsSorted(ranks, order[1..], a, b);
        SortedInRest(ranks, order, a, b);
      } else {
        assert FirstDifference(ranks, order, a, b, 0);
      }
    }
  }

  /** The tie breaker makes the order strict and total: no two rows tie, so there is only one way to list them. */
  lemma {:induction false} OrderIsTotal(ranks: Ranks, order: seq<SortItem>, a: RowId, b: RowId)
    ensures !Before(ranks, order, a, a)
    ensures a != b ==> (Before(ranks, order, a, b) <==> !Before(ranks, order, b, a))
  {
    if order != [] {
      OrderIsTotal(ranks, order[1..], a, b);
    }
  }

  lemma {:induction false} OrderIsTransitive(ranks: Ranks, order: seq<SortItem>, a: RowId, b: RowId, c: RowId)
    requires Before(ranks, order, a, b) && Before(ranks, order, b, c)
    ensures Before(ranks, order, a, c)
  {
    if order != [] && Before(ranks, order[1..], a, b) && Before(ranks, order[1..], b, c) {
      OrderIsTransitive(ranks, order[1..], a, b, c);
    }
  }

  /** `rows`, each once, in order: what the query would return without a limit. */
  predicate IsAnswer(ranks: Ranks, order: seq<SortItem>, rows: set<RowId>, list: seq<RowId>) {
    && (set id | id in list) == rows
    && forall i, j | 0 <= i < j < |list| :: Before(ranks, order, list[i], list[j])
  }

  /** Any answer, two rows at a time: by the items of `sort`, or those of `defaultSort` when it is empty. */
  lemma AnswerIsSorted(ranks: Ranks, sort: seq<SortItem>, defaultSort: seq<SortItem>, rows: set<RowId>, list: seq<RowId>,
                       i: nat, j: nat)
    requires IsAnswer(ranks, OrderBy(sort, defaultSort), rows, list) && i < j < |list|
    ensures sort != [] ==> SortedPair(ranks, sort, list[i], list[j])
    ensures sort == [] ==> SortedPair(ranks, defaultSort, list[i], list[j])
  {
    BeforeIsSorted(ranks, OrderBy(sort, defaultSort), list[i], list[j]);
  }

  lemma FirstIsLeast(ranks: Ranks, order: seq<SortItem>, rows: set<RowId>, list: seq<RowId>, id: RowId)
    requires IsAnswer(ranks, order, rows, list) && id in rows
    ensures list != [] && list[0] in rows && (id == list[0] || Before(ranks, order, list[0], id))
  {
    assert id in (set x | x in list);
    assert list[0] in (set x | x in list);
  }

  lemma TailAnswers(ranks: Ranks, order: seq<SortItem>, rows: set<RowId>, list: seq<RowId>)
    requires IsAnswer(ranks, order, rows, list) && list != []
    ensures IsAnswer(ranks, order, rows - {list[0]}, list[1..])
  {
    OrderIsTotal(ranks, order, list[0], list[0]);
    assert list == [list[0]] + list[1..];
    assert list[0] !in list[1..];
    assert (set x | x in list) == {list[0]} + (set x | x in list[1..]);
  }

  lemma {:induction false} AnswerSize(ranks: Ranks, order: seq<SortItem>, rows: set<RowId>, list: seq<RowId>)
    requires IsAnswer(ranks, order, rows, list)
    ensures |list| == |rows|
    decreases |list|
  {
    if list != [] {
      TailAnswers(ranks, order, rows, list);
      AnswerSize(ranks, order, rows - {list[0]}, list[1..]);
      assert list[0] in (set x | x in list);
    }
  }

  /** Any two executions of the query list the rows alike. */
  lemma {:induction false} AnswerIsUnique(ranks: Ranks, order: seq<SortItem>, rows: set<RowId>, a: seq<RowId>, b: seq<RowId>)
    requires IsAnswer(ranks, order, rows, a) && IsAnswer(ranks, order, rows, b)
    ensures a == b
    decreases |a|
  {
    if a == [] {
      AnswerSize(ranks, order, rows, a);
      AnswerSize(ranks, order, rows, b);
    } else {
      assert a[0] in (set x | x in a);
      FirstIsLeast(ranks, order, rows, b, a[0]);
      FirstIsLeast(ranks, order, rows, a, b[0]);
      OrderIsTotal(ranks, order, a[0], b[0]);
      TailAnswers(ranks, order, rows, a);
      TailAnswers(ranks, order, rows, b);
      AnswerIsUnique(ranks, order, rows - {a[0]}, a[1..], b[1..]);
      assert a == [a[0]] + a[1..] && b == [b[0]] + b[1..];
    }
  }

  // ----- limit and offset -----

  function Min(a: nat, b: nat): nat {
    if a < b then a else b
  }

  function Offset(page: nat, limit: nat): nat
    requires page >= 1
  {
    (page - 1) * limit
  }

  /** `limit … offset …` over the sorted rows. */
  function Page(list: seq<RowId>, page: nat, limit: nat): seq<RowId>
    requires page >= 1
  {
    var from := Min(Offset(page, limit), |list|);
    list[from..Min(from + limit, |list|)]
  }

  /** `Math.ceil(total / limit)`. */
  function TotalPages(total: nat, limit: nat): nat
    requires limit >= 1
  {
    (total + limit - 1) / limit
  }

  /** What a client reads who asks for pages 1 to `n`, each page being cut from its own execution of the query. */
  function FirstPages(answers: seq<seq<RowId>>, n: nat, limit: nat): seq<RowId>
    requires n <= |answers|
  {
    if n == 0 then [] else FirstPages(answers, n - 1, limit) + Page(answers[n - 1], n, limit)
  }

  lemma TotalPagesBounds(total: nat, limit: nat)
    requires limit >= 1
    ensures var n := TotalPages(total, limit); n * limit >= total && (n >= 1 ==> (n - 1) * limit < total)
  {
    var n := TotalPages(total, limit);
    assert total + limit - 1 == n * limit + (total + limit - 1) % limit;
    assert (n - 1) * limit == n * limit - limit;
  }

  lemma {:induction false} FirstPagesArePrefix(list: seq<RowId>, answers: seq<seq<RowId>>, n: nat, limit: nat)
    requires limit >= 1 && n <= |answers| && forall i | 0 <= i < |answers| :: answers[i] == list
    ensures FirstPages(answers, n, limit) == list[..Min(n * limit, |list|)]
  {
    if n > 0 {
      FirstPagesArePrefix(list, answers, n - 1, limit);
      assert n * limit == (n - 1) * limit + limit;
    }
  }

  /** The pages partition the result: pages 1 to `totalPages`, each fetched on its own, put end to end, are the rows in
      order, each once. */
  lemma PagesPartitionTheResult(ranks: Ranks, sort: seq<SortItem>, defaultSort: seq<SortItem>, rows: set<RowId>,
                                answers: seq<seq<RowId>>, limit: nat)
    requires limit >= 1 && |answers| == TotalPages(|rows|, limit)
    requires forall i | 0 <= i < |answers| :: IsAnswer(ranks, OrderBy(sort, defaultSort), rows, answers[i])
    ensures var order, read := OrderBy(sort, defaultSort), FirstPages(answers, |answers|, limit);
            IsAnswer(ranks, order, rows, read) && forall list | IsAnswer(ranks, order, rows, list) :: read == list
    ensures var items, read := if sort != [] then sort else defaultSort, FirstPages(answers, |answers|, limit);
            forall i, j | 0 <= i < j < |read| :: SortedPair(ranks, items, read[i], read[j])
  {
    var order := OrderBy(sort, defaultSort);
    TotalPagesBounds(|rows|, limit);
    if |answers| == 0 {
      assert rows == {};
    } else {
      var list := answers[0];
      forall i | 0 <= i < |answers| ensures answers[i] == list {
        AnswerIsUnique(ranks, order, rows, answers[i], list);
      }
      FirstPagesArePrefix(list, answers, |answers|, limit);
      AnswerSize(ranks, order, rows, list);
      assert list[..|list|] == list;
    }
    var read := FirstPages(answers, |answers|, limit);
    forall i, j | 0 <= i < j < |read| ensures SortedPair(ranks, order, read[i], read[j]) {
      BeforeIsSorted(ranks, order, read[i], read[j]);
    }
    forall list | IsAnswer(ranks, order, rows, list) ensures FirstPages(answers, |answers|, limit) == list {
      AnswerIsUnique(ranks, order, rows, FirstPages(answers, |answers|, limit), list);
    }
  }

  /** Every page but the last is full, the last is not empty, and past it there is nothing. */
  lemma PageSizes(list: seq<RowId>, page: nat, limit: nat)
    requires limit >= 1 && page >= 1
    ensures var n := TotalPages(|list|, limit);
            && (page < n ==> |Page(list, page, limit)| == limit)
            && (page == n ==> 1 <= |Page(list, page, limit)| <= limit)
            && (page > n ==> Page(list, page, limit) == [])
  {
    var n := TotalPages(|list|, limit);
    TotalPagesBounds(|list|, limit);
    assert page * limit == Offset(page, limit) + limit;
    if page < n {
      Multiples(page, n - 1, limit);
    } else if page > n {
      Multiples(n, page - 1, limit);
    }
  }

  lemma Multiples(a: nat, b: nat, k: nat)
    requires a <= b
    ensures a * k <= b * k
  {
  }
}
