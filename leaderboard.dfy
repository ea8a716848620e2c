/**
 * The leaderboard and the paginated riddle list: scores ordered by displayed value,
 * highest first, with Python's stable `sorted` keeping tied users in table order; the
 * page count and page slices; and the two views whose Previous/Next buttons move a
 * page index that stays within range.
 */
module Leaderboard {
  import opened Riddles
  import opened Ledger

  /** One `(user id, score)` item of the score table. */
  type Entry = (string, Score)

  const PageSize: nat := 10

  function EntryValue(e: Entry): int {
    ScoreValue(e.1)
  }

  /** Highest displayed value first. */
  predicate NonIncreasing(s: seq<Entry>) {
    forall i, j :: 0 <= i < j < |s| ==> EntryValue(s[i]) >= EntryValue(s[j])
  }

  /** Place `e` in front of the first entry that does not score more than it, which puts
      it ahead of the entries it ties with: it came before them in the input. */
  function Insert(e: Entry, t: seq<Entry>): (r: seq<Entry>)
    ensures multiset(r) == multiset(t) + multiset{e}
    ensures |r| == |t| + 1
  {
    if t == [] || EntryValue(e) >= EntryValue(t[0]) then [e] + t
    else
      assert t == [t[0]] + t[1..];
      [t[0]] + Insert(e, t[1..])
  }

  /** Inserting into an ordered list keeps it ordered. */
  lemma {:induction false} InsertKeepsOrder(e: Entry, t: seq<Entry>)
    requires NonIncreasing(t)
    ensures NonIncreasing(Insert(e, t))
  {
    if t != [] && EntryValue(e) < EntryValue(t[0]) {
      var rest := Insert(e, t[1..]);
      InsertKeepsOrder(e, t[1..]);
      InsertStaysBelow(e, t[1..], EntryValue(t[0]));
      ConsKeepsOrder(t[0], rest);
    }
  }

  lemma ConsKeepsOrder(x: Entry, s: seq<Entry>)
    requires NonIncreasing(s)
    requires forall k :: 0 <= k < |s| ==> EntryValue(s[k]) <= EntryValue(x)
    ensures NonIncreasing([x] + s)
  {
    var r := [x] + s;
    forall i, j | 0 <= i < j < |r|
      ensures EntryValue(r[i]) >= EntryValue(r[j])
    {
      assert r[j] == s[j - 1];
      if i > 0 {
        assert r[i] == s[i - 1];
      }
    }
  }

  /** Inserting an entry no higher than `b` among entries no higher than `b` adds none higher. */
  lemma {:induction false} InsertStaysBelow(e: Entry, t: seq<Entry>, b: int)
    requires EntryValue(e) <= b
    requires forall k :: 0 <= k < |t| ==> EntryValue(t[k]) <= b
    ensures forall k :: 0 <= k < |Insert(e, t)| ==> EntryValue(Insert(e, t)[k]) <= b
  {
    if t != [] && EntryValue(e) < EntryValue(t[0]) {
      InsertStaysBelow(e, t[1..], b);
      var r := Insert(e, t);
      assert r == [t[0]] + Insert(e, t[1..]);
      forall k | 0 < k < |r|
        ensures EntryValue(r[k]) <= b
      {
        assert r[k] == Insert(e, t[1..])[k - 1];
      }
    }
  }

  /** `sorted(scores.items(), key=score_val, reverse=True)`. */
  function SortByScore(s: seq<Entry>): (r: seq<Entry>)
    ensures NonIncreasing(r)
    ensures multiset(r) == multiset(s)
    ensures |r| == |s|
  {
    if s == [] then []
    else
      assert s == [s[0]] + s[1..];
      var sorted := SortByScore(s[1..]);
      InsertKeepsOrder(s[0], sorted);
      Insert(s[0], sorted)
  }

  /** The entries of `s` whose displayed value is `v`, in their order in `s`. */
  function WithValue(s: seq<Entry>, v: int): seq<Entry> {
    if s == [] then []
    else (if EntryValue(s[0]) == v then [s[0]] else []) + WithValue(s[1..], v)
  }

  lemma WithValueCons(x: Entry, s: seq<Entry>, v: int)
    ensures WithValue([x] + s, v) == (if EntryValue(x) == v then [x] else []) + WithValue(s, v)
  {
    assert ([x] + s)[1..] == s;
  }

  lemma {:induction false} InsertWithValue(e: Entry, t: seq<Entry>, v: int)
    ensures WithValue(Insert(e, t), v) == (if EntryValue(e) == v then [e] else []) + WithValue(t, v)
  {
    if t == [] || EntryValue(e) >= EntryValue(t[0]) {
      WithValueCons(e, t, v);
    } else {
      InsertWithValue(e, t[1..], v);
      WithValueCons(t[0], Insert(e, t[1..]), v);
      WithValueCons(t[0], t[1..], v);
      assert t == [t[0]] + t[1..];
      assert Insert(e, t) == [t[0]] + Insert(e, t[1..]);
      if EntryValue(e) == v {
        // t[0] scores more than e, so it is not among the entries of value v.
        assert WithValue(Insert(e, t), v) == WithValue(Insert(e, t[1..]), v);
        assert WithValue(t, v) == WithValue(t[1..], v);
      } else {
        assert WithValue(Insert(e, t[1..]), v) == WithValue(t[1..], v);
      }
    }
  }

  /** The sort is stable: entries with equal value keep the order they had in the table. */
  lemma {:induction false} SortIsStable(s: seq<Entry>, v: int)
    ensures WithValue(SortByScore(s), v) == WithValue(s, v)
  {
    if s != [] {
      SortIsStable(s[1..], v);
      InsertWithValue(s[0], SortByScore(s[1..]), v);
    }
  }

  /** The leaderboard's page count, `max((n - 1) // 10 + 1, 1)`; the divisor is positive,
      so Dafny's division rounds down like Python's `//`, also for n = 0. */
  function TotalPages(n: nat, perPage: nat): (p: nat)
    requires perPage > 0
    ensures p >= 1
    ensures n == 0 ==> p == 1
    ensures n > 0 ==> (p - 1) * perPage < n <= p * perPage
  {
    var q := (n - 1) / perPage;
    if n > 0 then
      CeilingBounds(n, perPage);
      q + 1
    else
      assert q == -1;
      1
  }

  lemma CeilingBounds(n: nat, perPage: nat)
    requires perPage > 0 && n > 0
    ensures (n - 1) / perPage >= 0
    ensures (n - 1) / perPage * perPage < n <= ((n - 1) / perPage + 1) * perPage
  {
    var q, r := (n - 1) / perPage, (n - 1) % perPage;
    assert n - 1 == q * perPage + r && 0 <= r < perPage;
    assert (q + 1) * perPage == q * perPage + perPage;
  }

  /** The riddle list's page count, `(n - 1) // per_page + 1 if questions else 1`,
      agrees with the leaderboard's formula. */
  lemma ListPageCountAgrees(n: nat, perPage: nat)
    requires perPage > 0
    ensures (if n > 0 then (n - 1) / perPage + 1 else 1) == TotalPages(n, perPage)
  {
    if n > 0 {
      assert (n - 1) / perPage >= 0;
    }
  }

  /** `s[start:end]` for page `page`, clamped to the list as Python slicing is. */
  function PageEntries<T>(s: seq<T>, page: nat, perPage: nat): (r: seq<T>)
    ensures |r| <= perPage
    ensures |r| == PageLength(|s|, page, perPage)
    ensures forall j :: 0 <= j < |r| ==> r[j] == s[page * perPage + j]
  {
    var start := if page * perPage <= |s| then page * perPage else |s|;
    var end := if start + perPage <= |s| then start + perPage else |s|;
    s[start..end]
  }

  /** How many rows page `page` holds: a full page, the rest of the list on the last page,
      and none past the end. */
  function PageLength(n: nat, page: nat, perPage: nat): nat
  {
    if page * perPage >= n then 0
    else if n - page * perPage < perPage then n - page * perPage
    else perPage
  }

  /** Every entry shows on exactly the page its position falls on, at the matching row,
      and that page is within the page count. */
  lemma EntryOnItsPage<T>(s: seq<T>, i: nat, perPage: nat)
    requires perPage > 0 && i < |s|
    ensures i / perPage < TotalPages(|s|, perPage)
    ensures i % perPage < |PageEntries(s, i / perPage, perPage)|
    ensures PageEntries(s, i / perPage, perPage)[i % perPage] == s[i]
  {
    PageOfIndexInRange(|s|, i, perPage);
    RowOnPage(s, i, perPage);
  }

  lemma RowOnPage<T>(s: seq<T>, i: nat, perPage: nat)
    requires perPage > 0 && i < |s|
    ensures i % perPage < |PageEntries(s, i / perPage, perPage)|
    ensures PageEntries(s, i / perPage, perPage)[i % perPage] == s[i]
  {
    var page, row := i / perPage, i % perPage;
    DivModSplit(i, perPage);
    RowWithinPage(|s|, page * perPage, row, perPage);
  }

  lemma DivModSplit(i: nat, d: nat)
    requires d > 0
    ensures i == i / d * d + i % d && 0 <= i % d < d
  {
  }

  lemma RowWithinPage(n: nat, start: nat, row: nat, perPage: nat)
    requires row < perPage && start + row < n
    ensures row < (if start >= n then 0 else if n - start < perPage then n - start else perPage)
  {
  }

  lemma PageOfIndexInRange(n: nat, i: nat, perPage: nat)
    requires perPage > 0 && i < n
    ensures i / perPage < TotalPages(n, perPage)
  {
    var page, p := i / perPage, TotalPages(n, perPage);
    assert page * perPage <= i;
    assert n <= p * perPage;
    if page >= p {
      MultiplyMonotone(p, page, perPage);
      assert false;
    }
  }

  lemma MultiplyMonotone(a: nat, b: nat, c: nat)
    requires a <= b
    ensures a * c <= b * c
  {
    assert b * c == a * c + (b - a) * c;
  }

  /** A page inside the page count of a non-empty list is never empty. */
  lemma PageInRangeNotEmpty<T>(s: seq<T>, page: nat, perPage: nat)
    requires perPage > 0 && s != [] && page < TotalPages(|s|, perPage)
    ensures PageEntries(s, page, perPage) != []
  {
    var p := TotalPages(|s|, perPage);
    MultiplyMonotone(page, p - 1, perPage);
  }

  /** Any page slice of an ordered list is ordered. */
  lemma PageKeepsOrder(s: seq<Entry>, page: nat, perPage: nat)
    requires NonIncreasing(s)
    ensures NonIncreasing(PageEntries(s, page, perPage))
  {
    var r, start := PageEntries(s, page, perPage), page * perPage;
    forall a, b | 0 <= a < b < |r|
      ensures EntryValue(r[a]) >= EntryValue(r[b])
    {
      assert r[a] == s[start + a] && r[b] == s[start + b];
    }
  }

  /** What a button press did. */
  datatype PageOutcome = Moved | AlreadyFirst | AlreadyLast | NotYourView

  /** The `/leaderboard` view: sorted scores, a page count fixed at creation and the
      page on show. Only the user who opened it may turn its pages. */
  class LeaderboardView {
    const owner: string
    const sortedScores: seq<Entry>
    const totalPages: nat
    var currentPage: nat

    ghost predicate Valid()
      reads this
    {
      && NonIncreasing(sortedScores)
      && totalPages == TotalPages(|sortedScores|, PageSize)
      && currentPage < totalPages
    }

    constructor (owner: string, items: seq<Entry>)
      ensures Valid()
      ensures this.owner == owner && sortedScores == SortByScore(items) && currentPage == 0
    {
      this.owner := owner;
      sortedScores := SortByScore(items);
      totalPages := TotalPages(|items|, PageSize);
      currentPage := 0;
    }

    /** The rows on the current page. */
    function Shown(): (r: seq<Entry>)
      reads this
      requires Valid()
      ensures |r| <= PageSize
      ensures |r| == PageLength(|sortedScores|, currentPage, PageSize)
      ensures forall j :: 0 <= j < |r| ==> r[j] == sortedScores[currentPage * PageSize + j]
      ensures sortedScores != [] ==> r != []
      ensures NonIncreasing(r)
    {
      PageKeepsOrder(sortedScores, currentPage, PageSize);
      if sortedScores == [] then PageEntries(sortedScores, currentPage, PageSize)
      else
        PageInRangeNotEmpty(sortedScores, currentPage, PageSize);
        PageEntries(sortedScores, currentPage, PageSize)
    }

    method Previous(user: string) returns (outcome: PageOutcome)
      requires Valid()
      modifies this`currentPage
      ensures Valid()
      ensures user != owner ==> outcome == NotYourView && currentPage == old(currentPage)
      ensures user == owner && old(currentPage) > 0 ==> outcome == Moved && currentPage == old(currentPage) - 1
      ensures user == owner && old(currentPage) == 0 ==> outcome == AlreadyFirst && currentPage == 0
    {
      if user != owner {
        return NotYourView;
      }
      if currentPage > 0 {
        currentPage := currentPage - 1;
        outcome := Moved;
      } else {
        outcome := AlreadyFirst;
      }
    }

    method Next(user: string) returns (outcome: PageOutcome)
      requires Valid()
      modifies this`currentPage
      ensures Valid()
      ensures user != owner ==> outcome == NotYourView && currentPage == old(currentPage)
      ensures user == owner && old(currentPage) < totalPages - 1 ==>
        outcome == Moved && currentPage == old(currentPage) + 1
      ensures user == owner && old(currentPage) == totalPages - 1 ==>
        outcome == AlreadyLast && currentPage == old(currentPage)
    {
      if user != owner {
        return NotYourView;
      }
      if currentPage < totalPages - 1 {
        currentPage := currentPage + 1;
        outcome := Moved;
      } else {
        outcome := AlreadyLast;
      }
    }
  }

  /** The `/listquestions` view. Unlike the leaderboard it turns the page first and only
      then checks who pressed the button, so another user's press still moves it. */
  class QuestionListView {
    const owner: string
    const questions: seq<Riddle>
    const perPage: nat
    const totalPages: nat
    var currentPage: nat

    ghost predicate Valid()
      reads this
    {
      perPage > 0 && totalPages == TotalPages(|questions|, perPage) && currentPage < totalPages
    }

    constructor (owner: string, questions: seq<Riddle>, perPage: nat)
      requires perPage > 0
      ensures Valid()
      ensures this.owner == owner && this.questions == questions && this.perPage == perPage
      ensures currentPage == 0
    {
      this.owner := owner;
      this.questions := questions;
      this.perPage := perPage;
      ListPageCountAgrees(|questions|, perPage);
      totalPages := if |questions| > 0 then (|questions| - 1) / perPage + 1 else 1;
      currentPage := 0;
    }

    /** The riddles on the current page. */
    function Shown(): (r: seq<Riddle>)
      reads this
      requires Valid()
      ensures |r| <= perPage
      ensures |r| == PageLength(|questions|, currentPage, perPage)
      ensures forall j :: 0 <= j < |r| ==> r[j] == questions[currentPage * perPage + j]
      ensures questions != [] ==> r != []
    {
      if questions == [] then PageEntries(questions, currentPage, perPage)
      else
        PageInRangeNotEmpty(questions, currentPage, perPage);
        PageEntries(questions, currentPage, perPage)
    }

    method Previous(user: string) returns (outcome: PageOutcome)
      requires Valid()
      modifies this`currentPage
      ensures Valid()
      ensures old(currentPage) > 0 ==>
        currentPage == old(currentPage) - 1 && outcome == (if user == owner then Moved else NotYourView)
      ensures old(currentPage) == 0 ==> outcome == AlreadyFirst && currentPage == 0
    {
      if currentPage > 0 {
        currentPage := currentPage - 1;
        outcome := if user == owner then Moved else NotYourView;
      } else {
        outcome := AlreadyFirst;
      }
    }

    method Next(user: string) returns (outcome: PageOutcome)
      requires Valid()
      modifies this`currentPage
      ensures Valid()
      ensures old(currentPage) < totalPages - 1 ==>
        currentPage == old(currentPage) + 1 && outcome == (if user == owner then Moved else NotYourView)
      ensures old(currentPage) == totalPages - 1 ==> outcome == AlreadyLast && currentPage == old(currentPage)
    {
      if currentPage < totalPages - 1 {
        currentPage := currentPage + 1;
        outcome := if user == owner then Moved else NotYourView;
      } else {
        outcome := AlreadyLast;
      }
    }
  }
}
