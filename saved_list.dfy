/** The list of saved itineraries (`SavedItineraries`): a case-insensitive search on the name,
    a sort by name in either direction, pages of five, and the step count shown next to each
    name. */
module SavedList {
  import opened Text
  import opened Domain
  import opened I18n
  import opened Parcours

  const ItemsPerPage: nat := 5

  /** `name.toLowerCase().includes(term.toLowerCase())`. */
  predicate NameMatches(name: string, term: string)
    ensures NameMatches(name, term) ==> |term| <= |name|
  {
    Contains(LowerAscii(name), LowerAscii(term))
  }

  /** Every name contains the empty search term. */
  lemma EmptyTermMatches(name: string)
    ensures NameMatches(name, "")
  {
    assert LowerAscii("") == "";
    assert OccursAt(LowerAscii(name), "", 0);
  }

  /** The search ignores the case of ASCII letters on both sides. */
  lemma MatchIgnoresCase(name: string, term: string)
    ensures NameMatches(LowerAscii(name), term) == NameMatches(name, term)
    ensures NameMatches(name, LowerAscii(term)) == NameMatches(name, term)
  {
    LowerAsciiIdempotent(name);
    LowerAsciiIdempotent(term);
  }

  /** The test `it => it.request.name.toLowerCase().includes(term.toLowerCase())`. */
  function MatchesTerm<W>(term: string): SavedItinerary<W> -> bool {
    (it: SavedItinerary<W>) => NameMatches(it.request.name, term)
  }

  /** The entries whose name matches the search term, in their stored order. */
  function FilterByName<W>(items: seq<SavedItinerary<W>>, term: string): (r: seq<SavedItinerary<W>>)
    ensures |r| <= |items|
    ensures forall i :: 0 <= i < |r| ==> NameMatches(r[i].request.name, term)
  {
    Filter(items, MatchesTerm(term))
  }

  /** The filter keeps exactly the stored entries whose name matches. */
  lemma {:induction false} FilterByNameKeeps<W>(items: seq<SavedItinerary<W>>, term: string)
    ensures forall x :: x in FilterByName(items, term) <==> x in items && NameMatches(x.request.name, term)
  {
    if items != [] {
      FilterByNameKeeps(items[1..], term);
      assert forall x :: x in items <==> x == items[0] || x in items[1..];
    }
  }

  /** An empty search keeps the whole list. */
  lemma {:induction false} EmptyTermKeepsAll<W>(items: seq<SavedItinerary<W>>)
    ensures FilterByName(items, "") == items
  {
    if items != [] {
      EmptyTermMatches(items[0].request.name);
      EmptyTermKeepsAll(items[1..]);
    }
  }

  datatype SortOrder = Asc | Desc

  /** `prev === 'asc' ? 'desc' : 'asc'`. */
  function Flip(order: SortOrder): (r: SortOrder)
    ensures r != order
  {
    if order == Asc then Desc else Asc
  }

  /** The comparator handed to `sort`: `localeCompare` of the names, with the arguments swapped
      for the descending order. The collation itself is the parameter `cmp`. */
  function Compare<W>(order: SortOrder, cmp: (string, string) -> int, a: SavedItinerary<W>, b: SavedItinerary<W>): int {
    match order
    case Asc => cmp(a.request.name, b.request.name)
    case Desc => cmp(b.request.name, a.request.name)
  }

  /** Reversing the order compares with swapped arguments. */
  lemma FlipSwaps<W>(order: SortOrder, cmp: (string, string) -> int, a: SavedItinerary<W>, b: SavedItinerary<W>)
    ensures Compare(Flip(order), cmp, a, b) == Compare(order, cmp, b, a)
  {
  }

  predicate InOrder<W>(order: SortOrder, cmp: (string, string) -> int, a: SavedItinerary<W>, b: SavedItinerary<W>) {
    Compare(order, cmp, a, b) <= 0
  }

  /** Of two names, one never sorts after the other: `localeCompare` is a total order. */
  ghost predicate Total(cmp: (string, string) -> int) {
    forall x, y :: cmp(x, y) <= 0 || cmp(y, x) <= 0
  }

  predicate Sorted<W>(s: seq<SavedItinerary<W>>, order: SortOrder, cmp: (string, string) -> int) {
    forall i :: 0 <= i < |s| - 1 ==> InOrder(order, cmp, s[i], s[i + 1])
  }

  /** Puts `x` before the first entry it does not sort after. */
  function Insert<W>(x: SavedItinerary<W>, s: seq<SavedItinerary<W>>, order: SortOrder, cmp: (string, string) -> int)
    : (r: seq<SavedItinerary<W>>)
    ensures |r| == |s| + 1
    ensures multiset(r) == multiset(s) + multiset{x}
    ensures r[0] == x || (s != [] && r[0] == s[0])
  {
    if s == [] || InOrder(order, cmp, x, s[0]) then [x] + s
    else
      var r := [s[0]] + Insert(x, s[1..], order, cmp);
      assert s == [s[0]] + s[1..];
      r
  }

  /** A sort by the comparator: entries are inserted from the last to the first, each one
      ahead of the entries it ties with. */
  function Sort<W>(s: seq<SavedItinerary<W>>, order: SortOrder, cmp: (string, string) -> int)
    : (r: seq<SavedItinerary<W>>)
    ensures |r| == |s|
    ensures multiset(r) == multiset(s)
  {
    if s == [] then []
    else
      var r := Insert(s[0], Sort(s[1..], order, cmp), order, cmp);
      assert s == [s[0]] + s[1..];
      r
  }

  lemma {:induction false} InsertSorted<W>(x: SavedItinerary<W>, s: seq<SavedItinerary<W>>, order: SortOrder, cmp: (string, string) -> int)
    requires Total(cmp) && Sorted(s, order, cmp)
    ensures Sorted(Insert(x, s, order, cmp), order, cmp)
  {
    if s != [] && !InOrder(order, cmp, x, s[0]) {
      var tail := s[1..];
      forall i | 0 <= i < |tail| - 1 ensures InOrder(order, cmp, tail[i], tail[i + 1]) {
        assert tail[i] == s[i + 1] && tail[i + 1] == s[i + 2];
      }
      InsertSorted(x, tail, order, cmp);
      var t := Insert(x, tail, order, cmp);
      // the head of `t` is `x`, which `s[0]` precedes by totality, or `s[1]`
      assert cmp(x.request.name, s[0].request.name) <= 0 || cmp(s[0].request.name, x.request.name) <= 0;
      assert InOrder(order, cmp, s[0], t[0]);
      var r := [s[0]] + t;
      assert forall i :: 1 <= i < |r| - 1 ==> r[i] == t[i - 1] && r[i + 1] == t[i];
    }
  }

  /** Under a total collation the sort orders the list. */
  lemma {:induction false} SortSorted<W>(s: seq<SavedItinerary<W>>, order: SortOrder, cmp: (string, string) -> int)
    requires Total(cmp)
    ensures Sorted(Sort(s, order, cmp), order, cmp)
  {
    if s != [] {
      SortSorted(s[1..], order, cmp);
      InsertSorted(s[0], Sort(s[1..], order, cmp), order, cmp);
    }
  }

  /** `filteredAndSortedItineraries`. */
  function Arrange<W>(items: seq<SavedItinerary<W>>, term: string, order: SortOrder, cmp: (string, string) -> int)
    : (r: seq<SavedItinerary<W>>)
    ensures |r| <= |items|
    ensures forall i :: 0 <= i < |r| ==> r[i] in items && NameMatches(r[i].request.name, term)
  {
    var f := FilterByName(items, term);
    var r := Sort(f, order, cmp);
    SameMultisetMembers(f, r);
    FilterByNameKeeps(items, term);
    r
  }

  /** Every entry of a permutation of `f` is an entry of `f`. */
  lemma SameMultisetMembers<T>(f: seq<T>, r: seq<T>)
    requires multiset(r) == multiset(f)
    ensures forall i :: 0 <= i < |r| ==> r[i] in f
  {
    forall i | 0 <= i < |r| ensures r[i] in f {
      assert r[i] in multiset(r);
    }
  }

  /** The arranged list holds exactly the matching entries, each as often as stored, and is in
      order under a total collation. */
  lemma ArrangeSpec<W>(items: seq<SavedItinerary<W>>, term: string, order: SortOrder, cmp: (string, string) -> int)
    ensures multiset(Arrange(items, term, order, cmp)) == multiset(FilterByName(items, term))
    ensures forall x :: x in Arrange(items, term, order, cmp) <==> x in items && NameMatches(x.request.name, term)
    ensures Total(cmp) ==> Sorted(Arrange(items, term, order, cmp), order, cmp)
    ensures forall x :: (multiset(Arrange(items, term, order, cmp))[x]
      == if NameMatches(x.request.name, term) then multiset(items)[x] else 0)
  {
    var f := FilterByName(items, term);
    forall x ensures multiset(Arrange(items, term, order, cmp))[x]
      == if NameMatches(x.request.name, term) then multiset(items)[x] else 0
    {
      FilterCount(items, MatchesTerm(term), x);
    }
    FilterByNameKeeps(items, term);
    assert forall x :: x in Arrange(items, term, order, cmp) <==> x in multiset(f);
    if Total(cmp) {
      SortSorted(f, order, cmp);
    }
  }

  /** `Math.ceil(n / ITEMS_PER_PAGE)`. */
  function TotalPages(n: nat): (r: nat)
    ensures r * ItemsPerPage >= n
    ensures n > 0 ==> (r - 1) * ItemsPerPage < n
    ensures n == 0 ==> r == 0
  {
    (n + ItemsPerPage - 1) / ItemsPerPage
  }

  /** `s.slice(start, end)` (ECMA-262, section 23.1.3.28): both ends counted from the end when
      negative and clamped to the list; nothing when the end comes first. */
  function Slice<T>(s: seq<T>, start: int, end: int): seq<T> {
    var from := SpliceStart(|s|, start);
    var to := SpliceStart(|s|, end);
    if from <= to then s[from..to] else []
  }

  /** The entries shown on page `page`. */
  function Page<T>(s: seq<T>, page: int): (r: seq<T>)
    ensures |r| <= ItemsPerPage
  {
    Slice(s, (page - 1) * ItemsPerPage, page * ItemsPerPage)
  }

  function Min(a: int, b: int): int {
    if a <= b then a else b
  }

  /** A page holds at most five entries: those from position `(page - 1) * 5` on. Pages
      1 to `TotalPages` are not empty, and every later page is. */
  lemma PageContents<T>(s: seq<T>, page: int)
    requires page >= 1
    ensures |Page(s, page)| <= ItemsPerPage
    ensures (page - 1) * ItemsPerPage <= |s| ==>
      Page(s, page) == s[(page - 1) * ItemsPerPage..Min(page * ItemsPerPage, |s|)]
    ensures Page(s, page) != [] <==> page <= TotalPages(|s|)
  {
  }

  /** Pages 1 to `k`, one after the other. */
  function Pages<T>(s: seq<T>, k: nat): seq<T> {
    if k == 0 then [] else Pages(s, k - 1) + Page(s, k)
  }

  lemma {:induction false} PagesPrefix<T>(s: seq<T>, k: nat)
    ensures Pages(s, k) == s[..Min(k * ItemsPerPage, |s|)]
  {
    if k > 0 {
      PagesPrefix(s, k - 1);
      PageContents(s, k);
      if (k - 1) * ItemsPerPage <= |s| {
        var a := Min((k - 1) * ItemsPerPage, |s|);
        var b := Min(k * ItemsPerPage, |s|);
        assert s[..a] + s[a..b] == s[..b];
      }
    }
  }

  /** The pages, taken in order, are the whole list: no entry is shown twice, none is missed. */
  lemma PagesCoverList<T>(s: seq<T>)
    ensures Pages(s, TotalPages(|s|)) == s
  {
    PagesPrefix(s, TotalPages(|s|));
  }

  /** `stepsText`: ` (<count> <word>)` for the steps between start and destination, or
      nothing when there are none. */
  function StepsText(lang: Language, parcoursLength: int): (r: string)
    ensures r == "" <==> parcoursLength <= 2
  {
    var count := parcoursLength - 2;
    if count > 0 then
      " (" + DecimalString(count) + " " + (if count > 1 then StepPlural(lang) else StepSingular(lang)) + ")"
    else ""
  }

  /** The text is empty exactly when there is no step; otherwise its number reads back as the
      count of steps and the word is singular exactly for one step. */
  lemma StepsTextShape(lang: Language, parcoursLength: int)
    ensures StepsText(lang, parcoursLength) == "" <==> parcoursLength <= 2
    ensures parcoursLength > 2 ==>
      var digits := DecimalString(parcoursLength - 2);
      var t := StepsText(lang, parcoursLength);
      && |t| > 2 + |digits|
      && t[..2] == " ("
      && DecimalValue(t[2..2 + |digits|]) == parcoursLength - 2
      && (parcoursLength == 3 <==> t[2 + |digits|..] == " " + StepSingular(lang) + ")")
  {
    if parcoursLength > 2 {
      var count := parcoursLength - 2;
      var digits := DecimalString(count);
      var word := if count > 1 then StepPlural(lang) else StepSingular(lang);
      StepsTextParts(digits, word);
      DecimalRoundTrip(count);
      WordsDiffer(lang);
    }
  }

  lemma StepsTextParts(digits: string, word: string)
    ensures var t := " (" + digits + " " + word + ")";
      && |t| > 2 + |digits|
      && t[..2] == " (" && t[2..2 + |digits|] == digits && t[2 + |digits|..] == " " + word + ")"
  {
  }

  /** The plural word is never the singular one. */
  lemma WordsDiffer(lang: Language)
    ensures " " + StepPlural(lang) + ")" != " " + StepSingular(lang) + ")"
  {
    var p, q := StepPlural(lang), StepSingular(lang);
    assert p != q;
    assert (" " + p + ")")[1..|p| + 1] == p;
    assert (" " + q + ")")[1..|q| + 1] == q;
  }

  /** The page to show after the list changed under it: the current page when it still exists,
      otherwise the last one. */
  function ClampPage(page: int, total: nat): (r: int)
    requires page >= 1
    ensures r >= 1
    ensures total >= 1 ==> r <= total
    ensures 1 <= page <= total ==> r == page
  {
    if page > total && total >= 1 then total else page
  }

  /** With the page clamped, a non-empty list always shows a non-empty page. */
  lemma ClampedPageNotEmpty<T>(s: seq<T>, page: int)
    requires page >= 1 && s != []
    ensures Page(s, ClampPage(page, TotalPages(|s|))) != []
  {
    PageContents(s, ClampPage(page, TotalPages(|s|)));
  }

  /** As written, the current page is kept when the list shrinks: five entries with page 2 open,
      as after deleting the sixth, show an empty page, and with one page in all the page
      controls are hidden, so the entries cannot be reached. */
  lemma StrandedAfterShrink<T>(s: seq<T>)
    requires |s| == ItemsPerPage
    ensures 2 <= TotalPages(|s| + 1)
    ensures Page(s, 2) == [] && !(TotalPages(|s|) > 1)
  {
    PageContents(s, 2);
  }

  /** The search box, the sort direction and the page of the saved list. */
  class SavedListView {
    var searchTerm: string
    var sortOrder: SortOrder
    var currentPage: int

    constructor()
      ensures searchTerm == "" && sortOrder == Asc && currentPage == 1
      ensures Valid()
    {
      searchTerm := "";
      sortOrder := Asc;
      currentPage := 1;
    }

    predicate Valid()
      reads this
    {
      currentPage >= 1
    }

    /** `totalPages` for the stored entries: no page exactly when nothing matches. */
    function PageCount<W>(items: seq<SavedItinerary<W>>): (r: nat)
      reads this
      ensures r == 0 <==> FilterByName(items, searchTerm) == []
      ensures r * ItemsPerPage >= |FilterByName(items, searchTerm)|
    {
      TotalPages(|FilterByName(items, searchTerm)|)
    }

    /** The entries on the current page (`paginatedItineraries`): at most one page of them,
        each stored and matching the search term. */
    function Shown<W>(items: seq<SavedItinerary<W>>, cmp: (string, string) -> int): (r: seq<SavedItinerary<W>>)
      requires Valid()
      reads this
      ensures |r| <= ItemsPerPage
      ensures forall x :: x in r ==> x in items && NameMatches(x.request.name, searchTerm)
    {
      var arranged := Arrange(items, searchTerm, sortOrder, cmp);
      PageContents(arranged, currentPage);
      Page(arranged, currentPage)
    }

    /** The corrected page: clamped to the pages that exist. */
    function ShownClamped<W>(items: seq<SavedItinerary<W>>, cmp: (string, string) -> int): (r: seq<SavedItinerary<W>>)
      requires Valid()
      reads this
      ensures FilterByName(items, searchTerm) != [] ==> r != []
    {
      var arranged := Arrange(items, searchTerm, sortOrder, cmp);
      if arranged == [] then []
      else
        ClampedPageNotEmpty(arranged, currentPage);
        Page(arranged, ClampPage(currentPage, TotalPages(|arranged|)))
    }

    /** `handlePageChange`: only a page between 1 and `totalPages` is taken. */
    method PageChange<W>(items: seq<SavedItinerary<W>>, newPage: int)
      modifies this
      ensures searchTerm == old(searchTerm) && sortOrder == old(sortOrder)
      ensures currentPage == if 1 <= newPage <= old(PageCount(items)) then newPage else old(currentPage)
      ensures old(Valid()) ==> Valid()
    {
      var total := TotalPages(|FilterByName(items, searchTerm)|);
      if newPage >= 1 && newPage <= total {
        currentPage := newPage;
      }
    }

    /** `toggleSortOrder`. */
    method ToggleSortOrder()
      modifies this
      ensures sortOrder == Flip(old(sortOrder))
      ensures searchTerm == old(searchTerm) && currentPage == old(currentPage)
      ensures old(Valid()) ==> Valid()
    {
      sortOrder := if sortOrder == Asc then Desc else Asc;
    }

    /** Typing in the search box: the new term, back on the first page. */
    method SearchChange(term: string)
      modifies this
      ensures searchTerm == term && currentPage == 1 && sortOrder == old(sortOrder)
      ensures Valid()
    {
      searchTerm := term;
      currentPage := 1;
    }
  }

  /** Toggling twice restores the sort direction. */
  lemma FlipTwice(order: SortOrder)
    ensures Flip(Flip(order)) == order
  {
  }
}
