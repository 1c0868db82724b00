/**
 * The backlog table page (frontend/src/pages/Home.jsx): the component state
 * {backlog, sortBy, sortDirection, search}, the header-click toggle, the
 * derived sorted and filtered lists, and the reconciliation of a vote
 * response into the backlog.
 *
 * `localeCompare` on lower-cased strings is modelled by `LexCompare` on
 * ASCII-lower-cased strings; `Array.prototype.sort`, which is stable, by a
 * stable insertion sort.
 */
module Home {

  import opened Wrappers
  import opened Strings
  import opened IdeaRecords

  datatype Direction = Asc | Desc

  function Flip(d: Direction): (r: Direction)
    ensures r != d
  {
    if d == Asc then Desc else Asc
  }

  // ---------------------------------------------------------------------
  // The comparator

  /**
   * `item[key].toString().toLowerCase()`. For a null column `toString`
   * throws; `SortThrows` accounts for that, and the "" here is never
   * consulted on a list the comparator actually runs on.
   */
  function KeyText(item: Idea, key: SortKey): (r: string)
    ensures forall i :: 0 <= i < |r| ==> !IsUpper(r[i])
    ensures item.KeyValue(key).Str? ==> EqualUpToCase(r, item.KeyValue(key).s)
  {
    match item.KeyValue(key)
    case Str(s) => LowerEqualUpToCase(s); Lower(s)
    case Null => ""
  }

  /** The comparator passed to `sort`: 0 when no column is chosen. */
  function Compare(sortBy: Option<SortKey>, dir: Direction, a: Idea, b: Idea): (r: int)
    ensures -1 <= r <= 1
    ensures sortBy.None? ==> r == 0
    ensures sortBy.Some? ==> (r == 0 <==> KeyText(a, sortBy.value) == KeyText(b, sortBy.value))
  {
    match sortBy
    case None => 0
    case Some(k) =>
      if dir == Asc then LexCompare(KeyText(a, k), KeyText(b, k))
      else LexCompare(KeyText(b, k), KeyText(a, k))
  }

  /** Column values that differ only in ASCII case tie under the comparator. */
  lemma CompareIgnoresCase(key: SortKey, dir: Direction, a: Idea, b: Idea)
    requires a.KeyValue(key).Str? && b.KeyValue(key).Str?
    requires EqualUpToCase(a.KeyValue(key).s, b.KeyValue(key).s)
    ensures Compare(Some(key), dir, a, b) == 0
  {
    LowerCaseInsensitive(a.KeyValue(key).s, b.KeyValue(key).s);
  }

  lemma CompareAntisymmetric(sortBy: Option<SortKey>, dir: Direction, a: Idea, b: Idea)
    ensures Compare(sortBy, dir, a, b) == -Compare(sortBy, dir, b, a)
  {
    if sortBy.Some? {
      LexAntisymmetric(KeyText(a, sortBy.value), KeyText(b, sortBy.value));
    }
  }

  lemma CompareTransitive(sortBy: Option<SortKey>, dir: Direction, a: Idea, b: Idea, c: Idea)
    requires Compare(sortBy, dir, a, b) <= 0 && Compare(sortBy, dir, b, c) <= 0
    ensures Compare(sortBy, dir, a, c) <= 0
  {
    if sortBy.Some? {
      var k := sortBy.value;
      if dir == Asc {
        LexTransitive(KeyText(a, k), KeyText(b, k), KeyText(c, k));
      } else {
        LexTransitive(KeyText(c, k), KeyText(b, k), KeyText(a, k));
      }
    }
  }

  /** Items the comparator calls equal compare alike against everything. */
  lemma CompareTiesAlike(sortBy: Option<SortKey>, dir: Direction, a: Idea, b: Idea, c: Idea)
    requires Compare(sortBy, dir, a, b) == 0
    ensures Compare(sortBy, dir, a, c) == Compare(sortBy, dir, b, c)
  {
  }

  // ---------------------------------------------------------------------
  // A stable sort

  predicate Ordered(items: seq<Idea>, sortBy: Option<SortKey>, dir: Direction)
  {
    forall i :: 0 <= i < |items| - 1 ==> Compare(sortBy, dir, items[i], items[i + 1]) <= 0
  }

  /** Insert `x` after every element that does not compare above it. */
  function Insert(sorted: seq<Idea>, x: Idea, sortBy: Option<SortKey>, dir: Direction): (r: seq<Idea>)
    ensures |r| == |sorted| + 1
    ensures multiset(r) == multiset(sorted) + multiset{x}
    ensures r[|r| - 1] == x || (sorted != [] && r[|r| - 1] == sorted[|sorted| - 1])
    decreases |sorted|
  {
    if sorted == [] then [x]
    else
      var init, last := sorted[..|sorted| - 1], sorted[|sorted| - 1];
      assert sorted == init + [last];
      if Compare(sortBy, dir, last, x) <= 0 then sorted + [x]
      else Insert(init, x, sortBy, dir) + [last]
  }

  lemma OrderedPrefix(s: seq<Idea>, sortBy: Option<SortKey>, dir: Direction)
    requires s != [] && Ordered(s, sortBy, dir)
    ensures Ordered(s[..|s| - 1], sortBy, dir)
  {
    var init := s[..|s| - 1];
    forall i | 0 <= i < |init| - 1
      ensures Compare(sortBy, dir, init[i], init[i + 1]) <= 0
    {
      assert init[i] == s[i] && init[i + 1] == s[i + 1];
    }
  }

  lemma OrderedSnoc(s: seq<Idea>, x: Idea, sortBy: Option<SortKey>, dir: Direction)
    requires Ordered(s, sortBy, dir)
    requires s != [] ==> Compare(sortBy, dir, s[|s| - 1], x) <= 0
    ensures Ordered(s + [x], sortBy, dir)
  {
    var r := s + [x];
    forall i | 0 <= i < |r| - 1
      ensures Compare(sortBy, dir, r[i], r[i + 1]) <= 0
    {
      if i < |s| - 1 {
        assert r[i] == s[i] && r[i + 1] == s[i + 1];
      } else {
        assert r[i] == s[|s| - 1] && r[i + 1] == x;
      }
    }
  }

  lemma {:induction false} InsertOrdered(sorted: seq<Idea>, x: Idea, sortBy: Option<SortKey>, dir: Direction)
    requires Ordered(sorted, sortBy, dir)
    ensures Ordered(Insert(sorted, x, sortBy, dir), sortBy, dir)
    decreases |sorted|
  {
    if sorted == [] {
      OrderedSnoc([], x, sortBy, dir);
      assert [] + [x] == [x];
    } else {
      var init, last := sorted[..|sorted| - 1], sorted[|sorted| - 1];
      if Compare(sortBy, dir, last, x) <= 0 {
        OrderedSnoc(sorted, x, sortBy, dir);
      } else {
        OrderedPrefix(sorted, sortBy, dir);
        InsertOrdered(init, x, sortBy, dir);
        var front := Insert(init, x, sortBy, dir);
        CompareAntisymmetric(sortBy, dir, last, x);
        if init != [] {
          assert sorted[|sorted| - 2] == init[|init| - 1];
          assert Compare(sortBy, dir, init[|init| - 1], last) <= 0;
        }
        OrderedSnoc(front, last, sortBy, dir);
      }
    }
  }

  /** Stable insertion sort: each element is inserted into the sorted prefix before it. */
  function SortItems(items: seq<Idea>, sortBy: Option<SortKey>, dir: Direction): (r: seq<Idea>)
    ensures multiset(r) == multiset(items)
    ensures Ordered(r, sortBy, dir)
    decreases |items|
  {
    if items == [] then []
    else
      var init, last := items[..|items| - 1], items[|items| - 1];
      assert items == init + [last];
      var sortedInit := SortItems(init, sortBy, dir);
      InsertOrdered(sortedInit, last, sortBy, dir);
      Insert(sortedInit, last, sortBy, dir)
  }

  // ---------------------------------------------------------------------
  // Filtering

  function Filter<T>(s: seq<T>, p: T -> bool): (r: seq<T>)
    ensures |r| <= |s|
    ensures forall i :: 0 <= i < |r| ==> p(r[i])
    decreases |s|
  {
    if s == [] then [] else (if p(s[0]) then [s[0]] else []) + Filter(s[1..], p)
  }

  /** Filtering keeps order: it distributes over concatenation. */
  lemma {:induction false} FilterConcat<T>(a: seq<T>, b: seq<T>, p: T -> bool)
    ensures Filter(a + b, p) == Filter(a, p) + Filter(b, p)
    decreases |a|
  {
    if a == [] {
      assert a + b == b;
    } else {
      assert (a + b)[0] == a[0] && (a + b)[1..] == a[1..] + b;
      FilterConcat(a[1..], b, p);
    }
  }

  lemma {:induction false} FilterMembership<T>(s: seq<T>, p: T -> bool, x: T)
    ensures x in Filter(s, p) <==> x in s && p(x)
    decreases |s|
  {
    if s != [] {
      FilterMembership(s[1..], p, x);
      assert s == [s[0]] + s[1..];
    }
  }

  lemma {:induction false} FilterAll<T>(s: seq<T>, p: T -> bool)
    requires forall i :: 0 <= i < |s| ==> p(s[i])
    ensures Filter(s, p) == s
    decreases |s|
  {
    if s != [] {
      FilterAll(s[1..], p);
      assert s == [s[0]] + s[1..];
    }
  }

  // ---------------------------------------------------------------------
  // Stability

  /** The items the comparator cannot tell apart from `x0`. */
  function TiedWith(sortBy: Option<SortKey>, dir: Direction, x0: Idea): Idea -> bool
  {
    (y: Idea) => Compare(sortBy, dir, y, x0) == 0
  }

  lemma FilterSingleton<T>(x: T, p: T -> bool)
    ensures Filter([x], p) == if p(x) then [x] else []
  {
    assert [x][1..] == [];
  }

  /** An item passed over by the insertion compares above `x`, so it cannot be tied with `x`'s ties. */
  lemma PassedOverNotTied(sortBy: Option<SortKey>, dir: Direction, x: Idea, x0: Idea, y: Idea)
    requires Compare(sortBy, dir, y, x) > 0
    requires Compare(sortBy, dir, x, x0) == 0
    ensures Compare(sortBy, dir, y, x0) != 0
  {
    CompareTiesAlike(sortBy, dir, x, x0, y);
    CompareAntisymmetric(sortBy, dir, x, y);
    CompareAntisymmetric(sortBy, dir, x0, y);
  }

  /** The inductive step of `InsertStable`, where `x` goes in front of `last`. */
  lemma PassedOverStable(init: seq<Idea>, front: seq<Idea>, last: Idea, x: Idea,
                         sortBy: Option<SortKey>, dir: Direction, x0: Idea)
    requires Compare(sortBy, dir, last, x) > 0
    requires var tied := TiedWith(sortBy, dir, x0);
      Filter(front, tied) == Filter(init, tied) + Filter([x], tied)
    ensures var tied := TiedWith(sortBy, dir, x0);
      Filter(front + [last], tied) == Filter(init + [last], tied) + Filter([x], tied)
  {
    var tied := TiedWith(sortBy, dir, x0);
    FilterConcat(front, [last], tied);
    FilterConcat(init, [last], tied);
    TiedSingletonsCommute(last, x, sortBy, dir, x0);
    ConcatSwap(Filter(init, tied), Filter([x], tied), Filter([last], tied));
  }

  lemma ConcatSwap<T>(a: seq<T>, b: seq<T>, c: seq<T>)
    requires b + c == c + b
    ensures a + b + c == a + c + b
  {
    calc {
      a + b + c;
      a + (b + c);
      a + (c + b);
      a + c + b;
    }
  }

  /** `x` and an item it was inserted in front of are never both tied with `x0`. */
  lemma TiedSingletonsCommute(last: Idea, x: Idea, sortBy: Option<SortKey>, dir: Direction, x0: Idea)
    requires Compare(sortBy, dir, last, x) > 0
    ensures var tied := TiedWith(sortBy, dir, x0);
      Filter([x], tied) + Filter([last], tied) == Filter([last], tied) + Filter([x], tied)
  {
    var tied := TiedWith(sortBy, dir, x0);
    FilterSingleton(x, tied);
    FilterSingleton(last, tied);
    if tied(x) {
      PassedOverNotTied(sortBy, dir, x, x0, last);
    }
  }

  lemma {:induction false} InsertStable(sorted: seq<Idea>, x: Idea, sortBy: Option<SortKey>, dir: Direction, x0: Idea)
    ensures var tied := TiedWith(sortBy, dir, x0);
      Filter(Insert(sorted, x, sortBy, dir), tied) == Filter(sorted, tied) + Filter([x], tied)
    decreases |sorted|
  {
    var tied := TiedWith(sortBy, dir, x0);
    if sorted == [] {
      assert [] + [x] == [x];
    } else {
      var init, last := sorted[..|sorted| - 1], sorted[|sorted| - 1];
      assert sorted == init + [last];
      if Compare(sortBy, dir, last, x) <= 0 {
        FilterConcat(sorted, [x], tied);
      } else {
        var front := Insert(init, x, sortBy, dir);
        assert Insert(sorted, x, sortBy, dir) == front + [last];
        InsertStable(init, x, sortBy, dir, x0);
        PassedOverStable(init, front, last, x, sortBy, dir, x0);
      }
    }
  }

  /** Items that compare equal keep their relative order. */
  lemma {:induction false} SortStable(items: seq<Idea>, sortBy: Option<SortKey>, dir: Direction, x0: Idea)
    ensures var tied := TiedWith(sortBy, dir, x0);
      Filter(SortItems(items, sortBy, dir), tied) == Filter(items, tied)
    decreases |items|
  {
    if items != [] {
      var tied := TiedWith(sortBy, dir, x0);
      var init, last := items[..|items| - 1], items[|items| - 1];
      assert items == init + [last];
      SortStable(init, sortBy, dir, x0);
      InsertStable(SortItems(init, sortBy, dir), last, sortBy, dir, x0);
      FilterConcat(init, [last], tied);
    }
  }

  /** With no column chosen every comparison is 0, and the sort leaves the list as it is. */
  lemma UnsortedKeepsOrder(items: seq<Idea>, dir: Direction)
    ensures SortItems(items, None, dir) == items
  {
    if items != [] {
      var tied := TiedWith(None, dir, items[0]);
      SortStable(items, None, dir, items[0]);
      var sorted := SortItems(items, None, dir);
      FilterAll(items, tied);
      assert forall i :: 0 <= i < |sorted| ==> sorted[i] in multiset(items);
      FilterAll(sorted, tied);
    }
  }

  // ---------------------------------------------------------------------
  // The derived lists

  /** `sort` calls the comparator on every element of a list of two or more; a null key makes it throw. */
  predicate SortThrows(items: seq<Idea>, sortBy: Option<SortKey>)
    ensures SortThrows(items, sortBy) <==>
              sortBy.Some? && |items| >= 2 && exists x :: x in items && x.KeyValue(sortBy.value).Null?
  {
    sortBy.Some? && |items| >= 2 && exists i | 0 <= i < |items| :: items[i].KeyValue(sortBy.value).Null?
  }

  /** `sortedBacklog`: a sorted copy of the backlog, or `None` when the comparator throws. */
  function SortedBacklog(backlog: seq<Idea>, sortBy: Option<SortKey>, dir: Direction): (r: Option<seq<Idea>>)
    ensures r.None? <==> SortThrows(backlog, sortBy)
    ensures r.Some? ==> |r.value| == |backlog| && multiset(r.value) == multiset(backlog)
    ensures r.Some? ==> Ordered(r.value, sortBy, dir)
    ensures sortBy.None? ==> r == Some(backlog)
  {
    if SortThrows(backlog, sortBy) then None
    else
      UnsortedKeepsOrder(backlog, dir);
      var sorted := SortItems(backlog, sortBy, dir);
      assert |sorted| == |backlog| by {
        assert |multiset(sorted)| == |multiset(backlog)|;
      }
      Some(sorted)
  }

  /**
   * With a column chosen, consecutive rows of the sorted list carry string
   * values whose lower-cased forms ascend for "asc" and descend for "desc".
   */
  lemma SortedByLowercasedColumn(backlog: seq<Idea>, key: SortKey, dir: Direction, i: nat)
    requires SortedBacklog(backlog, Some(key), dir).Some?
    requires i + 1 < |backlog|
    ensures var rows := SortedBacklog(backlog, Some(key), dir).value;
      && rows[i].KeyValue(key).Str? && rows[i + 1].KeyValue(key).Str?
      && var a, b := Lower(rows[i].KeyValue(key).s), Lower(rows[i + 1].KeyValue(key).s);
         if dir == Asc then LexCompare(a, b) <= 0 else LexCompare(b, a) <= 0
  {
    var rows := SortedBacklog(backlog, Some(key), dir).value;
    assert rows[i] in multiset(backlog) && rows[i + 1] in multiset(backlog);
  }

  /** Rows whose columns tie keep the order they had in the backlog. */
  lemma SortedBacklogStable(backlog: seq<Idea>, sortBy: Option<SortKey>, dir: Direction, x0: Idea)
    requires SortedBacklog(backlog, sortBy, dir).Some?
    ensures var tied := TiedWith(sortBy, dir, x0);
      Filter(SortedBacklog(backlog, sortBy, dir).value, tied) == Filter(backlog, tied)
  {
    SortStable(backlog, sortBy, dir, x0);
  }

  predicate HasNullStory(items: seq<Idea>)
  {
    exists i | 0 <= i < |items| :: items[i].story.Null?
  }

  /** The filter callback: the lower-cased story includes the lower-cased search text. */
  function MatchesSearch(search: string): (p: Idea -> bool)
    ensures forall item: Idea :: p(item) ==> item.story.Str? && |search| <= |item.story.s|
    ensures search == "" ==> forall item: Idea :: p(item) <==> item.story.Str?
  {
    (item: Idea) => item.story.Str? && Includes(Lower(item.story.s), Lower(search))
  }

  /** The search is case-insensitive: changing the ASCII case of the story or of the search text changes nothing. */
  lemma MatchesSearchIgnoresCase(item: Idea, other: Idea, search: string, otherSearch: string)
    requires item.story.Str? && other.story.Str?
    requires EqualUpToCase(item.story.s, other.story.s)
    requires EqualUpToCase(search, otherSearch)
    ensures MatchesSearch(search)(item) == MatchesSearch(otherSearch)(other)
  {
    LowerCaseInsensitive(item.story.s, other.story.s);
    LowerCaseInsensitive(search, otherSearch);
  }

  lemma SameElementsSameNullStory(a: seq<Idea>, b: seq<Idea>)
    requires multiset(a) == multiset(b)
    ensures HasNullStory(a) <==> HasNullStory(b)
  {
    if HasNullStory(a) {
      var i :| 0 <= i < |a| && a[i].story.Null?;
      assert a[i] in multiset(b);
    }
    if HasNullStory(b) {
      var i :| 0 <= i < |b| && b[i].story.Null?;
      assert b[i] in multiset(a);
    }
  }

  /**
   * `filteredBacklog`: the rows of the sorted list, in their order, whose
   * story matches; `None` when sorting throws or a story is null.
   */
  function FilteredBacklog(backlog: seq<Idea>, sortBy: Option<SortKey>, dir: Direction, search: string)
    : (r: Option<seq<Idea>>)
    ensures r.None? <==> SortThrows(backlog, sortBy) || HasNullStory(backlog)
    ensures r.Some? ==> r.value == Filter(SortedBacklog(backlog, sortBy, dir).value, MatchesSearch(search))
    ensures r.Some? ==> forall x :: x in r.value <==>
              x in backlog && x.story.Str? && Includes(Lower(x.story.s), Lower(search))
    ensures r.Some? && search == "" ==> r == SortedBacklog(backlog, sortBy, dir)
  {
    match SortedBacklog(backlog, sortBy, dir)
    case None => None
    case Some(sorted) =>
      SameElementsSameNullStory(sorted, backlog);
      if HasNullStory(sorted) then None
      else
        var rows := Filter(sorted, MatchesSearch(search));
        assert forall x :: x in rows <==> x in backlog && MatchesSearch(search)(x) by {
          forall x ensures x in rows <==> x in backlog && MatchesSearch(search)(x) {
            FilterMembership(sorted, MatchesSearch(search), x);
            assert x in sorted <==> x in multiset(backlog);
          }
        }
        if search == "" then
          assert forall i :: 0 <= i < |sorted| ==> MatchesSearch(search)(sorted[i]);
          FilterAll(sorted, MatchesSearch(search));
          Some(rows)
        else Some(rows)
  }

  // ---------------------------------------------------------------------
  // Vote reconciliation

  /** `prev.map(item => item.id === updated.id ? updated : item)`. */
  function Reconcile(items: seq<Idea>, updated: Idea): (r: seq<Idea>)
    ensures |r| == |items|
    ensures forall i :: 0 <= i < |items| ==> r[i] == if items[i].id == updated.id then updated else items[i]
    ensures forall i :: 0 <= i < |items| ==> r[i].id == items[i].id
    decreases |items|
  {
    if items == [] then []
    else [if items[0].id == updated.id then updated else items[0]] + Reconcile(items[1..], updated)
  }

  lemma ReconcileIdempotent(items: seq<Idea>, updated: Idea)
    ensures Reconcile(Reconcile(items, updated), updated) == Reconcile(items, updated)
  {
  }

  // ---------------------------------------------------------------------
  // The component state

  class HomeView {
    var backlog: seq<Idea>
    var sortBy: Option<SortKey>
    var sortDirection: Direction
    var search: string

    /** `useState([])`, `useState(null)`, `useState("asc")`, `useState("")`. */
    constructor()
      ensures backlog == [] && sortBy == None && sortDirection == Asc && search == ""
    {
      backlog, sortBy, sortDirection, search := [], None, Asc, "";
    }

    /** `setBacklog(data)` once the list has been fetched. */
    method Load(data: seq<Idea>)
      modifies this
      ensures backlog == data
      ensures sortBy == old(sortBy) && sortDirection == old(sortDirection) && search == old(search)
    {
      backlog := data;
    }

    /** `setSearch(e.target.value)` from the search box. */
    method SetSearch(text: string)
      modifies this
      ensures search == text
      ensures backlog == old(backlog) && sortBy == old(sortBy) && sortDirection == old(sortDirection)
    {
      search := text;
    }

    /** `handleSort(key)`: the same header flips the direction, a new one sorts ascending by it. */
    method HandleSort(key: SortKey)
      modifies this
      ensures sortBy == Some(key)
      ensures old(sortBy) == Some(key) ==> sortDirection == Flip(old(sortDirection))
      ensures old(sortBy) != Some(key) ==> sortDirection == Asc
      ensures backlog == old(backlog) && search == old(search)
    {
      if sortBy == Some(key) {
        sortDirection := Flip(sortDirection);
      } else {
        sortBy := Some(key);
        sortDirection := Asc;
      }
    }

    /** The `setBacklog(prev => prev.map(...))` step once a vote response arrives. */
    method ApplyVote(updated: Idea)
      modifies this
      ensures backlog == Reconcile(old(backlog), updated)
      ensures sortBy == old(sortBy) && sortDirection == old(sortDirection) && search == old(search)
    {
      backlog := Reconcile(backlog, updated);
    }

    /** The rows the table renders, or `None` when rendering throws. */
    function Rows(): (r: Option<seq<Idea>>)
      reads this
      ensures r.Some? ==> forall x :: x in r.value ==> x in backlog
      ensures sortBy.None? && r.Some? ==> r.value == Filter(backlog, MatchesSearch(search))
    {
      FilteredBacklog(backlog, sortBy, sortDirection, search)
    }
  }
}
