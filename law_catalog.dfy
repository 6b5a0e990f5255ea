/**
 The law catalog: sections of law entries, the live search filter over it,
 the result count shown above the results, the title lookups that map an
 entry shown in the filtered view back to its position in the full catalog,
 and the replacement of one entry's keyword list.
 */
module LawCatalog {
  import opened Text
  import opened KeywordEditor

  /** One statute reference: its title, its link and its keyword tags. */
  datatype LawItem = LawItem(title: string, url: string, keywords: seq<string>)

  /** A titled, ordered group of law entries. */
  datatype LawSection = LawSection(title: string, laws: seq<LawItem>)

  /** The whole catalog: an ordered sequence of sections. */
  type Catalog = seq<LawSection>

  /** Every entry's keyword list is bounded and duplicate-free. */
  predicate ValidCatalog(c: Catalog) {
    forall i, j :: 0 <= i < |c| && 0 <= j < |c[i].laws| ==> ValidKeywords(c[i].laws[j].keywords)
  }

  /** No two sections share a title (titles are the lookup key of `Resolve`). */
  predicate UniqueSectionTitles(c: Catalog) {
    forall i, j :: 0 <= i < j < |c| ==> c[i].title != c[j].title
  }

  /** No two entries of one section share a title. */
  predicate UniqueLawTitles(laws: seq<LawItem>) {
    forall i, j :: 0 <= i < j < |laws| ==> laws[i].title != laws[j].title
  }

  /** `a` is obtained from `b` by deleting elements, the rest kept in order. */
  predicate IsSubsequence<T(==)>(a: seq<T>, b: seq<T>)
    decreases |b|
  {
    if b == [] then a == []
    else (a != [] && a[0] == b[0] && IsSubsequence(a[1..], b[1..])) || IsSubsequence(a, b[1..])
  }

  // ---------------------------------------------------------------------------
  // Search

  /** `keywords.some(k => k.toLowerCase().includes(query))`. */
  function SomeKeywordContains(keywords: seq<string>, query: string): (b: bool)
    ensures b <==> exists k :: k in keywords && Contains(Lower(k), query)
    decreases |keywords|
  {
    if keywords == [] then false
    else Contains(Lower(keywords[0]), query) || SomeKeywordContains(keywords[1..], query)
  }

  /**
   The match test of one entry: the lower-cased title or some lower-cased
   keyword contains the lower-cased query. The query is NOT trimmed here.
   */
  predicate MatchesQuery(law: LawItem, query: string) {
    Contains(Lower(law.title), Lower(query)) || SomeKeywordContains(law.keywords, Lower(query))
  }

  /**
   The match test in terms of occurrences: the lower-cased query occurs in
   the lower-cased title or in some lower-cased keyword. In particular the
   empty query matches every entry.
   */
  lemma MatchesQueryIff(law: LawItem, query: string)
    ensures MatchesQuery(law, query)
            <==> (exists i :: OccursAt(Lower(law.title), Lower(query), i))
                 || exists k :: k in law.keywords && Contains(Lower(k), Lower(query))
    ensures query == [] ==> MatchesQuery(law, query)
  {
    if query == [] {
      assert OccursAt(Lower(law.title), Lower(query), 0);
    }
  }

  /**
   The filter callback: a blank (empty or whitespace-only) query keeps every
   entry; any other query keeps exactly the entries it matches, untrimmed.
   */
  predicate Keeps(query: string, law: LawItem) {
    Trim(query) == [] || MatchesQuery(law, query)
  }

  /**
   The callback in the query's own terms: every entry for a blank query,
   and for any other query exactly the entries the untrimmed query matches.
   */
  lemma KeepsIff(query: string, law: LawItem)
    ensures IsBlank(query) ==> Keeps(query, law)
    ensures !IsBlank(query) ==> (Keeps(query, law) <==> MatchesQuery(law, query))
  {
  }

  /**
   The entries of one section that the search keeps: exactly those that pass
   `Keeps`, each as often as in the section, in their original order.
   */
  function FilterLaws(laws: seq<LawItem>, query: string): (r: seq<LawItem>)
    ensures forall x :: x in r <==> x in laws && Keeps(query, x)
    ensures forall x :: multiset(r)[x] == if Keeps(query, x) then multiset(laws)[x] else 0
    ensures IsSubsequence(r, laws)
    ensures |r| <= |laws|
    ensures (forall x :: x in laws ==> Keeps(query, x)) ==> r == laws
    decreases |laws|
  {
    if laws == [] then []
    else
      var rest := FilterLaws(laws[1..], query);
      FilterCountStep(laws, rest, query);
      if Keeps(query, laws[0]) then
        assert ([laws[0]] + rest)[1..] == rest;
        [laws[0]] + rest
      else rest
  }

  /** One step of `FilterLaws`' count: the head is counted iff it is kept. */
  lemma FilterCountStep(laws: seq<LawItem>, rest: seq<LawItem>, query: string)
    requires laws != []
    requires forall x :: multiset(rest)[x] == if Keeps(query, x) then multiset(laws[1..])[x] else 0
    ensures forall x :: multiset(if Keeps(query, laws[0]) then [laws[0]] + rest else rest)[x]
                        == if Keeps(query, x) then multiset(laws)[x] else 0
  {
    assert laws == [laws[0]] + laws[1..];
    assert multiset(laws) == multiset{laws[0]} + multiset(laws[1..]);
    assert multiset([laws[0]] + rest) == multiset{laws[0]} + multiset(rest);
  }

  /** A section with only its kept entries; the title and the rest unchanged. */
  function NarrowSection(s: LawSection, query: string): LawSection {
    s.(laws := FilterLaws(s.laws, query))
  }

  /** The `map` step: every section narrowed, none dropped yet. */
  function NarrowSections(c: Catalog, query: string): (r: Catalog)
    ensures |r| == |c|
    ensures forall i :: 0 <= i < |c| ==> r[i] == NarrowSection(c[i], query)
  {
    seq(|c|, i requires 0 <= i < |c| => NarrowSection(c[i], query))
  }

  /** One step of `DropEmptySections`' count: the head is counted iff it is non-empty. */
  lemma DropCountStep(c: Catalog, rest: Catalog)
    requires c != []
    requires forall s :: multiset(rest)[s] == if s.laws != [] then multiset(c[1..])[s] else 0
    ensures forall s :: multiset(if c[0].laws != [] then [c[0]] + rest else rest)[s]
                        == if s.laws != [] then multiset(c)[s] else 0
  {
    assert c == [c[0]] + c[1..];
    assert multiset(c) == multiset{c[0]} + multiset(c[1..]);
    assert multiset([c[0]] + rest) == multiset{c[0]} + multiset(rest);
  }

  /**
   The trailing `filter`: drops exactly the sections with no entries, keeping
   each other section as often as it occurs and in its order; a catalog
   without empty sections comes back whole.
   */
  function DropEmptySections(c: Catalog): (r: Catalog)
    ensures forall s :: s in r <==> s in c && s.laws != []
    ensures forall s :: multiset(r)[s] == if s.laws != [] then multiset(c)[s] else 0
    ensures IsSubsequence(r, c)
    ensures |r| <= |c|
    ensures |r| == |c| <==> forall s :: s in c ==> s.laws != []
    ensures (forall s :: s in c ==> s.laws != []) ==> r == c
    decreases |c|
  {
    if c == [] then []
    else
      var rest := DropEmptySections(c[1..]);
      DropCountStep(c, rest);
      if c[0].laws != [] then
        assert ([c[0]] + rest)[1..] == rest;
        [c[0]] + rest
      else
        assert c[0] in c;
        rest
  }

  /**
   The filtered view `filteredLaws` of the catalog for a search query: the
   sections narrowed to their kept entries, those left empty dropped. It is
   never longer than the catalog, and each shown section is some catalog
   section narrowed, with at least one entry.
   */
  function FilterCatalog(c: Catalog, query: string): (r: Catalog)
    ensures |r| <= |c|
    ensures forall s :: s in r <==> s.laws != [] && exists i :: 0 <= i < |c| && s == NarrowSection(c[i], query)
  {
    NarrowSectionsMembers(c, query);
    DropEmptySections(NarrowSections(c, query))
  }

  /** The narrowed sections are exactly the catalog's sections, each narrowed. */
  lemma NarrowSectionsMembers(c: Catalog, query: string)
    ensures forall s :: s in NarrowSections(c, query) <==>
              exists i :: 0 <= i < |c| && s == NarrowSection(c[i], query)
  {
    var n := NarrowSections(c, query);
    forall s | s in n ensures exists i :: 0 <= i < |c| && s == NarrowSection(c[i], query) {
      var i :| 0 <= i < |n| && n[i] == s;
    }
  }

  /**
   Soundness and completeness of the search, entry by entry: an entry appears
   in an output section with a given title exactly when it sits in an input
   section with that title and the filter callback keeps it.
   */
  lemma FilterCatalogEntries(c: Catalog, query: string, title: string, x: LawItem)
    ensures (exists s :: s in FilterCatalog(c, query) && s.title == title && x in s.laws)
        <==> (exists s :: s in c && s.title == title && x in s.laws && Keeps(query, x))
  {
    var n := NarrowSections(c, query);
    if s :| s in FilterCatalog(c, query) && s.title == title && x in s.laws {
      var i :| 0 <= i < |n| && n[i] == s;
      assert c[i] in c && c[i].title == title && x in c[i].laws && Keeps(query, x);
    }
    if s :| s in c && s.title == title && x in s.laws && Keeps(query, x) {
      var i :| 0 <= i < |c| && c[i] == s;
      assert n[i] in n && x in n[i].laws;
      assert n[i] in FilterCatalog(c, query);
    }
  }

  /** Every section of the filtered view has at least one entry. */
  lemma FilterCatalogNoEmptySection(c: Catalog, query: string)
    ensures forall s :: s in FilterCatalog(c, query) ==> s.laws != []
  {
  }

  /** The titles of the sections, in catalog order. */
  function SectionTitles(c: Catalog): (t: seq<string>)
    ensures |t| == |c| && forall i :: 0 <= i < |c| ==> t[i] == c[i].title
  {
    seq(|c|, i requires 0 <= i < |c| => c[i].title)
  }

  /** The titles of a section's entries, in order. */
  function LawTitles(laws: seq<LawItem>): (t: seq<string>)
    ensures |t| == |laws| && forall i :: 0 <= i < |laws| ==> t[i] == laws[i].title
  {
    seq(|laws|, i requires 0 <= i < |laws| => laws[i].title)
  }

  lemma {:induction false} SubsequenceTitles(a: Catalog, b: Catalog)
    requires IsSubsequence(a, b)
    ensures IsSubsequence(SectionTitles(a), SectionTitles(b))
    decreases |b|
  {
    if b != [] {
      assert SectionTitles(b)[1..] == SectionTitles(b[1..]);
      if a != [] && a[0] == b[0] && IsSubsequence(a[1..], b[1..]) {
        SubsequenceTitles(a[1..], b[1..]);
        assert SectionTitles(a)[1..] == SectionTitles(a[1..]);
      } else {
        SubsequenceTitles(a, b[1..]);
      }
    }
  }

  /** The titles of the shown sections are a subsequence of the catalog's. */
  lemma FilterTitlesOrder(c: Catalog, query: string)
    ensures IsSubsequence(SectionTitles(FilterCatalog(c, query)), SectionTitles(c))
  {
    var n := NarrowSections(c, query);
    SubsequenceTitles(DropEmptySections(n), n);
    NarrowKeepsTitles(c, query);
  }

  /** Narrowing keeps every section title in place. */
  lemma NarrowKeepsTitles(c: Catalog, query: string)
    ensures SectionTitles(NarrowSections(c, query)) == SectionTitles(c)
  {
    var n := NarrowSections(c, query);
    assert forall i :: 0 <= i < |c| ==> SectionTitles(n)[i] == SectionTitles(c)[i];
  }

  /**
   The search keeps the order of sections and of entries: the section titles
   of the result are a subsequence of the catalog's, and each output section's
   entries are a subsequence of its source section's.
   */
  lemma FilterPreservesOrder(c: Catalog, query: string)
    ensures IsSubsequence(SectionTitles(FilterCatalog(c, query)), SectionTitles(c))
    ensures forall s :: s in FilterCatalog(c, query) ==>
              exists i :: 0 <= i < |c| && c[i].title == s.title && IsSubsequence(s.laws, c[i].laws)
  {
    FilterTitlesOrder(c, query);
    forall s | s in FilterCatalog(c, query)
      ensures exists i :: 0 <= i < |c| && c[i].title == s.title && IsSubsequence(s.laws, c[i].laws)
    {
      var i :| 0 <= i < |c| && s == NarrowSection(c[i], query);
      assert c[i].title == s.title && IsSubsequence(s.laws, c[i].laws);
    }
  }

  /**
   A blank (empty or whitespace-only) query keeps every entry but still drops
   empty sections, so it returns the catalog unchanged exactly when no section
   of the catalog is empty.
   */
  lemma BlankQueryFilter(c: Catalog, query: string)
    requires IsBlank(query)
    ensures FilterCatalog(c, query) == DropEmptySections(c)
    ensures FilterCatalog(c, query) == c <==> forall s :: s in c ==> s.laws != []
  {
    var n := NarrowSections(c, query);
    forall i | 0 <= i < |c| ensures n[i] == c[i] {
      assert FilterLaws(c[i].laws, query) == c[i].laws;
    }
    assert n == c;
  }

  /** The filtered view is empty exactly when no entry of the catalog is kept. */
  lemma NoResultsIff(c: Catalog, query: string)
    ensures FilterCatalog(c, query) == []
        <==> forall s, x :: s in c && x in s.laws ==> !Keeps(query, x)
  {
    if FilterCatalog(c, query) == [] {
      forall s, x | s in c && x in s.laws ensures !Keeps(query, x) {
        FilterCatalogEntries(c, query, s.title, x);
      }
    } else {
      var s := FilterCatalog(c, query)[0];
      assert s.laws != [];
      FilterCatalogEntries(c, query, s.title, s.laws[0]);
    }
  }

  /**
   The "no results" message: shown exactly when the query is non-empty and no
   entry of the catalog passes the filter. An empty query shows no message,
   even over a catalog whose sections are all empty.
   */
  function NoResultsShown(c: Catalog, query: string): (b: bool)
    ensures b <==> query != [] && forall s, x :: s in c && x in s.laws ==> !Keeps(query, x)
  {
    NoResultsIff(c, query);
    FilterCatalog(c, query) == [] && query != []
  }

  // ---------------------------------------------------------------------------
  // Result count

  /** The number of entries over all sections (`reduce` summing `laws.length`). */
  function ResultCount(c: Catalog): (r: nat)
    ensures r == 0 <==> forall s :: s in c ==> s.laws == []
    ensures forall i :: 0 <= i < |c| ==> |c[i].laws| <= r
    decreases |c|
  {
    if c == [] then 0 else |c[0].laws| + ResultCount(c[1..])
  }

  lemma {:induction false} ResultCountAppend(a: Catalog, b: Catalog)
    ensures ResultCount(a + b) == ResultCount(a) + ResultCount(b)
    decreases |a|
  {
    if a == [] {
      assert a + b == b;
    } else {
      assert (a + b)[1..] == a[1..] + b;
      ResultCountAppend(a[1..], b);
    }
  }

  /**
   The `reduce` at the count, literally: a left fold that adds each
   section's entry count to the accumulator, from the first section on.
   */
  function ReduceEntryCount(c: Catalog, acc: nat): nat
    decreases |c|
  {
    if c == [] then acc else ReduceEntryCount(c[1..], acc + |c[0].laws|)
  }

  /**
   `ResultCount` is what the `reduce` computes from 0: the left fold from
   any accumulator adds exactly the summed entry count to it.
   */
  lemma {:induction false} ResultCountIsReduce(c: Catalog, acc: nat)
    ensures ReduceEntryCount(c, acc) == acc + ResultCount(c)
    ensures ReduceEntryCount(c, 0) == ResultCount(c)
    decreases |c|
  {
    if c != [] {
      ResultCountIsReduce(c[1..], acc + |c[0].laws|);
      ResultCountIsReduce(c[1..], |c[0].laws|);
    }
  }

  /** Appending a section adds exactly its entry count, as each `reduce` step does. */
  lemma ResultCountSnoc(c: Catalog, s: LawSection)
    ensures ResultCount(c + [s]) == ResultCount(c) + |s.laws|
  {
    ResultCountAppend(c, [s]);
    assert [s][1..] == [];
  }

  lemma {:induction false} ResultCountDropEmpty(c: Catalog)
    ensures ResultCount(DropEmptySections(c)) == ResultCount(c)
    decreases |c|
  {
    if c != [] {
      var rest := DropEmptySections(c[1..]);
      ResultCountDropEmpty(c[1..]);
      if c[0].laws != [] {
        assert DropEmptySections(c) == [c[0]] + rest;
        ResultCountAppend([c[0]], rest);
        assert ResultCount([c[0]]) == |c[0].laws| + ResultCount([]);
      } else {
        assert DropEmptySections(c) == rest;
      }
    }
  }

  lemma {:induction false} ResultCountNarrow(c: Catalog, query: string)
    ensures ResultCount(NarrowSections(c, query)) <= ResultCount(c)
    ensures IsBlank(query) ==> ResultCount(NarrowSections(c, query)) == ResultCount(c)
    decreases |c|
  {
    if c != [] {
      assert NarrowSections(c, query)[1..] == NarrowSections(c[1..], query);
      ResultCountNarrow(c[1..], query);
      if IsBlank(query) {
        assert FilterLaws(c[0].laws, query) == c[0].laws;
      }
    }
  }

  /**
   The count shown with the results never exceeds the catalog's size, and a
   blank query counts every entry (dropping empty sections loses no entry).
   */
  lemma ResultCountOfFilter(c: Catalog, query: string)
    ensures ResultCount(FilterCatalog(c, query)) <= ResultCount(c)
    ensures IsBlank(query) ==> ResultCount(FilterCatalog(c, query)) == ResultCount(c)
  {
    ResultCountDropEmpty(NarrowSections(c, query));
    ResultCountNarrow(c, query);
  }

  // ---------------------------------------------------------------------------
  // Index resolution

  /**
   `findIndex` on a list of titles: the first position holding `title`, or -1
   when there is none.
   */
  function FindIndex(titles: seq<string>, title: string): (r: int)
    ensures -1 <= r < |titles|
    ensures r == -1 <==> title !in titles
    ensures 0 <= r ==> titles[r] == title && title !in titles[..r]
    decreases |titles|
  {
    if titles == [] then -1
    else if titles[0] == title then 0
    else
      var r := FindIndex(titles[1..], title);
      if r == -1 then -1
      else
        assert titles[..r + 1] == [titles[0]] + titles[1..][..r];
        r + 1
  }

  /** A position in the full catalog: a section index and an entry index in it. */
  datatype Address = Address(sectionIndex: int, lawIndex: int)

  /** The address names an existing entry. */
  predicate ValidAddress(c: Catalog, a: Address) {
    0 <= a.sectionIndex < |c| && 0 <= a.lawIndex < |c[a.sectionIndex].laws|
  }

  /**
   The two title lookups that turn an entry shown in the filtered view into
   an address in the full catalog: the first section with the shown section's
   title, then the first entry in it with the shown entry's title (-1 if none).
   The section must exist, since the entry index is looked up inside it.
   */
  function Resolve(c: Catalog, sectionTitle: string, lawTitle: string): (a: Address)
    requires sectionTitle in SectionTitles(c)
    ensures 0 <= a.sectionIndex < |c| && c[a.sectionIndex].title == sectionTitle
    ensures forall i :: 0 <= i < a.sectionIndex ==> c[i].title != sectionTitle
    ensures ValidAddress(c, a) <==> lawTitle in LawTitles(c[a.sectionIndex].laws)
    ensures ValidAddress(c, a) ==> c[a.sectionIndex].laws[a.lawIndex].title == lawTitle
    ensures !ValidAddress(c, a) ==> a.lawIndex == -1
    ensures ValidAddress(c, a) ==>
              forall j :: 0 <= j < a.lawIndex ==> c[a.sectionIndex].laws[j].title != lawTitle
  {
    var titles := SectionTitles(c);
    var si := FindIndex(titles, sectionTitle);
    assert forall i :: 0 <= i < si ==> titles[..si][i] == c[i].title;
    var lawTitles := LawTitles(c[si].laws);
    var li := FindIndex(lawTitles, lawTitle);
    assert forall j :: 0 <= j < li ==> lawTitles[..li][j] == c[si].laws[j].title;
    Address(si, li)
  }

  /**
   With unique section titles, every entry the filtered view shows resolves
   to a valid address of an entry with the same title in the full catalog,
   and, when titles are unique within that section, to that very entry.
   */
  lemma ResolveDisplayedEntry(c: Catalog, query: string, s: LawSection, x: LawItem)
    requires UniqueSectionTitles(c)
    requires s in FilterCatalog(c, query) && x in s.laws
    ensures s.title in SectionTitles(c)
    ensures ValidAddress(c, Resolve(c, s.title, x.title))
    ensures var a := Resolve(c, s.title, x.title);
            c[a.sectionIndex].laws[a.lawIndex].title == x.title
            && (UniqueLawTitles(c[a.sectionIndex].laws) ==> c[a.sectionIndex].laws[a.lawIndex] == x)
  {
    var i :| 0 <= i < |c| && s == NarrowSection(c[i], query);
    ResolveCatalogEntry(c, i, x);
  }

  /**
   With unique section titles, an entry of section `i` resolves by titles to
   a valid address in section `i` of an entry with its title, and to that
   very entry when titles are unique within the section.
   */
  lemma ResolveCatalogEntry(c: Catalog, i: int, x: LawItem)
    requires UniqueSectionTitles(c)
    requires 0 <= i < |c| && x in c[i].laws
    ensures c[i].title in SectionTitles(c)
    ensures var a := Resolve(c, c[i].title, x.title);
            a.sectionIndex == i && ValidAddress(c, a)
            && c[i].laws[a.lawIndex].title == x.title
            && (UniqueLawTitles(c[i].laws) ==> c[i].laws[a.lawIndex] == x)
  {
    assert SectionTitles(c)[i] == c[i].title;
    var a := Resolve(c, c[i].title, x.title);
    assert a.sectionIndex == i;
    var j :| 0 <= j < |c[i].laws| && c[i].laws[j] == x;
    assert LawTitles(c[i].laws)[j] == x.title;
    if UniqueLawTitles(c[i].laws) {
      assert a.lawIndex == j;
    }
  }

  /**
   Why section titles must be unique: with two sections titled "A", an entry
   of the second is shown by the search but resolves to no entry (-1) of the
   first, so the editor would address a missing entry.
   */
  lemma DuplicateSectionTitlesMisresolve()
    ensures var x := LawItem("x", "u", []);
            var c := [LawSection("A", []), LawSection("A", [x])];
            FilterCatalog(c, "") == [LawSection("A", [x])]
            && !ValidAddress(c, Resolve(c, "A", "x"))
  {
    var x := LawItem("x", "u", []);
    var c := [LawSection("A", []), LawSection("A", [x])];
    BlankQueryFilter(c, "");
    assert DropEmptySections(c) == [LawSection("A", [x])];
    assert SectionTitles(c)[0] == "A";
    assert LawTitles(c[0].laws) == [];
  }

  /**
   Why entry titles must be unique within a section: with two entries titled
   "x" in one section, both are shown, but the second resolves to the first,
   so editing the second one writes the keywords into the first.
   */
  lemma DuplicateLawTitlesMisaddress()
    ensures var x1 := LawItem("x", "u1", []);
            var x2 := LawItem("x", "u2", []);
            var c := [LawSection("A", [x1, x2])];
            FilterCatalog(c, "") == c
            && Resolve(c, "A", x2.title) == Address(0, 0)
            && c[0].laws[0] != x2
  {
    var x1 := LawItem("x", "u1", []);
    var x2 := LawItem("x", "u2", []);
    var c := [LawSection("A", [x1, x2])];
    BlankQueryFilter(c, "");
    assert SectionTitles(c)[0] == "A";
    assert LawTitles(c[0].laws)[0] == "x";
  }

  // ---------------------------------------------------------------------------
  // Keyword replacement

  /**
   The catalog with the keyword list of the addressed entry replaced: every
   other entry, every title and url, and the shape of the catalog unchanged.
   */
  function SetKeywords(c: Catalog, a: Address, keywords: seq<string>): (r: Catalog)
    requires ValidAddress(c, a)
    ensures |r| == |c|
    ensures forall i :: 0 <= i < |c| ==> r[i].title == c[i].title && |r[i].laws| == |c[i].laws|
    ensures forall i, j :: 0 <= i < |c| && 0 <= j < |c[i].laws| ==>
              r[i].laws[j] == if i == a.sectionIndex && j == a.lawIndex
                              then c[i].laws[j].(keywords := keywords)
                              else c[i].laws[j]
  {
    var s := c[a.sectionIndex];
    var law := s.laws[a.lawIndex];
    c[a.sectionIndex := s.(laws := s.laws[a.lawIndex := law.(keywords := keywords)])]
  }

  /**
   Replacing one entry's keywords with a valid list keeps the catalog valid
   and leaves every title where it was, so addresses resolve as before.
   */
  lemma SetKeywordsPreserves(c: Catalog, a: Address, keywords: seq<string>)
    requires ValidAddress(c, a)
    ensures ValidCatalog(c) && ValidKeywords(keywords) ==> ValidCatalog(SetKeywords(c, a, keywords))
    ensures SectionTitles(SetKeywords(c, a, keywords)) == SectionTitles(c)
    ensures forall i :: 0 <= i < |c| ==>
              LawTitles(SetKeywords(c, a, keywords)[i].laws) == LawTitles(c[i].laws)
  {
  }

  // ---------------------------------------------------------------------------
  // Fixed examples

  lemma FooMatchesX()
    ensures Keeps("foo", LawItem("X", "", ["foo"]))
  {
    assert Lower("foo") == "foo";
    assert !IsTrimmable("foo"[0]);
    assert OccursAt("foo", "foo", 0);
    assert SomeKeywordContains(["foo"], "foo");
  }

  lemma FooMissesY()
    ensures !Keeps("foo", LawItem("Y", "", ["bar"]))
  {
    assert Lower("foo") == "foo" && Lower("bar") == "bar" && Lower("Y") == "y";
    assert !OccursAt("bar", "foo", 0) by { assert "bar"[0] != "foo"[0]; }
    assert !Contains("bar", "foo");
    assert !Contains("y", "foo");
    assert !SomeKeywordContains(["bar"], "foo");
  }

  /**
   Searching "foo" in a section "A" holding "X" (tagged "foo") and "Y"
   (tagged "bar") yields section "A" with only "X".
   */
  lemma SearchExample()
    ensures var x := LawItem("X", "", ["foo"]);
            var y := LawItem("Y", "", ["bar"]);
            FilterCatalog([LawSection("A", [x, y])], "foo") == [LawSection("A", [x])]
  {
    var x := LawItem("X", "", ["foo"]);
    var y := LawItem("Y", "", ["bar"]);
    FooMatchesX();
    FooMissesY();
    KeepFirstOfTwo(x, y, "foo");
    SingleSectionFilter(LawSection("A", [x, y]), "foo");
  }

  lemma KeepFirstOfTwo(x: LawItem, y: LawItem, query: string)
    requires Keeps(query, x) && !Keeps(query, y)
    ensures FilterLaws([x, y], query) == [x]
  {
    assert FilterLaws([y], query) == [] by { assert [y][1..] == []; }
    assert [x, y][1..] == [y];
  }

  /** A one-section catalog filters to that section narrowed, unless nothing is kept. */
  lemma SingleSectionFilter(s: LawSection, query: string)
    ensures FilterCatalog([s], query)
            == if FilterLaws(s.laws, query) == [] then [] else [NarrowSection(s, query)]
  {
    assert NarrowSections([s], query) == [NarrowSection(s, query)];
    assert [NarrowSection(s, query)][1..] == [];
  }

  lemma TrimLeadingSpace()
    ensures Trim(" x") == "x"
  {
    assert IsTrimmable(" x"[0]) && !IsTrimmable(" x"[1]);
    assert SkipStart(" x", 0) == 1;
    assert SkipEnd(" x", 1, 2) == 2;
  }

  /**
   Only the blank test trims the query: " x" is not blank, yet the untrimmed
   " x" is matched, so an entry titled "x" is not found by " x".
   */
  lemma UntrimmedQueryExample()
    ensures var c := [LawSection("A", [LawItem("x", "", [])])];
            Trim(" x") == "x" && FilterCatalog(c, " x") == []
  {
    var x := LawItem("x", "", []);
    TrimLeadingSpace();
    assert !Contains(Lower("x"), Lower(" x"));
    assert FilterLaws([x], " x") == [] by { assert [x][1..] == []; }
    SingleSectionFilter(LawSection("A", [x]), " x");
  }
}
