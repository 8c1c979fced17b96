/** What `listProducts` guarantees: it lists exactly the rows that pass the
    filters, ordered by name; a tag filter agrees with what `getTags`
    reports; and every block of the listing is an indented tree that starts
    at a selected row and never shows the default product below it. */
module ListingProps {

  import opened Base
  import opened Text
  import opened Catalog
  import opened Traversal
  import opened TraversalProps
  import opened Listing

  // ---------------------------------------------------------------------
  // The filters

  lemma {:induction false} NamedDefsSpec(defs: seq<TagName>, tid: int, tag: string)
    ensures NamedDefs(defs, tid, tag) > 0 <==> exists j :: 0 <= j < |defs| && defs[j].tid == tid && defs[j].name == tag
  {
    if |defs| > 0 {
      NamedDefsSpec(defs[1..], tid, tag);
      assert forall j :: 1 <= j < |defs| ==> defs[j] == defs[1..][j - 1];
    }
  }

  /** With unique tag keys, the join finds a definition named `tag` for key
      `tid` exactly when the definition `getTags` reads for that key is
      named `tag`. */
  lemma NamedDefsById(defs: seq<TagName>, tid: int, tag: string)
    requires DistinctTids(defs)
    ensures NamedDefs(defs, tid, tag) > 0 <==> (TagById(defs, tid).Some? && defs[TagById(defs, tid).value].name == tag)
  {
    NamedDefsSpec(defs, tid, tag);
    TagByIdSpec(defs, tid);
  }

  /** A product passes the tag filter exactly when `getTags` would list that
      tag's name for it. */
  lemma {:induction false} TagLinksAgreeWithTagNames(s: Store, rows: seq<TagRow>, pid: int, tag: string)
    requires DistinctTids(s.tagNames)
    ensures TagLinks(s, rows, pid, tag) > 0 <==> tag in TagNamesFor(s.tagNames, rows, pid)
  {
    if |rows| > 0 {
      TagLinksAgreeWithTagNames(s, rows[1..], pid, tag);
      if rows[0].id == pid {
        NamedDefsById(s.tagNames, rows[0].tid, tag);
      }
    }
  }

  lemma {:induction false} RepeatMembers(h: Hit, n: nat, x: Hit)
    ensures x in Repeat(h, n) <==> n > 0 && x == h
  {
    if n > 0 {
      RepeatMembers(h, n - 1, x);
    }
  }

  /** The result set holds exactly the rows that pass the name and version
      filters and, when a tag is given, are joined to a tag of that name. */
  lemma {:induction false} SelectMembers(s: Store, rows: seq<ProductRow>, name: Option<string>, version: Option<string>, tag: Option<string>, h: Hit)
    ensures h in Select(s, rows, name, version, tag) <==>
      exists k :: 0 <= k < |rows| && Passes(rows[k], name, version)
        && h == Hit(rows[k].id, rows[k].name, rows[k].version)
        && (Given(tag) ==> TagLinks(s, s.tags, rows[k].id, tag.value) > 0)
  {
    if |rows| > 0 {
      var row := rows[0];
      var copies := if !Passes(row, name, version) then 0
                    else if Given(tag) then TagLinks(s, s.tags, row.id, tag.value)
                    else 1;
      RepeatMembers(Hit(row.id, row.name, row.version), copies, h);
      SelectMembers(s, rows[1..], name, version, tag, h);
      assert forall k :: 1 <= k < |rows| ==> rows[k] == rows[1..][k - 1];
    }
  }

  // ---------------------------------------------------------------------
  // ORDER BY products.name

  /** A row that sorts no later than every row of a sorted list can go in
      front of it. */
  lemma SortedCons(x: Hit, t: seq<Hit>)
    requires SortedByName(t)
    requires forall j :: 0 <= j < |t| ==> NoLater(x.name, t[j].name)
    ensures SortedByName([x] + t)
  {
    var r := [x] + t;
    forall i, j | 0 <= i < j < |r|
      ensures NoLater(r[i].name, r[j].name)
    {
      if i == 0 {
        assert r[j] == t[j - 1];
      } else {
        assert r[i] == t[i - 1] && r[j] == t[j - 1];
      }
    }
  }

  /** A lower bound of every row in a list, and of one more row, bounds every
      row of any rearrangement of the two. */
  lemma LowerBoundKept(x: Hit, h: Hit, rest: seq<Hit>, t: seq<Hit>)
    requires forall j :: 0 <= j < |rest| ==> NoLater(x.name, rest[j].name)
    requires NoLater(x.name, h.name)
    requires multiset(t) == multiset(rest) + multiset{h}
    ensures forall j :: 0 <= j < |t| ==> NoLater(x.name, t[j].name)
  {
    forall j | 0 <= j < |t|
      ensures NoLater(x.name, t[j].name)
    {
      assert t[j] in multiset(t);
      if t[j] != h {
        assert t[j] in multiset(rest);
        var k :| 0 <= k < |rest| && rest[k] == t[j];
      }
    }
  }

  lemma {:induction false} InsertByNameSpec(h: Hit, hs: seq<Hit>)
    requires SortedByName(hs)
    ensures SortedByName(InsertByName(h, hs))
    ensures multiset(InsertByName(h, hs)) == multiset(hs) + multiset{h}
  {
    if |hs| == 0 || NoLater(h.name, hs[0].name) {
      forall j | 0 <= j < |hs|
        ensures NoLater(h.name, hs[j].name)
      {
        if j > 0 {
          NoLaterTransitive(h.name, hs[0].name, hs[j].name);
        }
      }
      SortedCons(h, hs);
    } else {
      NoLaterTotal(h.name, hs[0].name);
      InsertByNameSpec(h, hs[1..]);
      assert hs == [hs[0]] + hs[1..];
      LowerBoundKept(hs[0], h, hs[1..], InsertByName(h, hs[1..]));
      SortedCons(hs[0], InsertByName(h, hs[1..]));
    }
  }

  /** Ordering by name sorts the rows and neither drops nor adds any. */
  lemma {:induction false} SortByNameSpec(hs: seq<Hit>)
    ensures SortedByName(SortByName(hs))
    ensures multiset(SortByName(hs)) == multiset(hs)
  {
    if |hs| > 0 {
      SortByNameSpec(hs[1..]);
      InsertByNameSpec(hs[0], SortByName(hs[1..]));
      assert hs == [hs[0]] + hs[1..];
    }
  }

  /** The query returns its rows in name order, and a row is returned exactly
      when it passes the filters. */
  lemma QuerySpec(s: Store, name: Option<string>, version: Option<string>, tag: Option<string>, h: Hit)
    ensures SortedByName(Query(s, name, version, tag))
    ensures h in Query(s, name, version, tag) <==>
      exists k :: 0 <= k < |s.products| && Passes(s.products[k], name, version)
        && h == Hit(s.products[k].id, s.products[k].name, s.products[k].version)
        && (Given(tag) ==> TagLinks(s, s.tags, s.products[k].id, tag.value) > 0)
  {
    var selected := Select(s, s.products, name, version, tag);
    SortByNameSpec(selected);
    SelectMembers(s, s.products, name, version, tag, h);
    assert h in Query(s, name, version, tag) <==> h in multiset(Query(s, name, version, tag));
    assert h in selected <==> h in multiset(selected);
  }

  /** Without a tag filter the query returns each row that passes the name
      and version filters exactly once. */
  lemma {:induction false} SelectCountsOnce(s: Store, rows: seq<ProductRow>, name: Option<string>, version: Option<string>, tag: Option<string>)
    requires !Given(tag)
    ensures |Select(s, rows, name, version, tag)| == |Filtered(rows, name, version)|
  {
    if |rows| > 0 {
      SelectCountsOnce(s, rows[1..], name, version, tag);
    }
  }

  function Filtered(rows: seq<ProductRow>, name: Option<string>, version: Option<string>): seq<ProductRow>
  {
    if |rows| == 0 then []
    else (if Passes(rows[0], name, version) then [rows[0]] else []) + Filtered(rows[1..], name, version)
  }

  // ---------------------------------------------------------------------
  // The listing

  function HitIds(hits: seq<Hit>): seq<int>
  {
    if |hits| == 0 then [] else [hits[0].id] + HitIds(hits[1..])
  }

  lemma SeedVisited(defaultName: Option<string>)
    ensures defaultName.Some? ==> defaultName.value in Visited(Seed(defaultName))
  {
  }

  /** Each block of the listing, read on its own. */
  lemma ListBlock(s: Store, h: Hit, defaultName: Option<string>, flavor: Option<string>)
    requires Versioned(s)
    ensures var w := Walk(s, h.id, 0, Seed(defaultName), flavor);
      && Indented([Entry(h.id, h.name, h.version, 0)] + w.entries, 0)
      && Level([Entry(h.id, h.name, h.version, 0)] + w.entries, 0) == [h.id]
      && (forall e :: e in w.entries ==> Some(e.name) != defaultName)
      && NamesDistinct(w.entries)
  {
    var w := Walk(s, h.id, 0, Seed(defaultName), flavor);
    var top := Entry(h.id, h.name, h.version, 0);
    WalkDepths(s, h.id, 0, Seed(defaultName), flavor);
    WalkMarks(s, h.id, 0, Seed(defaultName), flavor);
    SeedVisited(defaultName);
    IndentedSubtree(top, w.entries, 0);
    LevelDeeper(w.entries, 0);
    LevelConcat([top], w.entries, 0);
    assert Level([top], 0) == [h.id];
    forall e | e in w.entries
      ensures Some(e.name) != defaultName
    {
      assert e.name in EntryNames(w.entries);
    }
  }

  /** The listing is an indented tree whose depth-0 lines are the selected
      rows in order, and no line below depth 0 shows the default product. */
  lemma {:induction false} ListEntriesSpec(s: Store, hits: seq<Hit>, showDependencies: bool, defaultName: Option<string>, flavor: Option<string>)
    requires showDependencies ==> Versioned(s)
    ensures var l := ListEntries(s, hits, showDependencies, defaultName, flavor);
      && Indented(l.entries, 0)
      && Level(l.entries, 0) == HitIds(hits)
      && (forall e :: e in l.entries && e.depth > 0 ==> Some(e.name) != defaultName)
      && (!showDependencies ==> forall e :: e in l.entries ==> e.depth == 0)
  {
    if |hits| > 0 {
      var h := hits[0];
      var top := Entry(h.id, h.name, h.version, 0);
      ListEntriesSpec(s, hits[1..], showDependencies, defaultName, flavor);
      var rest := ListEntries(s, hits[1..], showDependencies, defaultName, flavor);
      if showDependencies {
        var w := Walk(s, h.id, 0, Seed(defaultName), flavor);
        ListBlock(s, h, defaultName, flavor);
        IndentedConcat([top] + w.entries, rest.entries, 0);
        LevelConcat([top] + w.entries, rest.entries, 0);
      } else {
        assert Indented([top], 0);
        IndentedConcat([top], rest.entries, 0);
        LevelConcat([top], rest.entries, 0);
        assert Level([top], 0) == [h.id];
      }
    }
  }

  /** `listProducts` prints one line per entry, each laid out by
      `formatProduct` at the entry's depth. */
  lemma {:induction false} LinesFormat(s: Store, es: seq<Entry>, showTags: bool, k: nat)
    requires k < |es|
    ensures Lines(s, es, showTags)[k] == Format.FormatProduct(es[k].name, es[k].version, TagsShown(s, es[k].id, showTags), es[k].depth)
  {
    if k > 0 {
      LinesFormat(s, es[1..], showTags, k - 1);
    }
  }
}
