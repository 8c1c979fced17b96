/** What the dependency expansion guarantees: it lists each name at most
    once and never one that was already listed, it marks exactly the names it
    shows, its depths form a pre-order indentation, every real child is
    listed, and every placeholder it meets unlisted is reported. */
module TraversalProps {

  import opened Base
  import opened Catalog
  import opened Traversal

  function EntryNames(es: seq<Entry>): set<string>
  {
    set e | e in es :: e.name
  }

  predicate NamesDistinct(es: seq<Entry>)
  {
    forall i, j :: 0 <= i < j < |es| ==> es[i].name != es[j].name
  }

  lemma EntryNamesConcat(a: seq<Entry>, b: seq<Entry>)
    ensures EntryNames(a + b) == EntryNames(a) + EntryNames(b)
  {
    assert forall e :: e in a + b <==> e in a || e in b;
  }

  lemma DistinctConcat(a: seq<Entry>, b: seq<Entry>)
    requires NamesDistinct(a) && NamesDistinct(b)
    requires EntryNames(a) !! EntryNames(b)
    ensures NamesDistinct(a + b)
  {
    forall i, j | 0 <= i < j < |a + b|
      ensures (a + b)[i].name != (a + b)[j].name
    {
      if j < |a| {
        assert (a + b)[i] == a[i] && (a + b)[j] == a[j];
      } else if i >= |a| {
        assert (a + b)[i] == b[i - |a|] && (a + b)[j] == b[j - |a|];
      } else {
        assert (a + b)[i] == a[i] && a[i] in a;
        assert (a + b)[j] == b[j - |a|] && b[j - |a|] in b;
        assert a[i].name in EntryNames(a) && b[j - |a|].name in EntryNames(b);
      }
    }
  }

  /** Showing a row marks its name with a truthy value. */
  lemma VisitedMark(s: Store, listed: map<string, Mark>, row: ProductRow)
    requires Versioned(s) && row in s.products && !row.missing
    ensures Visited(listed[row.name := Listed(row.version)]) == Visited(listed) + {row.name}
  {
  }

  // ---------------------------------------------------------------------
  // Names: each shown once, none shown twice, exactly the shown ones marked

  /** The bookkeeping of one shown row: the names marked before it (`before`),
      after its subtree (`afterSub`) and after its later siblings
      (`afterRest`). */
  lemma ShownMarks(before: set<string>, head: Entry, afterSub: set<string>, sub: seq<Entry>,
                   afterRest: set<string>, rest: seq<Entry>)
    requires head.name !in before
    requires afterSub == before + {head.name} + EntryNames(sub)
    requires NamesDistinct(sub) && EntryNames(sub) !! before + {head.name}
    requires afterRest == afterSub + EntryNames(rest)
    requires NamesDistinct(rest) && EntryNames(rest) !! afterSub
    ensures afterRest == before + EntryNames([head] + sub + rest)
    ensures NamesDistinct([head] + sub + rest)
    ensures EntryNames([head] + sub + rest) !! before
  {
    EntryNamesConcat([head], sub);
    EntryNamesConcat([head] + sub, rest);
    DistinctConcat([head], sub);
    DistinctConcat([head] + sub, rest);
  }

  lemma {:induction false} WalkMarks(s: Store, pid: int, depth: int, listed: map<string, Mark>, flavor: Option<string>)
    requires Versioned(s)
    ensures var r := Walk(s, pid, depth, listed, flavor);
      && Visited(r.listed) == Visited(listed) + EntryNames(r.entries)
      && NamesDistinct(r.entries)
      && EntryNames(r.entries) !! Visited(listed)
    decreases Names(s) - Visited(listed), 1, 0
  {
    WalkRowsMarks(s, Children(s.products, s.dependencies, pid), depth + 1, listed, flavor);
  }

  lemma {:induction false} WalkRowsMarks(s: Store, rows: seq<ProductRow>, depth: int, listed: map<string, Mark>, flavor: Option<string>)
    requires Versioned(s)
    requires forall k :: 0 <= k < |rows| ==> rows[k] in s.products
    ensures var r := WalkRows(s, rows, depth, listed, flavor);
      && Visited(r.listed) == Visited(listed) + EntryNames(r.entries)
      && NamesDistinct(r.entries)
      && EntryNames(r.entries) !! Visited(listed)
    decreases Names(s) - Visited(listed), 0, |rows|
  {
    if |rows| > 0 {
      var row := rows[0];
      if row.name in Visited(listed) || row.missing {
        WalkRowsMarks(s, rows[1..], depth, listed, flavor);
      } else {
        var marked := listed[row.name := Listed(row.version)];
        VisitedMark(s, listed, row);
        WalkMarks(s, row.id, depth, marked, flavor);
        var sub := Walk(s, row.id, depth, marked, flavor);
        WalkRowsMarks(s, rows[1..], depth, sub.listed, flavor);
        var rest := WalkRows(s, rows[1..], depth, sub.listed, flavor);
        ShownMarks(Visited(listed), Entry(row.id, row.name, row.version, depth),
                   Visited(sub.listed), sub.entries, Visited(rest.listed), rest.entries);
      }
    }
  }

  // ---------------------------------------------------------------------
  // Depths: a pre-order indentation starting one level below the caller

  /** The entries read as an indented tree rooted at level `depth - 1`:
      the first is at `depth`, none is shallower, and each is at most one
      level deeper than the one before it. */
  predicate Indented(es: seq<Entry>, depth: int)
  {
    && (|es| > 0 ==> es[0].depth == depth)
    && (forall k :: 0 <= k < |es| ==> es[k].depth >= depth)
    && (forall k :: 0 <= k < |es| - 1 ==> es[k + 1].depth <= es[k].depth + 1)
  }

  lemma IndentedConcat(a: seq<Entry>, b: seq<Entry>, depth: int)
    requires Indented(a, depth) && Indented(b, depth)
    ensures Indented(a + b, depth)
  {
    forall k | 0 <= k < |a + b| - 1
      ensures (a + b)[k + 1].depth <= (a + b)[k].depth + 1
    {
      if k + 1 < |a| {
        assert (a + b)[k + 1] == a[k + 1] && (a + b)[k] == a[k];
      } else if k + 1 == |a| {
        assert (a + b)[k + 1] == b[0] && (a + b)[k] == a[k];
      } else {
        assert (a + b)[k + 1] == b[k + 1 - |a|] && (a + b)[k] == b[k - |a|];
      }
    }
  }

  /** A shown row followed by its own subtree, which starts one level deeper. */
  lemma IndentedSubtree(head: Entry, sub: seq<Entry>, depth: int)
    requires head.depth == depth && Indented(sub, depth + 1)
    ensures Indented([head] + sub, depth)
  {
    forall k | 0 <= k < |[head] + sub| - 1
      ensures ([head] + sub)[k + 1].depth <= ([head] + sub)[k].depth + 1
    {
      if k > 0 {
        assert ([head] + sub)[k + 1] == sub[k] && ([head] + sub)[k] == sub[k - 1];
      }
    }
  }

  lemma {:induction false} WalkDepths(s: Store, pid: int, depth: int, listed: map<string, Mark>, flavor: Option<string>)
    requires Versioned(s)
    ensures Indented(Walk(s, pid, depth, listed, flavor).entries, depth + 1)
    decreases Names(s) - Visited(listed), 1, 0
  {
    WalkRowsDepths(s, Children(s.products, s.dependencies, pid), depth + 1, listed, flavor);
  }

  lemma {:induction false} WalkRowsDepths(s: Store, rows: seq<ProductRow>, depth: int, listed: map<string, Mark>, flavor: Option<string>)
    requires Versioned(s)
    requires forall k :: 0 <= k < |rows| ==> rows[k] in s.products
    ensures Indented(WalkRows(s, rows, depth, listed, flavor).entries, depth)
    decreases Names(s) - Visited(listed), 0, |rows|
  {
    if |rows| > 0 {
      var row := rows[0];
      if row.name in Visited(listed) || row.missing {
        WalkRowsDepths(s, rows[1..], depth, listed, flavor);
      } else {
        var marked := listed[row.name := Listed(row.version)];
        VisitedMark(s, listed, row);
        WalkDepths(s, row.id, depth, marked, flavor);
        var sub := Walk(s, row.id, depth, marked, flavor);
        WalkRowsDepths(s, rows[1..], depth, sub.listed, flavor);
        var rest := WalkRows(s, rows[1..], depth, sub.listed, flavor);
        var head := Entry(row.id, row.name, row.version, depth);
        IndentedSubtree(head, sub.entries, depth);
        IndentedConcat([head] + sub.entries, rest.entries, depth);
      }
    }
  }

  // ---------------------------------------------------------------------
  // Every real child ends up listed; every unlisted placeholder is reported

  lemma {:induction false} WalkRowsComplete(s: Store, rows: seq<ProductRow>, depth: int, listed: map<string, Mark>, flavor: Option<string>)
    requires Versioned(s)
    requires forall k :: 0 <= k < |rows| ==> rows[k] in s.products
    ensures var r := WalkRows(s, rows, depth, listed, flavor);
      forall k :: 0 <= k < |rows| ==>
        if rows[k].missing then rows[k].name in Visited(r.listed) || MissingDependency(rows[k].name, rows[k].version, flavor) in r.warnings
        else rows[k].name in Visited(r.listed)
    decreases |rows|
  {
    if |rows| > 0 {
      var r := WalkRows(s, rows, depth, listed, flavor);
      var row := rows[0];
      if row.name in Visited(listed) {
        WalkRowsComplete(s, rows[1..], depth, listed, flavor);
      } else if row.missing {
        WalkRowsComplete(s, rows[1..], depth, listed, flavor);
        assert r.warnings[0] == MissingDependency(row.name, row.version, flavor);
      } else {
        var marked := listed[row.name := Listed(row.version)];
        VisitedMark(s, listed, row);
        var sub := Walk(s, row.id, depth, marked, flavor);
        WalkRowsComplete(s, rows[1..], depth, sub.listed, flavor);
        var rest := WalkRows(s, rows[1..], depth, sub.listed, flavor);
        assert forall w :: w in rest.warnings ==> w in r.warnings;
      }
      assert forall k :: 1 <= k < |rows| ==> rows[k] == rows[1..][k - 1];
    }
  }

  /** `_getDependencies` returns with every real child of `pid` listed, and
      every placeholder child either listed under another version or
      reported. */
  lemma WalkComplete(s: Store, pid: int, depth: int, listed: map<string, Mark>, flavor: Option<string>)
    requires Versioned(s)
    ensures var r := Walk(s, pid, depth, listed, flavor);
      var children := Children(s.products, s.dependencies, pid);
      forall k :: 0 <= k < |children| ==>
        if children[k].missing then children[k].name in Visited(r.listed) || MissingDependency(children[k].name, children[k].version, flavor) in r.warnings
        else children[k].name in Visited(r.listed)
  {
    WalkRowsComplete(s, Children(s.products, s.dependencies, pid), depth + 1, listed, flavor);
  }

  // ---------------------------------------------------------------------
  // What is shown and what is reported comes from the catalog

  /** `e` shows a real row of the catalog. */
  predicate ShowsRow(s: Store, e: Entry)
  {
    exists row :: row in s.products && !row.missing && row.id == e.id && row.name == e.name && row.version == e.version
  }

  /** `w` reports a placeholder row of the catalog, for the flavor asked
      about. Which row, and that an edge reaches it, is `WarnedChild`. */
  predicate ReportsPlaceholder(s: Store, w: Warning, flavor: Option<string>)
  {
    w.MissingDependency? && w.flavor == flavor
    && exists row :: row in s.products && row.missing && row.name == w.depName && row.version == w.depVersion
  }

  lemma {:induction false} WalkSources(s: Store, pid: int, depth: int, listed: map<string, Mark>, flavor: Option<string>)
    requires Versioned(s)
    ensures var r := Walk(s, pid, depth, listed, flavor);
      && (forall e :: e in r.entries ==> ShowsRow(s, e))
      && (forall w :: w in r.warnings ==> ReportsPlaceholder(s, w, flavor))
      && (forall w :: w in r.warnings ==> WarnedChild(s, pid, w) || WarnedBelow(s, r.entries, w))
    decreases Names(s) - Visited(listed), 1, 0
  {
    WalkRowsSources(s, Children(s.products, s.dependencies, pid), depth + 1, listed, flavor);
    WalkWarnsReached(s, pid, depth, listed, flavor);
  }

  lemma {:induction false} WalkRowsSources(s: Store, rows: seq<ProductRow>, depth: int, listed: map<string, Mark>, flavor: Option<string>)
    requires Versioned(s)
    requires forall k :: 0 <= k < |rows| ==> rows[k] in s.products
    ensures var r := WalkRows(s, rows, depth, listed, flavor);
      && (forall e :: e in r.entries ==> ShowsRow(s, e))
      && (forall w :: w in r.warnings ==> ReportsPlaceholder(s, w, flavor))
      && (forall w :: w in r.warnings ==> Traced(s, rows, r.entries, w))
    decreases Names(s) - Visited(listed), 0, |rows|
  {
    WalkRowsWarnsReached(s, rows, depth, listed, flavor);
    if |rows| > 0 {
      var row := rows[0];
      if row.name in Visited(listed) {
        WalkRowsSources(s, rows[1..], depth, listed, flavor);
      } else if row.missing {
        WalkRowsSources(s, rows[1..], depth, listed, flavor);
        var r := WalkRows(s, rows, depth, listed, flavor);
        assert ReportsPlaceholder(s, r.warnings[0], flavor);
      } else {
        var marked := listed[row.name := Listed(row.version)];
        VisitedMark(s, listed, row);
        WalkSources(s, row.id, depth, marked, flavor);
        var sub := Walk(s, row.id, depth, marked, flavor);
        WalkRowsSources(s, rows[1..], depth, sub.listed, flavor);
        var head := Entry(row.id, row.name, row.version, depth);
        assert ShowsRow(s, head);
      }
    }
  }

  /** `w` is the warning the loop writes for placeholder `row`. */
  predicate WarnsOf(row: ProductRow, w: Warning)
  {
    row.missing && w.MissingDependency? && w.depName == row.name && w.depVersion == row.version
  }

  /** `w` reports a placeholder child of product `p`. */
  predicate WarnedChild(s: Store, p: int, w: Warning)
  {
    exists row :: row in Children(s.products, s.dependencies, p) && WarnsOf(row, w)
  }

  /** `w` reports a placeholder child of one of the products shown in `es`. */
  predicate WarnedBelow(s: Store, es: seq<Entry>, w: Warning)
  {
    exists e :: e in es && WarnedChild(s, e.id, w)
  }

  /** Every warning of the expansion of `pid` reports a placeholder that an
      edge reaches: a child of `pid` itself or of a product the expansion
      shows. */
  lemma {:induction false} WalkWarnsReached(s: Store, pid: int, depth: int, listed: map<string, Mark>, flavor: Option<string>)
    requires Versioned(s)
    ensures var r := Walk(s, pid, depth, listed, flavor);
      forall w :: w in r.warnings ==> WarnedChild(s, pid, w) || WarnedBelow(s, r.entries, w)
    decreases Names(s) - Visited(listed), 1, 0
  {
    var rows := Children(s.products, s.dependencies, pid);
    WalkRowsWarnsReached(s, rows, depth + 1, listed, flavor);
    var r := Walk(s, pid, depth, listed, flavor);
    assert r == WalkRows(s, rows, depth + 1, listed, flavor);
  }

  /** `w` reports a placeholder among `rows`, or one below a product shown
      in `es`. */
  predicate Traced(s: Store, rows: seq<ProductRow>, es: seq<Entry>, w: Warning)
  {
    (exists row :: row in rows && WarnsOf(row, w)) || WarnedBelow(s, es, w)
  }

  lemma TracedWider(s: Store, rows: seq<ProductRow>, rows': seq<ProductRow>, es: seq<Entry>, es': seq<Entry>, w: Warning)
    requires Traced(s, rows, es, w)
    requires forall x :: x in rows ==> x in rows'
    requires forall e :: e in es ==> e in es'
    ensures Traced(s, rows', es', w)
  {
    if !exists row :: row in rows && WarnsOf(row, w) {
      var e :| e in es && WarnedChild(s, e.id, w);
      assert e in es';
    }
  }

  /** A warning traced from the later siblings stays traced from all of them. */
  lemma TracedRest(s: Store, rows: seq<ProductRow>, es: seq<Entry>, es': seq<Entry>, ws: seq<Warning>)
    requires |rows| > 0
    requires forall w :: w in ws ==> Traced(s, rows[1..], es, w)
    requires forall e :: e in es ==> e in es'
    ensures forall w :: w in ws ==> Traced(s, rows, es', w)
  {
    assert forall x :: x in rows[1..] ==> x in rows;
    forall w | w in ws ensures Traced(s, rows, es', w) {
      TracedWider(s, rows[1..], rows, es, es', w);
    }
  }

  /** The warnings of a shown row's expansion are traced through the row's
      own entry or the entries below it. */
  lemma TracedBelow(s: Store, rows: seq<ProductRow>, head: Entry, sub: seq<Entry>, es: seq<Entry>, ws: seq<Warning>)
    requires forall w :: w in ws ==> WarnedChild(s, head.id, w) || WarnedBelow(s, sub, w)
    requires head in es && forall e :: e in sub ==> e in es
    ensures forall w :: w in ws ==> Traced(s, rows, es, w)
  {
    forall w | w in ws ensures Traced(s, rows, es, w) {
      if !WarnedChild(s, head.id, w) {
        var e :| e in sub && WarnedChild(s, e.id, w);
      }
    }
  }

  lemma {:induction false} WalkRowsWarnsReached(s: Store, rows: seq<ProductRow>, depth: int, listed: map<string, Mark>, flavor: Option<string>)
    requires Versioned(s)
    requires forall k :: 0 <= k < |rows| ==> rows[k] in s.products
    ensures forall w :: w in WalkRows(s, rows, depth, listed, flavor).warnings ==>
      Traced(s, rows, WalkRows(s, rows, depth, listed, flavor).entries, w)
    decreases Names(s) - Visited(listed), 0, |rows|
  {
    if |rows| > 0 {
      var row := rows[0];
      var r := WalkRows(s, rows, depth, listed, flavor);
      if row.name in Visited(listed) {
        WalkRowsWarnsReached(s, rows[1..], depth, listed, flavor);
        var rest := WalkRows(s, rows[1..], depth, listed, flavor);
        assert forall w :: w in rest.warnings ==> Traced(s, rows[1..], rest.entries, w);
        assert r == rest;
        TracedRest(s, rows, rest.entries, r.entries, rest.warnings);
      } else if row.missing {
        WalkRowsWarnsReached(s, rows[1..], depth, listed, flavor);
        var rest := WalkRows(s, rows[1..], depth, listed, flavor);
        assert forall w :: w in rest.warnings ==> Traced(s, rows[1..], rest.entries, w);
        var w0 := MissingDependency(row.name, row.version, flavor);
        assert r == Walked(rest.entries, rest.listed, [w0] + rest.warnings);
        TracedRest(s, rows, rest.entries, r.entries, rest.warnings);
        assert row in rows && WarnsOf(row, w0);
        assert Traced(s, rows, r.entries, w0);
      } else {
        var marked := listed[row.name := Listed(row.version)];
        VisitedMark(s, listed, row);
        WalkWarnsReached(s, row.id, depth, marked, flavor);
        var sub := Walk(s, row.id, depth, marked, flavor);
        assert forall w :: w in sub.warnings ==> WarnedChild(s, row.id, w) || WarnedBelow(s, sub.entries, w);
        WalkRowsWarnsReached(s, rows[1..], depth, sub.listed, flavor);
        var rest := WalkRows(s, rows[1..], depth, sub.listed, flavor);
        assert forall w :: w in rest.warnings ==> Traced(s, rows[1..], rest.entries, w);
        var head := Entry(row.id, row.name, row.version, depth);
        assert r.entries == [head] + sub.entries + rest.entries;
        assert r.warnings == sub.warnings + rest.warnings;
        TracedBelow(s, rows, head, sub.entries, r.entries, sub.warnings);
        TracedRest(s, rows, rest.entries, r.entries, rest.warnings);
      }
    }
  }

  // ---------------------------------------------------------------------
  // The first level of the expansion keeps the order of the edges

  /** The ids of the entries shown at exactly `depth`, in order. */
  function Level(es: seq<Entry>, depth: int): seq<int>
  {
    if |es| == 0 then []
    else (if es[0].depth == depth then [es[0].id] else []) + Level(es[1..], depth)
  }

  function Ids(rows: seq<ProductRow>): seq<int>
  {
    if |rows| == 0 then [] else [rows[0].id] + Ids(rows[1..])
  }

  lemma {:induction false} LevelConcat(a: seq<Entry>, b: seq<Entry>, depth: int)
    ensures Level(a + b, depth) == Level(a, depth) + Level(b, depth)
  {
    if |a| > 0 {
      assert (a + b)[1..] == a[1..] + b;
      LevelConcat(a[1..], b, depth);
    } else {
      assert a + b == b;
    }
  }

  lemma {:induction false} LevelDeeper(es: seq<Entry>, depth: int)
    requires forall k :: 0 <= k < |es| ==> es[k].depth > depth
    ensures Level(es, depth) == []
  {
    if |es| > 0 {
      LevelDeeper(es[1..], depth);
    }
  }

  lemma {:induction false} WalkRowsOrder(s: Store, rows: seq<ProductRow>, depth: int, listed: map<string, Mark>, flavor: Option<string>)
    requires Versioned(s)
    requires forall k :: 0 <= k < |rows| ==> rows[k] in s.products
    ensures Subsequence(Level(WalkRows(s, rows, depth, listed, flavor).entries, depth), Ids(rows))
    decreases |rows|
  {
    if |rows| > 0 {
      var row := rows[0];
      if row.name in Visited(listed) || row.missing {
        WalkRowsOrder(s, rows[1..], depth, listed, flavor);
      } else {
        var marked := listed[row.name := Listed(row.version)];
        VisitedMark(s, listed, row);
        WalkDepths(s, row.id, depth, marked, flavor);
        var sub := Walk(s, row.id, depth, marked, flavor);
        LevelDeeper(sub.entries, depth);
        WalkRowsOrder(s, rows[1..], depth, sub.listed, flavor);
        var rest := WalkRows(s, rows[1..], depth, sub.listed, flavor);
        var head := [Entry(row.id, row.name, row.version, depth)];
        LevelConcat(head, sub.entries, depth);
        LevelConcat(head + sub.entries, rest.entries, depth);
        assert Level(head, depth) == [row.id];
      }
    }
  }

  /** The children shown directly below `pid` appear in the order of their
      edges. */
  lemma WalkOrder(s: Store, pid: int, depth: int, listed: map<string, Mark>, flavor: Option<string>)
    requires Versioned(s)
    ensures Subsequence(Level(Walk(s, pid, depth, listed, flavor).entries, depth + 1),
                        Ids(Children(s.products, s.dependencies, pid)))
  {
    WalkRowsOrder(s, Children(s.products, s.dependencies, pid), depth + 1, listed, flavor);
  }

  // ---------------------------------------------------------------------
  // The expansion follows the edges, level by level

  /** The keys `pid`'s edges point at, in the order the edges are stored. */
  function Targets(edges: seq<Edge>, pid: int): seq<int>
  {
    if |edges| == 0 then []
    else (if edges[0].id == pid then [edges[0].dependency] else []) + Targets(edges[1..], pid)
  }

  /** `row` is the row its own key finds. */
  predicate Keyed(rows: seq<ProductRow>, row: ProductRow)
  {
    RowById(rows, row.id).Some? && rows[RowById(rows, row.id).value] == row
  }

  /** Each child is the row whose key its edge names. */
  lemma {:induction false} ChildrenRows(rows: seq<ProductRow>, edges: seq<Edge>, pid: int)
    ensures var r := Children(rows, edges, pid);
      forall k :: 0 <= k < |r| ==> Keyed(rows, r[k])
  {
    if |edges| > 0 {
      ChildrenRows(rows, edges[1..], pid);
      assert forall k :: 0 <= k < |Children(rows, edges[1..], pid)| ==> Keyed(rows, Children(rows, edges[1..], pid)[k]);
      var e := edges[0];
      var rest := Children(rows, edges[1..], pid);
      var r := Children(rows, edges, pid);
      if e.id == pid && RowById(rows, e.dependency).Some? {
        RowByIdSpec(rows, e.dependency);
        var j := RowById(rows, e.dependency).value;
        assert r == [rows[j]] + rest;
        assert RowById(rows, rows[j].id) == Some(j);
        assert Keyed(rows, r[0]);
        forall k | 1 <= k < |r| ensures Keyed(rows, r[k]) {
          assert r[k] == rest[k - 1];
        }
      } else {
        assert r == rest;
      }
    }
  }


  /** The join returns, in edge order, the rows `pid`'s edges point at; an
      edge to a key no row has joins nothing, so when every edge resolves the
      children are exactly the edge targets. */
  lemma {:induction false} ChildrenSpec(rows: seq<ProductRow>, edges: seq<Edge>, pid: int)
    ensures var r := Children(rows, edges, pid);
      && (forall k :: 0 <= k < |r| ==> Keyed(rows, r[k]))
      && Subsequence(Ids(r), Targets(edges, pid))
      && ((forall e :: e in edges && e.id == pid ==> RowById(rows, e.dependency).Some?) ==>
            Ids(r) == Targets(edges, pid))
  {
    ChildrenRows(rows, edges, pid);
    ChildrenTargets(rows, edges, pid);
  }

  lemma {:induction false} ChildrenTargets(rows: seq<ProductRow>, edges: seq<Edge>, pid: int)
    ensures var r := Children(rows, edges, pid);
      && Subsequence(Ids(r), Targets(edges, pid))
      && ((forall e :: e in edges && e.id == pid ==> RowById(rows, e.dependency).Some?) ==>
            Ids(r) == Targets(edges, pid))
  {
    if |edges| > 0 {
      ChildrenTargets(rows, edges[1..], pid);
      assert forall e :: e in edges[1..] ==> e in edges;
      var rest := Children(rows, edges[1..], pid);
      var ts := Targets(edges[1..], pid);
      var e := edges[0];
      assert e in edges;
      if e.id == pid {
        assert Targets(edges, pid) == [e.dependency] + ts;
        if RowById(rows, e.dependency).Some? {
          var j := RowById(rows, e.dependency).value;
          RowByIdSpec(rows, e.dependency);
          assert Children(rows, edges, pid) == [rows[j]] + rest;
          assert Ids([rows[j]] + rest) == [e.dependency] + Ids(rest);
          assert ([e.dependency] + ts)[1..] == ts;
          assert (Ids([rows[j]] + rest))[1..] == Ids(rest);
        } else {
          assert Children(rows, edges, pid) == rest;
          assert ([e.dependency] + ts)[1..] == ts;
          SubsequenceOfTail(Ids(rest), Targets(edges, pid));
        }
      } else {
        assert Children(rows, edges, pid) == rest;
        assert Targets(edges, pid) == ts;
      }
    }
  }

  /** The index of the nearest entry before index `k` at depth `d`. */
  function LastAt(es: seq<Entry>, k: nat, d: int): (r: Option<nat>)
    requires k <= |es|
    ensures r.Some? ==> r.value < k && es[r.value].depth == d
  {
    if k == 0 then None
    else if es[k - 1].depth == d then Some(k - 1)
    else LastAt(es, k - 1, d)
  }

  lemma {:induction false} LastAtSpec(es: seq<Entry>, k: nat, d: int)
    requires k <= |es|
    ensures LastAt(es, k, d).Some? ==> forall i :: LastAt(es, k, d).value < i < k ==> es[i].depth != d
    ensures LastAt(es, k, d).None? <==> forall i :: 0 <= i < k ==> es[i].depth != d
  {
    if k > 0 && es[k - 1].depth != d {
      LastAtSpec(es, k - 1, d);
    }
  }

  /** `e` shows, at its depth, a real row that one of `pid`'s edges points
      at. */
  predicate ChildEntry(s: Store, pid: int, e: Entry)
  {
    exists row :: row in Children(s.products, s.dependencies, pid) && !row.missing
      && e == Entry(row.id, row.name, row.version, e.depth)
  }

  /** Entry `k` is a child of the nearest earlier entry one level up. */
  predicate ParentOf(s: Store, es: seq<Entry>, k: nat)
    requires k < |es|
  {
    var j := LastAt(es, k, es[k].depth - 1);
    j.Some? && ChildEntry(s, es[j.value].id, es[k])
  }

  /** The entries read as the expansion of `pid` starting at `depth`: each
      entry at `depth` is a child of `pid`, and each deeper one is a child of
      the nearest earlier entry one level up, which therefore precedes its
      subtree. */
  predicate Tree(s: Store, es: seq<Entry>, pid: int, depth: int)
  {
    forall k :: 0 <= k < |es| ==> TreeAt(s, es, pid, depth, k)
  }

  lemma {:induction false} LastAtPrefix(a: seq<Entry>, b: seq<Entry>, k: nat, d: int)
    requires k <= |a|
    ensures LastAt(a + b, k, d) == LastAt(a, k, d)
  {
    if k > 0 {
      assert (a + b)[k - 1] == a[k - 1];
      LastAtPrefix(a, b, k - 1, d);
    }
  }

  lemma {:induction false} LastAtShift(a: seq<Entry>, b: seq<Entry>, i: nat, d: int)
    requires i <= |b|
    ensures LastAt(a + b, |a| + i, d)
      == if LastAt(b, i, d).Some? then Some(|a| + LastAt(b, i, d).value) else LastAt(a, |a|, d)
  {
    if i == 0 {
      LastAtPrefix(a, b, |a|, d);
    } else {
      assert (a + b)[|a| + i - 1] == b[i - 1];
      LastAtShift(a, b, i - 1, d);
    }
  }

  /** What `Tree` says about entry `k`. */
  predicate TreeAt(s: Store, es: seq<Entry>, pid: int, depth: int, k: nat)
    requires k < |es|
  {
    && es[k].depth >= depth
    && (es[k].depth == depth ==> ChildEntry(s, pid, es[k]))
    && (es[k].depth > depth ==> ParentOf(s, es, k))
  }

  lemma TreeAtPrefix(s: Store, a: seq<Entry>, b: seq<Entry>, pid: int, depth: int, k: nat)
    requires k < |a| && TreeAt(s, a, pid, depth, k)
    ensures TreeAt(s, a + b, pid, depth, k)
  {
    var es := a + b;
    assert es[k] == a[k];
    if a[k].depth > depth {
      var d := a[k].depth - 1;
      LastAtPrefix(a, b, k, d);
      var j := LastAt(a, k, d).value;
      assert es[j] == a[j];
    }
  }

  lemma TreeAtShift(s: Store, a: seq<Entry>, b: seq<Entry>, pid: int, depth: int, i: nat)
    requires i < |b| && TreeAt(s, b, pid, depth, i)
    ensures TreeAt(s, a + b, pid, depth, |a| + i)
  {
    var es := a + b;
    assert es[|a| + i] == b[i];
    if b[i].depth > depth {
      var d := b[i].depth - 1;
      LastAtShift(a, b, i, d);
      var j := LastAt(b, i, d).value;
      assert es[|a| + j] == b[j];
    }
  }

  lemma TreeConcat(s: Store, a: seq<Entry>, b: seq<Entry>, pid: int, depth: int)
    requires Tree(s, a, pid, depth) && Tree(s, b, pid, depth)
    ensures Tree(s, a + b, pid, depth)
  {
    forall k | 0 <= k < |a + b|
      ensures TreeAt(s, a + b, pid, depth, k)
    {
      if k < |a| {
        assert TreeAt(s, a, pid, depth, k);
        TreeAtPrefix(s, a, b, pid, depth, k);
      } else {
        assert TreeAt(s, b, pid, depth, k - |a|);
        TreeAtShift(s, a, b, pid, depth, k - |a|);
      }
    }
  }

  /** The first entry of a subtree hangs under the entry just above it. */
  lemma TreeAtUnder(s: Store, top: Entry, sub: seq<Entry>, pid: int, depth: int, i: nat)
    requires top.depth == depth && i < |sub| && sub[i].depth == depth + 1
    requires forall j :: 0 <= j < |sub| ==> sub[j].depth >= depth + 1
    requires ChildEntry(s, top.id, sub[i])
    ensures TreeAt(s, [top] + sub, pid, depth, 1 + i)
  {
    var es := [top] + sub;
    assert es[1 + i] == sub[i];
    LastAtShift([top], sub, i, depth);
    assert LastAt(sub, i, depth).None?;
    assert LastAt([top], 1, depth) == Some(0);
  }

  /** A shown child of `pid` followed by its own expansion one level down. */
  lemma TreeNest(s: Store, top: Entry, sub: seq<Entry>, pid: int, depth: int)
    requires top.depth == depth && ChildEntry(s, pid, top)
    requires Tree(s, sub, top.id, depth + 1)
    ensures Tree(s, [top] + sub, pid, depth)
  {
    var es := [top] + sub;
    assert forall j :: 0 <= j < |sub| ==> sub[j].depth >= depth + 1 by {
      forall j | 0 <= j < |sub| ensures sub[j].depth >= depth + 1 {
        assert TreeAt(s, sub, top.id, depth + 1, j);
      }
    }
    forall k | 0 <= k < |es|
      ensures TreeAt(s, es, pid, depth, k)
    {
      if k == 0 {
        assert es[0] == top;
      } else {
        var i := k - 1;
        assert TreeAt(s, sub, top.id, depth + 1, i);
        if sub[i].depth == depth + 1 {
          TreeAtUnder(s, top, sub, pid, depth, i);
        } else {
          TreeAtShift(s, [top], sub, pid, depth, i);
        }
      }
    }
  }

  lemma {:induction false} WalkRowsTree(s: Store, pid: int, rows: seq<ProductRow>, depth: int, listed: map<string, Mark>, flavor: Option<string>)
    requires Versioned(s)
    requires forall k :: 0 <= k < |rows| ==> rows[k] in s.products
    requires forall k :: 0 <= k < |rows| ==> rows[k] in Children(s.products, s.dependencies, pid)
    ensures Tree(s, WalkRows(s, rows, depth, listed, flavor).entries, pid, depth)
    decreases Names(s) - Visited(listed), 0, |rows|
  {
    if |rows| > 0 {
      var row := rows[0];
      if row.name in Visited(listed) || row.missing {
        WalkRowsTree(s, pid, rows[1..], depth, listed, flavor);
      } else {
        var marked := listed[row.name := Listed(row.version)];
        VisitedMark(s, listed, row);
        WalkTree(s, row.id, depth, marked, flavor);
        var sub := Walk(s, row.id, depth, marked, flavor);
        WalkRowsTree(s, pid, rows[1..], depth, sub.listed, flavor);
        var rest := WalkRows(s, rows[1..], depth, sub.listed, flavor);
        var top := Entry(row.id, row.name, row.version, depth);
        assert ChildEntry(s, pid, top);
        TreeNest(s, top, sub.entries, pid, depth);
        TreeConcat(s, [top] + sub.entries, rest.entries, pid, depth);
      }
    }
  }

  /** Below `pid`, every entry one level deeper is a real child of `pid`,
      and every deeper entry is a real child of the nearest earlier entry one
      level up: a chain of edges A to B to C shows C two levels below A, after
      B. */
  lemma {:induction false} WalkTree(s: Store, pid: int, depth: int, listed: map<string, Mark>, flavor: Option<string>)
    requires Versioned(s)
    ensures Tree(s, Walk(s, pid, depth, listed, flavor).entries, pid, depth + 1)
    decreases Names(s) - Visited(listed), 1, 0
  {
    WalkRowsTree(s, pid, Children(s.products, s.dependencies, pid), depth + 1, listed, flavor);
  }

  /** A child row is the target of an edge from `pid`. */
  lemma {:induction false} ChildrenEdge(rows: seq<ProductRow>, edges: seq<Edge>, pid: int, row: ProductRow)
    requires row in Children(rows, edges, pid)
    ensures Edge(pid, row.id) in edges
  {
    var e := edges[0];
    if e.id == pid && RowById(rows, e.dependency).Some? && row == rows[RowById(rows, e.dependency).value] {
      RowByIdSpec(rows, e.dependency);
      assert e == Edge(pid, row.id);
    } else {
      assert row in Children(rows, edges[1..], pid);
      ChildrenEdge(rows, edges[1..], pid, row);
    }
  }

  /** Entry `k` is the target of an edge from the nearest earlier entry one
      level up. */
  predicate EdgeFromParent(s: Store, es: seq<Entry>, k: nat)
    requires k < |es|
  {
    var j := LastAt(es, k, es[k].depth - 1);
    j.Some? && Edge(es[j.value].id, es[k].id) in s.dependencies
  }

  /** Read against the catalog, the expansion of `pid` follows the stored
      edges at every level: an entry one level below the caller is the
      target of an edge from `pid`, and every deeper entry is the target of an
      edge from the nearest earlier entry one level up. */
  lemma WalkFollowsEdges(s: Store, pid: int, depth: int, listed: map<string, Mark>, flavor: Option<string>)
    requires Versioned(s)
    ensures var es := Walk(s, pid, depth, listed, flavor).entries;
      forall k :: 0 <= k < |es| ==>
        && es[k].depth > depth
        && (es[k].depth == depth + 1 ==> Edge(pid, es[k].id) in s.dependencies)
        && (es[k].depth > depth + 1 ==> EdgeFromParent(s, es, k))
  {
    var es := Walk(s, pid, depth, listed, flavor).entries;
    WalkTree(s, pid, depth, listed, flavor);
    forall k | 0 <= k < |es|
      ensures es[k].depth > depth
      ensures es[k].depth == depth + 1 ==> Edge(pid, es[k].id) in s.dependencies
      ensures es[k].depth > depth + 1 ==> EdgeFromParent(s, es, k)
    {
      assert TreeAt(s, es, pid, depth + 1, k);
      if es[k].depth == depth + 1 {
        var row :| row in Children(s.products, s.dependencies, pid) && !row.missing
          && es[k] == Entry(row.id, row.name, row.version, es[k].depth);
        ChildrenEdge(s.products, s.dependencies, pid, row);
      } else {
        assert ParentOf(s, es, k);
        var j := LastAt(es, k, es[k].depth - 1).value;
        var row :| row in Children(s.products, s.dependencies, es[j].id) && !row.missing
          && es[k] == Entry(row.id, row.name, row.version, es[k].depth);
        ChildrenEdge(s.products, s.dependencies, es[j].id, row);
      }
    }
  }
}
