/** What `insertProduct` promises about the catalog: rows are only ever
    appended, (name, version) stays unique, every dependency pair becomes one
    edge to the row that pair names, placeholders are created once and
    reported unless they stand for the default product, and tags attached by
    `fullname` are read back by `name`. */
module CatalogProps {

  import opened Base
  import opened Catalog

  // ---------------------------------------------------------------------
  // Lookups in a table that has grown

  lemma PrefixFind(rows: seq<ProductRow>, rows': seq<ProductRow>, name: string, version: string)
    requires rows <= rows'
    requires FindProduct(rows, name, version).Some?
    ensures FindProduct(rows', name, version) == FindProduct(rows, name, version)
    ensures rows'[FindProduct(rows, name, version).value] == rows[FindProduct(rows, name, version).value]
  {
    assert rows' == rows + rows'[|rows|..];
    FindProductAppend(rows, rows'[|rows|..], name, version);
  }

  lemma {:induction false} PrefixRowById(rows: seq<ProductRow>, rows': seq<ProductRow>, id: int)
    requires rows <= rows' && RowById(rows, id).Some?
    ensures RowById(rows', id) == RowById(rows, id)
    decreases |rows|
  {
    assert rows'[0] == rows[0];
    if rows[0].id != id {
      PrefixRowById(rows[1..], rows'[1..], id);
    }
  }

  /** Keys present in a prefix of the table stay present. */
  lemma PrefixKeys(rows: seq<ProductRow>, rows': seq<ProductRow>)
    requires rows <= rows'
    ensures forall id :: RowById(rows, id).Some? ==> RowById(rows', id).Some?
  {
    forall id | RowById(rows, id).Some?
      ensures RowById(rows', id).Some?
    {
      PrefixRowById(rows, rows', id);
    }
  }

  /** The id of the row a (name, version) lookup finds. */
  function IdOf(rows: seq<ProductRow>, name: string, version: string): int
    requires FindProduct(rows, name, version).Some?
  {
    rows[FindProduct(rows, name, version).value].id
  }

  /** `e` is the edge from `pid` to the row that `dep`'s lookup finds in `rows`. */
  predicate EdgeTo(rows: seq<ProductRow>, pid: int, dep: (string, string), e: Edge)
  {
    FindProduct(rows, dep.0, dep.1).Some? && e == Edge(pid, IdOf(rows, dep.0, dep.1))
  }

  lemma EdgeToExtend(rows: seq<ProductRow>, rows': seq<ProductRow>, pid: int, dep: (string, string), e: Edge)
    requires rows <= rows' && EdgeTo(rows, pid, dep, e)
    ensures EdgeTo(rows', pid, dep, e)
  {
    PrefixFind(rows, rows', dep.0, dep.1);
  }

  /** The warnings for a run of placeholder rows, in order. */
  function PlaceholderWarnings(rows: seq<ProductRow>, product: Product, defaultName: Option<string>): seq<Warning>
  {
    if |rows| == 0 then []
    else
      PlaceholderWarning(rows[0].name, rows[0].version, product, defaultName)
      + PlaceholderWarnings(rows[1..], product, defaultName)
  }

  // ---------------------------------------------------------------------
  // insert_product and the lookup-or-create of a dependency

  /** `insert_product` appends exactly one row, under a key no row had. */
  lemma InsertRowSpec(s: Store, name: string, version: string, directory: Option<string>, missing: bool)
    ensures var r := InsertRow(s, name, version, directory, missing);
      && RowById(s.products, r.id).None?
      && r.store == s.(products := s.products + [ProductRow(r.id, name, version, directory, missing)])
  {
    var id := NextProductId(s.products);
    NextProductIdSpec(s.products);
    RowByIdSpec(s.products, id);
  }

  /** A dependency pair resolves to the row its lookup finds; when there is
      none, a placeholder row without a directory is appended under a fresh
      key, and the lookup then finds it. */
  lemma ResolveSpec(s: Store, name: string, version: string)
    ensures var r := Resolve(s, name, version);
      && FindProduct(r.store.products, name, version).Some?
      && r.id == IdOf(r.store.products, name, version)
      && (FindProduct(s.products, name, version).Some? ==> r.store == s)
      && (FindProduct(s.products, name, version).None? ==>
            && RowById(s.products, r.id).None?
            && r.store == s.(products := s.products + [ProductRow(r.id, name, version, None, true)]))
  {
    if FindProduct(s.products, name, version).None? {
      var r := Resolve(s, name, version);
      var row := ProductRow(r.id, name, version, None, true);
      InsertRowSpec(s, name, version, None, true);
      FindProductAppend(s.products, [row], name, version);
      assert FindProduct([row], name, version) == Some(0);
    }
  }

  // ---------------------------------------------------------------------
  // The dependency loop

  /** One turn appends one edge, from `pid` to the row the pair resolves to,
      and at most the placeholder row for the pair. */
  lemma LinkStepSpec(s: Store, pid: int, dep: (string, string))
    ensures var s1 := LinkStep(s, pid, dep);
      && s.products <= s1.products
      && s1.tagNames == s.tagNames && s1.tags == s.tags
      && |s1.dependencies| == |s.dependencies| + 1
      && s.dependencies <= s1.dependencies
      && EdgeTo(s1.products, pid, dep, s1.dependencies[|s.dependencies|])
  {
    ResolveSpec(s, dep.0, dep.1);
  }

  /** The rows one turn adds: none when the pair has a row, otherwise its
      placeholder. */
  lemma LinkStepRows(s: Store, pid: int, dep: (string, string))
    ensures var s1 := LinkStep(s, pid, dep);
      && (FindProduct(s.products, dep.0, dep.1).Some? ==> s1.products == s.products)
      && (FindProduct(s.products, dep.0, dep.1).None? ==>
            && |s1.products| == |s.products| + 1
            && s1.products[|s.products|].name == dep.0
            && s1.products[|s.products|].version == dep.1
            && s1.products[|s.products|].missing
            && s1.products[|s.products|].directory == None)
  {
    ResolveSpec(s, dep.0, dep.1);
  }

  /** The loop only appends: to `products` and, one edge per pair, to
      `dependencies`. */
  lemma {:induction false} LinkGrows(s: Store, pid: int, pending: seq<(string, string)>)
    ensures var r := Link(s, pid, pending);
      && s.products <= r.products
      && r.tagNames == s.tagNames && r.tags == s.tags
      && |r.dependencies| == |s.dependencies| + |pending|
      && s.dependencies <= r.dependencies
    decreases |pending|
  {
    if |pending| > 0 {
      LinkStepSpec(s, pid, pending[0]);
      LinkGrows(LinkStep(s, pid, pending[0]), pid, pending[1..]);
    }
  }

  lemma LinkEdgeFirst(s: Store, pid: int, pending: seq<(string, string)>)
    requires |pending| > 0
    ensures var r := Link(s, pid, pending);
      |s.dependencies| < |r.dependencies| && EdgeTo(r.products, pid, pending[0], r.dependencies[|s.dependencies|])
  {
    var s1 := LinkStep(s, pid, pending[0]);
    var r := Link(s1, pid, pending[1..]);
    LinkStepSpec(s, pid, pending[0]);
    LinkGrows(s1, pid, pending[1..]);
    assert r.dependencies[|s.dependencies|] == s1.dependencies[|s.dependencies|];
    EdgeToExtend(s1.products, r.products, pid, pending[0], s1.dependencies[|s.dependencies|]);
  }

  /** The `k`-th pair appends the `k`-th new edge, from the subject to the
      row that the pair's lookup finds once the loop is over. */
  lemma {:induction false} LinkEdgeAt(s: Store, pid: int, pending: seq<(string, string)>, k: nat)
    requires k < |pending|
    ensures var r := Link(s, pid, pending);
      |s.dependencies| + k < |r.dependencies| && EdgeTo(r.products, pid, pending[k], r.dependencies[|s.dependencies| + k])
    decreases k
  {
    if k == 0 {
      LinkEdgeFirst(s, pid, pending);
    } else {
      LinkStepSpec(s, pid, pending[0]);
      LinkEdgeAt(LinkStep(s, pid, pending[0]), pid, pending[1..], k - 1);
    }
  }

  /** Rows the loop adds are placeholders without a directory, each for a
      pair of the list whose (name, version) had no row before the call. */
  lemma {:induction false} LinkPlaceholders(s: Store, pid: int, pending: seq<(string, string)>)
    ensures var r := Link(s, pid, pending);
      forall j :: |s.products| <= j < |r.products| ==>
        && r.products[j].missing
        && r.products[j].directory == None
        && FindProduct(s.products, r.products[j].name, r.products[j].version).None?
        && (r.products[j].name, r.products[j].version) in pending
    decreases |pending|
  {
    if |pending| > 0 {
      var s1 := LinkStep(s, pid, pending[0]);
      var r := Link(s1, pid, pending[1..]);
      LinkStepSpec(s, pid, pending[0]);
      LinkStepRows(s, pid, pending[0]);
      LinkGrows(s1, pid, pending[1..]);
      LinkPlaceholders(s1, pid, pending[1..]);
      forall j | |s.products| <= j < |r.products|
        ensures r.products[j].missing && r.products[j].directory == None
        ensures FindProduct(s.products, r.products[j].name, r.products[j].version).None?
        ensures (r.products[j].name, r.products[j].version) in pending
      {
        if j < |s1.products| {
          assert r.products[j] == s1.products[j];
          assert pending[0] in pending;
        } else {
          PlaceholderFromRest(s.products, s1.products, pending, r.products[j]);
        }
      }
    }
  }

  lemma PlaceholderFromRest(rows: seq<ProductRow>, rows1: seq<ProductRow>, pending: seq<(string, string)>, row: ProductRow)
    requires rows <= rows1 && |pending| > 0
    requires FindProduct(rows1, row.name, row.version).None?
    requires (row.name, row.version) in pending[1..]
    ensures FindProduct(rows, row.name, row.version).None?
    ensures (row.name, row.version) in pending
  {
    if FindProduct(rows, row.name, row.version).Some? {
      PrefixFind(rows, rows1, row.name, row.version);
    }
  }

  /** A warning is written for exactly the placeholders the loop creates,
      in the order they are created, except those named like the default
      product. */
  lemma {:induction false} LinkLogNamesPlaceholders(s: Store, pid: int, product: Product, pending: seq<(string, string)>, defaultName: Option<string>)
    ensures var r := Link(s, pid, pending);
      |s.products| <= |r.products|
      && LinkLog(s, pid, product, pending, defaultName) == PlaceholderWarnings(r.products[|s.products|..], product, defaultName)
    decreases |pending|
  {
    if |pending| > 0 {
      var s1 := LinkStep(s, pid, pending[0]);
      var r := Link(s1, pid, pending[1..]);
      LinkStepRows(s, pid, pending[0]);
      LinkGrows(s1, pid, pending[1..]);
      LinkLogNamesPlaceholders(s1, pid, product, pending[1..], defaultName);
      if FindProduct(s.products, pending[0].0, pending[0].1).None? {
        var added := r.products[|s.products|..];
        assert added[0] == s1.products[|s.products|];
        assert added[1..] == r.products[|s1.products|..];
      }
    }
  }

  /** Appending a row under a fresh key and an unused (name, version) keeps
      the store well formed. */
  lemma AppendRowWf(s: Store, id: int, name: string, version: string, directory: Option<string>, missing: bool)
    requires Wf(s)
    requires RowById(s.products, id).None?
    requires FindProduct(s.products, name, version).None?
    ensures Wf(s.(products := s.products + [ProductRow(id, name, version, directory, missing)]))
  {
    var rows' := s.products + [ProductRow(id, name, version, directory, missing)];
    PrefixKeys(s.products, rows');
    RowByIdSpec(s.products, id);
    FindProductSpec(s.products, name, version);
  }

  lemma LinkStepWf(s: Store, pid: int, dep: (string, string))
    requires Wf(s) && RowById(s.products, pid).Some?
    ensures Wf(LinkStep(s, pid, dep)) && RowById(LinkStep(s, pid, dep).products, pid).Some?
  {
    var res := Resolve(s, dep.0, dep.1);
    var s1 := LinkStep(s, pid, dep);
    ResolveSpec(s, dep.0, dep.1);
    RowByIdSpec(res.store.products, res.id);
    if FindProduct(s.products, dep.0, dep.1).None? {
      AppendRowWf(s, res.id, dep.0, dep.1, None, true);
    }
    PrefixKeys(s.products, s1.products);
  }

  /** The loop keeps the store well formed when the subject row exists. */
  lemma {:induction false} LinkWf(s: Store, pid: int, pending: seq<(string, string)>)
    requires Wf(s) && RowById(s.products, pid).Some?
    ensures Wf(Link(s, pid, pending))
    decreases |pending|
  {
    if |pending| > 0 {
      LinkStepWf(s, pid, pending[0]);
      LinkWf(LinkStep(s, pid, pending[0]), pid, pending[1..]);
    }
  }

  // ---------------------------------------------------------------------
  // Tags of a new row

  /** Every `tags` row attached by fullname belongs to the product and names
      an existing definition; at most one is attached per tag. */
  lemma {:induction false} TagRowsForSpec(defs: seq<TagName>, pid: int, pending: seq<string>)
    ensures var r := TagRowsFor(defs, pid, pending);
      && |r| <= |pending|
      && forall k :: 0 <= k < |r| ==> r[k].id == pid && TagById(defs, r[k].tid).Some?
    decreases |pending|
  {
    if |pending| > 0 {
      TagRowsForSpec(defs, pid, pending[1..]);
      match FindTag(defs, pending[0])
      case Some(i) =>
        TagByIdSpec(defs, defs[i].tid);
      case None =>
    }
  }

  /** `w` reports a tag of `product` that matches no definition. */
  predicate Reports(defs: seq<TagName>, product: Product, pending: seq<string>, w: Warning)
  {
    && w.UnknownTag?
    && w.name == product.name && w.version == product.version
    && w.tag in pending
    && FindTag(defs, w.tag).None?
  }

  /** Every tag of a new product is either attached or reported: the
      warnings name tags of the product, each one matching no definition, and
      every such tag is reported; together with the attached rows they
      account for each tag once. */
  lemma {:induction false} UnknownTagWarningsSpec(defs: seq<TagName>, product: Product, pid: int, pending: seq<string>)
    ensures var r := UnknownTagWarnings(defs, product, pending);
      && |r| + |TagRowsFor(defs, pid, pending)| == |pending|
      && (forall k :: 0 <= k < |r| ==> Reports(defs, product, pending, r[k]))
      && forall t :: t in pending && FindTag(defs, t).None? ==> UnknownTag(t, product.name, product.version) in r
    decreases |pending|
  {
    if |pending| > 0 {
      UnknownTagWarningsSpec(defs, product, pid, pending[1..]);
      var rest := UnknownTagWarnings(defs, product, pending[1..]);
      var r := UnknownTagWarnings(defs, product, pending);
      assert forall t :: t in pending ==> t == pending[0] || t in pending[1..];
      forall k | 0 <= k < |rest| ensures Reports(defs, product, pending, rest[k]) {
        assert Reports(defs, product, pending[1..], rest[k]);
        assert rest[k].tag in pending;
      }
      if FindTag(defs, pending[0]).None? {
        assert r == [UnknownTag(pending[0], product.name, product.version)] + rest;
        assert forall k :: 1 <= k < |r| ==> r[k] == rest[k - 1];
      } else {
        assert r == rest;
      }
    }
  }

  /** The subject of an insertion: the existing row for the product's
      (name, version), or a new real row carrying its directory, appended
      under a fresh key together with its tags. */
  lemma SubjectSpec(s: Store, product: Product)
    ensures var r := Subject(s, product);
      && FindProduct(r.store.products, product.name, product.version).Some?
      && r.id == IdOf(r.store.products, product.name, product.version)
      && r.store.dependencies == s.dependencies && r.store.tagNames == s.tagNames
      && s.products <= r.store.products && s.tags <= r.store.tags
      && (FindProduct(s.products, product.name, product.version).Some? ==> r.store == s)
      && (FindProduct(s.products, product.name, product.version).None? ==>
            && RowById(s.products, r.id).None?
            && FindProduct(r.store.products, product.name, product.version) == Some(|s.products|)
            && r.store.products == s.products + [ProductRow(r.id, product.name, product.version, product.dir, false)]
            && r.store.tags == s.tags + TagRowsFor(s.tagNames, r.id, product.tags))
  {
    if FindProduct(s.products, product.name, product.version).None? {
      var r := Subject(s, product);
      var row := ProductRow(r.id, product.name, product.version, product.dir, false);
      InsertRowSpec(s, product.name, product.version, product.dir, false);
      FindProductAppend(s.products, [row], product.name, product.version);
      assert FindProduct([row], product.name, product.version) == Some(0);
    }
  }

  lemma SubjectWf(s: Store, product: Product)
    requires Wf(s)
    ensures Wf(Subject(s, product).store)
    ensures RowById(Subject(s, product).store.products, Subject(s, product).id).Some?
  {
    var subject := Subject(s, product);
    SubjectSpec(s, product);
    RowByIdSpec(subject.store.products, subject.id);
    if FindProduct(s.products, product.name, product.version).None? {
      AppendRowWf(s, subject.id, product.name, product.version, product.dir, false);
      TagRowsForSpec(s.tagNames, subject.id, product.tags);
      PrefixKeys(s.products, subject.store.products);
      forall t | t in subject.store.tags
        ensures RowById(subject.store.products, t.id).Some? && TagById(subject.store.tagNames, t.tid).Some?
      {
        if t !in s.tags {
          var k :| 0 <= k < |TagRowsFor(s.tagNames, subject.id, product.tags)| && TagRowsFor(s.tagNames, subject.id, product.tags)[k] == t;
        }
      }
    }
  }

  // ---------------------------------------------------------------------
  // insertProduct

  /** The index of the row for `product`'s (name, version), if any. */
  function SubjectIndex(s: Store, product: Product): Option<nat>
  {
    FindProduct(s.products, product.name, product.version)
  }

  lemma InsertProductIsLink(s: Store, product: Product, dependencies: seq<(string, string)>, newProduct: bool, defaultName: Option<string>)
    ensures var r := InsertProduct(s, product, dependencies, newProduct, defaultName);
      var subject := Subject(s, product);
      r.Committed? ==>
        && r.log.store == Link(subject.store, subject.id, dependencies)
        && SubjectIndex(r.log.store, product).Some?
        && SubjectIndex(r.log.store, product) == SubjectIndex(subject.store, product)
        && IdOf(r.log.store.products, product.name, product.version) == subject.id
  {
    var r := InsertProduct(s, product, dependencies, newProduct, defaultName);
    var subject := Subject(s, product);
    if r.Committed? {
      SubjectSpec(s, product);
      LinkGrows(subject.store, subject.id, dependencies);
      PrefixFind(subject.store.products, r.log.store.products, product.name, product.version);
    }
  }

  /** A committed insertion only appends: existing rows of every table stay
      where they are, and no tag definition is added. */
  lemma InsertProductAppends(s: Store, product: Product, dependencies: seq<(string, string)>, newProduct: bool, defaultName: Option<string>)
    ensures var r := InsertProduct(s, product, dependencies, newProduct, defaultName);
      r.Committed? ==>
        && s.products <= r.log.store.products
        && s.dependencies <= r.log.store.dependencies
        && s.tags <= r.log.store.tags
        && r.log.store.tagNames == s.tagNames
  {
    var subject := Subject(s, product);
    SubjectSpec(s, product);
    LinkGrows(subject.store, subject.id, dependencies);
  }

  /** A committed insertion leaves the store well formed: in particular there
      is still at most one row per (name, version), even when one call names
      the same unknown dependency twice. */
  lemma InsertProductWf(s: Store, product: Product, dependencies: seq<(string, string)>, newProduct: bool, defaultName: Option<string>)
    requires Wf(s)
    ensures var r := InsertProduct(s, product, dependencies, newProduct, defaultName);
      r.Committed? ==> Wf(r.log.store)
  {
    var subject := Subject(s, product);
    SubjectWf(s, product);
    LinkWf(subject.store, subject.id, dependencies);
  }

  /** A committed insertion has a row for the product: the existing one, or a
      new real row at the end of the old table carrying its directory. Tags
      are attached only to a new row: one `tags` row per tag whose fullname
      names a definition. */
  lemma InsertProductSubject(s: Store, product: Product, dependencies: seq<(string, string)>, newProduct: bool, defaultName: Option<string>)
    ensures var r := InsertProduct(s, product, dependencies, newProduct, defaultName);
      r.Committed? ==>
        var s' := r.log.store;
        && SubjectIndex(s', product).Some?
        && (SubjectIndex(s, product).Some? ==>
              SubjectIndex(s', product) == SubjectIndex(s, product) && s'.tags == s.tags)
        && (SubjectIndex(s, product).None? ==>
              && SubjectIndex(s', product) == Some(|s.products|)
              && s'.products[|s.products|] == ProductRow(IdOf(s'.products, product.name, product.version),
                                                         product.name, product.version, product.dir, false)
              && s'.tags == s.tags + TagRowsFor(s.tagNames, IdOf(s'.products, product.name, product.version), product.tags))
  {
    var r := InsertProduct(s, product, dependencies, newProduct, defaultName);
    if r.Committed? {
      var subject := Subject(s, product);
      InsertProductIsLink(s, product, dependencies, newProduct, defaultName);
      SubjectSpec(s, product);
      LinkGrows(subject.store, subject.id, dependencies);
      if SubjectIndex(s, product).None? {
        assert r.log.store.products[|s.products|] == subject.store.products[|s.products|];
      }
    }
  }

  /** Every dependency pair appends exactly one edge from the subject, in the
      order given, to the row of that (name, version); nothing else is added
      to `dependencies`. */
  lemma InsertProductEdges(s: Store, product: Product, dependencies: seq<(string, string)>, newProduct: bool, defaultName: Option<string>)
    ensures var r := InsertProduct(s, product, dependencies, newProduct, defaultName);
      r.Committed? ==>
        var s' := r.log.store;
        && SubjectIndex(s', product).Some?
        && |s'.dependencies| == |s.dependencies| + |dependencies|
        && forall k :: 0 <= k < |dependencies| ==>
             EdgeTo(s'.products, IdOf(s'.products, product.name, product.version),
                    dependencies[k], s'.dependencies[|s.dependencies| + k])
  {
    var r := InsertProduct(s, product, dependencies, newProduct, defaultName);
    if r.Committed? {
      var subject := Subject(s, product);
      InsertProductIsLink(s, product, dependencies, newProduct, defaultName);
      SubjectSpec(s, product);
      LinkGrows(subject.store, subject.id, dependencies);
      forall k | 0 <= k < |dependencies|
        ensures EdgeTo(r.log.store.products, subject.id, dependencies[k], r.log.store.dependencies[|s.dependencies| + k])
      {
        LinkEdgeAt(subject.store, subject.id, dependencies, k);
      }
    }
  }

  /** Rows other than the subject's are placeholders without a directory, one
      for each (name, version) of the list that had no row before; a warning
      names each of them unless it is the default product, and one names
      each tag whose fullname matched no definition. */
  lemma InsertProductPlaceholders(s: Store, product: Product, dependencies: seq<(string, string)>, newProduct: bool, defaultName: Option<string>)
    ensures var r := InsertProduct(s, product, dependencies, newProduct, defaultName);
      r.Committed? ==>
        var s' := r.log.store;
        var first := if SubjectIndex(s, product).Some? then |s.products| else |s.products| + 1;
        && first <= |s'.products|
        && (forall j :: first <= j < |s'.products| ==>
              && s'.products[j].missing
              && s'.products[j].directory == None
              && FindProduct(s.products, s'.products[j].name, s'.products[j].version).None?
              && (s'.products[j].name, s'.products[j].version) in dependencies)
        && r.log.warnings
           == (if SubjectIndex(s, product).Some? then [] else UnknownTagWarnings(s.tagNames, product, product.tags))
              + PlaceholderWarnings(s'.products[first..], product, defaultName)
  {
    var r := InsertProduct(s, product, dependencies, newProduct, defaultName);
    if r.Committed? {
      var subject := Subject(s, product);
      var s' := r.log.store;
      SubjectSpec(s, product);
      LinkGrows(subject.store, subject.id, dependencies);
      LinkPlaceholders(subject.store, subject.id, dependencies);
      LinkLogNamesPlaceholders(subject.store, subject.id, product, dependencies, defaultName);
      forall j | |subject.store.products| <= j < |s'.products|
        ensures FindProduct(s.products, s'.products[j].name, s'.products[j].version).None?
      {
        var n, w := s'.products[j].name, s'.products[j].version;
        if FindProduct(s.products, n, w).Some? {
          PrefixFind(s.products, subject.store.products, n, w);
        }
      }
    }
  }

  // ---------------------------------------------------------------------
  // Tags: attached by fullname, reported by name

  /** The `name`s of the definitions the given fullnames resolve to, in
      order, skipping fullnames that resolve to nothing. */
  function ResolvedTagNames(defs: seq<TagName>, fullnames: seq<string>): seq<string>
  {
    if |fullnames| == 0 then []
    else
      (match FindTag(defs, fullnames[0])
       case Some(i) => [defs[i].name]
       case None => [])
      + ResolvedTagNames(defs, fullnames[1..])
  }

  lemma {:induction false} TagNamesForAppend(defs: seq<TagName>, a: seq<TagRow>, b: seq<TagRow>, pid: int)
    ensures TagNamesFor(defs, a + b, pid) == TagNamesFor(defs, a, pid) + TagNamesFor(defs, b, pid)
    decreases |a|
  {
    if |a| > 0 {
      assert (a + b)[1..] == a[1..] + b;
      TagNamesForAppend(defs, a[1..], b, pid);
    } else {
      assert a + b == b;
    }
  }

  lemma {:induction false} TagNamesForOthers(defs: seq<TagName>, rows: seq<TagRow>, pid: int)
    requires forall t :: t in rows ==> t.id != pid
    ensures TagNamesFor(defs, rows, pid) == []
    decreases |rows|
  {
    if |rows| > 0 {
      assert rows[0] in rows;
      TagNamesForOthers(defs, rows[1..], pid);
    }
  }

  /** With distinct keys, looking a definition up by its own key finds it. */
  lemma TagByIdFinds(defs: seq<TagName>, i: nat)
    requires DistinctTids(defs) && i < |defs|
    ensures TagById(defs, defs[i].tid) == Some(i)
  {
    TagByIdSpec(defs, defs[i].tid);
  }

  lemma {:induction false} TagNamesForResolved(defs: seq<TagName>, pid: int, fullnames: seq<string>)
    requires DistinctTids(defs)
    ensures TagNamesFor(defs, TagRowsFor(defs, pid, fullnames), pid) == ResolvedTagNames(defs, fullnames)
    decreases |fullnames|
  {
    if |fullnames| > 0 {
      var head := match FindTag(defs, fullnames[0])
                  case Some(i) => [TagRow(pid, defs[i].tid)]
                  case None => [];
      TagNamesForAppend(defs, head, TagRowsFor(defs, pid, fullnames[1..]), pid);
      TagNamesForResolved(defs, pid, fullnames[1..]);
      match FindTag(defs, fullnames[0])
      case Some(i) =>
        TagByIdFinds(defs, i);
      case None =>
    }
  }

  /** A brand-new product's tags, attached by `fullname` when it is inserted,
      are reported by `getTags` under their `name`, in the order they were
      listed; tags whose fullname matched nothing are absent. */
  lemma InsertThenGetTags(s: Store, product: Product, dependencies: seq<(string, string)>, newProduct: bool, defaultName: Option<string>)
    requires Wf(s)
    requires SubjectIndex(s, product).None?
    ensures var r := InsertProduct(s, product, dependencies, newProduct, defaultName);
      && r.Committed?
      && SubjectIndex(r.log.store, product).Some?
      && GetTags(r.log.store, IdOf(r.log.store.products, product.name, product.version))
         == ResolvedTagNames(s.tagNames, product.tags)
  {
    var r := InsertProduct(s, product, dependencies, newProduct, defaultName);
    var subject := Subject(s, product);
    var pid := subject.id;
    InsertProductIsLink(s, product, dependencies, newProduct, defaultName);
    SubjectSpec(s, product);
    LinkGrows(subject.store, subject.id, dependencies);
    var s' := r.log.store;
    assert s'.products[|s.products|] == subject.store.products[|s.products|];
    RowByIdSpec(s'.products, pid);
    forall t | t in s.tags
      ensures t.id != pid
    {
      RowByIdSpec(s.products, t.id);
    }
    TagNamesForOthers(s'.tagNames, s.tags, pid);
    TagNamesForAppend(s'.tagNames, s.tags, TagRowsFor(s.tagNames, pid, product.tags), pid);
    TagNamesForResolved(s.tagNames, pid, product.tags);
  }
}
