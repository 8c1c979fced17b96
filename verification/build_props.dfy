/** What `build` and `findDefaultProducts` guarantee: the default product is
    the first one with the configured name and its dependents keep the
    product-list order; `build` never inserts the default product, inserts
    every other product before it adds any edge, drops the dependencies the
    default product already provides, and keeps the catalog well formed. */
module BuildProps {

  import opened Base
  import opened Catalog
  import opened CatalogProps
  import opened Builder

  // ---------------------------------------------------------------------
  // Tag definitions

  /** The tags `build` loads: every one that is not a pseudo-tag. */
  function NonPseudo(tags: seq<TagDef>): seq<TagDef>
  {
    if |tags| == 0 then []
    else (if tags[0].isPseudo then [] else [tags[0]]) + NonPseudo(tags[1..])
  }

  /** The definition `build` writes for a tag: its name, full name and
      scope, with an empty owner. */
  predicate DefinedBy(row: TagName, t: TagDef)
  {
    row.name == t.name && row.fullname == t.fullname && row.isGlobal == t.isGlobal && row.owner == ""
  }

  /** Loading keeps the existing definitions in front and adds one per
      non-pseudo tag. */
  lemma {:induction false} LoadTagNamesLength(defs: seq<TagName>, tags: seq<TagDef>)
    ensures var r := LoadTagNames(defs, tags);
      defs <= r && |r| == |defs| + |NonPseudo(tags)|
    decreases |tags|
  {
    if |tags| > 0 {
      if tags[0].isPseudo {
        LoadTagNamesLength(defs, tags[1..]);
      } else {
        var next := defs + [TagName(NextTid(defs), tags[0].name, tags[0].fullname, tags[0].isGlobal, "")];
        LoadTagNamesLength(next, tags[1..]);
        assert NonPseudo(tags) == [tags[0]] + NonPseudo(tags[1..]);
      }
    }
  }

  /** Loading appends one definition per non-pseudo tag, in order. */
  lemma {:induction false} LoadTagNamesSpec(defs: seq<TagName>, tags: seq<TagDef>)
    ensures var r := LoadTagNames(defs, tags);
      && defs <= r
      && |r| == |defs| + |NonPseudo(tags)|
      && (forall k :: 0 <= k < |NonPseudo(tags)| ==> DefinedBy(r[|defs| + k], NonPseudo(tags)[k]))
    decreases |tags|
  {
    LoadTagNamesLength(defs, tags);
    if |tags| > 0 {
      if tags[0].isPseudo {
        LoadTagNamesSpec(defs, tags[1..]);
      } else {
        var row := TagName(NextTid(defs), tags[0].name, tags[0].fullname, tags[0].isGlobal, "");
        var next := defs + [row];
        LoadTagNamesSpec(next, tags[1..]);
        var r := LoadTagNames(next, tags[1..]);
        var ts := NonPseudo(tags);
        assert ts == [tags[0]] + NonPseudo(tags[1..]);
        assert r[|defs|] == next[|defs|];
        forall k | 0 <= k < |ts|
          ensures DefinedBy(r[|defs| + k], ts[k])
        {
          if k > 0 {
            assert r[|defs| + k] == r[|next| + (k - 1)];
            assert ts[k] == NonPseudo(tags[1..])[k - 1];
          }
        }
      }
    }
  }

  /** Each loaded definition gets a key no earlier definition has. */
  lemma {:induction false} LoadTagNamesDistinct(defs: seq<TagName>, tags: seq<TagDef>)
    requires DistinctTids(defs)
    ensures DistinctTids(LoadTagNames(defs, tags))
    decreases |tags|
  {
    if |tags| > 0 {
      if tags[0].isPseudo {
        LoadTagNamesDistinct(defs, tags[1..]);
      } else {
        var row := TagName(NextTid(defs), tags[0].name, tags[0].fullname, tags[0].isGlobal, "");
        NextTidSpec(defs);
        assert DistinctTids(defs + [row]) by {
          var d := defs + [row];
          forall i, j | 0 <= i < j < |d|
            ensures d[i].tid != d[j].tid
          {
            if j == |defs| {
              assert d[i] == defs[i];
            }
          }
        }
        LoadTagNamesDistinct(defs + [row], tags[1..]);
      }
    }
  }

  lemma {:induction false} PrefixTagById(defs: seq<TagName>, defs': seq<TagName>, tid: int)
    requires defs <= defs' && TagById(defs, tid).Some?
    ensures TagById(defs', tid) == TagById(defs, tid)
  {
    if defs[0].tid != tid {
      assert defs[1..] <= defs'[1..];
      PrefixTagById(defs[1..], defs'[1..], tid);
    }
  }

  /** Loading tag definitions keeps the catalog well formed. */
  lemma LoadTagNamesWf(s: Store, tags: seq<TagDef>)
    requires Wf(s)
    ensures Wf(s.(tagNames := LoadTagNames(s.tagNames, tags)))
  {
    var defs := LoadTagNames(s.tagNames, tags);
    LoadTagNamesSpec(s.tagNames, tags);
    LoadTagNamesDistinct(s.tagNames, tags);
    forall t | t in s.tags
      ensures TagById(defs, t.tid).Some?
    {
      PrefixTagById(s.tagNames, defs, t.tid);
    }
  }

  // ---------------------------------------------------------------------
  // findDefaultProducts

  lemma {:induction false} FirstNamedSpec(ps: seq<Product>, name: string)
    ensures var r := FirstNamed(ps, name);
      && (r.Some? ==> ps[r.value].name == name && forall j :: 0 <= j < r.value ==> ps[j].name != name)
      && (r.None? <==> forall j :: 0 <= j < |ps| ==> ps[j].name != name)
  {
    if |ps| > 0 {
      FirstNamedSpec(ps[1..], name);
      assert forall j :: 1 <= j < |ps| ==> ps[j] == ps[1..][j - 1];
    }
  }

  lemma {:induction false} ProductsSpec(ds: seq<Dependent>)
    ensures forall k :: 0 <= k < |ds| ==> Products(ds)[k] == ds[k].product
  {
    if |ds| > 0 {
      ProductsSpec(ds[1..]);
    }
  }

  /** Filtering keeps the order of the list, and keeps exactly its elements
      that are in `keep`. */
  lemma {:induction false} WithinSpec(ps: seq<Product>, keep: seq<Product>)
    ensures Subsequence(Within(ps, keep), ps)
    ensures forall x :: x in Within(ps, keep) <==> x in ps && x in keep
  {
    if |ps| > 0 {
      WithinSpec(ps[1..], keep);
      var rest := Within(ps[1..], keep);
      if ps[0] in keep {
        assert ([ps[0]] + rest)[1..] == rest;
      } else {
        assert [] + rest == rest;
        SubsequenceOfTail(rest, ps);
      }
      assert ps == [ps[0]] + ps[1..];
    }
  }

  /** `findDefaultProducts` searches only a non-empty list; it picks the first
      product with the configured name, or reports that none has it; the
      default list holds, in product-list order, exactly the products that
      the default product depends on. */
  lemma FindDefaultProductsSpec(name: string, productList: seq<Product>, lookup: Product -> Lookup)
    ensures var r := FindDefaultProducts(name, productList, lookup);
      && (|productList| == 0 ==> r == Some(Defaults(name, Unsearched, [])))
      && (r.Some? ==> r.value.name == name)
      && (r.Some? && r.value.product == NoMatch <==>
            |productList| > 0 && forall j :: 0 <= j < |productList| ==> productList[j].name != name)
      && (r.Some? && !r.value.product.Match? ==> r.value.list == [])
      && (r.Some? && r.value.product.Match? ==>
            exists i :: 0 <= i < |productList| && productList[i] == r.value.product.product
              && productList[i].name == name
              && (forall j :: 0 <= j < i ==> productList[j].name != name)
              && lookup(productList[i]).Dependents?
              && Subsequence(r.value.list, productList)
              && (forall x :: x in r.value.list <==>
                    x in productList && exists k :: 0 <= k < |lookup(productList[i]).list| && lookup(productList[i]).list[k].product == x))
      && (r.None? <==> exists i :: 0 <= i < |productList| && FirstNamed(productList, name) == Some(i) && lookup(productList[i]).TableError?)
  {
    FirstNamedSpec(productList, name);
    if |productList| > 0 && FirstNamed(productList, name).Some? {
      var i := FirstNamed(productList, name).value;
      if lookup(productList[i]).Dependents? {
        var ds := lookup(productList[i]).list;
        WithinSpec(productList, Products(ds));
        ProductsSpec(ds);
        forall x
          ensures x in Products(ds) <==> exists k :: 0 <= k < |ds| && ds[k].product == x
        {
          if x in Products(ds) {
            var k :| 0 <= k < |Products(ds)| && Products(ds)[k] == x;
            assert ds[k].product == x;
          }
        }
      }
    }
  }

  // ---------------------------------------------------------------------
  // The two passes

  /** A step of the first pass: a new product inserted without dependencies
      (never the default product), or the warning for a product whose
      dependents could not be read. */
  predicate FirstPassStep(st: Step, d: Defaults)
  {
    match st
    case Insert(p, deps, newProduct, defaultName) =>
      deps == [] && newProduct && defaultName == None && d.product != Match(p)
    case Warn(w) => w.DependencyLookupFailed?
  }

  /** A recorded entry: a product other than the default one, whose
      dependents were read, with the pairs of those not in the default
      list. */
  predicate RecordedEntry(e: (Product, seq<(string, string)>), d: Defaults, lookup: Product -> Lookup)
  {
    d.product != Match(e.0) && lookup(e.0).Dependents? && e.1 == Pairs(lookup(e.0).list, d.list)
  }

  lemma {:induction false} PutSpec(rec: Recorded, pi: Product, deps: seq<(string, string)>)
    ensures (pi, deps) in Put(rec, pi, deps)
    ensures forall e :: e in Put(rec, pi, deps) ==> e in rec || e == (pi, deps)
    ensures forall e :: e in rec && e.0 != pi ==> e in Put(rec, pi, deps)
  {
    if |rec| > 0 && rec[0].0 != pi {
      PutSpec(rec[1..], pi, deps);
      assert rec == [rec[0]] + rec[1..];
    }
  }

  /** The first pass only adds steps and entries: an insertion of every
      product except the default one, in list order, for each product whose
      dependents could be read, its pairs, and, unless quiet, a warning for
      exactly the other products whose dependents could not be read. */
  lemma {:induction false} PassOneSpec(plan: Plan, pending: seq<Product>, d: Defaults, lookup: Product -> Lookup, quiet: bool)
    requires forall st :: st in plan.steps ==> FirstPassStep(st, d)
    requires forall e :: e in plan.recorded ==> RecordedEntry(e, d, lookup)
    ensures var r := PassOne(plan, pending, d, lookup, quiet);
      && plan.steps <= r.steps
      && (forall st :: st in r.steps ==> FirstPassStep(st, d))
      && (forall e :: e in r.recorded ==> RecordedEntry(e, d, lookup))
      && (forall p :: p in pending && d.product != Match(p) ==> Insert(p, [], true, None) in r.steps)
      && (forall p :: p in pending && d.product != Match(p) && lookup(p).Dependents? ==>
            exists e :: e in r.recorded && e.0 == p)
      && (forall e :: e in plan.recorded ==> exists e' :: e' in r.recorded && e'.0 == e.0)
      && (forall p :: Warn(DependencyLookupFailed(p)) in r.steps <==>
            || Warn(DependencyLookupFailed(p)) in plan.steps
            || (p in pending && d.product != Match(p) && lookup(p).TableError? && !quiet))
    decreases |pending|
  {
    PassOneWarnings(plan, pending, d, lookup, quiet);
    if |pending| > 0 {
      var pi := pending[0];
      if d.product == Match(pi) {
        PassOneSpec(plan, pending[1..], d, lookup, quiet);
      } else {
        var inserted := plan.steps + [Insert(pi, [], true, None)];
        match lookup(pi)
        case TableError =>
          var next := Plan(inserted + (if quiet then [] else [Warn(DependencyLookupFailed(pi))]), plan.recorded);
          PassOneSpec(next, pending[1..], d, lookup, quiet);
          assert Insert(pi, [], true, None) in next.steps;
        case Dependents(ds) =>
          var next := Plan(inserted, Put(plan.recorded, pi, Pairs(ds, d.list)));
          PutSpec(plan.recorded, pi, Pairs(ds, d.list));
          PassOneSpec(next, pending[1..], d, lookup, quiet);
          assert Insert(pi, [], true, None) in next.steps;
      }
      assert forall p :: p in pending ==> p == pi || p in pending[1..];
    }
  }

  /** The first pass warns about exactly the products, other than the default
      one, whose dependents cannot be read, and only when not quiet. */
  lemma {:induction false} PassOneWarnings(plan: Plan, pending: seq<Product>, d: Defaults, lookup: Product -> Lookup, quiet: bool)
    ensures forall p :: Warn(DependencyLookupFailed(p)) in PassOne(plan, pending, d, lookup, quiet).steps <==>
      || Warn(DependencyLookupFailed(p)) in plan.steps
      || (p in pending && d.product != Match(p) && lookup(p).TableError? && !quiet)
    decreases |pending|
  {
    if |pending| > 0 {
      var pi := pending[0];
      assert forall p :: p in pending <==> p == pi || p in pending[1..];
      if d.product == Match(pi) {
        PassOneWarnings(plan, pending[1..], d, lookup, quiet);
      } else {
        var inserted := plan.steps + [Insert(pi, [], true, None)];
        match lookup(pi)
        case TableError =>
          var warned := if quiet then [] else [Warn(DependencyLookupFailed(pi))];
          var next := Plan(inserted + warned, plan.recorded);
          PassOneWarnings(next, pending[1..], d, lookup, quiet);
          assert forall p :: Warn(DependencyLookupFailed(p)) in next.steps <==>
            Warn(DependencyLookupFailed(p)) in plan.steps || (p == pi && !quiet);
        case Dependents(ds) =>
          var next := Plan(inserted, Put(plan.recorded, pi, Pairs(ds, d.list)));
          PassOneWarnings(next, pending[1..], d, lookup, quiet);
          assert forall p :: Warn(DependencyLookupFailed(p)) in next.steps <==>
            Warn(DependencyLookupFailed(p)) in plan.steps;
      }
    }
  }

  /** The pairs recorded for a product are those of its dependents that are
      not in the default list, in order; the others are dropped. */
  lemma {:induction false} PairsSpec(ds: seq<Dependent>, defaultList: seq<Product>)
    ensures forall pr :: pr in Pairs(ds, defaultList) ==>
      exists k :: 0 <= k < |ds| && ds[k].product !in defaultList && pr == (ds[k].product.name, ds[k].product.version)
    ensures forall k :: 0 <= k < |ds| && ds[k].product !in defaultList ==>
      (ds[k].product.name, ds[k].product.version) in Pairs(ds, defaultList)
  {
    if |ds| > 0 {
      PairsSpec(ds[1..], defaultList);
      assert forall k :: 1 <= k < |ds| ==> ds[k] == ds[1..][k - 1];
    }
  }

  /** The second pass links, as existing products, exactly the recorded
      products whose name is not the default product name. */
  lemma {:induction false} PassTwoSpec(rec: Recorded, name: string)
    ensures forall st :: st in PassTwo(rec, name) ==>
      && st.Insert? && !st.newProduct && st.defaultName == Some(name)
      && st.product.name != name && (st.product, st.dependencies) in rec
    ensures forall e :: e in rec && e.0.name != name ==> Insert(e.0, e.1, false, Some(name)) in PassTwo(rec, name)
  {
    if |rec| > 0 {
      PassTwoSpec(rec[1..], name);
      var head := if rec[0].0.name == name then [] else [Insert(rec[0].0, rec[0].1, false, Some(name))];
      assert PassTwo(rec, name) == head + PassTwo(rec[1..], name);
      assert forall e :: e in rec ==> e == rec[0] || e in rec[1..];
    }
  }

  // ---------------------------------------------------------------------
  // Replaying the steps

  /** One step only appends rows and never adds tag definitions; a step
      without dependency pairs adds no edge; after an insertion the product
      has a row; and the catalog stays well formed. */
  lemma ApplySpec(s: Store, st: Step)
    ensures var r := Apply(s, st).store;
      && s.products <= r.products && s.dependencies <= r.dependencies && s.tags <= r.tags
      && r.tagNames == s.tagNames
      && (st.Insert? && st.dependencies == [] ==> r.dependencies == s.dependencies)
      && (st.Insert? ==> FindProduct(r.products, st.product.name, st.product.version).Some?)
      && (Wf(s) ==> Wf(r))
  {
    if st.Insert? {
      var ins := InsertProduct(s, st.product, st.dependencies, st.newProduct, st.defaultName);
      if ins.Committed? {
        InsertProductAppends(s, st.product, st.dependencies, st.newProduct, st.defaultName);
        InsertProductEdges(s, st.product, st.dependencies, st.newProduct, st.defaultName);
        InsertProductSubject(s, st.product, st.dependencies, st.newProduct, st.defaultName);
        if Wf(s) {
          InsertProductWf(s, st.product, st.dependencies, st.newProduct, st.defaultName);
        }
      }
    }
  }

  /** Replaying steps only appends rows, never adds tag definitions, and
      keeps the catalog well formed. */
  lemma {:induction false} RunAppends(s: Store, steps: seq<Step>)
    ensures var r := Run(s, steps).store;
      && s.products <= r.products && s.dependencies <= r.dependencies && s.tags <= r.tags
      && r.tagNames == s.tagNames
      && (Wf(s) ==> Wf(r))
    decreases |steps|
  {
    if |steps| > 0 {
      ApplySpec(s, steps[0]);
      RunAppends(Apply(s, steps[0]).store, steps[1..]);
    }
  }

  /** Steps that insert without dependency pairs add no edge. */
  lemma {:induction false} RunNoEdges(s: Store, steps: seq<Step>)
    requires forall st :: st in steps && st.Insert? ==> st.dependencies == []
    ensures Run(s, steps).store.dependencies == s.dependencies
    decreases |steps|
  {
    if |steps| > 0 {
      assert steps[0] in steps;
      assert forall st :: st in steps[1..] ==> st in steps;
      ApplySpec(s, steps[0]);
      RunNoEdges(Apply(s, steps[0]).store, steps[1..]);
    }
  }

  /** After the steps, every product they insert has a row: the one the step
      created, or the one that made it roll back. */
  lemma {:induction false} RunRows(s: Store, steps: seq<Step>)
    ensures forall st :: st in steps && st.Insert? ==>
      FindProduct(Run(s, steps).store.products, st.product.name, st.product.version).Some?
    decreases |steps|
  {
    if |steps| > 0 {
      var next := Apply(s, steps[0]).store;
      var r := Run(s, steps).store;
      ApplySpec(s, steps[0]);
      RunRows(next, steps[1..]);
      RunAppends(next, steps[1..]);
      if steps[0].Insert? {
        PrefixFind(next.products, r.products, steps[0].product.name, steps[0].product.version);
      }
      assert forall st :: st in steps ==> st == steps[0] || st in steps[1..];
    }
  }

  /** Replaying two runs of steps one after the other is replaying their
      concatenation, whatever each step does. */
  lemma {:induction false} ReplayConcat(apply: (Store, Step) -> Logged, s: Store, a: seq<Step>, b: seq<Step>)
    ensures Replay(apply, s, a + b)
      == Logged(Replay(apply, Replay(apply, s, a).store, b).store,
                Replay(apply, s, a).warnings + Replay(apply, Replay(apply, s, a).store, b).warnings)
    decreases |a|
  {
    if |a| == 0 {
      assert a + b == b;
    } else {
      var one := apply(s, a[0]);
      assert (a + b)[0] == a[0];
      assert (a + b)[1..] == a[1..] + b;
      ReplayConcat(apply, one.store, a[1..], b);
      var first := Replay(apply, one.store, a[1..]);
      var second := Replay(apply, first.store, b);
      assert Replay(apply, s, a) == Logged(first.store, one.warnings + first.warnings);
      assert Replay(apply, s, a + b) == Logged(second.store, one.warnings + (first.warnings + second.warnings));
      assert one.warnings + (first.warnings + second.warnings) == (one.warnings + first.warnings) + second.warnings;
    }
  }

  /** Replaying two runs of steps one after the other. */
  lemma RunConcat(s: Store, a: seq<Step>, b: seq<Step>)
    ensures Run(s, a + b) == Logged(Run(Run(s, a).store, b).store, Run(s, a).warnings + Run(Run(s, a).store, b).warnings)
  {
    ReplayConcat(Apply, s, a, b);
  }

  // ---------------------------------------------------------------------
  // build

  /** With products to build and the default product's dependents readable,
      `build` runs the first pass, which inserts every product except the
      default one and adds no edge, then the second pass, which links each
      recorded product (other than one named like the default product) to
      the pairs of its dependents outside the default list. */
  lemma BuildPasses(s: Store, tags: seq<TagDef>, productList: seq<Product>, name: string,
                    lookup: Product -> Lookup, quiet: bool)
    requires |productList| > 0 && FindDefaultProducts(name, productList, lookup).Some?
    ensures var d := FindDefaultProducts(name, productList, lookup).value;
      var plan := PassOne(Plan([], []), productList, d, lookup, quiet);
      var first := Run(s.(tagNames := LoadTagNames(s.tagNames, tags)), plan.steps);
      var second := Run(first.store, PassTwo(plan.recorded, name));
      && Build(s, tags, productList, name, lookup, quiet) == Built(Logged(second.store, first.warnings + second.warnings))
      && first.store.dependencies == s.dependencies
      && s.products <= first.store.products
      && (forall p :: p in productList && d.product != Match(p) ==>
            FindProduct(first.store.products, p.name, p.version).Some?)
      && (forall p :: p in productList && d.product != Match(p) && lookup(p).Dependents? && p.name != name ==>
            Insert(p, Pairs(lookup(p).list, d.list), false, Some(name)) in PassTwo(plan.recorded, name))
      && (forall st :: st in PassTwo(plan.recorded, name) ==>
            && st.Insert? && !st.newProduct && st.product.name != name
            && RecordedEntry((st.product, st.dependencies), d, lookup))
  {
    FindDefaultProductsSpec(name, productList, lookup);
    var d := FindDefaultProducts(name, productList, lookup).value;
    var plan := PassOne(Plan([], []), productList, d, lookup, quiet);
    var loaded := s.(tagNames := LoadTagNames(s.tagNames, tags));
    var first := Run(loaded, plan.steps);
    PassOneSpec(Plan([], []), productList, d, lookup, quiet);
    RunNoEdges(loaded, plan.steps);
    RunAppends(loaded, plan.steps);
    RunRows(loaded, plan.steps);
    RunConcat(loaded, plan.steps, PassTwo(plan.recorded, name));
    PassTwoSpec(plan.recorded, name);
    forall p | p in productList && d.product != Match(p) && lookup(p).Dependents? && p.name != name
      ensures Insert(p, Pairs(lookup(p).list, d.list), false, Some(name)) in PassTwo(plan.recorded, name)
    {
      var e :| e in plan.recorded && e.0 == p;
      assert RecordedEntry(e, d, lookup);
    }
    forall p | p in productList && d.product != Match(p)
      ensures FindProduct(first.store.products, p.name, p.version).Some?
    {
      assert Insert(p, [], true, None) in plan.steps;
    }
  }

  /** `build` keeps the catalog well formed, whether it finishes or stops. */
  lemma BuildWf(s: Store, tags: seq<TagDef>, productList: seq<Product>, name: string,
                lookup: Product -> Lookup, quiet: bool)
    requires Wf(s)
    ensures Wf(Build(s, tags, productList, name, lookup, quiet).log.store)
    ensures Wf(BuildAsWritten(s, tags, productList, name, lookup, quiet).log.store)
  {
    var loaded := s.(tagNames := LoadTagNames(s.tagNames, tags));
    LoadTagNamesWf(s, tags);
    var d := FindDefaultProducts(name, productList, lookup);
    if |productList| > 0 && d.Some? {
      var plan := PassOne(Plan([], []), productList, d.value, lookup, quiet);
      RunAppends(loaded, plan.steps + PassTwo(plan.recorded, name));
      RunAppends(loaded, plan.steps);
      if d.value.product.Match? {
        RunAppends(loaded, plan.steps + PassTwo(plan.recorded, d.value.product.product.name));
      }
    }
  }

  // ---------------------------------------------------------------------
  // The default product that is not there

  /** As written, `build` fails whenever products exist but none has the
      default name: the first pass has already inserted every product, and
      not one dependency edge is ever added. */
  lemma BuildAsWrittenCrashes(s: Store, tags: seq<TagDef>, productList: seq<Product>, name: string,
                              lookup: Product -> Lookup, quiet: bool)
    requires |productList| > 0
    requires forall j :: 0 <= j < |productList| ==> productList[j].name != name
    ensures var r := BuildAsWritten(s, tags, productList, name, lookup, quiet);
      && r.Crashed? && r.error == NoDefaultProduct
      && r.log.store.dependencies == s.dependencies
      && (forall p :: p in productList ==> FindProduct(r.log.store.products, p.name, p.version).Some?)
  {
    FindDefaultProductsSpec(name, productList, lookup);
    var d := Defaults(name, NoMatch, []);
    var plan := PassOne(Plan([], []), productList, d, lookup, quiet);
    var loaded := s.(tagNames := LoadTagNames(s.tagNames, tags));
    PassOneSpec(Plan([], []), productList, d, lookup, quiet);
    RunNoEdges(loaded, plan.steps);
    RunRows(loaded, plan.steps);
    forall p | p in productList
      ensures FindProduct(Run(loaded, plan.steps).store.products, p.name, p.version).Some?
    {
      assert Insert(p, [], true, None) in plan.steps;
    }
  }

  /** As written, `build` stops in exactly two situations: the dependents of
      the first product with the default name cannot be read, or products
      exist and none has the default name. The corrected `build` stops only
      in the first. */
  lemma BuildAsWrittenStops(s: Store, tags: seq<TagDef>, productList: seq<Product>, name: string,
                            lookup: Product -> Lookup, quiet: bool)
    ensures var r := BuildAsWritten(s, tags, productList, name, lookup, quiet);
      && (r.Crashed? && r.error == NoDefaultProduct <==>
            |productList| > 0 && forall j :: 0 <= j < |productList| ==> productList[j].name != name)
      && (r.Crashed? && r.error == DefaultLookupFailed <==>
            exists i :: 0 <= i < |productList| && productList[i].name == name
              && (forall j :: 0 <= j < i ==> productList[j].name != name)
              && lookup(productList[i]).TableError?)
    ensures Build(s, tags, productList, name, lookup, quiet).Crashed? <==>
      exists i :: 0 <= i < |productList| && productList[i].name == name
        && (forall j :: 0 <= j < i ==> productList[j].name != name)
        && lookup(productList[i]).TableError?
  {
    FindDefaultProductsSpec(name, productList, lookup);
    FirstNamedSpec(productList, name);
  }

  /** The corrected `build` finishes in the same situation and links every
      product whose dependents can be read. */
  lemma BuildLinksWithoutDefault(s: Store, tags: seq<TagDef>, productList: seq<Product>, name: string,
                                 lookup: Product -> Lookup, quiet: bool)
    requires |productList| > 0
    requires forall j :: 0 <= j < |productList| ==> productList[j].name != name
    ensures Build(s, tags, productList, name, lookup, quiet).Built?
    ensures var plan := PassOne(Plan([], []), productList, Defaults(name, NoMatch, []), lookup, quiet);
      forall p :: p in productList && lookup(p).Dependents? ==>
        Insert(p, Pairs(lookup(p).list, []), false, Some(name)) in PassTwo(plan.recorded, name)
  {
    FindDefaultProductsSpec(name, productList, lookup);
    BuildPasses(s, tags, productList, name, lookup, quiet);
    forall p | p in productList
      ensures p.name != name
    {
      var j :| 0 <= j < |productList| && productList[j] == p;
    }
  }

  /** Whenever the default product is found, the corrected `build` is the
      one written. */
  lemma BuildAgrees(s: Store, tags: seq<TagDef>, productList: seq<Product>, name: string,
                    lookup: Product -> Lookup, quiet: bool)
    requires exists j :: 0 <= j < |productList| && productList[j].name == name
    ensures Build(s, tags, productList, name, lookup, quiet) == BuildAsWritten(s, tags, productList, name, lookup, quiet)
  {
    FindDefaultProductsSpec(name, productList, lookup);
    FirstNamedSpec(productList, name);
  }

  /** One product, a default name nobody declares: the build as written stops
      with the product inserted, the corrected one finishes. */
  lemma BuildAsWrittenExample()
    ensures var afw := Product("afw", "1.0", Some("/stack/afw"), []);
      var lookup := (p: Product) => Dependents([]);
      var r := BuildAsWritten(EmptyStore, [], [afw], "toolchain", lookup, false);
      && r == Crashed(r.log, NoDefaultProduct)
      && |r.log.store.products| == 1
      && Build(EmptyStore, [], [afw], "toolchain", lookup, false).Built?
  {
    var afw := Product("afw", "1.0", Some("/stack/afw"), []);
    var lookup := (p: Product) => Dependents([]);
    BuildAsWrittenCrashes(EmptyStore, [], [afw], "toolchain", lookup, false);
    BuildLinksWithoutDefault(EmptyStore, [], [afw], "toolchain", lookup, false);
    var d := Defaults("toolchain", NoMatch, []);
    assert FindDefaultProducts("toolchain", [afw], lookup) == Some(d);
    assert EmptyStore.(tagNames := LoadTagNames([], [])) == EmptyStore;
    var plan := PassOne(Plan([], []), [afw], d, lookup, false);
    assert plan.steps == [Insert(afw, [], true, None)];
    var ins := InsertProduct(EmptyStore, afw, [], true, None);
    assert ins.Committed?;
    assert |Subject(EmptyStore, afw).store.products| == 1;
    assert |ins.log.store.products| == 1;
    var one := Apply(EmptyStore, plan.steps[0]);
    assert one.store == ins.log.store;
    assert Replay(Apply, one.store, plan.steps[1..]) == Logged(one.store, []);
    assert Run(EmptyStore, plan.steps).store == ins.log.store;
    assert BuildAsWritten(EmptyStore, [], [afw], "toolchain", lookup, false)
      == Crashed(Run(EmptyStore, plan.steps), NoDefaultProduct);
  }
}
