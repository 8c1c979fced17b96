/** The product catalog of `python/eups/sql.py` as a value: the four SQLite
    tables (`products`, `dependencies`, `tagNames`, `tags`) become sequences
    of rows in storage order, and `insertProduct` becomes a function from one
    store to the next. A transaction that is rolled back is a result that
    carries no store. */
module Catalog {

  import opened Base

  /** A row of `products`; `missing` marks a placeholder created for a
      dependency that was never declared itself. */
  datatype ProductRow = ProductRow(id: int, name: string, version: string, directory: Option<string>, missing: bool)

  /** A row of `dependencies`: product `id` depends on product `dependency`. */
  datatype Edge = Edge(id: int, dependency: int)

  /** A row of `tagNames`. */
  datatype TagName = TagName(tid: int, name: string, fullname: string, isGlobal: bool, owner: string)

  /** A row of `tags`: tag `tid` is attached to product `id`. */
  datatype TagRow = TagRow(id: int, tid: int)

  datatype Store = Store(products: seq<ProductRow>, dependencies: seq<Edge>, tagNames: seq<TagName>, tags: seq<TagRow>)

  const EmptyStore := Store([], [], [], [])

  /** What `insertProduct` reads from the product object it is given. */
  datatype Product = Product(name: string, version: string, dir: Option<string>, tags: seq<string>)

  /** The non-fatal messages the catalog writes to the warning stream. */
  datatype Warning =
    | UnknownTag(tag: string, name: string, version: string)
    | UnknownDependency(depName: string, depVersion: string, name: string, version: string)
    | MissingDependency(depName: string, depVersion: string, flavor: Option<string>)
    | DependencyLookupFailed(product: Product)

  /** The `RuntimeError` raised when a product is declared twice. */
  datatype CatalogError = AlreadyDeclared(name: string, version: string)

  /** A store together with the warnings written while producing it. */
  datatype Logged = Logged(store: Store, warnings: seq<Warning>)

  /** The outcome of one `insertProduct` transaction. */
  datatype Insertion = Committed(log: Logged) | RolledBack(error: CatalogError)

  // ---------------------------------------------------------------------
  // Keys and lookups
  //
  // The lookups carry only the bound their callers need to index with the
  // result; what they find is characterised by the lemmas beside them.

  /** The key SQLite gives a `products` row inserted with a NULL `INTEGER
      PRIMARY KEY`: one more than the largest key in the table, 1 when the
      table is empty. */
  function NextProductId(rows: seq<ProductRow>): int
  {
    if |rows| == 0 then 1
    else if |rows| == 1 then rows[0].id + 1
    else Max(rows[0].id + 1, NextProductId(rows[1..]))
  }

  /** The new key is above every key in use, and is exactly the largest one
      plus one. */
  lemma {:induction false} NextProductIdSpec(rows: seq<ProductRow>)
    ensures forall j :: 0 <= j < |rows| ==> rows[j].id < NextProductId(rows)
    ensures |rows| == 0 ==> NextProductId(rows) == 1
    ensures |rows| > 0 ==> exists j :: 0 <= j < |rows| && rows[j].id == NextProductId(rows) - 1
  {
    if |rows| == 1 {
      assert rows[0].id == NextProductId(rows) - 1;
    } else if |rows| > 1 {
      NextProductIdSpec(rows[1..]);
      assert forall j :: 1 <= j < |rows| ==> rows[j] == rows[1..][j - 1];
      if rows[0].id + 1 < NextProductId(rows[1..]) {
        var j :| 0 <= j < |rows[1..]| && rows[1..][j].id == NextProductId(rows[1..]) - 1;
        assert rows[j + 1].id == NextProductId(rows) - 1;
      } else {
        assert rows[0].id == NextProductId(rows) - 1;
      }
    }
  }

  /** The same choice of key for a `tagNames` row. */
  function NextTid(defs: seq<TagName>): int
  {
    if |defs| == 0 then 1
    else if |defs| == 1 then defs[0].tid + 1
    else Max(defs[0].tid + 1, NextTid(defs[1..]))
  }

  lemma {:induction false} NextTidSpec(defs: seq<TagName>)
    ensures forall j :: 0 <= j < |defs| ==> defs[j].tid < NextTid(defs)
    ensures |defs| == 0 ==> NextTid(defs) == 1
    ensures |defs| > 0 ==> exists j :: 0 <= j < |defs| && defs[j].tid == NextTid(defs) - 1
  {
    if |defs| == 1 {
      assert defs[0].tid == NextTid(defs) - 1;
    } else if |defs| > 1 {
      NextTidSpec(defs[1..]);
      assert forall j :: 1 <= j < |defs| ==> defs[j] == defs[1..][j - 1];
      if defs[0].tid + 1 < NextTid(defs[1..]) {
        var j :| 0 <= j < |defs[1..]| && defs[1..][j].tid == NextTid(defs[1..]) - 1;
        assert defs[j + 1].tid == NextTid(defs) - 1;
      } else {
        assert defs[0].tid == NextTid(defs) - 1;
      }
    }
  }

  predicate HasKey(row: ProductRow, name: string, version: string)
  {
    row.name == name && row.version == version
  }

  /** The lookup of a product row by (name, version): the index of the first
      matching row in storage order, the one the query's first fetched row
      is. */
  function FindProduct(rows: seq<ProductRow>, name: string, version: string): (r: Option<nat>)
    ensures r.Some? ==> r.value < |rows|
  {
    if |rows| == 0 then None
    else if HasKey(rows[0], name, version) then Some(0)
    else match FindProduct(rows[1..], name, version)
      case None => None
      case Some(i) => Some(i + 1)
  }

  /** The lookup finds the first row with that (name, version), and finds
      nothing exactly when no row has it. */
  lemma {:induction false} FindProductSpec(rows: seq<ProductRow>, name: string, version: string)
    ensures var r := FindProduct(rows, name, version);
      && (r.Some? ==> HasKey(rows[r.value], name, version))
      && (r.Some? ==> forall j :: 0 <= j < r.value ==> !HasKey(rows[j], name, version))
      && (r.None? <==> forall j :: 0 <= j < |rows| ==> !HasKey(rows[j], name, version))
  {
    if |rows| > 0 {
      FindProductSpec(rows[1..], name, version);
      assert forall j :: 1 <= j < |rows| ==> rows[j] == rows[1..][j - 1];
    }
  }

  /** Appending rows never changes which row a lookup finds first, and when
      it found nothing it finds the first match among the appended rows. */
  lemma {:induction false} FindProductAppend(rows: seq<ProductRow>, more: seq<ProductRow>, name: string, version: string)
    ensures FindProduct(rows, name, version).Some? ==>
      FindProduct(rows + more, name, version) == FindProduct(rows, name, version)
    ensures FindProduct(rows, name, version).None? && FindProduct(more, name, version).Some? ==>
      FindProduct(rows + more, name, version) == Some(|rows| + FindProduct(more, name, version).value)
    decreases |rows|
  {
    if |rows| > 0 {
      assert (rows + more)[0] == rows[0];
      assert (rows + more)[1..] == rows[1..] + more;
      FindProductAppend(rows[1..], more, name, version);
    } else {
      assert rows + more == more;
    }
  }

  /** The lookup of a tag definition by its full name: the index of the first
      definition in storage order that has it. */
  function FindTag(defs: seq<TagName>, fullname: string): (r: Option<nat>)
    ensures r.Some? ==> r.value < |defs|
  {
    if |defs| == 0 then None
    else if defs[0].fullname == fullname then Some(0)
    else match FindTag(defs[1..], fullname)
      case None => None
      case Some(i) => Some(i + 1)
  }

  lemma {:induction false} FindTagSpec(defs: seq<TagName>, fullname: string)
    ensures var r := FindTag(defs, fullname);
      && (r.Some? ==> defs[r.value].fullname == fullname)
      && (r.Some? ==> forall j :: 0 <= j < r.value ==> defs[j].fullname != fullname)
      && (r.None? <==> forall j :: 0 <= j < |defs| ==> defs[j].fullname != fullname)
  {
    if |defs| > 0 {
      FindTagSpec(defs[1..], fullname);
      assert forall j :: 1 <= j < |defs| ==> defs[j] == defs[1..][j - 1];
    }
  }

  /** The `tagNames` row whose primary key is `tid`. */
  function TagById(defs: seq<TagName>, tid: int): (r: Option<nat>)
    ensures r.Some? ==> r.value < |defs|
  {
    if |defs| == 0 then None
    else if defs[0].tid == tid then Some(0)
    else match TagById(defs[1..], tid)
      case None => None
      case Some(i) => Some(i + 1)
  }

  lemma {:induction false} TagByIdSpec(defs: seq<TagName>, tid: int)
    ensures var r := TagById(defs, tid);
      && (r.Some? ==> defs[r.value].tid == tid)
      && (r.Some? ==> forall j :: 0 <= j < r.value ==> defs[j].tid != tid)
      && (r.None? <==> forall j :: 0 <= j < |defs| ==> defs[j].tid != tid)
  {
    if |defs| > 0 {
      TagByIdSpec(defs[1..], tid);
      assert forall j :: 1 <= j < |defs| ==> defs[j] == defs[1..][j - 1];
    }
  }

  /** The `products` row whose primary key is `id`. */
  function RowById(rows: seq<ProductRow>, id: int): (r: Option<nat>)
    ensures r.Some? ==> r.value < |rows|
  {
    if |rows| == 0 then None
    else if rows[0].id == id then Some(0)
    else match RowById(rows[1..], id)
      case None => None
      case Some(i) => Some(i + 1)
  }

  lemma {:induction false} RowByIdSpec(rows: seq<ProductRow>, id: int)
    ensures var r := RowById(rows, id);
      && (r.Some? ==> rows[r.value].id == id)
      && (r.Some? ==> forall j :: 0 <= j < r.value ==> rows[j].id != id)
      && (r.None? <==> forall j :: 0 <= j < |rows| ==> rows[j].id != id)
  {
    if |rows| > 0 {
      RowByIdSpec(rows[1..], id);
      assert forall j :: 1 <= j < |rows| ==> rows[j] == rows[1..][j - 1];
    }
  }

  // ---------------------------------------------------------------------
  // What every store built through `insertProduct` satisfies

  predicate DistinctIds(rows: seq<ProductRow>)
  {
    forall i, j :: 0 <= i < j < |rows| ==> rows[i].id != rows[j].id
  }

  /** At most one `products` row per (name, version). */
  predicate OnePerKey(rows: seq<ProductRow>)
  {
    forall i, j :: 0 <= i < j < |rows| ==> !HasKey(rows[j], rows[i].name, rows[i].version)
  }

  predicate DistinctTids(defs: seq<TagName>)
  {
    forall i, j :: 0 <= i < j < |defs| ==> defs[i].tid != defs[j].tid
  }

  /** Primary keys are unique, (name, version) is unique, and the foreign
      keys of `dependencies` and `tags` name existing rows. */
  predicate Wf(s: Store)
  {
    && DistinctIds(s.products)
    && OnePerKey(s.products)
    && DistinctTids(s.tagNames)
    && (forall e :: e in s.dependencies ==> RowById(s.products, e.id).Some? && RowById(s.products, e.dependency).Some?)
    && (forall t :: t in s.tags ==> RowById(s.products, t.id).Some? && TagById(s.tagNames, t.tid).Some?)
  }

  // ---------------------------------------------------------------------
  // insertProduct and its helper insert_product

  datatype Inserted = Inserted(store: Store, id: int)

  /** `insert_product` (lines 106-109): append a `products` row under a fresh
      key and return that key. */
  function InsertRow(s: Store, name: string, version: string, directory: Option<string>, missing: bool): (r: Inserted)
    ensures |r.store.products| == |s.products| + 1 && r.store.products[..|s.products|] == s.products
    ensures r.store.dependencies == s.dependencies && r.store.tagNames == s.tagNames && r.store.tags == s.tags
  {
    var id := NextProductId(s.products);
    Inserted(s.(products := s.products + [ProductRow(id, name, version, directory, missing)]), id)
  }

  /** The `tags` rows lines 125-134 add for product `pid`: one for each tag
      whose fullname names a definition, in the order the tags are listed. */
  function TagRowsFor(defs: seq<TagName>, pid: int, pending: seq<string>): seq<TagRow>
  {
    if |pending| == 0 then []
    else
      (match FindTag(defs, pending[0])
       case Some(i) => [TagRow(pid, defs[i].tid)]
       case None => [])
      + TagRowsFor(defs, pid, pending[1..])
  }

  /** The warnings lines 125-134 write: one for each tag whose fullname names
      no definition. */
  function UnknownTagWarnings(defs: seq<TagName>, product: Product, pending: seq<string>): seq<Warning>
  {
    if |pending| == 0 then []
    else
      (match FindTag(defs, pending[0])
       case Some(_) => []
       case None => [UnknownTag(pending[0], product.name, product.version)])
      + UnknownTagWarnings(defs, product, pending[1..])
  }

  /** The warning for a dependency that had to be created as a placeholder,
      unless it is the default product, which is expected to be absent. */
  function PlaceholderWarning(depName: string, depVersion: string, product: Product, defaultName: Option<string>): seq<Warning>
  {
    if defaultName == Some(depName) then [] else [UnknownDependency(depName, depVersion, product.name, product.version)]
  }

  /** Lines 137-145: the row a dependency pair names, created as a
      placeholder (no directory, `missing` set) when the lookup finds none. */
  function Resolve(s: Store, name: string, version: string): Inserted
  {
    match FindProduct(s.products, name, version)
    case Some(i) => Inserted(s, s.products[i].id)
    case None => InsertRow(s, name, version, None, true)
  }

  /** One turn of the dependency loop: resolve the pair, then record an edge
      from `pid` to the row found or created. */
  function LinkStep(s: Store, pid: int, dep: (string, string)): Store
  {
    var res := Resolve(s, dep.0, dep.1);
    res.store.(dependencies := s.dependencies + [Edge(pid, res.id)])
  }

  /** The dependency loop of `insertProduct` (lines 136-147) as it changes
      the store: each pair in turn is resolved and linked, and rows created
      earlier in the same loop are found by later lookups. */
  function Link(s: Store, pid: int, pending: seq<(string, string)>): (r: Store)
    ensures |r.dependencies| == |s.dependencies| + |pending|
    ensures r.tagNames == s.tagNames && r.tags == s.tags
    decreases |pending|
  {
    if |pending| == 0 then s
    else Link(LinkStep(s, pid, pending[0]), pid, pending[1..])
  }

  /** The warnings the same loop writes: one for each pair that had to be
      created as a placeholder, unless it names the default product. */
  function LinkLog(s: Store, pid: int, product: Product, pending: seq<(string, string)>, defaultName: Option<string>): seq<Warning>
    decreases |pending|
  {
    if |pending| == 0 then []
    else
      var dep := pending[0];
      var warned := if FindProduct(s.products, dep.0, dep.1).Some? then [] else PlaceholderWarning(dep.0, dep.1, product, defaultName);
      warned + LinkLog(LinkStep(s, pid, dep), pid, product, pending[1..], defaultName)
  }

  /** Lines 115-134 when they do not raise: the row the product's edges will
      start from, either the existing row for its (name, version) or a new
      real row created together with its tags. */
  function Subject(s: Store, product: Product): (r: Inserted)
    ensures r.store.dependencies == s.dependencies && r.store.tagNames == s.tagNames
    ensures FindProduct(s.products, product.name, product.version).Some? <==> r.store == s
  {
    match FindProduct(s.products, product.name, product.version)
    case Some(i) => Inserted(s, s.products[i].id)
    case None =>
      var ins := InsertRow(s, product.name, product.version, product.dir, false);
      Inserted(ins.store.(tags := s.tags + TagRowsFor(s.tagNames, ins.id, product.tags)), ins.id)
  }

  /** `insertProduct` (lines 103-152). With `newProduct` set, a product whose
      (name, version) already has a row raises `RuntimeError`, which is caught
      before `commit`: nothing is written. Otherwise the subject row is found
      or created, and the dependency edges are added from it. */
  function InsertProduct(s: Store, product: Product, dependencies: seq<(string, string)>,
                         newProduct: bool, defaultName: Option<string>): (r: Insertion)
    ensures r.RolledBack? <==> newProduct && FindProduct(s.products, product.name, product.version).Some?
    ensures r.RolledBack? ==> r.error == AlreadyDeclared(product.name, product.version)
  {
    var found := FindProduct(s.products, product.name, product.version).Some?;
    if found && newProduct then RolledBack(AlreadyDeclared(product.name, product.version))
    else
      var subject := Subject(s, product);
      var tagWarnings := if found then [] else UnknownTagWarnings(s.tagNames, product, product.tags);
      Committed(Logged(Link(subject.store, subject.id, dependencies),
                       tagWarnings + LinkLog(subject.store, subject.id, product, dependencies, defaultName)))
  }

  // ---------------------------------------------------------------------
  // getTags

  /** The names the `tags` rows for `pid` point at, in storage order. */
  function TagNamesFor(defs: seq<TagName>, rows: seq<TagRow>, pid: int): seq<string>
  {
    if |rows| == 0 then []
    else
      (if rows[0].id == pid then
         match TagById(defs, rows[0].tid)
         case Some(j) => [defs[j].name]
         case None => []
       else [])
      + TagNamesFor(defs, rows[1..], pid)
  }

  /** `getTags` (lines 154-168): the `name` of every tag attached to product
      `pid`, through the join of `products`, `tags` and `tagNames`. */
  function GetTags(s: Store, pid: int): (r: seq<string>)
    ensures RowById(s.products, pid).None? ==> r == []
  {
    if RowById(s.products, pid).Some? then TagNamesFor(s.tagNames, s.tags, pid) else []
  }
}
