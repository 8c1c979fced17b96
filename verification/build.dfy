/** `build` and `findDefaultProducts` (python/eups/sql.py lines 279-365):
    filling the catalog from the products the Eups stacks declare. The
    stacks, the configuration and `Eups.getDependentProducts` are outside
    the catalog and appear here as inputs: the product list, the configured
    default product name, and a `lookup` function.

    `build` is two passes over the product list. The first inserts every
    product except the default one, without dependencies, and records each
    product's dependency pairs; the second links each recorded product to
    its dependencies. Both passes are described as the sequence of
    `insertProduct` calls (and warnings) they make, which depends only on
    the inputs, and `Run` replays that sequence against the store. */
module Builder {

  import opened Base
  import opened Catalog

  /** What `build` reads from each tag EUPS defines: its name, its full
      name, whether it is global, and whether it is a pseudo-tag. */
  datatype TagDef = TagDef(name: string, fullname: string, isGlobal: bool, isPseudo: bool)

  /** One dependent EUPS reports for a product: the product depended on,
      whether the dependency is optional, and its depth. */
  datatype Dependent = Dependent(product: Product, optional: bool, depth: int)

  /** The outcome of asking EUPS for a product's dependents: the list of
      dependents, or a raised `TableError`. */
  datatype Lookup = Dependents(list: seq<Dependent>) | TableError

  // ---------------------------------------------------------------------
  // Tag definitions (lines 296-300)

  /** One new `tagNames` row, under a fresh key and with an empty owner, for
      every tag that is not a pseudo-tag, in order. */
  function LoadTagNames(defs: seq<TagName>, tags: seq<TagDef>): (r: seq<TagName>)
    ensures |defs| <= |r| <= |defs| + |tags| && r[..|defs|] == defs
    decreases |tags|
  {
    if |tags| == 0 then defs
    else if tags[0].isPseudo then LoadTagNames(defs, tags[1..])
    else LoadTagNames(defs + [TagName(NextTid(defs), tags[0].name, tags[0].fullname, tags[0].isGlobal, "")], tags[1..])
  }

  // ---------------------------------------------------------------------
  // findDefaultProducts (lines 352-365)

  /** The second value `findDefaultProducts` returns: `None` when it was
      given no products, `[]` when none of them has the default name, or
      the first product that has it. */
  datatype DefaultProduct = Unsearched | NoMatch | Match(product: Product)

  datatype Defaults = Defaults(name: string, product: DefaultProduct, list: seq<Product>)

  /** The index of the first product called `name`. */
  function FirstNamed(ps: seq<Product>, name: string): (r: Option<nat>)
    ensures r.Some? ==> r.value < |ps| && ps[r.value].name == name
  {
    if |ps| == 0 then None
    else if ps[0].name == name then Some(0)
    else match FirstNamed(ps[1..], name)
      case None => None
      case Some(i) => Some(i + 1)
  }

  /** The products of a list of dependents, in order. */
  function Products(ds: seq<Dependent>): (r: seq<Product>)
    ensures |r| == |ds|
  {
    if |ds| == 0 then [] else [ds[0].product] + Products(ds[1..])
  }

  /** The products of `ps` that also occur in `keep`, in the order of `ps`. */
  function Within(ps: seq<Product>, keep: seq<Product>): seq<Product>
  {
    if |ps| == 0 then []
    else (if ps[0] in keep then [ps[0]] else []) + Within(ps[1..], keep)
  }

  /** `findDefaultProducts`, with the configured name given. `None` stands for the `TableError` that escapes when the
      dependents of the default product cannot be read. */
  function FindDefaultProducts(name: string, productList: seq<Product>, lookup: Product -> Lookup): (r: Option<Defaults>)
    ensures r.Some? ==> r.value.name == name
    ensures r.None? ==> |productList| > 0
    ensures r.Some? && r.value.product.Match? ==>
      r.value.product.product in productList && r.value.product.product.name == name
  {
    if |productList| == 0 then Some(Defaults(name, Unsearched, []))
    else match FirstNamed(productList, name)
      case None => Some(Defaults(name, NoMatch, []))
      case Some(i) =>
        match lookup(productList[i])
        case TableError => None
        case Dependents(ds) => Some(Defaults(name, Match(productList[i]), Within(productList, Products(ds))))
  }

  // ---------------------------------------------------------------------
  // The two passes

  /** One thing `build` does to the catalog or the warning stream. */
  datatype Step =
    | Insert(product: Product, dependencies: seq<(string, string)>, newProduct: bool, defaultName: Option<string>)
    | Warn(warning: Warning)

  /** The dependency pairs recorded for each product, in the order the
      products were first recorded. */
  type Recorded = seq<(Product, seq<(string, string)>)>

  /** Records `deps` for `pi`: replaces the pairs of a product already
      recorded, and records a new product last. */
  function Put(d: Recorded, pi: Product, deps: seq<(string, string)>): (r: Recorded)
    ensures |r| >= |d|
  {
    if |d| == 0 then [(pi, deps)]
    else if d[0].0 == pi then [(pi, deps)] + d[1..]
    else [d[0]] + Put(d[1..], pi, deps)
  }

  /** The (name, version) of each dependent that is not in the default list,
      in order; whether the dependent is optional does not matter. */
  function Pairs(ds: seq<Dependent>, defaultList: seq<Product>): seq<(string, string)>
  {
    if |ds| == 0 then []
    else
      (if ds[0].product in defaultList then [] else [(ds[0].product.name, ds[0].product.version)])
      + Pairs(ds[1..], defaultList)
  }

  datatype Plan = Plan(steps: seq<Step>, recorded: Recorded)

  /** The first loop (lines 329-343), continuing from `plan` with the
      products still `pending`: skip the default product, insert every other
      one as a new product without dependencies, then record its dependency
      pairs, or warn (unless quiet) when they cannot be read. */
  function PassOne(plan: Plan, pending: seq<Product>, d: Defaults, lookup: Product -> Lookup, quiet: bool): (r: Plan)
    ensures |plan.steps| <= |r.steps| <= |plan.steps| + 2 * |pending| && r.steps[..|plan.steps|] == plan.steps
    decreases |pending|
  {
    if |pending| == 0 then plan
    else
      var pi := pending[0];
      if d.product == Match(pi) then PassOne(plan, pending[1..], d, lookup, quiet)
      else
        var inserted := plan.steps + [Insert(pi, [], true, None)];
        match lookup(pi)
        case TableError =>
          PassOne(Plan(inserted + (if quiet then [] else [Warn(DependencyLookupFailed(pi))]), plan.recorded),
                  pending[1..], d, lookup, quiet)
        case Dependents(ds) =>
          PassOne(Plan(inserted, Put(plan.recorded, pi, Pairs(ds, d.list))), pending[1..], d, lookup, quiet)
  }

  /** The second loop (lines 346-350): link every recorded product whose
      name is not the default product name, as an existing product. */
  function PassTwo(recorded: Recorded, defaultName: string): (r: seq<Step>)
    ensures |r| <= |recorded|
    ensures forall k :: 0 <= k < |r| ==> r[k].Insert? && !r[k].newProduct && r[k].defaultName == Some(defaultName)
  {
    if |recorded| == 0 then []
    else
      var (pi, deps) := recorded[0];
      (if pi.name == defaultName then [] else [Insert(pi, deps, false, Some(defaultName))])
      + PassTwo(recorded[1..], defaultName)
  }

  /** One step against the catalog: each `insertProduct` is its own
      transaction, so one that is rolled back leaves the store as it was. */
  function Apply(s: Store, st: Step): Logged
  {
    match st
    case Warn(w) => Logged(s, [w])
    case Insert(pi, deps, newProduct, defaultName) =>
      match InsertProduct(s, pi, deps, newProduct, defaultName)
      case RolledBack(_) => Logged(s, [])
      case Committed(log) => log
  }

  /** Steps replayed in order, each through `apply`, with their warnings
      collected in order. */
  function Replay(apply: (Store, Step) -> Logged, s: Store, steps: seq<Step>): Logged
    decreases |steps|
  {
    if |steps| == 0 then Logged(s, [])
    else
      var one := apply(s, steps[0]);
      var rest := Replay(apply, one.store, steps[1..]);
      Logged(rest.store, one.warnings + rest.warnings)
  }

  /** The steps replayed in order against the catalog; a rolled-back step
      does not stop the later ones. */
  function Run(s: Store, steps: seq<Step>): Logged
  {
    Replay(Apply, s, steps)
  }

  // ---------------------------------------------------------------------
  // build (lines 279-350)

  /** Why `build` stops with an exception. */
  datatype BuildError =
    | DefaultLookupFailed   // `getDependentProducts` of the default product raised
    | NoDefaultProduct      // `defaultProduct.name` on the `[]` of a failed search

  /** What `build` leaves behind: every transaction commits on its own, so an
      exception keeps what was committed before it. */
  datatype Outcome = Built(log: Logged) | Crashed(log: Logged, error: BuildError)

  /** `build` as written (lines 323-350): when products exist but none has
      the default name, the first pass runs and then reading the name of the
      default product found fails. */
  function BuildAsWritten(s: Store, tags: seq<TagDef>, productList: seq<Product>, defaultName: string,
                          lookup: Product -> Lookup, quiet: bool): (r: Outcome)
    ensures r.Crashed? && r.error == DefaultLookupFailed ==> r.log.warnings == [] && r.log.store.products == s.products
    ensures |productList| == 0 ==>
      && r.Built? && r.log.warnings == []
      && r.log.store.products == s.products && r.log.store.dependencies == s.dependencies
      && r.log.store.tags == s.tags
  {
    var loaded := s.(tagNames := LoadTagNames(s.tagNames, tags));
    if |productList| == 0 then Built(Logged(loaded, []))
    else match FindDefaultProducts(defaultName, productList, lookup)
      case None => Crashed(Logged(loaded, []), DefaultLookupFailed)
      case Some(d) =>
        var plan := PassOne(Plan([], []), productList, d, lookup, quiet);
        match d.product
        case Match(p) => Built(Run(loaded, plan.steps + PassTwo(plan.recorded, p.name)))
        case _ => Crashed(Run(loaded, plan.steps), NoDefaultProduct)
  }

  /** The corrected `build`, which the rest of the model uses: it differs from
      `BuildAsWritten` only in that the second pass skips products by the
      configured default name, as `listProducts` does, instead of by the name
      of the default product found, so it also finishes when no product has
      that name. It agrees with `BuildAsWritten` whenever the default product
      is found. */
  function Build(s: Store, tags: seq<TagDef>, productList: seq<Product>, defaultName: string,
                 lookup: Product -> Lookup, quiet: bool): (r: Outcome)
    ensures r.Crashed? ==> r.error == DefaultLookupFailed
    ensures |productList| == 0 ==>
      && r.Built? && r.log.warnings == []
      && r.log.store.products == s.products && r.log.store.dependencies == s.dependencies
      && r.log.store.tags == s.tags
  {
    var loaded := s.(tagNames := LoadTagNames(s.tagNames, tags));
    if |productList| == 0 then Built(Logged(loaded, []))
    else match FindDefaultProducts(defaultName, productList, lookup)
      case None => Crashed(Logged(loaded, []), DefaultLookupFailed)
      case Some(d) =>
        var plan := PassOne(Plan([], []), productList, d, lookup, quiet);
        Built(Run(loaded, plan.steps + PassTwo(plan.recorded, d.name)))
  }
}
