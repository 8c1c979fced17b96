/** The selection and layout of `listProducts` (python/eups/sql.py lines
    180-232): the rows the filtered query returns, ordered by name, each
    printed at depth 0 and, when dependencies are shown, followed by the
    expansion of its dependency graph. */
module Listing {

  import opened Base
  import opened Text
  import opened Catalog
  import opened Traversal
  import opened Format

  /** Python truthiness of an optional filter: `None` and `""` both mean
      "no filter". */
  predicate Given(f: Option<string>)
  {
    f.Some? && f.value != ""
  }

  /** A row of the result set: `products.id, products.name, products.version`. */
  datatype Hit = Hit(id: int, name: string, version: string)

  /** The number of `tagNames` rows with key `tid` and name `tag`. */
  function NamedDefs(defs: seq<TagName>, tid: int, tag: string): nat
  {
    if |defs| == 0 then 0
    else (if defs[0].tid == tid && defs[0].name == tag then 1 else 0) + NamedDefs(defs[1..], tid, tag)
  }

  /** The number of ways `products JOIN tags JOIN tagNames` connects product
      `pid` to a tag called `tag`: one per matching pair of a `tags` row and a
      `tagNames` row. */
  function TagLinks(s: Store, rows: seq<TagRow>, pid: int, tag: string): nat
  {
    if |rows| == 0 then 0
    else (if rows[0].id == pid then NamedDefs(s.tagNames, rows[0].tid, tag) else 0) + TagLinks(s, rows[1..], pid, tag)
  }

  function Repeat(h: Hit, n: nat): (r: seq<Hit>)
    ensures |r| == n
  {
    if n == 0 then [] else [h] + Repeat(h, n - 1)
  }

  /** The `WHERE` clause on one row: `products.name = :name` when a name is
      given and `products.version = :version` when a version is given. */
  predicate Passes(row: ProductRow, name: Option<string>, version: Option<string>)
  {
    (!Given(name) || row.name == name.value) && (!Given(version) || row.version == version.value)
  }

  /** The result set before ordering, rows in storage order: each row that
      passes the filters, once, or, when a tag is given, once per join path
      to a tag of that name. */
  function Select(s: Store, rows: seq<ProductRow>, name: Option<string>, version: Option<string>, tag: Option<string>): (r: seq<Hit>)
    ensures !Given(tag) ==> |r| <= |rows|
  {
    if |rows| == 0 then []
    else
      var row := rows[0];
      var copies := if !Passes(row, name, version) then 0
                    else if Given(tag) then TagLinks(s, s.tags, row.id, tag.value)
                    else 1;
      Repeat(Hit(row.id, row.name, row.version), copies) + Select(s, rows[1..], name, version, tag)
  }

  // ---------------------------------------------------------------------
  // ORDER BY products.name

  predicate SortedByName(hs: seq<Hit>)
  {
    forall i, j :: 0 <= i < j < |hs| ==> NoLater(hs[i].name, hs[j].name)
  }

  function InsertByName(h: Hit, hs: seq<Hit>): (r: seq<Hit>)
    ensures |r| == |hs| + 1
  {
    if |hs| == 0 || NoLater(h.name, hs[0].name) then [h] + hs
    else [hs[0]] + InsertByName(h, hs[1..])
  }

  /** The rows ordered by name. Rows with equal names keep their storage
      order here; SQLite promises no particular order among them. */
  function SortByName(hs: seq<Hit>): (r: seq<Hit>)
    ensures |r| == |hs|
  {
    if |hs| == 0 then [] else InsertByName(hs[0], SortByName(hs[1..]))
  }

  /** The rows `listProducts` iterates over. */
  function Query(s: Store, name: Option<string>, version: Option<string>, tag: Option<string>): (r: seq<Hit>)
    ensures !Given(tag) ==> |r| <= |s.products|
  {
    SortByName(Select(s, s.products, name, version, tag))
  }

  // ---------------------------------------------------------------------
  // The listing

  /** The listed-names map each block starts from: only the default product
      name is marked, so it is never shown; with no default name nothing is
      marked. */
  function Seed(defaultName: Option<string>): map<string, Mark>
  {
    if defaultName.Some? then map[defaultName.value := Seeded] else map[]
  }

  datatype Listing = Listing(entries: seq<Entry>, warnings: seq<Warning>)

  /** The lines of lines 213-226 before formatting: each row at depth 0,
      followed, when dependencies are shown, by its expansion from a fresh
      `listedProducts` seeded with the default product. */
  function ListEntries(s: Store, hits: seq<Hit>, showDependencies: bool, defaultName: Option<string>, flavor: Option<string>): (r: Listing)
    requires showDependencies ==> Versioned(s)
    ensures |r.entries| >= |hits|
    ensures !showDependencies ==> |r.entries| == |hits| && r.warnings == []
  {
    if |hits| == 0 then Listing([], [])
    else
      var h := hits[0];
      var top := Entry(h.id, h.name, h.version, 0);
      var rest := ListEntries(s, hits[1..], showDependencies, defaultName, flavor);
      if showDependencies then
        var w := Walk(s, h.id, 0, Seed(defaultName), flavor);
        Listing([top] + w.entries + rest.entries, w.warnings + rest.warnings)
      else
        Listing([top] + rest.entries, rest.warnings)
  }

  /** The tag names of product `pid` when tags are shown, and nothing
      otherwise. */
  function TagsShown(s: Store, pid: int, showTags: bool): Option<seq<string>>
  {
    if showTags then Some(GetTags(s, pid)) else None
  }

  function Lines(s: Store, es: seq<Entry>, showTags: bool): (r: seq<string>)
    ensures |r| == |es|
  {
    if |es| == 0 then []
    else [FormatProduct(es[0].name, es[0].version, TagsShown(s, es[0].id, showTags), es[0].depth)]
         + Lines(s, es[1..], showTags)
  }

  datatype Report = Report(lines: seq<string>, warnings: seq<Warning>)

  /** `listProducts(name, version, showDependencies, showTags, tag, flavor)`
      with the configured default product name given as `defaultName`. */
  function ListProducts(s: Store, name: Option<string>, version: Option<string>, showDependencies: bool,
                        showTags: bool, tag: Option<string>, flavor: Option<string>, defaultName: Option<string>): (r: Report)
    requires showDependencies ==> Versioned(s)
    ensures |r.lines| == |ListEntries(s, Query(s, name, version, tag), showDependencies, defaultName, flavor).entries|
  {
    var listing := ListEntries(s, Query(s, name, version, tag), showDependencies, defaultName, flavor);
    Report(Lines(s, listing.entries, showTags), listing.warnings)
  }
}
