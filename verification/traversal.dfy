/** `_getDependencies` (python/eups/sql.py lines 234-261): the depth-first,
    pre-order expansion of the dependency graph that `listProducts` prints.
    The dictionary `listedProducts` is shared by every level of the walk;
    here it is threaded through the calls and handed back with the result. */
module Traversal {

  import opened Base
  import opened Catalog

  /** A value of `listedProducts`: the `1` that `listProducts` seeds the
      default product with, or the version a listed product was shown at. */
  datatype Mark = Seeded | Listed(version: string)

  /** Python truthiness of a value of `listedProducts`: an empty version
      string is false. */
  predicate Truthy(m: Mark)
  {
    m.Seeded? || m.version != ""
  }

  /** The names `listedProducts.get(p)` treats as already listed. */
  function Visited(listed: map<string, Mark>): set<string>
  {
    set p | p in listed && Truthy(listed[p])
  }

  /** The names of all rows of `products`. */
  function Names(s: Store): set<string>
  {
    set row | row in s.products :: row.name
  }

  /** Every real (non-placeholder) row has a non-empty version; this is what
      makes "already listed" stick once a name has been shown. */
  predicate Versioned(s: Store)
  {
    forall row :: row in s.products && !row.missing ==> row.version != ""
  }

  /** One line of the expansion: the key, name and version of a product and
      the depth it is shown at. */
  datatype Entry = Entry(id: int, name: string, version: string, depth: int)

  datatype Walked = Walked(entries: seq<Entry>, listed: map<string, Mark>, warnings: seq<Warning>)

  /** The dependency query of lines 240-248: for each edge from `pid`, in the
      order the edges are stored, the product row the edge points at; an edge
      whose target key has no row joins nothing. */
  function Children(rows: seq<ProductRow>, edges: seq<Edge>, pid: int): (r: seq<ProductRow>)
    ensures forall k :: 0 <= k < |r| ==> r[k] in rows
  {
    if |edges| == 0 then []
    else
      (if edges[0].id == pid then
         match RowById(rows, edges[0].dependency)
         case Some(j) => [rows[j]]
         case None => []
       else [])
      + Children(rows, edges[1..], pid)
  }

  /** `_getDependencies`: the children of `pid` are shown one level deeper
      than `depth`. */
  function Walk(s: Store, pid: int, depth: int, listed: map<string, Mark>, flavor: Option<string>): (r: Walked)
    requires Versioned(s)
    ensures Visited(listed) <= Visited(r.listed)
    decreases Names(s) - Visited(listed), 1, 0
  {
    WalkRows(s, Children(s.products, s.dependencies, pid), depth + 1, listed, flavor)
  }

  /** The loop of lines 250-259 over the remaining child rows: a name already
      listed is skipped, a placeholder is reported and skipped without being
      marked, and any other row is shown, marked, and expanded before the
      next sibling. */
  function WalkRows(s: Store, rows: seq<ProductRow>, depth: int, listed: map<string, Mark>, flavor: Option<string>): (r: Walked)
    requires Versioned(s)
    requires forall k :: 0 <= k < |rows| ==> rows[k] in s.products
    ensures Visited(listed) <= Visited(r.listed)
    decreases Names(s) - Visited(listed), 0, |rows|
  {
    if |rows| == 0 then Walked([], listed, [])
    else
      var row := rows[0];
      if row.name in Visited(listed) then
        WalkRows(s, rows[1..], depth, listed, flavor)
      else if row.missing then
        var rest := WalkRows(s, rows[1..], depth, listed, flavor);
        Walked(rest.entries, rest.listed, [MissingDependency(row.name, row.version, flavor)] + rest.warnings)
      else
        var marked := listed[row.name := Listed(row.version)];
        assert Visited(marked) == Visited(listed) + {row.name};
        var sub := Walk(s, row.id, depth, marked, flavor);
        var rest := WalkRows(s, rows[1..], depth, sub.listed, flavor);
        Walked([Entry(row.id, row.name, row.version, depth)] + sub.entries + rest.entries,
               rest.listed, sub.warnings + rest.warnings)
  }
}
