# The EUPS SQL product catalog, in Dafny

EUPS keeps track of installed software products: each product has a name, a
version, an install directory, tags such as `current`, and dependencies on
other products. `python/eups/sql.py` mirrors that information into an SQLite
catalog with four tables: `products`, `dependencies`, `tagNames` and `tags`.
It fills the catalog from the products the EUPS stacks declare (`build`) and
prints it back as an indented dependency listing (`listProducts`).

This project models the catalog in memory and proves what its operations
guarantee. The database is an immutable `Store` of four row sequences, one
per table, in storage order. Every SQL statement becomes the function on
those sequences that the statement computes. Each function works on the
store it is given and returns the new one, so a transaction that commits
simply returns its store, and one that rolls back returns the old store.

| file | module | models |
|---|---|---|
| `base.dfy` | `Base` | `Option`, `Max`, subsequences |
| `text.dfy` | `Text` | padding, `", ".join`, and SQLite's BINARY collation (`NoLater`) |
| `catalog.dfy`, `catalog_props.dfy` | `Catalog`, `CatalogProps` | `insertProduct`, `insert_product` and `getTags` |
| `traversal.dfy`, `traversal_props.dfy` | `Traversal`, `TraversalProps` | `_getDependencies` |
| `format.dfy` | `Format` | `formatProduct` and a reader for the lines it writes |
| `listing.dfy`, `listing_props.dfy` | `Listing`, `ListingProps` | the query, ordering and layout of `listProducts` |
| `build.dfy`, `build_props.dfy` | `Builder`, `BuildProps` | `build` and `findDefaultProducts` |

Some things `sql.py` reads from elsewhere become inputs to the model:

- the stack scan of `build` becomes the product list;
- `Eups.tags.getTags()` becomes a sequence of `TagDef`;
- `Eups.getDependentProducts` becomes a `lookup` function that returns the dependents or `TableError`;
- `Eups.quiet` becomes a boolean;
- the configured default product name becomes a string.

Warnings written to `utils.stdwarn` become a `Warning` sequence that is returned with the store.

Some behaviours of the code are easy to misread; the model does what the code does:

- **Placeholders block real rows.** `insertProduct` first looks up (name, version) (lines 115-122). It then either reuses an existing row, placeholder or not, or, when `newProduct` is set, refuses the product. So at most one row per (name, version) ever exists (`CatalogProps.InsertProductWf`), and a placeholder is never joined by a real row for the same (name, version).
- **Optional dependents are kept.** `build` ignores the `optional` flag of each dependent (lines 342-343), and so does `Builder.Pairs`.
- **Only the default product's dependents are filtered.** `build` removes the default product's dependents from other products' dependencies, but not the default product itself. A dependency on the default product therefore becomes a placeholder row, without a warning.
- **A duplicate declaration is rolled back.** The `RuntimeError` for a duplicate is caught, and `pdb.set_trace()` runs (line 150). The connection is then closed without a commit. The model treats this as a rolled-back transaction that reports `AlreadyDeclared`.
- **Default name test.** The test `p != defaultProductName` (line 141) compares a string with the configured name, which may be `None`. It is modelled as `defaultName != Some(p)`.
- **Tag-filter duplicates.** `listProducts` with a tag filter joins `tags` and `tagNames`. A row therefore appears once per matching pair of those rows (`Listing.TagLinks`), not once overall.
- **Unused `tag` argument.** `_getDependencies` receives `tag`, but its query never uses it.

Three points of Python and SQLite semantics are fixed in the model:

- **Tie order.** Rows with equal names have no defined order under `ORDER BY`. The model keeps them in storage order.
- **Pass-two order.** The order of `dependencies.items()` in the second pass of `build` is unspecified in Python 2. The model uses the order in which products were first recorded.
- **Keys.** A key that SQLite assigns for a `NULL` primary key is one more than the largest key in the table, or 1 in an empty table.

## Model

| member | source | states |
|---|---|---|
| Catalog.NextProductIdSpec | python/eups/sql.py:106-109 | the key SQLite gives a new `products` row is larger than every existing key, and is 1 in an empty table |
| Catalog.NextTidSpec | python/eups/sql.py:296-300 | the key a new `tagNames` row gets is larger than every existing key, and is 1 in an empty table |
| Catalog.FindProductSpec | python/eups/sql.py:115-117 | the (name, version) lookup finds the first matching row, and finds nothing exactly when no row matches |
| Catalog.FindTagSpec | python/eups/sql.py:126-128 | the fullname lookup finds the first definition with that fullname, and finds nothing exactly when none has it |
| Catalog.TagByIdSpec | python/eups/sql.py:157-163 | the join on `tagNames.tid` finds the first definition with that key, and finds nothing exactly when there is none |
| Catalog.RowByIdSpec | python/eups/sql.py:240-247 | the join on `products.id` finds the first row with that key, and finds nothing exactly when there is none |
| Catalog.InsertRow | python/eups/sql.py:106-109 | `insert_product` adds exactly one row, after the existing rows, and leaves the other three tables alone |
| CatalogProps.InsertRowSpec | python/eups/sql.py:106-109 | `insert_product` appends exactly one row with the given fields, under a key no row had, and returns that key |
| CatalogProps.ResolveSpec | python/eups/sql.py:137-145 | a dependency pair resolves to its existing row with the store unchanged; otherwise a placeholder without a directory is appended under a fresh key, and the lookup then finds it |
| CatalogProps.LinkStepSpec | python/eups/sql.py:136-147 | one turn of the dependency loop appends exactly one edge, from the subject to the pair's row, and changes neither tag table |
| CatalogProps.LinkStepRows | python/eups/sql.py:137-145 | one turn adds no product row when the pair has one, and otherwise adds exactly the pair's placeholder |
| Catalog.Link | python/eups/sql.py:136-147 | the dependency loop adds exactly one edge per pair and leaves both tag tables alone |
| CatalogProps.LinkGrows | python/eups/sql.py:136-147 | the dependency loop only appends, adding one edge per pair |
| CatalogProps.LinkEdgeAt | python/eups/sql.py:136-147 | the k-th pair adds the k-th new edge, which points to the row that (name, version) has when the loop ends |
| CatalogProps.LinkPlaceholders | python/eups/sql.py:136-147 | every row the loop adds is a placeholder without a directory, for a pair of the list that had no row before |
| CatalogProps.LinkLogNamesPlaceholders | python/eups/sql.py:140-145 | the loop writes one warning per placeholder it creates, in creation order, except for placeholders named like the default product |
| CatalogProps.LinkWf | python/eups/sql.py:136-147 | the loop keeps keys unique, keeps one row per (name, version), and keeps every edge pointing at existing rows |
| CatalogProps.TagRowsForSpec | python/eups/sql.py:125-134 | each tag adds at most one `tags` row, which belongs to the new product and names an existing definition |
| CatalogProps.UnknownTagWarningsSpec | python/eups/sql.py:125-134 | every warning reports a tag of the product whose fullname matches no definition, every such tag is reported, and warnings and attached rows together number one per tag |
| Catalog.Subject | python/eups/sql.py:115-134 | finding or creating the subject adds no edge and no tag definition, and changes the store exactly when (name, version) had no row |
| CatalogProps.SubjectSpec | python/eups/sql.py:115-134 | the subject is the existing row for (name, version) with the store unchanged; otherwise a new real row with the product's directory is appended at the end, under a fresh key, with its tags |
| CatalogProps.SubjectWf | python/eups/sql.py:115-134 | finding or creating the subject keeps the store well formed, and the subject's row exists |
| Catalog.InsertProduct | python/eups/sql.py:103-152 | `insertProduct` rolls back with "already declared" exactly when `newProduct` is set and (name, version) already has a row |
| CatalogProps.InsertProductIsLink | python/eups/sql.py:103-152 | a committed insertion is the dependency loop run from the subject row, and the product's (name, version) then finds that row |
| CatalogProps.InsertProductAppends | python/eups/sql.py:103-152 | a committed insertion only appends to `products`, `dependencies` and `tags`, and leaves `tagNames` alone |
| CatalogProps.InsertProductWf | python/eups/sql.py:103-152 | a committed insertion keeps one row per (name, version), even when the same unknown dependency is listed twice |
| CatalogProps.InsertProductSubject | python/eups/sql.py:115-135 | an existing product keeps its row and gains no tags; a new product gets a real row at the end of the table, with its directory and its resolvable tags |
| CatalogProps.InsertProductEdges | python/eups/sql.py:136-147 | exactly one edge is added per dependency pair, in order, each from the product's row to that pair's row |
| CatalogProps.InsertProductPlaceholders | python/eups/sql.py:123-147 | all other new rows are placeholders for listed pairs that had no row, and the warnings are the unknown tags followed by one per placeholder not named like the default product |
| CatalogProps.TagNamesForResolved | python/eups/sql.py:125-168 | the names `getTags` reads back through the rows attached by fullname are the resolved tags' names, in the order listed |
| CatalogProps.InsertThenGetTags | python/eups/sql.py:125-168 | after a new product is inserted, `getTags` on its key returns the names of the tags whose fullnames resolved, in the order listed |
| Catalog.GetTags | python/eups/sql.py:154-168 | `getTags` of a key that has no product row is empty |
| Traversal.Children | python/eups/sql.py:240-250 | every row the dependency query returns is a row of `products` |
| TraversalProps.ChildrenRows | python/eups/sql.py:240-250 | every row the dependency query returns is the row its own key finds in `products` |
| TraversalProps.ChildrenSpec | python/eups/sql.py:240-250 | the query returns, in edge order, the rows that the edges from the product point at: their keys are the edge targets in order with unresolvable targets left out, and exactly the edge targets when every target has a row |
| TraversalProps.ChildrenEdge | python/eups/sql.py:240-250 | every row the query returns is the target of a stored edge from the product |
| Traversal.Walk | python/eups/sql.py:234-261 | `_getDependencies` only adds names to `listedProducts`, never removes them |
| Traversal.WalkRows | python/eups/sql.py:250-259 | the loop over the children of one product only adds names to `listedProducts` |
| TraversalProps.WalkMarks | python/eups/sql.py:234-261 | `_getDependencies` marks exactly the names it returns, returns each name at most once, and never returns a name that was already listed |
| TraversalProps.WalkRowsMarks | python/eups/sql.py:250-259 | the same for the loop over the children of one product |
| TraversalProps.WalkDepths | python/eups/sql.py:234-261 | the depths alone form a pre-order indentation that starts one level below the caller, and each entry is at most one level deeper than the one before; which entry sits below which is stated by `WalkTree` |
| TraversalProps.WalkRowsDepths | python/eups/sql.py:250-259 | the same for the loop over the children of one product |
| TraversalProps.WalkComplete | python/eups/sql.py:234-261 | on return every real child is listed, and every placeholder child is either listed or reported as missing for the flavor |
| TraversalProps.WalkRowsComplete | python/eups/sql.py:250-259 | the same for the loop over the children of one product |
| TraversalProps.WalkSources | python/eups/sql.py:234-261 | every entry shows a real row of the catalog, and every warning is for the flavor asked about and names a placeholder that is a child, through a stored dependency edge, of the product or of a product the expansion shows; which entry sits below which is stated by `WalkTree` and `WalkFollowsEdges` |
| TraversalProps.WalkRowsSources | python/eups/sql.py:250-259 | the same for the loop over the children of one product: a warning names a placeholder among those children or a child of a product the loop shows |
| TraversalProps.WalkWarnsReached | python/eups/sql.py:240-259 | every warning of the expansion reports a placeholder child of the product or of a product the expansion shows |
| TraversalProps.WalkRowsWarnsReached | python/eups/sql.py:250-259 | the same for the loop over the children of one product |
| TraversalProps.WalkTree | python/eups/sql.py:234-261 | each entry one level below the caller shows a real child row of the product, and each deeper entry shows a real child row of the nearest earlier entry one level up |
| TraversalProps.WalkRowsTree | python/eups/sql.py:250-259 | the same for the loop over the children of one product |
| TraversalProps.WalkFollowsEdges | python/eups/sql.py:234-261 | each entry one level below the caller is the target of a stored edge from the product, and each deeper entry is the target of a stored edge from the nearest earlier entry one level up |
| TraversalProps.WalkOrder | python/eups/sql.py:234-261 | the entries directly below the product appear in the order of its dependency edges |
| TraversalProps.WalkRowsOrder | python/eups/sql.py:250-259 | the same for the loop over the children of one product |
| Format.FormatProduct | python/eups/sql.py:170-178 | the line is as long as the indented name padded to 30 columns, plus one blank, plus the version padded to 16 columns, plus the tag suffix |
| Format.FormatNameColumn | python/eups/sql.py:172 | the line starts with the indented name, followed by blanks to column 30 or none if the name is longer, then one blank |
| Format.FormatVersionColumn | python/eups/sql.py:172-176 | the version follows the name column, padded with blanks to 16 columns, and the tag suffix makes up the rest of the line |
| Format.TagSuffixShape | python/eups/sql.py:174-176 | the suffix is empty exactly when no tags are shown; otherwise it is one blank followed by the non-blank start of the joined tag names |
| Format.SplitJoin | python/eups/sql.py:176 | splitting the `", "`-joined tag names gives them back |
| Format.FormatParses | python/eups/sql.py:170-178 | reading a formatted line gives back its depth, name, version and shown tags (round trip) |
| ListingProps.NamedDefsById | python/eups/sql.py:191-194 | with unique tag keys, the join finds a definition with the requested name exactly when the definition `getTags` reads for that key has that name |
| ListingProps.TagLinksAgreeWithTagNames | python/eups/sql.py:190-194 | a product passes the tag filter exactly when `getTags` would report that tag name for it |
| ListingProps.SelectMembers | python/eups/sql.py:185-199 | a row is in the result set exactly when it passes the name and version filters and, when a tag is given, is joined to a tag with that name |
| ListingProps.SelectCountsOnce | python/eups/sql.py:185-199 | without a tag filter each row that passes appears exactly once |
| ListingProps.InsertByNameSpec | python/eups/sql.py:200 | inserting a row into a name-sorted list keeps it sorted and adds exactly that row |
| Listing.Query | python/eups/sql.py:185-200 | without a tag filter the query returns at most one row per product row |
| ListingProps.SortByNameSpec | python/eups/sql.py:200 | ordering by name gives a sorted permutation of the rows |
| ListingProps.QuerySpec | python/eups/sql.py:185-200 | the query returns its rows in name order, and a row is returned exactly when it passes the filters |
| ListingProps.ListBlock | python/eups/sql.py:217-226 | each block is the row at depth 0 followed by an indented expansion that never shows the default product and shows no name twice |
| Listing.ListEntries | python/eups/sql.py:211-226 | the listing has at least one entry per selected row, and exactly one, with no warnings, when dependencies are not shown |
| ListingProps.ListEntriesSpec | python/eups/sql.py:211-226 | the listing is indented as a tree, its depth-0 lines are the selected rows in query order, no deeper line shows the default product, and without dependencies every line is at depth 0 |
| ListingProps.LinesFormat | python/eups/sql.py:213-226 | each printed line is `formatProduct` of its entry at the entry's depth, with tags only when they are shown |
| Listing.ListProducts | python/eups/sql.py:180-232 | `listProducts` prints exactly one line per entry of the listing |
| Builder.LoadTagNames | python/eups/sql.py:296-300 | loading tag definitions keeps the existing ones in front and adds at most one per tag |
| BuildProps.LoadTagNamesLength | python/eups/sql.py:296-300 | loading keeps the existing definitions in front and adds exactly one per non-pseudo tag |
| BuildProps.LoadTagNamesSpec | python/eups/sql.py:296-300 | loading appends one definition per non-pseudo tag, in order, with its name, full name and scope, and an empty owner |
| BuildProps.LoadTagNamesDistinct | python/eups/sql.py:296-300 | every loaded definition gets a key that no other definition has |
| BuildProps.LoadTagNamesWf | python/eups/sql.py:296-300 | loading tag definitions keeps the catalog well formed |
| BuildProps.FirstNamedSpec | python/eups/sql.py:359-361 | the default product is the first product with the configured name, and there is none exactly when no product has it |
| BuildProps.WithinSpec | python/eups/sql.py:362-363 | the default list keeps product-list order, and holds exactly the listed products that are among the dependents |
| Builder.FindDefaultProducts | python/eups/sql.py:352-365 | the configured name is returned as given, a found default product is one of the products and has that name, and the lookup error can escape only when products were given |
| BuildProps.FindDefaultProductsSpec | python/eups/sql.py:352-365 | an empty list is not searched; otherwise the first product with the name is the default, or there is none; the default list holds exactly the products the default depends on, in list order; the lookup error escapes exactly when the default's dependents cannot be read |
| BuildProps.PutSpec | python/eups/sql.py:342-343 | `dependencies[pi] = ...` stores the new pairs, keeps the other products' pairs, and adds nothing else |
| Builder.PassOne | python/eups/sql.py:329-343 | the first loop only appends to the steps so far, at most an insertion and a warning per product |
| BuildProps.PassOneSpec | python/eups/sql.py:329-343 | the first pass inserts every product except the default one, as new and without dependencies; it warns, unless quiet, about exactly the non-default products whose dependents cannot be read, and about nothing else; it records pairs only for non-default products whose dependents were read |
| BuildProps.PassOneWarnings | python/eups/sql.py:329-340 | a lookup warning is written for a product exactly when it is not the default product, its dependents cannot be read and `quiet` is not set |
| BuildProps.PairsSpec | python/eups/sql.py:342-343 | the recorded pairs are exactly the (name, version) of the dependents that are not in the default list |
| Builder.PassTwo | python/eups/sql.py:345-350 | the second loop makes at most one call per recorded product, each for an existing product with the default name given |
| BuildProps.PassTwoSpec | python/eups/sql.py:345-350 | the second pass re-inserts, as existing products with the default name given, exactly the recorded products not named like the default |
| BuildProps.ApplySpec | python/eups/sql.py:103-152 | one `insertProduct` call only appends, adds no edge when given no pairs, leaves a row for its product, and keeps the catalog well formed |
| BuildProps.RunAppends | python/eups/sql.py:329-350 | a sequence of `insertProduct` calls only appends rows and keeps the catalog well formed |
| BuildProps.RunNoEdges | python/eups/sql.py:329-343 | calls without dependency pairs add no edge |
| BuildProps.RunRows | python/eups/sql.py:329-350 | after the calls every product they name has a row |
| BuildProps.RunConcat | python/eups/sql.py:329-350 | running the two passes one after the other is the same as running their concatenation |
| BuildProps.BuildPasses | python/eups/sql.py:326-350 | for the corrected `build` (see Findings), which differs from lines 326-350 only in the name the second pass skips: after pass one every non-default product has a row and no edge has been added; pass two links each readable product to the pairs of its dependents outside the default list |
| BuildProps.BuildWf | python/eups/sql.py:279-350 | `build` keeps the catalog well formed, whether it finishes or stops |
| Builder.BuildAsWritten | python/eups/sql.py:323-350 | `build` as written: an empty product list changes neither the products, dependencies nor tags and writes no warnings, and when the default product's dependents cannot be read it stops before inserting anything |
| BuildProps.BuildAsWrittenStops | python/eups/sql.py:323-365 | as written, `build` stops exactly when the first product with the default name has unreadable dependents, or when products exist and none has the default name; the corrected `build` stops only in the first case |
| Builder.Build | python/eups/sql.py:323-350 | for the corrected `build` (see Findings), which keys the second pass on the configured name: an empty product list changes neither the products, dependencies nor tags and writes no warnings; the only way it stops is an unreadable default product |
| BuildProps.BuildAgrees | python/eups/sql.py:345-350 | whenever a product has the default name, the corrected `build` equals the one written |
| BuildProps.BuildAsWrittenCrashes | python/eups/sql.py:345-361 | as written, a non-empty product list in which no product has the default name always stops at `defaultProduct.name`, after every product has been inserted and before any edge is added |
| BuildProps.BuildLinksWithoutDefault | python/eups/sql.py:345-350 | in the same situation the corrected `build` finishes, and it links every product whose dependents can be read |
| BuildProps.BuildAsWrittenExample | python/eups/sql.py:345-361 | with one product `afw 1.0` and default name `toolchain`, the `build` as written stops with `afw` inserted, and the corrected `build` finishes |

## Left out

- Connections, `commit`, `close` and the `outFile` choice of `listProducts` are left out. The model has no I/O: each function returns the new store and the warnings, and `listProducts` returns its lines.
- `create`, the schema text and `getConnection` are left out. The store is given, and the invariant its tables keep is the predicate `Catalog.Wf`.
- `listTags` and `test` are not part of this model.
- The stack scan in `build` (lines 283-321) is left out: it depends on the filesystem, flavors and `Eups.versions`. Its result is the `productList` input.
- `pdb.set_trace()` in `insertProduct` and `listProducts` is left out, because it starts an interactive debugger. For `insertProduct` the model treats it as a rollback that the caller sees; the `except Exception` branch of `listProducts` is not modelled.
- Python 2 dict iteration order in the second pass of `build` is unspecified. The model fixes it to first-recording order, so what depends on that order is a choice, not a guarantee.
- `Traversal.Walk`: requires that every non-placeholder row has a non-empty version. Lines 251 and 258 store the version as the visited mark, and an empty version is falsy, so `_getDependencies` could expand such a row again and again through a cycle. The model does not cover that case.
- `Format.FormatParses`: the round trip is proved only for names and versions that are single non-blank words and tags without commas. Other strings make the printed line ambiguous.
- `Listing.ListProducts`: with `showDependencies` it requires the same non-empty versions as `Traversal.Walk`.
- Product equality: `build` compares EUPS `Product` objects in three places: the test against the default product (line 330), the membership tests in the default list (lines 343 and 362), and `dependencies[pi]` as a dict key (line 342). The model takes this equality to be structural equality of `Catalog.Product`, that is of name, version, directory and tags; the flavor is not part of the model. The `Product` class is not part of this model; if it compared by identity instead, products equal in the model could differ there, and the default-list filter could drop nothing.
- SQLite errors other than the duplicate-product `RuntimeError`, such as a locked database or a full disk, are left out.

## Findings

| source | as written | input that shows it | evidently intended | confidence | as-written member | corrected member |
|---|---|---|---|---|---|---|
| python/eups/sql.py:345-361 | when products exist but none has the default name, `findDefaultProducts` returns `[]` as the default product, and `build` evaluates `defaultProduct.name` after the first pass has committed every product; that raises `AttributeError`, so no dependency edge is ever added | one product `afw 1.0` and the configured default name `toolchain` | the second pass skips products by the configured default name, which `findDefaultProducts` also returns and `listProducts` uses, so every readable product is linked | not executed | BuildProps.BuildAsWrittenCrashes | BuildProps.BuildLinksWithoutDefault |
