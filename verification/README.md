# RDF graph summarization mapper, modelled in Dafny

The mapper sits between an RDF graph and a pattern miner. It has two halves:

- **The encoder, `MatrixBuilder`**, makes two passes over the graph's statements.
  - The first pass allocates dense row indices to resources, in first-seen order: every subject, and every blank-node object.
  - It also allocates dense column indices to column keys, in first-seen order:
    - a predicate `p` (direct column);
    - `p::R` (reverse column), created only when `p` is first registered by a statement with a resource object;
    - `c::C` (type column) for the object `c` of an `rdf:type` statement.
  - Between the passes, `build()` allocates an R x C integer matrix of zeros.
  - The second pass writes a 1 into each cell whose row and column a statement justifies.
- **The decoder, `SummaryGraphBuilder`**, turns mined patterns into a summary graph. A pattern is a set of rows and a set of column indices.
  - It mints one node per pattern and records the pattern's extent (its row count).
  - It then adds at most one statement per item of each pattern, chosen by the suffix of the item's label:
    - an item without a label adds nothing;
    - a `::R` label gives an edge to the first pattern holding the matching direct column, or nothing if no pattern holds it;
    - a label containing `::C` gives an `rdf:type` assertion;
    - any other label gives an edge to a placeholder node.
- **Between the two halves**, the GUI inverts the encoder's label-to-index map into index-to-label for the decoder.

The Dafny modules follow that structure:

| module (file) | what it holds |
|---|---|
| `Strings` (strings.dfy) | `endsWith`, `contains`, `replace(m, "")` and decimal rendering, over `seq<char>` |
| `Rdf` (rdf.dfy) | resources, nodes, statements, `rdf:type` |
| `Columns` (columns.dfy) | column keys as a tagged value; `Label` gives the string the encoder stores, `Classify` is the decoder's suffix dispatch |
| `Encoding` (encoding.dfy) | the encoder's result as functions of the statement list (`RowKeys`, `ColumnKeys`, `Justifies`) and its laws |
| `MatrixBuilding` (matrix_builder.dfy) | class `MatrixBuilder`: the two passes, imperatively, over map/sequence fields and an `array2` |
| `Decoding` (decoding.dfy) | the decoder's result as functions of the patterns and labels (`FindTargetPattern`, `ItemTriple`, `SummaryGraph`) and its laws |
| `SummaryBuilding` (summary_graph_builder.dfy) | class `SummaryGraphBuilder`: the two loops of `buildSummaryGraph`, imperatively |
| `Pipeline` (pipeline.dfy) | the map inversion, and the end-to-end link from encoder columns to decoder statements |
| `Scenarios` (scenarios.dfy) | small graphs and patterns showing each rule |

Each `LinkedHashMap` is a `map` plus a `seq` that records its insertion order. The predicate `IndexedBy` ties the two together: indices are dense, and each key sits at its own index. A Jena model is a `seq<Triple>` in `listStatements` order. The summary model is a `set<Triple>`, because adding a statement twice to a Jena model keeps one copy.

Two points where the code does less than its own comments or names suggest. The model follows the code.

- **Rows for objects.** The comment at `MatrixBuilder.java:66` speaks of adding an object "if it's a blank node or resource". The test at `:67` is `object.isAnon() && object.isResource()`, so only blank-node objects get a row. A named object that is never a subject gets no row, and its reverse-column cell is never written (`:118`). `Scenarios.SubjectAndNamedObjects` shows this on `(a knows b), (a knows c)`: only `a` gets a row, yet `b` and `c` justify the reverse column. `Encoding.RowKeysCover` states the rule for every graph.
- **Reverse columns.** `p::R` is decided by the statement that first registers `p` (`:85-90`). A later statement of `p` with a resource object does not create it. `Encoding.InverseColumnExists` states this for every graph, and `Scenarios.FirstUseDecidesReverseColumn` gives a graph where a later blank-node object of `p` has a row but `p` has no reverse column. In the other direction, a reverse column always has some statement of `p` with a resource object behind it: `Encoding.InverseColumnWitness`.

## Model

| member | source | states |
|---|---|---|
| Strings.RemoveAllAbsent | src/www/etis_midi/fr/panda/mapper/SummaryGraphBuilder.java:55 | `replace(m, "")` leaves a string that does not contain `m` unchanged |
| Strings.RemoveAppendedMarker | src/www/etis_midi/fr/panda/mapper/SummaryGraphBuilder.java:47 | removing a `::R`/`::C` marker that was appended to a marker-free URI gives the URI back |
| Strings.RemoveAll | src/www/etis_midi/fr/panda/mapper/SummaryGraphBuilder.java:47 | defines `replace(m, "")`: occurrences of `m` found left to right without overlap are deleted, and the result is never longer (its laws are `Strings.RemoveAllAbsent` and `Strings.RemoveAppendedMarker`) |
| Strings.EndsWith | src/www/etis_midi/fr/panda/mapper/SummaryGraphBuilder.java:46 | defines `endsWith`: the string is at least as long as the marker and its last characters are the marker |
| Strings.Contains | src/www/etis_midi/fr/panda/mapper/SummaryGraphBuilder.java:53 | defines `contains`: the marker occurs at some position of the string |
| Strings.DecimalString | src/www/etis_midi/fr/panda/mapper/SummaryGraphBuilder.java:32 | defines the decimal rendering of `"..." + i`: most significant digit first, no leading zero, "0" for zero |
| Strings.EndsWithContains | src/www/etis_midi/fr/panda/mapper/SummaryGraphBuilder.java:46-53 | a string ending in a marker contains it: `c + "::C"` passes the `contains("::C")` test, and a URI free of `::R` cannot end in `::R` |
| Strings.DecimalRoundTrip | src/www/etis_midi/fr/panda/mapper/SummaryGraphBuilder.java:32-33 | the decimal rendering of a pattern index or an extent parses back to the number |
| Strings.DecimalStringInjective | src/www/etis_midi/fr/panda/mapper/SummaryGraphBuilder.java:32 | distinct numbers render to distinct decimal strings |
| Rdf.NodeString | src/www/etis_midi/fr/panda/mapper/MatrixBuilder.java:76 | defines `RDFNode.toString`: a URI, a blank-node label or a literal's lexical form |
| Columns.Label | src/www/etis_midi/fr/panda/mapper/MatrixBuilder.java:76-83 | defines the key string the encoder stores for a column: the predicate, the predicate + `::R`, or the class + `::C` |
| Columns.LabelShape | src/www/etis_midi/fr/panda/mapper/MatrixBuilder.java:76-83 | a direct key is its URI; a reverse or type key ends in its marker, and what precedes the marker is the URI |
| Columns.Classify | src/www/etis_midi/fr/panda/mapper/SummaryGraphBuilder.java:46-61 | a label is reverse iff it ends in `::R`, a type label iff it does not but contains `::C`, and otherwise the predicate itself |
| Columns.LabelRoundTrip | src/www/etis_midi/fr/panda/mapper/MatrixBuilder.java:76-88 | the decoder's dispatch recovers the column the encoder labelled, for every URI without a marker |
| Columns.LabelInjective | src/www/etis_midi/fr/panda/mapper/MatrixBuilder.java:76-88 | distinct marker-free columns get distinct string keys |
| Encoding.Register | src/www/etis_midi/fr/panda/mapper/MatrixBuilder.java:62-64 | a containsKey-guarded put keeps the existing order, leaves the keys alone when the key is present, and otherwise adds it once, at the end |
| Encoding.RowStep | src/www/etis_midi/fr/panda/mapper/MatrixBuilder.java:61-72 | defines the rows one statement registers: its subject, then its object when that is a blank node, each only if new |
| Encoding.RowKeys | src/www/etis_midi/fr/panda/mapper/MatrixBuilder.java:56-72 | defines instanceMap's insertion order: the row steps of the statements applied in `listStatements` order |
| Encoding.ColumnStep | src/www/etis_midi/fr/panda/mapper/MatrixBuilder.java:74-91 | defines the columns one statement registers: the type column of an `rdf:type` object if new; otherwise, on the predicate's first use only, its direct column and, for a resource object, its reverse column |
| Encoding.ColumnKeys | src/www/etis_midi/fr/panda/mapper/MatrixBuilder.java:56-91 | defines predicateMap's insertion order: the column steps of the statements applied in `listStatements` order |
| Encoding.Justifies | src/www/etis_midi/fr/panda/mapper/MatrixBuilder.java:103-152 | defines when cell (resource, column) is 1: a statement with that subject and predicate (direct), with that predicate and the resource as object (reverse), or with that subject, `rdf:type` and the class as object (type) |
| Encoding.SubjectsWithProperty | src/www/etis_midi/fr/panda/mapper/MatrixBuilder.java:141 | defines `listSubjectsWithProperty(p)`: the subjects of the statements of `p` |
| Encoding.SubjectsWithValue | src/www/etis_midi/fr/panda/mapper/MatrixBuilder.java:128 | defines `listSubjectsWithProperty(p, o)`: the subjects of the statements of `p` with object `o` |
| Encoding.ObjectsOfProperty | src/www/etis_midi/fr/panda/mapper/MatrixBuilder.java:112 | defines `listObjectsOfProperty(p)`: the objects of the statements of `p` |
| Encoding.RowKeysCover | src/www/etis_midi/fr/panda/mapper/MatrixBuilder.java:61-72 | a resource has a row iff it is the subject of a statement or a blank-node object of one |
| Encoding.RowKeysDistinct | src/www/etis_midi/fr/panda/mapper/MatrixBuilder.java:62-71 | no resource gets two rows |
| Encoding.RowKeysStable | src/www/etis_midi/fr/panda/mapper/MatrixBuilder.java:56-72 | more statements only append rows; a row index is never reassigned |
| Encoding.ColumnKeysStable | src/www/etis_midi/fr/panda/mapper/MatrixBuilder.java:74-91 | more statements only append columns; a column index is never reassigned |
| Encoding.ColumnKeysCover | src/www/etis_midi/fr/panda/mapper/MatrixBuilder.java:74-91 | a type column exists iff an `rdf:type` statement has that object; a direct column exists iff a non-`rdf:type` predicate is used; a reverse column only with its direct column |
| Encoding.ColumnKeysDistinct | src/www/etis_midi/fr/panda/mapper/MatrixBuilder.java:77-88 | each column key is registered once |
| Encoding.InverseFollowsDirect | src/www/etis_midi/fr/panda/mapper/MatrixBuilder.java:85-90 | the index of `p::R` is the index of `p` plus one |
| Encoding.FirstUseKept | src/www/etis_midi/fr/panda/mapper/MatrixBuilder.java:85 | once `p` is registered, later statements do not change which statement first used it |
| Encoding.FirstUseNew | src/www/etis_midi/fr/panda/mapper/MatrixBuilder.java:85-90 | the statement that registers `p` is its first use |
| Encoding.InverseColumnExists | src/www/etis_midi/fr/panda/mapper/MatrixBuilder.java:85-90 | `p::R` exists iff `p` is not `rdf:type` and the first statement of `p` has a resource object |
| Encoding.InverseColumnWitness | src/www/etis_midi/fr/panda/mapper/MatrixBuilder.java:87-88 | a reverse column of `p` is backed by some statement of `p` with a resource object |
| Encoding.AppendSeenStatement | src/www/etis_midi/fr/panda/mapper/MatrixBuilder.java:62-85 | a statement seen before adds no row and no column |
| Encoding.DoubledKeys | src/www/etis_midi/fr/panda/mapper/MatrixBuilder.java:56-92 | doubling every statement leaves the row and column orders unchanged |
| Encoding.DuplicatesChangeNothing | src/www/etis_midi/fr/panda/mapper/MatrixBuilder.java:56-152 | doubling every statement leaves both orders and every cell's justification, hence the matrix, unchanged |
| Encoding.IndexedBySize | src/www/etis_midi/fr/panda/mapper/MatrixBuilder.java:42-43 | a dense index map has as many entries as keys, so the counters equal the map sizes |
| Encoding.IndexedByLookup | src/www/etis_midi/fr/panda/mapper/MatrixBuilder.java:118-120 | every index a dense map returns is in range and names its own key |
| Encoding.IndexedByFacts | src/www/etis_midi/fr/panda/mapper/MatrixBuilder.java:160-166 | a dense map has as many entries as keys, and each index it returns is in range and names its own key |
| Encoding.IndexedByAppend | src/www/etis_midi/fr/panda/mapper/MatrixBuilder.java:63 | putting an absent key at the next counter value keeps the map dense |
| Encoding.QueriesMatchRules | src/www/etis_midi/fr/panda/mapper/MatrixBuilder.java:108-149 | the subjects and objects Jena lists for a column are exactly the resources the column's rule justifies |
| MatrixBuilding.MatrixBuilder.constructor | src/www/etis_midi/fr/panda/mapper/MatrixBuilder.java:33-35 | a new builder holds the model, empty maps and no matrix |
| MatrixBuilding.MatrixBuilder.Built | src/www/etis_midi/fr/panda/mapper/MatrixBuilder.java:40-45 | defines the state after `build()`: both maps densely index the first-seen orders, the matrix is R x C, and each cell is 1 iff justified |
| MatrixBuilding.MatrixBuilder.Build | src/www/etis_midi/fr/panda/mapper/MatrixBuilder.java:40-45 | after build, the rows and columns are the first-seen orders, the matrix is R x C and a cell is 1 iff a statement justifies it, else 0 |
| MatrixBuilding.MatrixBuilder.CalculateDimensions | src/www/etis_midi/fr/panda/mapper/MatrixBuilder.java:52-95 | the maps become the dense first-seen indexings of rows and columns, and the result is their sizes |
| MatrixBuilding.MatrixBuilder.RegisterInstances | src/www/etis_midi/fr/panda/mapper/MatrixBuilder.java:61-72 | one statement registers its subject, then its object if that is a blank node, keeping the map dense |
| MatrixBuilding.MatrixBuilder.RegisterPredicates | src/www/etis_midi/fr/panda/mapper/MatrixBuilder.java:74-91 | one statement registers its type column, or on first use its direct column and, for a resource object, its reverse column |
| MatrixBuilding.MatrixBuilder.PutInstance | src/www/etis_midi/fr/panda/mapper/MatrixBuilder.java:63 | the new resource goes at the next row index and the map stays dense |
| MatrixBuilding.MatrixBuilder.PutPredicate | src/www/etis_midi/fr/panda/mapper/MatrixBuilder.java:78 | the new key goes at the next column index and the map stays dense |
| MatrixBuilding.MatrixBuilder.PopulateMatrix | src/www/etis_midi/fr/panda/mapper/MatrixBuilder.java:103-152 | on a zero matrix, every cell becomes 1 iff its resource and column are justified by a statement, and 0 otherwise |
| MatrixBuilding.MatrixBuilder.MarkRows | src/www/etis_midi/fr/panda/mapper/MatrixBuilder.java:114-123 | the hits that have a row get a 1 in the column; hits without a row are skipped; no other cell changes |
| MatrixBuilding.MatrixBuilder.GetPredicateMap | src/www/etis_midi/fr/panda/mapper/MatrixBuilder.java:160-162 | after build, the map gives each column key its first-seen position, has one entry per column, and maps nothing else |
| MatrixBuilding.MatrixBuilder.GetInstanceMap | src/www/etis_midi/fr/panda/mapper/MatrixBuilder.java:164-166 | after build, the map gives each row resource its first-seen position, has one entry per row, and maps nothing else |
| MatrixBuilding.MatrixBuilder.GetMatrix | src/www/etis_midi/fr/panda/mapper/MatrixBuilder.java:156-158 | the matrix has instanceMap.size() rows and predicateMap.size() columns, and the cell the two maps index is 1 iff a statement justifies it |
| Decoding.PatternNode | src/www/etis_midi/fr/panda/mapper/SummaryGraphBuilder.java:32 | defines the node of pattern `i`: the pattern namespace followed by `i` in decimal |
| Decoding.PatternNodeParses | src/www/etis_midi/fr/panda/mapper/SummaryGraphBuilder.java:32 | a pattern node's URI starts with the pattern namespace, and the rest reads back as the position |
| Decoding.Placeholder | src/www/etis_midi/fr/panda/mapper/SummaryGraphBuilder.java:60 | defines the placeholder of a label: the literal namespace followed by the label's hash in decimal, so equal labels give the same node |
| Decoding.PlaceholderParses | src/www/etis_midi/fr/panda/mapper/SummaryGraphBuilder.java:60 | a placeholder's URI starts with the literal namespace, and the rest reads back as the label's hash |
| Decoding.ExtentTriple | src/www/etis_midi/fr/panda/mapper/SummaryGraphBuilder.java:33 | defines pattern `i`'s extent statement: its node, the extent property, and its row count in decimal |
| Decoding.ExtentTripleParses | src/www/etis_midi/fr/panda/mapper/SummaryGraphBuilder.java:33 | the extent statement hangs off the pattern's node, uses the extent property, and its literal reads back as the row count |
| Decoding.ItemTriples | src/www/etis_midi/fr/panda/mapper/SummaryGraphBuilder.java:42-62 | defines the statements a set of items of pattern `i` adds: the union of their item statements |
| Decoding.ExtentTriples | src/www/etis_midi/fr/panda/mapper/SummaryGraphBuilder.java:31-35 | defines the extent statements of the first `n` patterns |
| Decoding.PatternTriples | src/www/etis_midi/fr/panda/mapper/SummaryGraphBuilder.java:38-63 | defines the item statements of the first `n` patterns |
| Decoding.SummaryGraph | src/www/etis_midi/fr/panda/mapper/SummaryGraphBuilder.java:26-66 | defines the model `buildSummaryGraph` returns: every pattern's extent statement and every item statement of every pattern |
| Decoding.PatternNodeInjective | src/www/etis_midi/fr/panda/mapper/SummaryGraphBuilder.java:32 | distinct pattern positions get distinct node URIs |
| Decoding.FirstPatternWith | src/www/etis_midi/fr/panda/mapper/SummaryGraphBuilder.java:78-82 | the result is the least position from `from` whose pattern holds the labelled item, or -1 when none does |
| Decoding.HasItemLabelledIff | src/www/etis_midi/fr/panda/mapper/SummaryGraphBuilder.java:75-79 | with an injective map, holding an item with a given label means holding the one item that has it |
| Decoding.FindTargetPattern | src/www/etis_midi/fr/panda/mapper/SummaryGraphBuilder.java:68-87 | -1 for an unmapped or non-`::R` item or when no pattern holds the direct item; otherwise the least pattern holding it, the current one included |
| Decoding.ItemTriple | src/www/etis_midi/fr/panda/mapper/SummaryGraphBuilder.java:43-61 | an item adds a statement from its pattern's node to a resource, and adds nothing iff it is unmapped or a reverse item with no target |
| Decoding.ItemTriplesAdd | src/www/etis_midi/fr/panda/mapper/SummaryGraphBuilder.java:42-62 | handling one more item adds exactly that item's statement |
| Decoding.ItemTriplesStep | src/www/etis_midi/fr/panda/mapper/SummaryGraphBuilder.java:42-62 | moving an item from pending to handled adds exactly that item's statement |
| Decoding.PatternTriplesShape | src/www/etis_midi/fr/panda/mapper/SummaryGraphBuilder.java:38-63 | every item statement hangs off a pattern node and points at a resource, never a literal |
| Decoding.ExtentTriplesExact | src/www/etis_midi/fr/panda/mapper/SummaryGraphBuilder.java:31-35 | among the first `n` patterns, pattern `i` has exactly one extent, its row count |
| Decoding.ExtentOfPattern | src/www/etis_midi/fr/panda/mapper/SummaryGraphBuilder.java:31-35 | the summary graph gives a pattern node an extent iff it is a pattern position, and that extent is the size of its row set |
| Decoding.PatternOwnsItsTriples | src/www/etis_midi/fr/panda/mapper/SummaryGraphBuilder.java:38-63 | the item statements hanging off pattern `i`'s node are exactly those its own items add |
| SummaryBuilding.PatternURIs | src/www/etis_midi/fr/panda/mapper/SummaryGraphBuilder.java:31-35 | defines `patternURIs` after `n` rounds of the first loop: position `j < n` maps to pattern `j`'s node |
| SummaryBuilding.PatternURIsNext | src/www/etis_midi/fr/panda/mapper/SummaryGraphBuilder.java:34 | putting pattern `i`'s node extends the node map of the first `i` patterns to `i + 1` |
| SummaryBuilding.PatternURIsLookup | src/www/etis_midi/fr/panda/mapper/SummaryGraphBuilder.java:39 | after the first loop, `patternURIs.get(j)` is pattern `j`'s node for every position |
| SummaryBuilding.SummaryGraphBuilder.constructor | src/www/etis_midi/fr/panda/mapper/SummaryGraphBuilder.java:20-24 | a new builder holds the patterns and labels, with no pattern nodes |
| SummaryBuilding.SummaryGraphBuilder.BuildSummaryGraph | src/www/etis_midi/fr/panda/mapper/SummaryGraphBuilder.java:26-66 | the result is the summary graph of the patterns and labels; only patternURIs changes, gaining every pattern's node |
| SummaryBuilding.SummaryGraphBuilder.AddItemStatements | src/www/etis_midi/fr/panda/mapper/SummaryGraphBuilder.java:42-62 | the item loop of pattern `i` adds exactly the statements of its items, in any iteration order |
| SummaryBuilding.SummaryGraphBuilder.AddItemStatement | src/www/etis_midi/fr/panda/mapper/SummaryGraphBuilder.java:43-61 | the string dispatch on one item adds the statement `ItemTriple` gives, or nothing |
| Pipeline.InvertPredicateMap | src/www/etis_midi/fr/panda/main/MainGUI.java:125-128 | every index of the column map, and nothing else, maps to the label of a key stored at it |
| Pipeline.ItemMap | src/www/etis_midi/fr/panda/main/MainGUI.java:125-128 | defines the index-to-label map the GUI hands the decoder: each column position to the key string stored at it |
| Pipeline.InvertedIsItemMap | src/www/etis_midi/fr/panda/main/MainGUI.java:125-128 | whatever the entry order, inverting a dense column map gives each index the label of the column at that position |
| Pipeline.ColumnKeysUnmarked | src/www/etis_midi/fr/panda/mapper/MatrixBuilder.java:74-91 | when no predicate or class holds a marker, no column does |
| Pipeline.ItemMapInjective | src/www/etis_midi/fr/panda/main/MainGUI.java:125-128 | the inverted map of distinct marker-free columns is injective, as the decoder needs |
| Pipeline.DecoderLabelsInjective | src/www/etis_midi/fr/panda/main/MainGUI.java:124-128 | the map the decoder receives from a marker-free graph is the position-to-label map, and it is injective |
| Pipeline.DecodeColumn | src/www/etis_midi/fr/panda/mapper/SummaryGraphBuilder.java:42-61 | the decoder reads back the encoder's columns: a type column gives its `rdf:type` assertion and a direct column its placeholder edge; a reverse column gives an edge to the first pattern holding column `j - 1` (its direct column) iff one does; a non-column gives nothing |
| Scenarios.SubjectAndNamedObjects | src/www/etis_midi/fr/panda/mapper/MatrixBuilder.java:61-90 | in `(a knows b), (a knows c)` only `a` has a row, yet `b` and `c` justify the reverse column |
| Scenarios.FirstUseDecidesReverseColumn | src/www/etis_midi/fr/panda/mapper/MatrixBuilder.java:85-90 | a literal first use of `p` keeps `p::R` out although a later blank-node object of `p` gets a row |
| Scenarios.TypeAssertion | src/www/etis_midi/fr/panda/mapper/MatrixBuilder.java:75-79 | `(x rdf:type Person)` gives one row and one type column and justifies the cell; a literal class gives the column but no 1 |
| Scenarios.ReverseItemReconnects | src/www/etis_midi/fr/panda/mapper/SummaryGraphBuilder.java:46-52 | a reverse item links its pattern to the first pattern holding the direct item |
| Scenarios.ReverseItemDropped | src/www/etis_midi/fr/panda/mapper/SummaryGraphBuilder.java:46-52 | a reverse item whose direct item is in no pattern adds nothing |

## Left out

- Reading the graph from a file (`RDFModelLoader`), the matrix and map dumps (`MatrixWriter`), the Swing GUI, its worker thread and logging. These are I/O. The statement list is an input of the model.
- The miner `PandaTopKPattern.runPandaPlus` and its floating-point thresholds are not part of this model. Patterns are plain inputs: a set of rows and a set of column indices. The `Pattern` class is not part of this model either.
- Decoding.Placeholder: the `Math.abs(hashCode())` that names a placeholder is a parameter `string -> nat`. Java hashing and the `Integer.MIN_VALUE` overflow are not modelled. Only "equal labels give the same placeholder" is captured.
- Decoding.ExtentTriple: the extent is a typed integer literal in the source. The model keeps its decimal lexical form and drops the datatype.
- Rdf.NodeString: a literal's `toString` in Jena may append a language tag or datatype. The model uses the lexical form. A type column's key for a literal object is therefore approximated.
- MatrixBuilding.MatrixBuilder.PopulateMatrix: column keys are tagged values, not strings. A predicate or class URI that itself contains `::R` or `::C` can make two Java keys collide, or send a key down the wrong suffix branch of `populateMatrix` or the decoder. The model does not capture that case. The lemmas linking encoder and decoder assume no URI holds a marker (`Columns.Unmarked`, `Pipeline.UnmarkedGraph`).
- MatrixBuilding.MatrixBuilder.Build: modelled for a fresh builder only. A second `build()` on the same object would restart the counters while the maps keep their entries.
- Decoding.FindTargetPattern: requires an injective index-to-label map. In the source, the GUI's map is injective for every graph, because it inverts a map whose keys are distinct strings (`MainGUI.java:126-127`). The model proves injectivity only for graphs whose URIs hold no marker (`Pipeline.DecoderLabelsInjective`), because its column keys are tagged values rather than strings. With several items sharing a label, the source tries them in `HashMap` entry order, and that order is not modelled.
- Iteration orders that the source leaves to `HashMap`, `HashSet` or Jena iterators are left open; the model picks an arbitrary element. This covers the items of a pattern, the entries of the column map in the GUI, and the resources a Jena query lists. Every result is a set or a map, so the order does not change it. The statement order of `listStatements` is the order of the input sequence.
- Java's 32-bit `int` counters and indices are unbounded integers. Overflow would need more than 2^31 rows or columns.
- MatrixBuilding.MatrixBuilder.GetMatrix: the Java `int[][]` is an `array2`, which cannot hold ragged rows. The accessors return the maps as values. The aliasing of the live `LinkedHashMap` objects that Java hands out is not modelled.
