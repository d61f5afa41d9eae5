# Metadata mapper for Pathway Commons (PC2) BioPax documents

This project models the node-to-BioPax resolution engine of `metadataMapperPC2.js`. The engine
takes a BioPax document in JSON-LD form and the nodes of an SBGN diagram. For each node it finds
the BioPax element the node's id refers to and attaches metadata to the node. The metadata is an
ordered list of labelled fields read from Pathway Commons traverse queries.

The engine works in these steps:

- Every occurrence of `@id` in the document text, inside string values too, is renamed to `pathid`.
- The text is parsed and its `@graph` member is read.
- Each node id is tried in three candidate forms, in order:
  1. the *direct* form: the id truncated to its first two underscore-separated segments, or the
     id itself when it has no underscore;
  2. the *unification cross-reference* form: `UnificationXref_` followed by the raw id;
  3. the *external identifier* form: the two-segment truncation with underscores turned into
     slashes, under `http://identifiers.org/`.
- A candidate is first normalised to a full URI: an id that does not mention `http` gets
  `http://pathwaycommons.org/pc2/` in front. The tree is then searched at every depth, in the
  manner of the query `$..[?(@.pathid=="…")]`.
- The first candidate that matches an element is built into a field list:
  - five optional fields, each emitted only when its value is non-empty;
  - Cellular Location, followed one hop when its first value is a URI;
  - Databases and Database IDs, each joining the entity-reference and entity cross-references.
- A node that no candidate matches gets the source's `null`.

The Dafny modules follow the structure of the source:

- `Wrappers`: `Option` and `Result`.
- `Strings`: JavaScript's `indexOf`, `split`, `join` and global literal replacement.
- `JsonTree`: the parsed document and the recursive-descent filter query.
- `Identifiers`: normalisation, `removeAfterUnderscore` and the three candidate forms.
- `Fields`: `getData` and `buildBioPaxTree`.
- `MetadataMapper`: `getElementFromBioPax`, `getBioPaxSubtree` and `processBioPax`.

Two behaviours of the code are modelled as written:

- Cellular Location, Databases and Database IDs are always emitted. In the model every traverse
  query yields a list, and `if (cellLocation)` tests that list, which is always truthy.
  `xrefDatabases !== 0` compares an array with a number, which is always true.
- A node id without an underscore never resolves to the identifiers.org record of its own name.
  Splitting it gives one segment, so the second segment reads as `undefined` and the external
  form ends in `/undefined`. `TaxonExample` shows this for `9606`.

Two things the source leaves to the outside are parameters of the model:

- `Fetch` stands for the HTTP traverse query.
- `Parser` stands for `JSON.parse`.

## Model

| member | source | states |
|---|---|---|
| Strings.IndexOf | metadataMapperPC2.js:46 | `indexOf` gives the first position where the needle occurs, and -1 exactly when it occurs nowhere |
| Strings.SplitJoinRoundTrip | metadataMapperPC2.js:120 | joining the pieces of a split with the separator gives back the original string |
| Strings.JoinSplitRoundTrip | metadataMapperPC2.js:120 | splitting a join of separator-free pieces gives back the pieces |
| Strings.SplitCount | metadataMapperPC2.js:120 | a string splits into one more piece than it has separator characters |
| Strings.ReplaceAll | metadataMapperPC2.js:183-185 | global replacement equals splitting at the pattern and joining with the replacement |
| Identifiers.Normalize | metadataMapperPC2.js:135-138 | the result always mentions `http`; it is the id unchanged exactly when the id already mentions `http`, and otherwise the PC2 base followed by the id |
| Identifiers.NormalizeIdempotent | metadataMapperPC2.js:45-48 | normalising twice is normalising once |
| Identifiers.RemoveAfterUnderscore | metadataMapperPC2.js:119-130 | keeping `n >= 1` segments gives `n - 1` underscores, counting missing segments as `undefined`; while the word has at least `n` segments the result is a prefix of the word, and keeping all its segments gives the word back |
| Identifiers.RemoveAfterUnderscoreTwo | metadataMapperPC2.js:119-130 | for a word with an underscore, keeping two segments gives `first_second`; this is a prefix of the word with exactly one underscore, and equals the word exactly when the word has one underscore |
| Identifiers.RemoveAfterUnderscoreNoUnderscore | metadataMapperPC2.js:119-130 | a word without an underscore comes back as `word_undefined`, because the missing second segment reads as `undefined` |
| Identifiers.DirectCandidate | metadataMapperPC2.js:152-157 | the direct form is a prefix of the node id with at most one underscore, and equals the node id exactly when the id has at most one underscore; for an id with an underscore it is the first two segments joined by `_` |
| Identifiers.UnificationCandidate | metadataMapperPC2.js:164 | the unification form is the tag followed by the whole, untruncated node id |
| Identifiers.ExternalCandidateShape | metadataMapperPC2.js:171-172 | the external form is the identifiers.org base followed by `first/second` and has no underscore after the base; for an id without underscores it ends in `/undefined` |
| Identifiers.ExternalCandidate | metadataMapperPC2.js:171-172 | the external form starts with the identifiers.org base, is already a full URI that normalisation leaves alone, and has no underscore after the base |
| Identifiers.SuffixedIdCandidates | metadataMapperPC2.js:152-172 | `a_b_c` is looked up directly as `a_b` and externally as `a/b` |
| Identifiers.SingleSuffixCandidates | metadataMapperPC2.js:152-172 | `a_b` is looked up directly as itself and externally as `a/b` |
| JsonTree.Get | metadataMapperPC2.js:196 | member lookup returns the value of the first member with the key, no earlier member carrying it, and `None` exactly when no member has it |
| JsonTree.Search | metadataMapperPC2.js:141-143 | every object the recursive-descent filter query returns carries the id as its `pathid` |
| JsonTree.SearchCharacterisation | metadataMapperPC2.js:141-143 | the recursive-descent filter query returns exactly the objects, at any depth below the root, reached by a path and carrying the id as `pathid`; it is empty exactly when no such path exists |
| Fields.GetDataNormalized | metadataMapperPC2.js:43-48 | a traverse query by an id and by its normalised URI ask the same question |
| Fields.GetData | metadataMapperPC2.js:43-51 | an id that mentions `http` is queried as it is, any other id under the PC2 base |
| Fields.CellLocation | metadataMapperPC2.js:96-99 | when the first location value mentions `http`, the result is the vocabulary term queried with that URI itself; otherwise it is the location read for the normalised id |
| Fields.BuildBioPaxTree | metadataMapperPC2.js:68-114 | the list holds three to eight fields; every field before the last three has an optional label and a non-empty value; the last three are Cellular Location, Databases and Database IDs |
| Fields.BuildBioPaxTreeContents | metadataMapperPC2.js:68-114 | the field list has its labels in the fixed order with none repeated; each field carries its own label's traverse value; an optional label is present exactly when its value is non-empty; it always ends with Cellular Location, Databases and Database IDs; each database column is as long as its two sources together |
| Fields.BuildBioPaxTreeNamesDistinct | metadataMapperPC2.js:68-114 | no two rows of the list carry the same label text |
| Fields.PushIfNonEmptyHas | metadataMapperPC2.js:77 | pushing a value adds its label exactly when the value is non-empty and keeps every label already present |
| MetadataMapper.GetElementFromBioPax | metadataMapperPC2.js:134-146 | a found result is non-empty and every element in it carries the normalised id as its `pathid` |
| MetadataMapper.GetElementFromBioPaxCharacterised | metadataMapperPC2.js:134-146 | the lookup is `null` exactly when no object at any depth carries the normalised id; otherwise it holds exactly the objects that do |
| MetadataMapper.FirstMatching | metadataMapperPC2.js:159-176 | trying candidates in order finds the first one that matches; every earlier one misses, and `None` means all of them miss |
| MetadataMapper.GetBioPaxSubtree | metadataMapperPC2.js:150-179 | the subtree is `null` exactly when all three candidate lookups miss; otherwise it is the field list of a candidate whose lookup succeeds |
| MetadataMapper.GetBioPaxSubtreeResolvesInOrder | metadataMapperPC2.js:150-179 | the subtree is the field list of the first matching candidate in the order direct, unification, external, and `null` when none matches |
| MetadataMapper.GetBioPaxSubtreeUnresolved | metadataMapperPC2.js:150-179 | a node is unresolved exactly when none of its three normalised candidates is the `pathid` of an object anywhere in the graph |
| MetadataMapper.SingleRecordLookup | metadataMapperPC2.js:134-146 | in a graph with one record, the lookup succeeds exactly for ids that normalise to that record's URI |
| MetadataMapper.SuffixedNodeResolvesDirectly | metadataMapperPC2.js:150-161 | a node `a_b_c` whose `a_b` does not mention `http` resolves through its direct form `a_b` to the local record `a_b` |
| MetadataMapper.RegistryNodeResolvesExternally | metadataMapperPC2.js:150-176 | a node `a_b` that does not mention `http`, whose graph holds only `http://identifiers.org/a/b`, resolves through the external form |
| MetadataMapper.PlainNodeMissesRegistryRecord | metadataMapperPC2.js:150-179 | any node without an underscore does not resolve against the identifiers.org record of the same name |
| MetadataMapper.ProteinExample | metadataMapperPC2.js:150-161 | `Protein_1_2` resolves to the record `Protein_1` |
| MetadataMapper.PhosphateExample | metadataMapperPC2.js:150-161 | `Phosphate_1_2`, whose name holds an `h`, resolves to the record `Phosphate_1` |
| MetadataMapper.TaxonExample | metadataMapperPC2.js:150-179 | `9606` is unresolved in a graph holding only `http://identifiers.org/9606` |
| MetadataMapper.RenameIdKeys | metadataMapperPC2.js:190 | renaming replaces the `@id` occurrences and nothing else: the pieces around them joined with `pathid` give the renamed text, and joined with `@id` give back the original |
| MetadataMapper.RenameIdKeysRemovesAll | metadataMapperPC2.js:190 | no `@id` is left in the renamed text |
| MetadataMapper.LoadGraph | metadataMapperPC2.js:190-196 | loading fails as malformed exactly when the renamed text does not parse, and as a null document exactly when it parses to `null`; a found graph is the value of an `@graph` member of the parsed object; the graph is `undefined` exactly when the document is some other non-object or an object without `@graph` |
| MetadataMapper.Annotate | metadataMapperPC2.js:202-209 | annotating a node keeps its id and attributes and always sets its metadata |
| MetadataMapper.AnnotateResolution | metadataMapperPC2.js:202-209 | an annotated node is unresolved exactly when no candidate matches, and otherwise carries the field list of the first candidate that matches |
| MetadataMapper.AnnotateIdempotent | metadataMapperPC2.js:202-209 | annotating an already annotated node again, with the same graph and traverse query, gives the same node |
| MetadataMapper.AnnotateEach | metadataMapperPC2.js:199-213 | the loop annotates every node, in order, and keeps the number of nodes |
| MetadataMapper.ProcessBioPax | metadataMapperPC2.js:188-217 | the outcome is an error exactly when the text does not parse, the document is `null`, or there are nodes and the graph is neither an object nor an array; otherwise every node comes back in place with its id and attributes and with the metadata its id resolves to |

## Left out

- The entry point `module.exports` (lines 29-39) is left out. It converts SBGN through the `sbgnml-to-cytoscape` library, which is not part of this model. The model takes the converted nodes as input.
- The HTTP request, the traverse URL and the response parsing in `getData` are left out. `Fetch` is a parameter that returns the traversed values for a full URI and a path.
- `getData` returning `null` is left out. The source returns `null` when the response's `value` is missing or falsy; an empty array is truthy and comes back as `[]`. `Fetch` always returns a list, so these outcomes of the source are not modelled:
  - a `null` from the queries at lines 76, 80, 84, 88, 92, 96, 103 or 104 makes the `.length` or `.concat` read that follows it throw;
  - a `null` from the vocabulary-term query at line 98 makes line 100 leave out Cellular Location;
  - a `null` from the entity cross-reference queries at lines 105 or 106 is added as a `null` element by `concat` at lines 108-109.
- `JSON.parse` is the parameter `Parser`.
- Exceptions thrown for other reasons are left out. This includes a missing `data.id` on a node, and the `try`/`catch` around the assignment with its `console.log`.
- `fs.writeFileSync` is commented out in the source.
- `cytoscapeJson.js` is not part of this model.
- `JsonTree.Get`: a parsed JavaScript object has no repeated keys. The model reads the first member with a given key.
- `MetadataMapper.GetElementFromBioPax`: ids containing a double quote or a backslash would change the query expression itself. The model treats every id as a literal.
- `MetadataMapper.GetElementFromBioPax`: the query library compares with loose `==`, so an array-valued `pathid` whose comma-joined text equals the id, such as `{"pathid": ["http://pathwaycommons.org/pc2/X"]}`, could also match. Only string `pathid` values match in the model.
- `Strings.Split` requires a non-empty separator. The source only ever splits on `_`.
- `Strings.ReplaceAll` requires a non-empty pattern. Regular-expression metacharacters are not interpreted. The source only replaces `@id` and `_`, which have none.
- `Identifiers.RemoveAfterUnderscore`: which segments are kept is stated exactly only for two segments, the only count the source uses. For other counts the contract gives the underscore count and the prefix property.
- Floating-point JSON numbers are modelled as `real`. No arithmetic is done on them.
- The order of the query's results follows the library's recursive descent: first the matching children of a node, then each child in turn. Only whether the result is empty is used.
- Object members are kept in document order. JavaScript lists the integer-like keys of an object first, which can reorder the query results; only whether the result is empty is used.
