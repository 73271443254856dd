# graph-rag knowledge graph core, in Dafny

This project models the knowledge-graph half of `KnowledgeGraphRAG`
(`models/knowledge_graph.py`). It covers four parts:

- **Relationship extraction** (`_parse_relationships`). A language model's reply is
  split on `'\n'` and each line is stripped. Every non-overlapping match of
  `\(([^)]+)\)-\[([^\]]+)\]->\(([^)]+)\)` is taken from left to right. The three
  groups are stripped, and the triple is kept when none of them is empty.
- **Ingestion** (`create_knowledge_graph`). For each chunk's reply, the parsed
  relationships go through the `all(rel.values())` guard. Each one then goes through
  three Cypher `MERGE` statements: two `Entity` nodes and one `RELATES` edge.
- **The graph half of `query`**. It returns up to ten stored edges whose source or
  target name contains the question as a case-sensitive substring. There is no
  `ORDER BY`.
- **`delete_database`**. It runs `MATCH (n) DETACH DELETE n` and then tries to drop
  the `document_vectors` vector index. Any failure of that drop is caught.

Modules, one per component:

- `Seqs` (`seqs.dfy`): `FlatMap`, the "for each item, append its results" shape
  shared by the nested loops of the parser and of ingestion.
- `Text` (`text.dfy`): Python's `str.isspace`, `str.strip()` and `str.split('\n')`,
  and Cypher's `CONTAINS`, on strings as sequences of code points.
- `RelationshipParser` (`relationship_parser.dfy`): a scanner for the pattern.
  - `MatchAt` is the pattern tried at one index. `FindAll` is `re.findall`.
  - `Parse` is the specification of `_parse_relationships`.
  - The method `ParseRelationships` has the source's loops. It is proved equal to
    `Parse`.
- `GraphStore` (`graph_store.dfy`): the database as a value, with `Entity` names
  and `RELATES` edges.
  - MERGE semantics, and the ingestion fold `Ingest` with its closed form.
  - The query filter `Qualifying`.
- `KnowledgeGraph` (`knowledge_graph.dfy`): the class `KnowledgeGraphRag`.
  - Its fields are the database state: entity names, edges, and whether the
    vector index exists.
  - Its methods change that state as the source's methods do. They are proved
    against the `GraphStore` functions.

The inner loop of `_parse_relationships` (lines 29-41) is the method `KeepMatches`.
The inner loop of `create_knowledge_graph` (lines 59-65) is the method
`MergeRelationships`. Each outer method calls its inner method once per line or
reply. The behaviour is that of the single Python function.

The language model is not called. The reply it gave for each chunk is an input
string, so `CreateKnowledgeGraph` takes the replies in chunk order.

`create_knowledge_graph` has no `try` (lines 47-65), so an exception from
`LLM.predict` or `session.run` ends the loop and later chunks are not ingested.
Neither call is modelled.

## Model

| member | source | states |
|---|---|---|
| `Text.TrimLeftSpec` | models/knowledge_graph.py:26 | leading strip removes exactly the longest all-whitespace prefix: everything removed is whitespace and the rest does not start with whitespace |
| `Text.TrimRightSpec` | models/knowledge_graph.py:26 | trailing strip removes exactly the longest all-whitespace suffix |
| `Text.StripSpec` | models/knowledge_graph.py:32-34 | `strip()` leaves no whitespace at either end, adds no character, and leaves an already stripped string unchanged (so it is idempotent) |
| `Text.StripSplitsOff` | models/knowledge_graph.py:32-34 | the input is whitespace, then the stripped result, then whitespace |
| `Text.SplitPieces` | models/knowledge_graph.py:25 | no piece of `split('\n')` holds a newline, and every piece's characters come from the input |
| `Text.SplitOneLine` | models/knowledge_graph.py:25 | a string without a newline splits into itself alone |
| `Text.SplitConcat` | models/knowledge_graph.py:25 | the pieces of `x + "\n" + y` are the pieces of `x` followed by those of `y` |
| `Text.JoinSplit` | models/knowledge_graph.py:25 | joining the pieces with `"\n"` gives back the input |
| `Text.SplitJoin` | models/knowledge_graph.py:25 | splitting a join of newline-free pieces gives back the pieces |
| `Text.ContainsIff` | models/knowledge_graph.py:88 | `CONTAINS` holds exactly when some window of the name equals the question, in both directions |
| `Text.ContainsChars` | models/knowledge_graph.py:88 | a contained string holds only characters of the container |
| `RelationshipParser.Find` | models/knowledge_graph.py:23 | a negated class `[^c]+` runs to the first `c` at or after the start, or to the end of the line when there is none |
| `RelationshipParser.MatchAt` | models/knowledge_graph.py:27 | a match at `i` ends after `i` and within the line, so findall always moves forward |
| `RelationshipParser.MatchAtSound` | models/knowledge_graph.py:23 | whatever the pattern accepts at `i` is `(e1)-[r]->(e2)` with non-empty groups, no `)` in the entities and no `]` in the relationship |
| `RelationshipParser.MatchAtComplete` | models/knowledge_graph.py:23 | conversely, wherever such a line occurs, the pattern matches there, captures exactly those groups and ends just after it |
| `RelationshipParser.FindAllSound` | models/knowledge_graph.py:27 | every triple findall returns is capturable, and its formatted line occurs in the scanned line |
| `RelationshipParser.KeepMatches` | models/knowledge_graph.py:29-41 | the inner loop appends, in match order, the stripped groups of each match whose three stripped groups are non-empty |
| `RelationshipParser.ParseRelationships` | models/knowledge_graph.py:20-43 | the loops return exactly `Parse(response)`, and every returned triple is well formed |
| `RelationshipParser.AdmitWellFormed` | models/knowledge_graph.py:23-36 | a kept triple from a newline-free line is non-empty, stripped, newline-free and capturable |
| `RelationshipParser.ParseWellFormed` | models/knowledge_graph.py:23-36 | every extracted triple has three non-empty stripped fields, no `)` in the entities, no `]` in the relationship and no newline anywhere |
| `RelationshipParser.ParseAllWellFormed` | models/knowledge_graph.py:32-36 | the same, for the whole result at once |
| `RelationshipParser.ParseConcat` | models/knowledge_graph.py:25-43 | lines are independent: parsing `x + "\n" + y` gives the triples of `x` then those of `y` |
| `RelationshipParser.FindAllNoParen` | models/knowledge_graph.py:27 | findall over a line without `(` finds nothing |
| `RelationshipParser.ParseNoParen` | models/knowledge_graph.py:25-43 | a reply without any `(` (plain prose) yields no triple and no error |
| `RelationshipParser.ParseFormatLine` | models/knowledge_graph.py:51 | round trip: the line `(a)-[r]->(c)` the prompt asks for parses back to exactly `[(a, r, c)]` when the fields are well formed |
| `RelationshipParser.ParseFormat` | models/knowledge_graph.py:49-52 | round trip: a reply of one formatted line per triple parses back to the same triples in the same order |
| `GraphStore.MergeEntity` | models/knowledge_graph.py:62-63 | after `MERGE (e:Entity {name})` the name exists, no other name is created, none is removed and the edges are untouched |
| `GraphStore.MergeEdge` | models/knowledge_graph.py:64 | after `MERGE (e1)-[:RELATES {type}]->(e2)` the edge exists, no other edge is created, none is removed and the entities are untouched |
| `GraphStore.MergeSpec` | models/knowledge_graph.py:61-65 | after the three MERGEs both names and the edge exist, nothing was removed, and nothing else was created |
| `GraphStore.MergePresent` | models/knowledge_graph.py:61-65 | MERGE of a relationship that is already stored changes nothing |
| `GraphStore.MergeConnected` | models/knowledge_graph.py:61-65 | MERGE keeps every edge between stored entities |
| `GraphStore.IngestClosedForm` | models/knowledge_graph.py:59-65 | the MERGE loop leaves the old database plus the names and edges of the guarded relationships, whatever their order or repetitions |
| `GraphStore.IngestAppend` | models/knowledge_graph.py:48-65 | processing `xs` and then `ys` is processing `xs + ys` |
| `GraphStore.IngestIdempotent` | models/knowledge_graph.py:45-65 | running the MERGE loop again on the same relationships changes nothing |
| `GraphStore.IngestOrderFree` | models/knowledge_graph.py:59-65 | two lists with the same relationships give the same database |
| `GraphStore.IngestContains` | models/knowledge_graph.py:59-65 | the MERGE loop removes nothing, and every guarded relationship's names and edge are stored afterwards |
| `GraphStore.IngestConnected` | models/knowledge_graph.py:59-65 | the MERGE loop keeps every edge between stored entities |
| `GraphStore.ExtractedNonEmpty` | models/knowledge_graph.py:58-60 | the `all(rel.values())` guard never drops a parsed relationship |
| `GraphStore.ExtractedStored` | models/knowledge_graph.py:56-65 | after ingestion, every relationship parsed from any reply has both names and its edge stored |
| `GraphStore.ExtractedFound` | models/knowledge_graph.py:86-92 | after ingestion, the edge of every relationship that mentions an entity qualifies for a query on that entity's name; because of `LIMIT 10` it is returned only when at most ten edges qualify (`KnowledgeGraph.QueryAfterCreate`) |
| `KnowledgeGraph.QueryAfterCreate` | models/knowledge_graph.py:47-92 | after `create_knowledge_graph`, a query on an extracted entity's name has that relationship's edge among the qualifying edges, and returns it whenever at most ten edges qualify |
| `GraphStore.QualifyingEmptyQuestion` | models/knowledge_graph.py:88 | an empty question is contained in every name, so every stored edge qualifies |
| `GraphStore.QualifyingEmptyGraph` | models/knowledge_graph.py:86-91 | an empty database answers no question |
| `KnowledgeGraph.KnowledgeGraphRag.constructor` | models/knowledge_graph.py:9-10 | a client of a database holding the given entities and edges, in which every edge joins stored entities |
| `KnowledgeGraph.KnowledgeGraphRag.MergeRelationship` | models/knowledge_graph.py:61-65 | the three MERGE statements take the store to `Merge` of the old store, keep every edge between stored entities, and leave the index alone |
| `KnowledgeGraph.KnowledgeGraphRag.MergeRelationships` | models/knowledge_graph.py:59-65 | the inner loop takes the store to `Ingest` of the old store over the relationships, in order |
| `KnowledgeGraph.KnowledgeGraphRag.CreateKnowledgeGraph` | models/knowledge_graph.py:45-65 | the store afterwards is `Ingest` of the old store over all relationships extracted from the replies in chunk order (the properties above then apply), and the index is untouched |
| `KnowledgeGraph.KnowledgeGraphRag.Query` | models/knowledge_graph.py:84-92 | returns `min(10, n)` distinct records, all stored edges whose source or target contains the question, where `n` is how many such edges exist; when `n <= 10` every one of them is returned |
| `KnowledgeGraph.KnowledgeGraphRag.DropVectorIndex` | utils/neo4j_utils.py:32 | the drop succeeds exactly when the procedure exists and the index exists; afterwards the index is gone unless the procedure is missing, and the graph is untouched |
| `KnowledgeGraph.KnowledgeGraphRag.DeleteDatabase` | utils/neo4j_utils.py:27-34 | afterwards there are no entities and no edges, and the index is gone whenever the server can drop it; a failed drop is swallowed |
| `KnowledgeGraph.CreateTwice` | models/knowledge_graph.py:45-65 | ingesting the same replies twice leaves the same database as ingesting them once |
| `KnowledgeGraph.DeleteTwice` | models/knowledge_graph.py:12-14 | a second delete also completes, leaving an empty graph |

## Left out

- `app.py`: the Streamlit interface, PDF loading and chunking by
  `RecursiveCharacterTextSplitter`. That is a library this model cannot see, so no
  chunk-overlap property is stated.
- `LLM.predict` (models/knowledge_graph.py:56) and the prompt text itself. The reply
  for each chunk is an input to `CreateKnowledgeGraph`. The round-trip lemmas use
  the line format the prompt asks for (line 51).
- The RAG half of `query`: the vector store, `RetrievalQA` and `rag_answer`
  (models/knowledge_graph.py:73-82). These are network calls to embedding and
  language models.
- `create_vector_store` (models/knowledge_graph.py:16-18, utils/neo4j_utils.py:12-25):
  a langchain wrapper. Only whether the `document_vectors` index exists is state
  here.
- `Document` nodes: `DETACH DELETE` also removes the chunk nodes the vector store
  writes. The model's state is only the `Entity`/`RELATES` graph plus the index flag.
- `create_3d_graph` and utils/visualization.py: a randomised floating-point layout
  and Plotly rendering. The node trace there is given `z=edge_z` where `node_z` is
  evidently meant (utils/visualization.py:54). That is not modelled.
- config.py (environment and client construction) and styles/custom_css.py (a
  constant stylesheet).
- The `len(match) == 3` test (models/knowledge_graph.py:30) always holds, because the
  pattern has three groups. The model has no branch for it.
- Relationships are `Triple` values, not dictionaries. `all(rel.values())` is
  `NonEmpty`, the same test as line 36.
- Which ten records `query` returns when more qualify. Neo4j does not fix it without
  `ORDER BY`, so `Query` picks them with a nondeterministic choice. The contract
  allows any such selection.
- The printed message in `delete_database`'s `except` (utils/neo4j_utils.py:34) is
  console output only.
- The index drop is taken to raise exactly when the index is absent or the server
  has no `db.index.vector.drop` procedure. Other database errors are not modelled.
- Database transactions, concurrency and connection failures: the model is
  single-threaded set semantics.
- Strings are sequences of Unicode scalar values. Python strings holding lone
  surrogates have no counterpart.
