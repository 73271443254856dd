/** The part of the Neo4j database the knowledge graph uses, as a value: the names of
    the `Entity` nodes and the `RELATES` edges between them, each edge carrying its
    relationship text in the `type` property. */
module GraphStore {
  import opened Text
  import opened Seqs
  import opened RelationshipParser

  /** One `(e1)-[:RELATES {type}]->(e2)` edge, identified by the names of its ends,
      which MERGE keeps unique, and its type. */
  datatype Edge = Edge(source: string, relationship: string, target: string)

  /** The `Entity` names and the `RELATES` edges in the database. */
  datatype Graph = Graph(entities: set<string>, edges: set<Edge>)

  /** An empty database. */
  const EmptyGraph := Graph({}, {})

  /** The edge the MERGE statement writes for a relationship. */
  function EdgeOf(t: Triple): Edge {
    Edge(t.entity1, t.relationship, t.entity2)
  }

  /** Every edge joins two stored entities: a relationship in Neo4j always has its
      two end nodes. */
  predicate Connected(g: Graph) {
    forall e | e in g.edges :: e.source in g.entities && e.target in g.entities
  }

  /** `MERGE (e:Entity {name: n})`: the node exists afterwards, created only if absent. */
  function MergeEntity(g: Graph, n: string): (r: Graph)
    ensures n in r.entities && r.edges == g.edges
    ensures forall m | m in r.entities :: m in g.entities || m == n
    ensures g.entities <= r.entities
  {
    Graph(g.entities + {n}, g.edges)
  }

  /** `MERGE (e1)-[:RELATES {type: r}]->(e2)` on two existing nodes: the edge exists
      afterwards, created only if absent. */
  function MergeEdge(g: Graph, e: Edge): (r: Graph)
    ensures e in r.edges && r.entities == g.entities
    ensures forall x | x in r.edges :: x in g.edges || x == e
    ensures g.edges <= r.edges
  {
    Graph(g.entities, g.edges + {e})
  }

  /** The three MERGE statements run for one relationship (both names, then the edge). */
  function Merge(g: Graph, t: Triple): Graph {
    MergeEdge(MergeEntity(MergeEntity(g, t.entity1), t.entity2), EdgeOf(t))
  }

  /** One relationship through the `all(rel.values())` guard: merged when no field is empty. */
  function Step(g: Graph, t: Triple): Graph {
    if NonEmpty(t) then Merge(g, t) else g
  }

  /** The database after the relationships `ts` have gone through the MERGE loop, in order. */
  function Ingest(g: Graph, ts: seq<Triple>): Graph {
    if ts == [] then g else Step(Ingest(g, ts[..|ts| - 1]), ts[|ts| - 1])
  }

  /** The entity names the guarded relationships in `ts` mention. */
  function Names(ts: seq<Triple>): set<string> {
    (set t | t in ts && NonEmpty(t) :: t.entity1) + (set t | t in ts && NonEmpty(t) :: t.entity2)
  }

  /** The edges of the guarded relationships in `ts`. */
  function Edges(ts: seq<Triple>): set<Edge> {
    set t | t in ts && NonEmpty(t) :: EdgeOf(t)
  }

  /** The relationships extracted from the model's replies, one reply per chunk, in order. */
  function Extracted(responses: seq<string>): seq<Triple> {
    FlatMap(Parse, responses)
  }

  /** The `WHERE` of the graph query: the question is a case-sensitive substring of
      the source name or of the target name. */
  predicate Related(e: Edge, question: string) {
    Contains(e.source, question) || Contains(e.target, question)
  }

  /** The stored edges the graph query may return. */
  function Qualifying(g: Graph, question: string): set<Edge> {
    set e | e in g.edges && Related(e, question)
  }

  // ----- MERGE -----

  /** MERGE of a relationship: both names and the edge are there afterwards, nothing
      is removed, and nothing else is created. */
  lemma MergeSpec(g: Graph, t: Triple)
    ensures var r := Merge(g, t);
      t.entity1 in r.entities && t.entity2 in r.entities && EdgeOf(t) in r.edges &&
      g.entities <= r.entities && g.edges <= r.edges &&
      (forall n | n in r.entities :: n in g.entities || n == t.entity1 || n == t.entity2) &&
      (forall e | e in r.edges :: e in g.edges || e == EdgeOf(t))
  {
    var g1 := MergeEntity(g, t.entity1);
    var g2 := MergeEntity(g1, t.entity2);
    assert forall n | n in g2.entities :: n in g.entities || n == t.entity1 || n == t.entity2;
  }

  /** MERGE does nothing when the names and the edge already exist. */
  lemma MergePresent(g: Graph, t: Triple)
    requires t.entity1 in g.entities && t.entity2 in g.entities && EdgeOf(t) in g.edges
    ensures Merge(g, t) == g
  {
    MergeSpec(g, t);
  }

  /** MERGE keeps every edge between stored entities. */
  lemma MergeConnected(g: Graph, t: Triple)
    requires Connected(g)
    ensures Connected(Merge(g, t))
  {
    MergeSpec(g, t);
  }

  // ----- The MERGE loop -----

  /** One more relationship is one more guarded step. */
  lemma IngestSnoc(g: Graph, ts: seq<Triple>, t: Triple)
    ensures Ingest(g, ts + [t]) == Step(Ingest(g, ts), t)
  {
    assert (ts + [t])[..|ts|] == ts;
  }

  /** One more relationship adds its names and its edge when it passes the guard. */
  lemma NamesEdgesSnoc(ts: seq<Triple>, t: Triple)
    ensures Names(ts + [t]) == Names(ts) + (if NonEmpty(t) then {t.entity1, t.entity2} else {})
    ensures Edges(ts + [t]) == Edges(ts) + (if NonEmpty(t) then {EdgeOf(t)} else {})
  {
    assert forall u :: u in ts + [t] <==> u in ts || u == t;
  }

  /** What the MERGE loop leaves is the old database plus the names and edges of the
      guarded relationships, whatever their order or repetitions. */
  lemma {:induction false} IngestClosedForm(g: Graph, ts: seq<Triple>)
    ensures Ingest(g, ts) == Graph(g.entities + Names(ts), g.edges + Edges(ts))
  {
    if ts == [] {
      assert Names(ts) == {} && Edges(ts) == {};
    } else {
      var init, last := ts[..|ts| - 1], ts[|ts| - 1];
      assert ts == init + [last];
      IngestClosedForm(g, init);
      NamesEdgesSnoc(init, last);
      var h := Ingest(g, init);
      assert Ingest(g, ts) == Step(h, last);
      if NonEmpty(last) {
        assert Merge(h, last) ==
          Graph(h.entities + {last.entity1} + {last.entity2}, h.edges + {EdgeOf(last)});
      }
    }
  }

  /** Processing `xs` and then `ys` is processing `xs + ys`. */
  lemma IngestAppend(g: Graph, xs: seq<Triple>, ys: seq<Triple>)
    ensures Ingest(Ingest(g, xs), ys) == Ingest(g, xs + ys)
  {
    IngestClosedForm(g, xs);
    IngestClosedForm(Ingest(g, xs), ys);
    IngestClosedForm(g, xs + ys);
    NamesEdgesAppend(xs, ys);
  }

  /** The names and edges of a concatenation are those of its parts. */
  lemma NamesEdgesAppend(xs: seq<Triple>, ys: seq<Triple>)
    ensures Names(xs + ys) == Names(xs) + Names(ys)
    ensures Edges(xs + ys) == Edges(xs) + Edges(ys)
  {
    assert forall t :: t in xs + ys <==> t in xs || t in ys;
  }

  /** Running the MERGE loop again on the same relationships changes nothing. */
  lemma IngestIdempotent(g: Graph, ts: seq<Triple>)
    ensures Ingest(Ingest(g, ts), ts) == Ingest(g, ts)
  {
    IngestClosedForm(g, ts);
    IngestClosedForm(Ingest(g, ts), ts);
  }

  /** The order of the relationships does not matter: the same relationships give
      the same database. */
  lemma IngestOrderFree(g: Graph, ts: seq<Triple>, us: seq<Triple>)
    requires forall t :: t in ts <==> t in us
    ensures Ingest(g, ts) == Ingest(g, us)
  {
    IngestClosedForm(g, ts);
    IngestClosedForm(g, us);
    assert Names(ts) == Names(us);
  }

  /** The MERGE loop removes nothing, and after it every guarded relationship's two
      names and its edge are stored. */
  lemma IngestContains(g: Graph, ts: seq<Triple>)
    ensures g.entities <= Ingest(g, ts).entities && g.edges <= Ingest(g, ts).edges
    ensures forall t | t in ts && NonEmpty(t) ::
              t.entity1 in Ingest(g, ts).entities && t.entity2 in Ingest(g, ts).entities &&
              EdgeOf(t) in Ingest(g, ts).edges
  {
    IngestClosedForm(g, ts);
  }

  /** The MERGE loop keeps every edge between stored entities. */
  lemma IngestConnected(g: Graph, ts: seq<Triple>)
    requires Connected(g)
    ensures Connected(Ingest(g, ts))
  {
    IngestClosedForm(g, ts);
  }

  // ----- Extraction feeding the MERGE loop -----

  /** One more reply appends its relationships. */
  lemma ExtractedStep(responses: seq<string>, d: nat)
    requires d < |responses|
    ensures Extracted(responses[..d + 1]) == Extracted(responses[..d]) + Parse(responses[d])
  {
    FlatMapStep(Parse, [], responses, d);
    assert [] + Extracted(responses[..d]) == Extracted(responses[..d]);
  }

  /** The MERGE loop over one more reply's relationships extends the database built
      from the replies before it. */
  lemma IngestReply(g: Graph, responses: seq<string>, d: nat, before: Graph, after: Graph)
    requires d < |responses|
    requires before == Ingest(g, Extracted(responses[..d]))
    requires after == Ingest(before, Parse(responses[d]))
    ensures after == Ingest(g, Extracted(responses[..d + 1]))
  {
    ExtractedStep(responses, d);
    IngestAppend(g, Extracted(responses[..d]), Parse(responses[d]));
  }

  /** The `all(rel.values())` guard never drops a parsed relationship: every extracted
      relationship has three non-empty fields. */
  lemma ExtractedNonEmpty(responses: seq<string>, t: Triple)
    requires t in Extracted(responses)
    ensures NonEmpty(t) && WellFormed(t)
  {
    FlatMapMembers(Parse, responses, t);
    var response :| response in responses && t in Parse(response);
    ParseWellFormed(response, t);
  }

  /** After the replies are processed, every relationship parsed from any of them is
      in the database: both names and the edge. */
  lemma ExtractedStored(g: Graph, responses: seq<string>, t: Triple)
    requires t in Extracted(responses)
    ensures var r := Ingest(g, Extracted(responses));
      t.entity1 in r.entities && t.entity2 in r.entities && EdgeOf(t) in r.edges
  {
    ExtractedNonEmpty(responses, t);
    IngestContains(g, Extracted(responses));
  }

  // ----- The graph query -----

  /** An empty question is a substring of every name, so every stored edge qualifies. */
  lemma QualifyingEmptyQuestion(g: Graph)
    ensures Qualifying(g, "") == g.edges
  {
    forall e | e in g.edges
      ensures e in Qualifying(g, "")
    {
      assert Contains(e.source, "");
    }
  }

  /** An empty database answers no question. */
  lemma QualifyingEmptyGraph(question: string)
    ensures Qualifying(EmptyGraph, question) == {}
  {
  }

  /** Once the replies are processed, the edge of every relationship that mentions an
      entity qualifies for a query on that entity's name. Whether the query returns it
      depends on `LIMIT 10` (see `KnowledgeGraph.QueryAfterCreate`). */
  lemma ExtractedFound(g: Graph, responses: seq<string>, t: Triple, question: string)
    requires t in Extracted(responses)
    requires question == t.entity1 || question == t.entity2
    ensures EdgeOf(t) in Qualifying(Ingest(g, Extracted(responses)), question)
  {
    ExtractedStored(g, responses, t);
    assert question <= question;
    assert Contains(question, question);
  }
}
