/** `KnowledgeGraphRAG` as a client of its Neo4j database: the `Entity` names, the
    `RELATES` edges and the `document_vectors` index are the state its methods change.
    The language model is not called: the reply it gave for each chunk is an input. */
module KnowledgeGraph {
  import opened Text
  import opened Seqs
  import opened RelationshipParser
  import opened GraphStore

  /** Result of a Cypher statement that may raise. */
  datatype Outcome = Done | Failed

  /** The most records the graph query returns (`LIMIT 10`). */
  const QueryLimit := 10

  function Min(a: int, b: int): int {
    if a <= b then a else b
  }

  class KnowledgeGraphRag {
    /** Names of the `Entity` nodes. */
    var entities: set<string>
    /** `RELATES` edges between them. */
    var edges: set<Edge>
    /** Whether the `document_vectors` vector index exists. */
    var vectorIndex: bool
    /** Whether the server offers the `db.index.vector.drop` procedure. */
    const dropProcedure: bool

    /** The graph part of the database. */
    function State(): Graph
      reads this
    {
      Graph(entities, edges)
    }

    /** Every edge joins two stored entities. */
    predicate Valid()
      reads this
    {
      Connected(State())
    }

    /** A client of a database holding `g`. */
    constructor (g: Graph, indexExists: bool, hasDropProcedure: bool)
      requires Connected(g)
      ensures Valid() && State() == g
      ensures vectorIndex == indexExists && dropProcedure == hasDropProcedure
    {
      entities, edges := g.entities, g.edges;
      vectorIndex, dropProcedure := indexExists, hasDropProcedure;
    }

    /** The three MERGE statements for one relationship: both entities, then the edge. */
    method MergeRelationship(rel: Triple)
      requires Valid()
      modifies this
      ensures Valid()
      ensures State() == Merge(old(State()), rel)
      ensures vectorIndex == old(vectorIndex)
    {
      entities := entities + {rel.entity1};
      entities := entities + {rel.entity2};
      edges := edges + {EdgeOf(rel)};
      MergeConnected(old(State()), rel);
    }

    /** `create_knowledge_graph`: for each chunk's reply, parse it and MERGE its
        relationships (MergeRelationships). */
    method CreateKnowledgeGraph(responses: seq<string>)
      requires Valid()
      modifies this
      ensures Valid()
      ensures State() == Ingest(old(State()), Extracted(responses))
      ensures vectorIndex == old(vectorIndex)
    {
      var d := 0;
      while d < |responses|
        invariant 0 <= d <= |responses|
        invariant Valid() && vectorIndex == old(vectorIndex)
        invariant State() == Ingest(old(State()), Extracted(responses[..d]))
      {
        var relationships := ParseRelationships(responses[d]);
        ghost var before := State();
        MergeRelationships(relationships);
        IngestReply(old(State()), responses, d, before, State());
        d := d + 1;
      }
      assert responses[..d] == responses;
    }

    /** The inner loop of `create_knowledge_graph`: MERGE each relationship whose
        fields are all non-empty, in order. */
    method MergeRelationships(relationships: seq<Triple>)
      requires Valid()
      modifies this
      ensures Valid()
      ensures State() == Ingest(old(State()), relationships)
      ensures vectorIndex == old(vectorIndex)
    {
      var k := 0;
      while k < |relationships|
        invariant 0 <= k <= |relationships|
        invariant Valid() && vectorIndex == old(vectorIndex)
        invariant State() == Ingest(old(State()), relationships[..k])
      {
        var rel := relationships[k];
        if NonEmpty(rel) {
          MergeRelationship(rel);
        }
        assert relationships[..k + 1] == relationships[..k] + [rel];
        IngestSnoc(old(State()), relationships[..k], rel);
        k := k + 1;
      }
      assert relationships[..k] == relationships;
    }

    /** The graph half of `query`: up to ten stored edges whose source or target name
        contains the question. There is no `ORDER BY`, so which ten is not fixed. */
    method Query(question: string) returns (records: seq<Edge>)
      ensures |records| == Min(|Qualifying(State(), question)|, QueryLimit)
      ensures forall e | e in records :: e in Qualifying(State(), question)
      ensures forall a, b | 0 <= a < b < |records| :: records[a] != records[b]
      ensures |Qualifying(State(), question)| <= QueryLimit ==>
                forall e | e in Qualifying(State(), question) :: e in records
    {
      var remaining := set e | e in edges && Related(e, question);
      ghost var qualifying := remaining;
      records := [];
      while remaining != {} && |records| < QueryLimit
        invariant remaining <= qualifying && |records| <= QueryLimit
        invariant |remaining| + |records| == |qualifying|
        invariant forall e | e in records :: e in qualifying && e !in remaining
        invariant forall e | e in qualifying :: e in remaining || e in records
        invariant forall a, b | 0 <= a < b < |records| :: records[a] != records[b]
        decreases remaining
      {
        var e :| e in remaining;
        records := records + [e];
        remaining := remaining - {e};
      }
    }

    /** `CALL db.index.vector.drop('document_vectors')`: raises when the server lacks
        the procedure or the index does not exist; otherwise the index is gone. */
    method DropVectorIndex() returns (outcome: Outcome)
      modifies this
      ensures outcome == Done <==> dropProcedure && old(vectorIndex)
      ensures vectorIndex == (old(vectorIndex) && !dropProcedure)
      ensures State() == old(State())
    {
      if dropProcedure && vectorIndex {
        vectorIndex := false;
        outcome := Done;
      } else {
        outcome := Failed;
      }
    }

    /** `delete_database`: `MATCH (n) DETACH DELETE n`, then the index drop, whose
        failure is caught and only reported. */
    method DeleteDatabase()
      modifies this
      ensures Valid() && State() == EmptyGraph
      ensures vectorIndex == (old(vectorIndex) && !dropProcedure)
    {
      entities, edges := {}, {};
      var outcome := DropVectorIndex();
    }
  }

  /** Processing the same replies twice leaves the database as processing them once. */
  method CreateTwice(kg: KnowledgeGraphRag, responses: seq<string>)
    requires kg.Valid()
    modifies kg
    ensures kg.State() == Ingest(old(kg.State()), Extracted(responses))
  {
    kg.CreateKnowledgeGraph(responses);
    kg.CreateKnowledgeGraph(responses);
    IngestIdempotent(old(kg.State()), Extracted(responses));
  }

  /** Ingesting the replies and then querying an extracted entity's name: the
      relationship's edge qualifies, and it is among the records whenever no more
      than `QueryLimit` edges qualify. */
  method QueryAfterCreate(kg: KnowledgeGraphRag, responses: seq<string>, t: Triple, question: string)
    returns (records: seq<Edge>)
    requires kg.Valid()
    requires t in Extracted(responses)
    requires question == t.entity1 || question == t.entity2
    modifies kg
    ensures kg.State() == Ingest(old(kg.State()), Extracted(responses))
    ensures EdgeOf(t) in Qualifying(kg.State(), question)
    ensures |Qualifying(kg.State(), question)| <= QueryLimit ==> EdgeOf(t) in records
  {
    kg.CreateKnowledgeGraph(responses);
    ExtractedFound(old(kg.State()), responses, t, question);
    records := kg.Query(question);
  }

  /** Deleting twice is as good as once, and the second call raises nothing either. */
  method DeleteTwice(kg: KnowledgeGraphRag)
    modifies kg
    ensures kg.State() == EmptyGraph && (kg.dropProcedure ==> !kg.vectorIndex)
    ensures !kg.dropProcedure ==> kg.vectorIndex == old(kg.vectorIndex)
  {
    kg.DeleteDatabase();
    kg.DeleteDatabase();
  }
}
