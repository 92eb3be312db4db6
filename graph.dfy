/**
  The relation graph that `visualize_data_structure` draws (Controll.py:54-70).

  The source reads every row's id and `related_ids`, adds a node for the id,
  and an edge from the id to each decoded related id; adding an edge adds its
  target as a node, so related ids with no row of their own (dangling
  references) become nodes too. The graph is a directed graph without edge
  multiplicity: repeated related ids give one edge. Layout and drawing are
  not modelled.
 */
module RelationGraph {
  import opened Codec
  import opened Store

  /** A directed graph: its node set and its edge set. */
  datatype Graph = Graph(nodes: set<string>, edges: set<(string, string)>)

  /** The edges contributed by the rows whose ids are in `ids`. */
  function EdgesFrom(rows: Table, ids: set<string>): (edges: set<(string, string)>) {
    set id, t | id in ids && id in rows && t in Decode(rows[id].relatedIds) :: (id, t)
  }

  /** The targets of a set of edges. */
  function Targets(edges: set<(string, string)>): (targets: set<string>) {
    set e | e in edges :: e.1
  }

  /** The graph of a whole table: every row id, every edge, and every edge target. */
  function GraphOf(rows: Table): (g: Graph) {
    var edges := EdgesFrom(rows, rows.Keys);
    Graph(rows.Keys + Targets(edges), edges)
  }

  /** The edges from `id` to each of `targets`. */
  function Pairs(id: string, targets: seq<string>): (edges: set<(string, string)>) {
    set t | t in targets :: (id, t)
  }

  /** One more row's edges: those of the row `id`, one per decoded related id. */
  lemma EdgesFromAdd(rows: Table, done: set<string>, id: string)
    requires id in rows
    ensures EdgesFrom(rows, done + {id}) == EdgesFrom(rows, done) + Pairs(id, Decode(rows[id].relatedIds))
  {
  }

  /** One more target's edge. */
  lemma PairsExtend(id: string, targets: seq<string>, j: nat)
    requires j < |targets|
    ensures Pairs(id, targets[..j + 1]) == Pairs(id, targets[..j]) + {(id, targets[j])}
  {
    assert targets[..j + 1] == targets[..j] + [targets[j]];
  }

  /** One more edge adds its target. */
  lemma TargetsAdd(edges: set<(string, string)>, e: (string, string))
    ensures Targets(edges + {e}) == Targets(edges) + {e.1}
  {
  }

  /**
    The loop of `visualize_data_structure`: for each row, add its id as a
    node, then for each decoded related id add the edge and its target.
   */
  method BuildGraph(rows: Table) returns (g: Graph)
    ensures g == GraphOf(rows)
  {
    var nodes: set<string> := {};
    var edges: set<(string, string)> := {};
    var pending := rows.Keys;
    while pending != {}
      invariant pending <= rows.Keys
      invariant edges == EdgesFrom(rows, rows.Keys - pending)
      invariant nodes == (rows.Keys - pending) + Targets(edges)
      decreases |pending|
    {
      var id :| id in pending;
      ghost var done := rows.Keys - pending;
      var relatedIds := Decode(rows[id].relatedIds);
      nodes := nodes + {id};
      var j := 0;
      while j < |relatedIds|
        invariant 0 <= j <= |relatedIds|
        invariant edges == EdgesFrom(rows, done) + Pairs(id, relatedIds[..j])
        invariant nodes == done + {id} + Targets(edges)
      {
        PairsExtend(id, relatedIds, j);
        TargetsAdd(edges, (id, relatedIds[j]));
        nodes := nodes + {relatedIds[j]};
        edges := edges + {(id, relatedIds[j])};
        j := j + 1;
      }
      assert relatedIds[..j] == relatedIds;
      EdgesFromAdd(rows, done, id);
      pending := pending - {id};
      assert rows.Keys - pending == done + {id};
    }
    g := Graph(nodes, edges);
  }

  /** An edge runs from a row's id to one of that row's decoded related ids, and only so. */
  lemma EdgeIff(rows: Table, a: string, b: string)
    ensures (a, b) in GraphOf(rows).edges <==> a in rows && b in Decode(rows[a].relatedIds)
  {
  }

  /**
    The nodes are the row ids together with every decoded related id, whether
    or not a row exists for it.
   */
  lemma NodeIff(rows: Table, x: string)
    ensures x in GraphOf(rows).nodes
            <==> x in rows || exists id :: id in rows && x in Decode(rows[id].relatedIds)
  {
    if x !in rows && exists id :: id in rows && x in Decode(rows[id].relatedIds) {
      var id :| id in rows && x in Decode(rows[id].relatedIds);
      assert (id, x) in GraphOf(rows).edges;
    }
  }

  /** A related id with no row of its own is still a node, but no edge leaves it. */
  lemma DanglingTarget(rows: Table, id: string, t: string)
    requires id in rows && t in Decode(rows[id].relatedIds) && t !in rows
    ensures t in GraphOf(rows).nodes
    ensures forall e :: e in GraphOf(rows).edges ==> e.0 != t
  {
    assert (id, t) in GraphOf(rows).edges;
  }

  /** A row whose `related_ids` text is empty is a node with no outgoing edge. */
  lemma EmptyRelatedIdsIsolated(rows: Table, id: string)
    requires id in rows && rows[id].relatedIds == ""
    ensures id in GraphOf(rows).nodes
    ensures forall e :: e in GraphOf(rows).edges ==> e.0 != id
  {
  }

  /** Every edge joins two nodes, and its source is a row. */
  lemma EdgesWithinNodes(rows: Table)
    ensures forall e :: e in GraphOf(rows).edges ==> e.0 in rows && e.1 in GraphOf(rows).nodes
  {
  }

  /**
    After a fresh insert with comma-free related ids, the edges leaving the
    new id are one per distinct related id; the list `[""]`, stored as the
    empty text, gives none. The rest of the graph keeps its edges.
   */
  lemma InsertedRowEdges(rows: Table, id: string, content: string, relatedIds: seq<string>)
    requires id !in rows && CommaFree(relatedIds)
    ensures var g := GraphOf(rows[id := Row(content, Encode(relatedIds))]);
            && id in g.nodes
            && (relatedIds != [""] ==>
                  forall t :: (id, t) in g.edges <==> t in relatedIds)
            && (relatedIds == [""] ==>
                  forall t :: (id, t) !in g.edges)
            && g.edges == GraphOf(rows).edges + set e | e in g.edges && e.0 == id
  {
    var updated := rows[id := Row(content, Encode(relatedIds))];
    DecodeEncode(relatedIds);
    assert Decode(updated[id].relatedIds) == if relatedIds == [""] then [] else relatedIds;
    forall a, b | a != id
      ensures (a, b) in GraphOf(updated).edges <==> (a, b) in GraphOf(rows).edges
    {
      EdgeIff(updated, a, b);
      EdgeIff(rows, a, b);
    }
  }

  /**
    An example: `A` related to `B` and `C`, `B` related to nothing.
    `C` has no row, yet it is a node; the only edges leave `A`.
   */
  lemma ExampleGraph()
    ensures GraphOf(map["A" := Row("", "B,C"), "B" := Row("", "")])
            == Graph({"A", "B", "C"}, {("A", "B"), ("A", "C")})
  {
    var rows := map["A" := Row("", "B,C"), "B" := Row("", "")];
    assert Encode(["B", "C"]) == "B,C";
    SplitJoin(["B", "C"]);
    assert Decode(rows["A"].relatedIds) == ["B", "C"];
    assert Decode(rows["B"].relatedIds) == [];
    var g := GraphOf(rows);
    forall a, b
      ensures (a, b) in g.edges <==> (a, b) in {("A", "B"), ("A", "C")}
    {
      EdgeIff(rows, a, b);
    }
    assert g.edges == {("A", "B"), ("A", "C")};
    assert Targets(g.edges) == {"B", "C"};
  }
}
