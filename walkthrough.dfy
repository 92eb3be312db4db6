/**
  A session at the menu, driven through the model: insert two notes, search,
  list, delete one, and build the relation graph of what is left.
 */
module Walkthrough {
  import opened Codec
  import opened SqlText
  import opened Store
  import opened RelationGraph

  /** The full listing of a two-row table puts the smaller id first. */
  lemma ListAllOfTwo(rows: Table, a: string, b: string)
    requires rows.Keys == {a, b} && StrictlyBelow(a, b)
    ensures ListAll(rows) == [Listing(a, rows[a].content), Listing(b, rows[b].content)]
  {
    var r := ListAll(rows);
    assert r[0] in r && r[1] in r;
    assert StrictlyBelow(r[0].id, r[1].id);
    if r[0].id == b {
      BelowAntisymmetric(a, b);
    }
  }

  /** The full listing of a one-row table is that row. */
  lemma ListAllOfOne(rows: Table, a: string)
    requires rows.Keys == {a}
    ensures ListAll(rows) == [Listing(a, rows[a].content)]
  {
    var r := ListAll(rows);
    assert r[0] in r;
  }

  /** "goodbye" does not contain "hello" in any letter case. */
  lemma GoodbyeLacksHello()
    ensures !ContainsFolded("goodbye", "hello")
  {
    forall i: nat | i <= |"goodbye"|
      ensures !OccursAt("goodbye", "hello", i)
    {
      if i + 5 <= 7 {
        var w := "goodbye"[i..i + 5];
        assert w[0] == "goodbye"[i];
        assert Fold(w[0]) == w[0] && Fold('h') == 'h';
      }
    }
  }

  /** Two positions of an ascending listing hold strictly ascending ids. */
  lemma AscendingAt(ls: seq<Listing>, i: nat, j: nat)
    requires Ascending(ls) && i < j < |ls|
    ensures StrictlyBelow(ls[i].id, ls[j].id)
  {
  }

  /** An ascending listing whose only member is `l` is `[l]`. */
  lemma OnlyListing(ls: seq<Listing>, l: Listing)
    requires Ascending(ls)
    requires forall x :: x in ls <==> x == l
    ensures ls == [l]
  {
    assert l in ls;
    forall i | 0 <= i < |ls|
      ensures ls[i] == l
    {
      assert ls[i] in ls;
    }
    if |ls| > 1 {
      AscendingAt(ls, 0, 1);
      assert false;
    }
  }

  /** Searching the two notes for "hello" finds the first one only. */
  lemma SearchHello(rows: Table)
    requires rows == map["r1" := Row("hello world", "r2"), "r2" := Row("goodbye", "")]
    ensures Search(rows, "hello") == [Listing("r1", "hello world")]
  {
    var found := Search(rows, "hello");
    SearchPlainKeyword(rows, "hello");
    assert OccursAt("hello world", "hello", 0);
    GoodbyeLacksHello();
    forall l
      ensures l in found <==> l == Listing("r1", "hello world")
    {
      if l in found {
        assert l.id == "r1" || l.id == "r2";
      }
    }
    OnlyListing(found, Listing("r1", "hello world"));
  }

  /** The session, with what each step returns. */
  method HelloGoodbye() returns (found: seq<Listing>, listed: seq<Listing>, removed: nat,
                                 remaining: seq<Listing>, g: Graph)
    ensures found == [Listing("r1", "hello world")]
    ensures listed == [Listing("r1", "hello world"), Listing("r2", "goodbye")]
    ensures removed == 1
    ensures remaining == [Listing("r2", "goodbye")]
    ensures g == Graph({"r2"}, {})
  {
    var table := new DataTable();
    var outcome := table.Insert("r1", "hello world", ["r2"]);
    assert Encode(["r2"]) == "r2";
    outcome := table.Insert("r2", "goodbye", []);
    assert outcome == Inserted;
    var rows := table.rows;
    assert rows == map["r1" := Row("hello world", "r2"), "r2" := Row("goodbye", "")];

    found := Search(rows, "hello");
    SearchHello(rows);

    ListAllOfTwo(rows, "r1", "r2");
    listed := ListAll(rows);

    removed := table.Delete("r1");
    assert table.rows.Keys == {"r2"};
    ListAllOfOne(table.rows, "r2");
    remaining := ListAll(table.rows);

    g := BuildGraph(table.rows);
    EmptyRelatedIdsIsolated(table.rows, "r2");
    assert g.edges == {};
  }
}
