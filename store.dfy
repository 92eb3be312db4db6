/**
  The `data` table of the note store (Controll.py:10-11) and the four
  operations on it.

  The table maps each id (its PRIMARY KEY, so ids are unique) to the row's
  content and its `related_ids` text. `DataTable` holds the table and
  changes it in place, as `insert_data` and `delete_data` do through the
  shared cursor. The two queries, `show_all_data` and `search_keyword`, only
  read the table; they are functions of its value, and what the source
  prints becomes their result.
 */
module Store {
  import opened Codec
  import opened SqlText

  /** The columns of a row besides its id. */
  datatype Row = Row(content: string, relatedIds: string)

  /** One `(id, content)` line of a listing. */
  datatype Listing = Listing(id: string, content: string)

  /** What `insert_data` reports: success, or the caught IntegrityError. */
  datatype InsertOutcome = Inserted | DuplicateId

  /** The value of the `data` table. */
  type Table = map<string, Row>

  /** Ids strictly ascending in BINARY collation. */
  predicate Ascending(ls: seq<Listing>) {
    forall i, j :: 0 <= i < j < |ls| ==> StrictlyBelow(ls[i].id, ls[j].id)
  }

  /** The listing shows a row of the table: its id and its content. */
  predicate Shows(rows: Table, l: Listing) {
    l.id in rows && rows[l.id].content == l.content
  }

  /**
    `SELECT id, content FROM data ORDER BY id`: every row once, ascending by
    id. The empty result is what `show_all_data` reports as an empty store.
   */
  function ListAll(rows: Table): (r: seq<Listing>)
    ensures |r| == |rows|
    ensures r == [] <==> rows == map[]
    ensures Ascending(r)
    ensures forall l :: l in r <==> Shows(rows, l)
    decreases |rows|
  {
    if rows == map[] then []
    else
      LeastExists(rows.Keys);
      LeastUnique(rows.Keys);
      var m :| IsLeast(m, rows.Keys);
      var rest := rows - {m};
      assert rest.Keys == rows.Keys - {m};
      var tail := ListAll(rest);
      var r := [Listing(m, rows[m].content)] + tail;
      assert forall j :: 0 < j < |r| ==> r[j] in tail;
      assert forall l :: l in r <==> l == r[0] || l in tail;
      r
  }

  /** The listings of `ls` whose content matches `pattern`, in their order. */
  function Matching(ls: seq<Listing>, pattern: string): (r: seq<Listing>)
    ensures |r| <= |ls|
    ensures forall l :: l in r <==> l in ls && Like(l.content, pattern)
    ensures Ascending(ls) ==> Ascending(r)
  {
    if |ls| == 0 then []
    else
      var tail := Matching(ls[1..], pattern);
      if Like(ls[0].content, pattern) then
        var r := [ls[0]] + tail;
        assert forall j :: 0 < j < |r| ==> r[j] in ls[1..];
        assert forall l :: l in ls <==> l == ls[0] || l in ls[1..];
        r
      else
        assert forall l :: l in ls <==> l == ls[0] || l in ls[1..];
        tail
  }

  /**
    `SELECT id, content FROM data WHERE content LIKE '%' + keyword + '%'`:
    the rows whose content matches, each once. SQL leaves the order open;
    this model lists them by id.
   */
  function Search(rows: Table, keyword: string): (r: seq<Listing>)
    ensures |r| <= |rows|
    ensures Ascending(r)
    ensures forall l :: l in r <==> Shows(rows, l) && Like(l.content, "%" + keyword + "%")
  {
    Matching(ListAll(rows), "%" + keyword + "%")
  }

  /** The table object that `insert_data` and `delete_data` change. */
  class DataTable {
    var rows: Table

    /** `CREATE TABLE IF NOT EXISTS data`, on a fresh store. */
    constructor ()
      ensures rows == map[]
    {
      rows := map[];
    }

    /**
      `insert_data`: a new id adds exactly one row, with the related ids
      joined by commas; an id already present raises IntegrityError, which is
      caught, and the table is left as it was.
     */
    method Insert(id: string, content: string, relatedIds: seq<string>) returns (outcome: InsertOutcome)
      modifies this
      ensures id in old(rows) ==> outcome == DuplicateId && rows == old(rows)
      ensures id !in old(rows) ==> outcome == Inserted
      ensures id !in old(rows) ==> rows == old(rows)[id := Row(content, Encode(relatedIds))]
    {
      if id in rows {
        outcome := DuplicateId;
      } else {
        rows := rows[id := Row(content, Encode(relatedIds))];
        outcome := Inserted;
      }
    }

    /** `delete_data`: removes the row with that id, if any, and reports the affected row count. */
    method Delete(id: string) returns (rowCount: nat)
      modifies this
      ensures rowCount == if id in old(rows) then 1 else 0
      ensures rows == old(rows) - {id}
      ensures id !in old(rows) ==> rows == old(rows)
    {
      rowCount := if id in rows then 1 else 0;
      rows := rows - {id};
    }
  }

  /**
    After a fresh insert, the full listing holds the old listings and the new
    `(id, content)` line, and that line is the only one with the new id.
   */
  lemma InsertThenListAll(rows: Table, id: string, content: string, relatedIds: seq<string>)
    requires id !in rows
    ensures var after := ListAll(rows[id := Row(content, Encode(relatedIds))]);
            && |after| == |ListAll(rows)| + 1
            && (forall l :: l in after <==> l in ListAll(rows) || l == Listing(id, content))
            && (forall i :: 0 <= i < |after| && after[i].id == id ==> after[i] == Listing(id, content))
  {
    var updated := rows[id := Row(content, Encode(relatedIds))];
    assert updated.Keys == rows.Keys + {id};
    var after := ListAll(updated);
    forall i | 0 <= i < |after| && after[i].id == id
      ensures after[i] == Listing(id, content)
    {
      assert after[i] in after;
    }
  }

  /**
    A fresh insert followed by reading the related ids back, as the graph view
    does, gives the list that was inserted, provided no id contains a comma
    and the list is not `[""]`.
   */
  lemma InsertKeepsRelatedIds(rows: Table, id: string, content: string, relatedIds: seq<string>)
    requires id !in rows && CommaFree(relatedIds) && relatedIds != [""]
    ensures Decode(rows[id := Row(content, Encode(relatedIds))][id].relatedIds) == relatedIds
  {
    DecodeEncode(relatedIds);
  }

  /** Deleting the id that was just inserted restores the table. */
  lemma DeleteUndoesInsert(rows: Table, id: string, row: Row)
    requires id !in rows
    ensures rows[id := row] - {id} == rows
  {
    assert (rows[id := row] - {id}).Keys == rows.Keys;
  }

  /** After a delete, the listing is the old one without the deleted id's line. */
  lemma DeleteThenListAll(rows: Table, id: string)
    ensures forall l :: l in ListAll(rows - {id}) <==> l in ListAll(rows) && l.id != id
    ensures |ListAll(rows - {id})| == if id in rows then |ListAll(rows)| - 1 else |ListAll(rows)|
  {
    if id in rows {
      assert (rows - {id}).Keys == rows.Keys - {id};
    } else {
      assert rows - {id} == rows;
    }
  }

  /**
    For a keyword with no wildcard, the search returns exactly the rows whose
    content contains the keyword, ASCII case ignored.
   */
  lemma SearchPlainKeyword(rows: Table, keyword: string)
    requires Plain(keyword)
    ensures forall l :: l in Search(rows, keyword) <==> Shows(rows, l) && ContainsFolded(l.content, keyword)
  {
    forall l: Listing
      ensures l in Search(rows, keyword) <==> Shows(rows, l) && ContainsFolded(l.content, keyword)
    {
      SearchPatternMatches(l.content, keyword);
    }
  }

  /** When every listing matches, nothing is filtered out. */
  lemma {:induction false} MatchingKeepsAll(ls: seq<Listing>, pattern: string)
    requires forall l :: l in ls ==> Like(l.content, pattern)
    ensures Matching(ls, pattern) == ls
  {
    if |ls| > 0 {
      assert ls[0] in ls;
      assert forall l :: l in ls[1..] ==> l in ls;
      MatchingKeepsAll(ls[1..], pattern);
      assert [ls[0]] + ls[1..] == ls;
    }
  }

  /** The empty keyword returns every row, in the same order as the full listing. */
  lemma SearchEmptyKeyword(rows: Table)
    ensures Search(rows, "") == ListAll(rows)
  {
    forall l | l in ListAll(rows)
      ensures Like(l.content, "%" + "" + "%")
    {
      EmptyKeywordMatchesAll(l.content);
    }
    MatchingKeepsAll(ListAll(rows), "%" + "" + "%");
  }
}
