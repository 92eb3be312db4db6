# Note store core, modelled in Dafny

The note store (`Controll.py`) keeps notes in a SQLite table `data` with
three text columns: `id` (the primary key), `content`, and `related_ids`.
`related_ids` holds a list of other notes' ids joined with commas. The
operator can insert a note, search the contents for a keyword, delete a note
by id, list all notes by id, and draw the graph of relations between notes.

This project models the logic inside those operations:

- `codec.dfy`, module `Codec`. The `related_ids` codec: Python's
  `','.join` (used when a note is stored) and `str.split(',')` (used when the
  menu reads the operator's line and when the graph view reads the column
  back), with proofs of when one undoes the other.
- `sqltext.dfy`, module `SqlText`. The two pieces of SQLite text semantics
  the queries use. The first is the BINARY collation behind `ORDER BY id`:
  code-point order, compared element by element, with a proper prefix first.
  The model proves it is a total order, so every set of ids has a least one.
  The second is the `LIKE` operator with `%`, `_` and ASCII-only case
  folding. The model proves that the search pattern `'%' + keyword + '%'`
  means "contains the keyword, ignoring ASCII case" whenever the keyword has
  no wildcard.
- `store.dfy`, module `Store`. The `data` table as a class `DataTable`
  whose `rows` field maps each id to its content and stored `related_ids`
  text. Keys are unique, as the primary key makes them. `Insert` and
  `Delete` change that field in place. The listing (`ListAll`) and the
  search (`Search`) are functions of the table's value. Lemmas connect
  inserts and deletes to what the listing shows afterwards.
- `graph.dfy`, module `RelationGraph`. The loop of
  `visualize_data_structure` as a method `BuildGraph`, proved to produce the
  node and edge sets given by `GraphOf`. Lemmas cover dangling targets,
  rows with no relations, and how an insert changes the edges.
- `walkthrough.dfy`, module `Walkthrough`. A complete session driven
  through the class: two inserts, a search, a listing, a delete and the
  graph. Each result is stated as a concrete value.

Printed messages become returned values. `insert_data` returns `Inserted`
or `DuplicateId` (the caught `IntegrityError`). `delete_data` returns the
affected row count, 0 or 1. The two queries return their listings. An empty
listing is the case the source reports as "nothing found" or "store empty".

Two consequences of the code are worth stating:

- `insert_data` passes any id to SQLite, and a `TEXT PRIMARY KEY` accepts
  the empty string. So `DataTable.Insert` accepts `""` as an id.
- `search_keyword` relies on SQLite's `LIKE`, which ignores the case of
  ASCII letters only and treats `%` and `_` in the keyword as wildcards.
  `Search` follows `LIKE` in this, and `SearchPlainKeyword` states the
  substring reading for keywords without wildcards.

SQL gives the search query no `ORDER BY`, so its row order is whatever the
scan produces. `Search` lists its matches by id. The proved properties are
about which rows match and that each appears once, not about their order.

## Model

| member | source | states |
|---|---|---|
| `Codec.Split` | Controll.py:87 | `str.split(',')` always yields at least one piece, and no piece contains a comma |
| `Codec.Decode` | Controll.py:62 | reading the column gives no ids exactly when the stored text is empty; the ids read contain no comma |
| `Codec.JoinSplit` | Controll.py:87 | joining the pieces of the operator's line with commas gives the line back, so the stored `related_ids` text is exactly what was typed |
| `Codec.SplitJoin` | Controll.py:62 | splitting the join of a non-empty list whose elements contain no comma gives the list back |
| `Codec.DecodeEncode` | Controll.py:17 | storing a list and reading it back returns the same list if and only if no element contains a comma and the list is not `[""]` |
| `Codec.EncodeDecode` | Controll.py:62 | whatever text the column holds, decoding it and joining the result reproduces the text |
| `Codec.EncodeInjective` | Controll.py:17 | two comma-free lists, neither `[""]`, that store the same text are equal |
| `Codec.CommaInsideIdSplits` | Controll.py:17 | `["a,b"]` and `["a", "b"]` are stored alike, and `["a,b"]` reads back as two ids |
| `Codec.SplitAfterField` | Controll.py:87 | splitting `a + "," + s`, with `a` comma-free, gives `a` followed by the pieces of `s` |
| `SqlText.BelowAntisymmetric` | Controll.py:45 | two ids each at most the other in BINARY order are equal |
| `SqlText.BelowTransitive` | Controll.py:45 | BINARY order is transitive |
| `SqlText.BelowTotal` | Controll.py:45 | any two ids are comparable in BINARY order |
| `SqlText.LeastExists` | Controll.py:45 | every finite non-empty set of ids has a least id in BINARY order |
| `SqlText.LeastUnique` | Controll.py:45 | that least id is unique |
| `SqlText.Fold` | Controll.py:25 | LIKE's case folding maps each ASCII upper-case letter to its own lower-case letter and leaves every other character unchanged |
| `SqlText.FoldAlike` | Controll.py:25 | two characters fold alike exactly when they are equal or are the two cases of one ASCII letter, so `É` and `é` stay distinct |
| `SqlText.LikeAnything` | Controll.py:25 | a lone `%` matches every text |
| `SqlText.LikePrefix` | Controll.py:25 | a keyword without wildcards followed by `%` matches exactly the texts that start with the keyword, ASCII case ignored |
| `SqlText.LikeLeadingPercent` | Controll.py:25 | a leading `%` matches exactly when the rest of the pattern matches some suffix of the text |
| `SqlText.SearchPatternMatches` | Controll.py:25 | `'%' + keyword + '%'` with a keyword without wildcards matches exactly the texts that contain the keyword, ASCII case ignored |
| `SqlText.EmptyKeywordMatchesAll` | Controll.py:25 | the pattern built from the empty keyword matches every text |
| `Store.ListAll` | Controll.py:45-52 | one listing per row, holding exactly the rows' `(id, content)` pairs, strictly ascending by id in BINARY order; empty exactly when the table is |
| `Store.Matching` | Controll.py:25-26 | keeps exactly the listings whose content matches the pattern; an ascending listing stays ascending |
| `Store.Search` | Controll.py:23-32 | exactly the `(id, content)` pairs of rows whose content matches `'%' + keyword + '%'`, each once, never more than the table's rows |
| `Store.DataTable.constructor` | Controll.py:10-11 | a freshly created table is empty |
| `Store.DataTable.Insert` | Controll.py:13-21 | a new id adds one row `(content, ','.join(related_ids))` and keeps every other row; an existing id reports `DuplicateId` and leaves the table unchanged |
| `Store.DataTable.Delete` | Controll.py:34-41 | removes the row with that id and no other; the row count is 1 if the id was present and 0 otherwise; a missing id leaves the table unchanged |
| `Store.InsertThenListAll` | Controll.py:13-18 | after a fresh insert the listing grows by one: the old listings plus `(id, content)`, the only listing with that id |
| `Store.InsertKeepsRelatedIds` | Controll.py:17 | after a fresh insert, reading the row's related ids back gives the inserted list, when no id contains a comma and the list is not `[""]` |
| `Store.DeleteUndoesInsert` | Controll.py:36 | deleting the id just inserted restores the table |
| `Store.DeleteThenListAll` | Controll.py:36-41 | after a delete the listing is the old one minus the deleted id's line, one shorter exactly when the id was present |
| `Store.SearchPlainKeyword` | Controll.py:25-27 | for a keyword without wildcards, the search returns exactly the rows whose content contains the keyword, ASCII case ignored |
| `Store.SearchEmptyKeyword` | Controll.py:25 | the empty keyword returns every row, as the full listing does |
| `RelationGraph.BuildGraph` | Controll.py:56-65 | the loop over rows, adding each id as a node and an edge to each decoded related id, builds exactly the graph `GraphOf` of the table |
| `RelationGraph.EdgeIff` | Controll.py:64-65 | an edge `(a, b)` exists if and only if `a` is a row and `b` is among its decoded related ids |
| `RelationGraph.NodeIff` | Controll.py:60-65 | the nodes are exactly the row ids together with every decoded related id |
| `RelationGraph.DanglingTarget` | Controll.py:64-65 | a related id with no row is still a node, and no edge leaves it |
| `RelationGraph.EmptyRelatedIdsIsolated` | Controll.py:62-63 | a row whose `related_ids` text is empty is a node with no outgoing edge |
| `RelationGraph.EdgesWithinNodes` | Controll.py:59-65 | every edge starts at a row and ends at a node |
| `RelationGraph.InsertedRowEdges` | Controll.py:60-65 | after a fresh insert of comma-free related ids, the new id's out-edges go to exactly those ids (none for `[""]`), and all other edges are as before |
| `RelationGraph.ExampleGraph` | Controll.py:56-65 | `A` related to `B` and `C`, and `B` related to nothing, give nodes `{A, B, C}` and edges `{(A, B), (A, C)}` |
| `Walkthrough.ListAllOfTwo` | Controll.py:45 | a two-row table lists the smaller id first |
| `Walkthrough.SearchHello` | Controll.py:23-32 | searching "hello world" and "goodbye" for "hello" finds only the first |
| `Walkthrough.HelloGoodbye` | Controll.py:84-98 | the session: insert `r1`, insert `r2`, search, list, delete `r1` (one row), list again, and build the graph of what remains (node `r2`, no edges) |

## Left out

- The SQLite connection, cursor, `commit`, table creation and `conn.close()`. The table is an in-memory value, and persistence across restarts is not modelled.
- Storage failures (a file that cannot be opened, a query that cannot run). These are not modelled; every modelled operation succeeds unless it reports an outcome itself.
- `nx.spring_layout`, `nx.draw` and `plt.show`. These are layout and rendering in a foreign library, using floating point. The model stops at the node and edge sets.
- The interactive menu loop, `input()` and the printed text. Only the `split(',')` of the operator's line feeds the model, as `Codec.Split`.
- Store.Search: does not model SQLite's limit on the length of a LIKE pattern (50000 bytes by default), beyond which the query raises an error that the source does not catch. It also does not model builds with ICU or `PRAGMA case_sensitive_like`, which change the folding.
- Store.Search: content or keywords holding the character U+0000. SQLite's built-in `like()` reads pattern and text only up to the first U+0000, so such content can fail to match where the model says it matches.
- Store.Search: the result order. SQL leaves it unspecified; the model lists matches by id.
- Text encoding. Ids and contents are sequences of Unicode scalar values. SQLite's BINARY collation compares UTF-8 bytes, which orders scalar values the same way. Python strings that UTF-8 cannot encode (lone surrogates) are not modelled.
