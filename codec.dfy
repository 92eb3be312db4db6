/**
  The comma codec for the `related_ids` column.

  A record's related ids are stored as one text value: the list joined with
  commas (Controll.py:17). The graph view reads them back by splitting on
  commas, with an empty value read as the empty list (Controll.py:62), and the
  menu builds the list by splitting the operator's line on commas
  (Controll.py:87). `Join` and `Split` follow Python's `','.join(parts)` and
  `s.split(',')`.
 */
module Codec {

  const Comma: char := ','

  /** No element contains the separator. */
  predicate CommaFree(parts: seq<string>) {
    forall i :: 0 <= i < |parts| ==> Comma !in parts[i]
  }

  /** Python's `','.join(parts)`. */
  function Join(parts: seq<string>): (s: string) {
    if |parts| == 0 then ""
    else if |parts| == 1 then parts[0]
    else parts[0] + [Comma] + Join(parts[1..])
  }

  /** Python's `s.split(',')`: never empty, and no piece holds a comma. */
  function Split(s: string): (parts: seq<string>)
    ensures |parts| >= 1
    ensures CommaFree(parts)
    decreases |s|
  {
    if |s| == 0 then [""]
    else if s[0] == Comma then [""] + Split(s[1..])
    else
      var rest := Split(s[1..]);
      [[s[0]] + rest[0]] + rest[1..]
  }

  /** What `insert_data` stores in the `related_ids` column. */
  function Encode(relatedIds: seq<string>): (stored: string) {
    Join(relatedIds)
  }

  /** How the graph view reads the column back: `row[1].split(',') if row[1] else []`. */
  function Decode(stored: string): (ids: seq<string>)
    ensures stored == "" <==> ids == []
    ensures CommaFree(ids)
  {
    if stored == "" then [] else Split(stored)
  }

  /** A comma-free text splits into itself alone. */
  lemma {:induction false} SplitWithoutComma(a: string)
    requires Comma !in a
    ensures Split(a) == [a]
  {
    if |a| > 0 {
      SplitWithoutComma(a[1..]);
      assert [a[0]] + a[1..] == a;
    }
  }

  /** Splitting `a,s` with a comma-free `a` yields `a` followed by the pieces of `s`. */
  lemma {:induction false} SplitAfterField(a: string, s: string)
    requires Comma !in a
    ensures Split(a + [Comma] + s) == [a] + Split(s)
    decreases |a|
  {
    var w := a + [Comma] + s;
    if |a| == 0 {
      assert w == [Comma] + s;
      assert w[1..] == s;
    } else {
      assert w[0] == a[0];
      assert w[1..] == a[1..] + [Comma] + s;
      SplitAfterField(a[1..], s);
      assert [a[0]] + a[1..] == a;
    }
  }

  /** Joining the pieces of a split gives the text back: the menu's line is stored verbatim. */
  lemma {:induction false} JoinSplit(s: string)
    ensures Join(Split(s)) == s
    decreases |s|
  {
    if |s| > 0 {
      JoinSplit(s[1..]);
      var rest := Split(s[1..]);
      if s[0] == Comma {
        assert Split(s) == [""] + rest;
        assert Join(Split(s)) == "" + [Comma] + Join(rest);
        assert [s[0]] + s[1..] == s;
      } else {
        var parts := Split(s);
        assert parts == [[s[0]] + rest[0]] + rest[1..];
        if |rest| == 1 {
          assert Join(parts) == [s[0]] + rest[0];
          assert [s[0]] + s[1..] == s;
        } else {
          assert parts[1..] == rest[1..];
          assert Join(rest) == rest[0] + [Comma] + Join(rest[1..]);
          assert Join(parts) == [s[0]] + rest[0] + [Comma] + Join(rest[1..]);
          assert [s[0]] + s[1..] == s;
        }
      }
    }
  }

  /** Splitting the join of a non-empty, comma-free list gives the list back. */
  lemma {:induction false} SplitJoin(parts: seq<string>)
    requires |parts| >= 1 && CommaFree(parts)
    ensures Split(Join(parts)) == parts
  {
    if |parts| == 1 {
      SplitWithoutComma(parts[0]);
    } else {
      SplitJoin(parts[1..]);
      SplitAfterField(parts[0], Join(parts[1..]));
      assert [parts[0]] + parts[1..] == parts;
    }
  }

  /**
    Storing a list and reading it back gives the same list exactly when no
    element contains a comma and the list is not `[""]` (which is stored as
    the empty text and read back as no ids at all).
   */
  lemma DecodeEncode(relatedIds: seq<string>)
    ensures Decode(Encode(relatedIds)) == relatedIds
            <==> CommaFree(relatedIds) && relatedIds != [""]
  {
    if CommaFree(relatedIds) && relatedIds != [""] {
      if |relatedIds| == 0 {
      } else {
        SplitJoin(relatedIds);
      }
    }
  }

  /** Whatever text sits in the column, decoding and re-encoding reproduces it. */
  lemma EncodeDecode(stored: string)
    ensures Encode(Decode(stored)) == stored
  {
    if stored != "" {
      JoinSplit(stored);
    }
  }

  /** Two lists store the same text only if they are equal, once both are comma-free and neither is `[""]`. */
  lemma EncodeInjective(a: seq<string>, b: seq<string>)
    requires CommaFree(a) && a != [""] && CommaFree(b) && b != [""]
    requires Encode(a) == Encode(b)
    ensures a == b
  {
    DecodeEncode(a);
    DecodeEncode(b);
  }

  /** An id holding a comma is read back as two ids: `["a,b"]` and `["a", "b"]` are stored alike. */
  lemma CommaInsideIdSplits()
    ensures Encode(["a,b"]) == Encode(["a", "b"])
    ensures Decode(Encode(["a,b"])) == ["a", "b"]
  {
    assert Encode(["a", "b"]) == "a" + [Comma] + "b";
    SplitJoin(["a", "b"]);
  }
}
