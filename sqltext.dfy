/**
  The two pieces of SQLite text semantics the note store relies on.

  - `ORDER BY id` (Controll.py:45) compares ids with the default BINARY
    collation: byte order of the UTF-8 encoding, which is the same as the
    order of Unicode code points, compared element by element, with a proper
    prefix coming first. `Below` is that order, read as "less than or equal".
  - `content LIKE '%' || keyword || '%'` (Controll.py:25) matches with `%`
    standing for any run of characters, `_` for any one character, and every
    other character compared with ASCII case folded; there is no escape
    character. `Like` is that matcher.
 */
module SqlText {

  /** BINARY collation, "less than or equal". */
  predicate Below(a: string, b: string)
    decreases |a|
  {
    |a| == 0 || (|b| > 0 && (a[0] < b[0] || (a[0] == b[0] && Below(a[1..], b[1..]))))
  }

  /** BINARY collation, "strictly less than". */
  predicate StrictlyBelow(a: string, b: string) {
    Below(a, b) && a != b
  }

  lemma {:induction false} BelowReflexive(a: string)
    ensures Below(a, a)
    decreases |a|
  {
    if |a| > 0 {
      BelowReflexive(a[1..]);
    }
  }

  lemma {:induction false} BelowAntisymmetric(a: string, b: string)
    requires Below(a, b) && Below(b, a)
    ensures a == b
    decreases |a|
  {
    if |a| > 0 {
      BelowAntisymmetric(a[1..], b[1..]);
      assert a == [a[0]] + a[1..] && b == [b[0]] + b[1..];
    }
  }

  lemma {:induction false} BelowTransitive(a: string, b: string, c: string)
    requires Below(a, b) && Below(b, c)
    ensures Below(a, c)
    decreases |a|
  {
    if |a| > 0 && a[0] == b[0] && b[0] == c[0] {
      BelowTransitive(a[1..], b[1..], c[1..]);
    }
  }

  lemma {:induction false} BelowTotal(a: string, b: string)
    ensures Below(a, b) || Below(b, a)
    decreases |a|
  {
    if |a| > 0 && |b| > 0 && a[0] == b[0] {
      BelowTotal(a[1..], b[1..]);
    }
  }

  /** `m` is the smallest id of `ids`. */
  predicate IsLeast(m: string, ids: set<string>) {
    m in ids && forall k :: k in ids ==> Below(m, k)
  }

  /** Every finite, non-empty set of ids has a smallest one. */
  lemma {:induction false} LeastExists(ids: set<string>)
    requires ids != {}
    ensures exists m :: IsLeast(m, ids)
    decreases |ids|
  {
    var x :| x in ids;
    var rest := ids - {x};
    if rest == {} {
      BelowReflexive(x);
      assert ids == {x};
      assert IsLeast(x, ids);
    } else {
      LeastExists(rest);
      var m :| IsLeast(m, rest);
      BelowTotal(m, x);
      if Below(m, x) {
        assert IsLeast(m, ids);
      } else {
        BelowReflexive(x);
        forall k | k in ids
          ensures Below(x, k)
        {
          if k != x {
            BelowTransitive(x, m, k);
          }
        }
        assert IsLeast(x, ids);
      }
    }
  }

  /** The smallest id of a set is unique. */
  lemma LeastUnique(ids: set<string>)
    ensures forall m, n :: IsLeast(m, ids) && IsLeast(n, ids) ==> m == n
  {
    forall m, n | IsLeast(m, ids) && IsLeast(n, ids)
      ensures m == n
    {
      BelowAntisymmetric(m, n);
    }
  }

  /** ASCII-only case folding, as the built-in LIKE does it. */
  function Fold(c: char): (f: char)
    ensures !('A' <= f <= 'Z')
    ensures 'A' <= c <= 'Z' ==> f as int == c as int + 32
    ensures !('A' <= c <= 'Z') ==> f == c
  {
    if 'A' <= c <= 'Z' then (c as int + 32) as char else c
  }

  /**
    Two characters fold alike exactly when they are equal or are the upper-
    and lower-case forms of one ASCII letter; no other letter pairs up.
   */
  lemma FoldAlike(c: char, d: char)
    ensures Fold(c) == Fold(d)
            <==> c == d
                 || ('A' <= c <= 'Z' && d as int == c as int + 32)
                 || ('A' <= d <= 'Z' && c as int == d as int + 32)
  {
  }

  /** `text LIKE pattern`, with no ESCAPE clause. */
  predicate Like(text: string, pattern: string)
    decreases |pattern|, |text|
  {
    if |pattern| == 0 then |text| == 0
    else if pattern[0] == '%' then
      Like(text, pattern[1..]) || (|text| > 0 && Like(text[1..], pattern))
    else
      |text| > 0 && (pattern[0] == '_' || Fold(pattern[0]) == Fold(text[0]))
      && Like(text[1..], pattern[1..])
  }

  /** The keyword holds neither wildcard. */
  predicate Plain(keyword: string) {
    '%' !in keyword && '_' !in keyword
  }

  /** Equal up to ASCII case. */
  predicate FoldEqual(a: string, b: string) {
    |a| == |b| && forall i :: 0 <= i < |a| ==> Fold(a[i]) == Fold(b[i])
  }

  /** `keyword` occurs in `text` at position `i`, ignoring ASCII case. */
  predicate OccursAt(text: string, keyword: string, i: nat) {
    i + |keyword| <= |text| && FoldEqual(text[i..i + |keyword|], keyword)
  }

  /** `keyword` occurs somewhere in `text`, ignoring ASCII case. */
  predicate ContainsFolded(text: string, keyword: string) {
    exists i: nat :: i <= |text| && OccursAt(text, keyword, i)
  }

  /** A lone `%` matches any text. */
  lemma {:induction false} LikeAnything(text: string)
    ensures Like(text, "%")
    decreases |text|
  {
    if |text| > 0 {
      LikeAnything(text[1..]);
    }
  }

  /** A plain keyword followed by `%` matches exactly the texts that start with the keyword. */
  lemma {:induction false} LikePrefix(text: string, keyword: string)
    requires Plain(keyword)
    ensures Like(text, keyword + "%")
            <==> |keyword| <= |text| && FoldEqual(text[..|keyword|], keyword)
    decreases |keyword|
  {
    var p := keyword + "%";
    if |keyword| == 0 {
      assert p == "%";
      LikeAnything(text);
    } else {
      assert p[0] == keyword[0] && p[1..] == keyword[1..] + "%";
      assert keyword[0] != '%' && keyword[0] != '_';
      if |text| > 0 {
        LikePrefix(text[1..], keyword[1..]);
        if |keyword| <= |text| && FoldEqual(text[..|keyword|], keyword) {
          assert text[1..][..|keyword| - 1] == text[1..|keyword|];
          assert Fold(text[0]) == Fold(keyword[0]);
          assert FoldEqual(text[1..][..|keyword| - 1], keyword[1..]);
        }
        if Like(text, p) {
          assert FoldEqual(text[1..][..|keyword| - 1], keyword[1..]);
          assert forall i :: 1 <= i < |keyword| ==> text[..|keyword|][i] == text[1..][..|keyword| - 1][i - 1];
        }
      }
    }
  }

  /** A leading `%` lets the rest of the pattern match any suffix. */
  lemma {:induction false} LikeLeadingPercent(text: string, rest: string)
    ensures Like(text, "%" + rest) <==> exists i :: 0 <= i <= |text| && Like(text[i..], rest)
    decreases |text|
  {
    var p := "%" + rest;
    assert p[0] == '%' && p[1..] == rest;
    assert text[0..] == text;
    if |text| > 0 {
      LikeLeadingPercent(text[1..], rest);
      if Like(text[1..], p) {
        var i :| 0 <= i <= |text[1..]| && Like(text[1..][i..], rest);
        assert text[1..][i..] == text[i + 1..];
      }
      if exists i :: 0 <= i <= |text| && Like(text[i..], rest) {
        var i :| 0 <= i <= |text| && Like(text[i..], rest);
        if i > 0 {
          assert text[1..][i - 1..] == text[i..];
        }
      }
    }
  }

  /**
    The search pattern `'%' + keyword + '%'` built from a plain keyword matches
    exactly the texts that contain the keyword, ASCII case ignored.
   */
  lemma SearchPatternMatches(text: string, keyword: string)
    requires Plain(keyword)
    ensures Like(text, "%" + keyword + "%") <==> ContainsFolded(text, keyword)
  {
    var rest := keyword + "%";
    assert "%" + keyword + "%" == "%" + rest;
    LikeLeadingPercent(text, rest);
    if Like(text, "%" + rest) {
      var i :| 0 <= i <= |text| && Like(text[i..], rest);
      LikePrefix(text[i..], keyword);
      if i + |keyword| <= |text| {
        assert text[i..][..|keyword|] == text[i..i + |keyword|];
        assert OccursAt(text, keyword, i);
      }
    }
    if ContainsFolded(text, keyword) {
      var i: nat :| i <= |text| && OccursAt(text, keyword, i);
      LikePrefix(text[i..], keyword);
      assert text[i..][..|keyword|] == text[i..i + |keyword|];
    }
  }

  /** The empty keyword gives the pattern `%%`, which matches every text. */
  lemma EmptyKeywordMatchesAll(text: string)
    ensures Like(text, "%" + "" + "%")
  {
    assert "%" + "" + "%" == "%%";
    LikeAnything(text);
  }
}
