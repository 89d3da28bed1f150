/** Case-insensitive text matching as the two store implementations use it:
    the in-memory store's `contains(query, ignoreCase = true)` and the SQL
    store's `description LIKE '%' || query || '%'`. Case folding is ASCII
    only, which is what SQLite's LIKE does. */
module Text {

  /** ASCII lower-casing of one character; every other character is left alone. */
  function Lower(c: char): char {
    if 'A' <= c <= 'Z' then (c as int - 'A' as int + 'a' as int) as char else c
  }

  /** `s` begins with `p`, ignoring ASCII case. */
  predicate StartsWithIgnoreCase(s: string, p: string) {
    |p| <= |s| && forall i :: 0 <= i < |p| ==> Lower(s[i]) == Lower(p[i])
  }

  /** `q` occurs somewhere in `s`, ignoring ASCII case; the empty query occurs
      everywhere. This is the reference meaning of a substring search. */
  predicate ContainsIgnoreCase(s: string, q: string) {
    exists i :: 0 <= i <= |s| && StartsWithIgnoreCase(s[i..], q)
  }

  /** Kotlin's `s.contains(q, ignoreCase = true)`: try every start position
      from the left. */
  function Contains(s: string, q: string): (b: bool)
    ensures b <==> ContainsIgnoreCase(s, q)
    decreases |s|
  {
    if StartsWithIgnoreCase(s, q) then
      assert s[0..] == s;
      true
    else if s == [] then
      assert forall i :: 0 <= i <= |s| ==> s[i..] == s;
      false
    else
      var b := Contains(s[1..], q);
      assert forall i :: 1 <= i <= |s| ==> s[i..] == s[1..][i - 1..];
      assert b ==> ContainsIgnoreCase(s, q) by {
        if b {
          var i :| 0 <= i <= |s[1..]| && StartsWithIgnoreCase(s[1..][i..], q);
          assert s[i + 1..] == s[1..][i..];
        }
      }
      assert ContainsIgnoreCase(s, q) ==> b by {
        if ContainsIgnoreCase(s, q) {
          var i :| 0 <= i <= |s| && StartsWithIgnoreCase(s[i..], q);
          assert i != 0 by { assert s[0..] == s; }
          assert StartsWithIgnoreCase(s[1..][i - 1..], q);
        }
      }
      b
  }

  /** The query holds none of LIKE's two wildcards, so it means itself. */
  predicate NoWildcards(q: string) {
    forall i :: 0 <= i < |q| ==> q[i] != '%' && q[i] != '_'
  }

  /** SQLite's `s LIKE p` without an ESCAPE clause: `%` matches any run of
      characters (possibly empty), `_` matches exactly one character, and any
      other character matches itself ignoring ASCII case. */
  predicate Like(s: string, p: string)
    decreases |s| + |p|
  {
    if p == [] then s == []
    else if p[0] == '%' then Like(s, p[1..]) || (s != [] && Like(s[1..], p))
    else if s == [] then false
    else if p[0] == '_' then Like(s[1..], p[1..])
    else Lower(s[0]) == Lower(p[0]) && Like(s[1..], p[1..])
  }

  /** A lone `%` matches every text. */
  lemma {:induction false} LikeAnything(s: string)
    ensures Like(s, "%")
    decreases |s|
  {
    if s != [] {
      LikeAnything(s[1..]);
    }
  }

  /** For a wildcard-free `q`, the pattern `q%` matches exactly the texts that
      start with `q`. */
  lemma {:induction false} LikePrefix(s: string, q: string)
    requires NoWildcards(q)
    ensures Like(s, q + "%") <==> StartsWithIgnoreCase(s, q)
    decreases |q|
  {
    if q == [] {
      assert q + "%" == "%";
      LikeAnything(s);
    } else {
      assert (q + "%")[0] == q[0];
      assert (q + "%")[1..] == q[1..] + "%";
      assert NoWildcards(q[1..]) by {
        assert forall i :: 0 <= i < |q[1..]| ==> q[1..][i] == q[i + 1];
      }
      if s != [] {
        LikePrefix(s[1..], q[1..]);
        assert StartsWithIgnoreCase(s, q) <==>
          Lower(s[0]) == Lower(q[0]) && StartsWithIgnoreCase(s[1..], q[1..]) by {
          assert forall i :: 1 <= i < |q| && i < |s| ==> s[i] == s[1..][i - 1] && q[i] == q[1..][i - 1];
        }
      }
    }
  }

  /** A leading `%` lets the rest of the pattern match any suffix of the text. */
  lemma {:induction false} LikeLeadingPercent(s: string, p: string)
    ensures Like(s, "%" + p) <==> exists i :: 0 <= i <= |s| && Like(s[i..], p)
    decreases |s|
  {
    var pp := "%" + p;
    assert pp[0] == '%' && pp[1..] == p;
    assert s[0..] == s;
    if s != [] {
      LikeLeadingPercent(s[1..], p);
      assert forall i :: 1 <= i <= |s| ==> s[i..] == s[1..][i - 1..];
      if exists i :: 0 <= i <= |s| && Like(s[i..], p) {
        var i :| 0 <= i <= |s| && Like(s[i..], p);
        if i > 0 {
          assert Like(s[1..][i - 1..], p);
        }
      }
    }
  }

  /** What the SQL search query means: for a wildcard-free query, the pattern
      `'%' || q || '%'` matches exactly the texts containing `q`, ignoring
      ASCII case; in particular the empty query matches every text. */
  lemma LikeIsContains(s: string, q: string)
    requires NoWildcards(q)
    ensures Like(s, "%" + q + "%") <==> ContainsIgnoreCase(s, q)
  {
    assert "%" + q + "%" == "%" + (q + "%");
    LikeLeadingPercent(s, q + "%");
    forall i | 0 <= i <= |s|
      ensures Like(s[i..], q + "%") <==> StartsWithIgnoreCase(s[i..], q)
    {
      LikePrefix(s[i..], q);
    }
  }
}
