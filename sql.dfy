/**
 * SQLite's `LIKE` operator as the queries of the source use it: no ESCAPE
 * clause, `%` matches any run of characters, `_` any one character, and
 * letters compare ASCII case-insensitively (SQLite's default).
 */
module Sql {
  import opened Text

  function Like(s: string, pattern: string): bool
    decreases |s| + |pattern|
  {
    if pattern == [] then s == []
    else if pattern[0] == '%' then Like(s, pattern[1..]) || (s != [] && Like(s[1..], pattern))
    else
      s != [] && (pattern[0] == '_' || LowerChar(s[0]) == LowerChar(pattern[0]))
      && Like(s[1..], pattern[1..])
  }

  /** A word that LIKE reads literally. */
  predicate NoWildcards(w: string) {
    '%' !in w && '_' !in w
  }

  lemma LowerCons(t: string)
    requires t != []
    ensures Lower(t) == [LowerChar(t[0])] + Lower(t[1..])
  {
  }

  /** A pattern without wildcards matches exactly the strings equal to it up to ASCII case. */
  lemma {:induction false} LikeLiteral(t: string, w: string)
    requires NoWildcards(w)
    ensures Like(t, w) <==> Lower(t) == Lower(w)
    decreases |w|
  {
    if w != [] && t != [] {
      LikeLiteral(t[1..], w[1..]);
      LowerCons(w);
      LowerCons(t);
    }
  }

  /** A literal word followed by `%` matches the strings that begin with it up to ASCII case. */
  lemma {:induction false} LikePrefix(t: string, w: string)
    requires NoWildcards(w)
    ensures Like(t, w + ['%']) <==> |w| <= |t| && Lower(t[..|w|]) == Lower(w)
    decreases |w|
  {
    var p := w + ['%'];
    if w == [] {
      assert p == ['%'] && t[..0] == [];
      LikeAnything(t);
    } else {
      assert p[0] == w[0] && p[1..] == w[1..] + ['%'];
      if t != [] {
        LikePrefix(t[1..], w[1..]);
        LowerCons(w);
        if |w| <= |t| {
          LowerCons(t[..|w|]);
          assert t[..|w|][1..] == t[1..][..|w| - 1];
        }
      }
    }
  }

  /** A pattern of one `%` matches every string. */
  lemma {:induction false} LikeAnything(t: string)
    ensures Like(t, ['%'])
    decreases |t|
  {
    var p := ['%'];
    assert p[1..] == [];
    if t != [] {
      LikeAnything(t[1..]);
    }
  }

  /** A leading `%` lets the rest of the pattern match any suffix. */
  lemma {:induction false} LikeLeadingPercent(s: string, q: string)
    ensures Like(s, ['%'] + q) <==> exists k :: 0 <= k <= |s| && Like(s[k..], q)
    decreases |s|
  {
    var p := ['%'] + q;
    assert p[0] == '%' && p[1..] == q;
    assert s[0..] == s;
    if s == [] {
      if exists k :: 0 <= k <= |s| && Like(s[k..], q) {
        var k :| 0 <= k <= |s| && Like(s[k..], q);
        assert k == 0;
      }
    } else {
      LikeLeadingPercent(s[1..], q);
      if Like(s, p) && !Like(s, q) {
        var k :| 0 <= k <= |s| - 1 && Like(s[1..][k..], q);
        assert s[1..][k..] == s[k + 1..];
      }
      if exists k :: 0 <= k <= |s| && Like(s[k..], q) {
        var k :| 0 <= k <= |s| && Like(s[k..], q);
        if k > 0 {
          assert s[1..][k - 1..] == s[k..];
        }
      }
    }
  }

  /** `s LIKE '%w%'` is a case-insensitive substring test when `w` has no wildcards. */
  lemma LikeContains(s: string, w: string)
    requires NoWildcards(w)
    ensures Like(s, ['%'] + w + ['%']) <==> Contains(Lower(s), Lower(w))
  {
    assert ['%'] + w + ['%'] == ['%'] + (w + ['%']);
    LikeLeadingPercent(s, w + ['%']);
    forall k | 0 <= k <= |s|
      ensures Like(s[k..], w + ['%']) <==> OccursAt(Lower(s), Lower(w), k)
    {
      LikePrefix(s[k..], w);
      if k + |w| <= |s| {
        assert s[k..][..|w|] == s[k..k + |w|];
        assert Lower(s)[k..k + |w|] == Lower(s[k..k + |w|]);
      }
    }
    ContainsIff(Lower(s), Lower(w));
  }

  /** `s LIKE '%w'` is a case-insensitive suffix test when `w` has no wildcards. */
  lemma LikeEndsWith(s: string, w: string)
    requires NoWildcards(w)
    ensures Like(s, ['%'] + w) <==> |w| <= |s| && Lower(s[|s| - |w|..]) == Lower(w)
  {
    LikeLeadingPercent(s, w);
    forall k | 0 <= k <= |s|
      ensures Like(s[k..], w) <==> k == |s| - |w| && Lower(s[k..]) == Lower(w)
    {
      LikeLiteral(s[k..], w);
    }
    if |w| <= |s| && Lower(s[|s| - |w|..]) == Lower(w) {
      assert Like(s[|s| - |w|..], w);
    }
  }
}
