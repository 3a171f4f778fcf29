/**
 * The two pieces of Foundation string handling the doctor relies on:
 * `trimmingCharacters(in: .whitespacesAndNewlines)` and `contains(_:)`.
 * Strings are sequences of Unicode scalars here; grapheme clusters are not
 * modelled.
 */
module Text {
  /**
   * `CharacterSet.whitespacesAndNewlines`: tab, the newlines U+000A to
   * U+000D and U+0085, and the separators of Unicode general category Z.
   */
  predicate IsWhitespace(c: char) {
    ('\U{0009}' <= c <= '\U{000D}') || c == ' ' || c == '\U{0085}' || c == '\U{00A0}' || c == '\U{1680}'
    || ('\U{2000}' <= c <= '\U{200A}') || c == '\U{2028}' || c == '\U{2029}' || c == '\U{202F}'
    || c == '\U{205F}' || c == '\U{3000}'
  }

  function TrimStart(s: string): string {
    if s != [] && IsWhitespace(s[0]) then TrimStart(s[1..]) else s
  }

  function TrimEnd(s: string): string {
    if s != [] && IsWhitespace(s[|s| - 1]) then TrimEnd(s[..|s| - 1]) else s
  }

  function Trim(s: string): string {
    TrimEnd(TrimStart(s))
  }

  ghost predicate AllWhitespace(s: string) {
    forall k :: 0 <= k < |s| ==> IsWhitespace(s[k])
  }

  lemma {:induction false} TrimStartSpec(s: string)
    ensures |TrimStart(s)| <= |s|
    ensures TrimStart(s) == s[|s| - |TrimStart(s)|..]
    ensures AllWhitespace(s[..|s| - |TrimStart(s)|])
    ensures TrimStart(s) == [] || !IsWhitespace(TrimStart(s)[0])
  {
    if s != [] && IsWhitespace(s[0]) {
      TrimStartSpec(s[1..]);
      var r := TrimStart(s[1..]);
      assert s[1..][|s| - 1 - |r|..] == s[|s| - |r|..];
      var cut := s[..|s| - |r|];
      forall k | 0 <= k < |cut| ensures IsWhitespace(cut[k]) {
        if k > 0 {
          assert cut[k] == s[1..][..|s| - 1 - |r|][k - 1];
        }
      }
    }
  }

  lemma {:induction false} TrimEndSpec(s: string)
    ensures |TrimEnd(s)| <= |s|
    ensures TrimEnd(s) == s[..|TrimEnd(s)|]
    ensures AllWhitespace(s[|TrimEnd(s)|..])
    ensures TrimEnd(s) == [] || !IsWhitespace(TrimEnd(s)[|TrimEnd(s)| - 1])
  {
    if s != [] && IsWhitespace(s[|s| - 1]) {
      var t := s[..|s| - 1];
      TrimEndSpec(t);
      var r := TrimEnd(t);
      assert t[..|r|] == s[..|r|];
      var cut := s[|r|..];
      forall k | 0 <= k < |cut| ensures IsWhitespace(cut[k]) {
        if k < |cut| - 1 {
          assert cut[k] == t[|r|..][k];
        }
      }
    }
  }

  /**
   * Trimming keeps a contiguous middle of the string, removes only
   * whitespace around it, and leaves no whitespace at either end.
   */
  lemma TrimSpec(s: string)
    ensures exists i :: (0 <= i <= i + |Trim(s)| <= |s| && Trim(s) == s[i..i + |Trim(s)|]
      && AllWhitespace(s[..i]) && AllWhitespace(s[i + |Trim(s)|..]))
    ensures Trim(s) == [] || (!IsWhitespace(Trim(s)[0]) && !IsWhitespace(Trim(s)[|Trim(s)| - 1]))
  {
    var t := TrimStart(s);
    TrimStartSpec(s);
    TrimEndSpec(t);
    var i := |s| - |t|;
    var r := Trim(s);
    assert r == t[..|r|];
    assert s[i..i + |r|] == r;
    assert s[i + |r|..] == t[|r|..];
    if r != [] {
      assert r[0] == t[0];
    }
  }

  lemma {:induction false} TrimStartPadded(w: string, s: string)
    requires AllWhitespace(w)
    ensures TrimStart(w + s) == TrimStart(s)
    decreases |w|
  {
    if w == [] {
      assert w + s == s;
    } else {
      assert (w + s)[1..] == w[1..] + s;
      TrimStartPadded(w[1..], s);
    }
  }

  lemma {:induction false} TrimEndPadded(s: string, w: string)
    requires AllWhitespace(w)
    ensures TrimEnd(s + w) == TrimEnd(s)
    decreases |w|
  {
    if w == [] {
      assert s + w == s;
    } else {
      var n := |w| - 1;
      assert (s + w)[..|s + w| - 1] == s + w[..n];
      TrimEndPadded(s, w[..n]);
    }
  }

  /** A word with no whitespace at its ends survives any whitespace padding. */
  lemma TrimPadded(w1: string, s: string, w2: string)
    requires AllWhitespace(w1) && AllWhitespace(w2)
    requires s == [] || (!IsWhitespace(s[0]) && !IsWhitespace(s[|s| - 1]))
    ensures Trim(w1 + s + w2) == s
  {
    assert w1 + s + w2 == w1 + (s + w2);
    TrimStartPadded(w1, s + w2);
    if s == [] {
      assert s + w2 == w2;
      TrimStartSpec(w2);
    } else {
      assert TrimStart(s + w2) == s + w2;
      TrimEndPadded(s, w2);
      assert TrimEnd(s) == s;
    }
  }

  /** `sub` occurs in `s` starting at index i. */
  ghost predicate OccursAt(s: string, sub: string, i: int) {
    0 <= i && i + |sub| <= |s| && s[i..i + |sub|] == sub
  }

  /** `s.contains(sub)`, scanning for an occurrence. */
  function Contains(s: string, sub: string): bool
    decreases |s|
  {
    (|sub| <= |s| && s[..|sub|] == sub) || (s != [] && Contains(s[1..], sub))
  }

  /** The scan finds an occurrence exactly when there is one. */
  lemma {:induction false} ContainsIff(s: string, sub: string)
    ensures Contains(s, sub) <==> exists i :: OccursAt(s, sub, i)
    decreases |s|
  {
    if s != [] {
      ContainsIff(s[1..], sub);
      if |sub| <= |s| && s[..|sub|] == sub {
        assert OccursAt(s, sub, 0);
      }
      if exists i :: OccursAt(s[1..], sub, i) {
        var i :| OccursAt(s[1..], sub, i);
        assert s[i + 1..i + 1 + |sub|] == s[1..][i..i + |sub|];
        assert OccursAt(s, sub, i + 1);
      }
      if exists i :: OccursAt(s, sub, i) {
        var i :| OccursAt(s, sub, i);
        if i > 0 {
          assert s[1..][i - 1..i - 1 + |sub|] == s[i..i + |sub|];
          assert OccursAt(s[1..], sub, i - 1);
        } else {
          assert s[..|sub|] == sub;
        }
      }
    } else if sub == [] {
      assert OccursAt(s, sub, 0);
    }
  }

  /** An occurrence in the second half of a concatenation is one in the whole, shifted by the first half. */
  lemma OccursShift(s: string, t: string, sub: string, j: nat)
    ensures OccursAt(t, sub, j) <==> OccursAt(s + t, sub, |s| + j)
  {
    if j + |sub| <= |t| {
      assert (s + t)[|s| + j..|s| + j + |sub|] == t[j..j + |sub|];
    }
  }

  /**
   * A prefix without a dot cannot hold the start of a pattern whose second
   * character is a dot, when what follows it does not start with a dot.
   */
  lemma DotlessPrefixContains(prefix: string, s: string, sub: string)
    requires '.' !in prefix
    requires |sub| >= 2 && sub[1] == '.'
    requires s != [] && s[0] != '.'
    ensures Contains(prefix + s, sub) <==> Contains(s, sub)
  {
    ContainsIff(prefix + s, sub);
    ContainsIff(s, sub);
    if exists i :: OccursAt(prefix + s, sub, i) {
      var i :| OccursAt(prefix + s, sub, i);
      assert (prefix + s)[i + 1] == (prefix + s)[i..i + |sub|][1] == '.';
      assert forall k :: 0 <= k < |prefix| ==> (prefix + s)[k] == prefix[k];
      assert (prefix + s)[|prefix|] == s[0];
      OccursShift(prefix, s, sub, i - |prefix|);
    }
    if exists j :: OccursAt(s, sub, j) {
      var j :| OccursAt(s, sub, j);
      OccursShift(prefix, s, sub, j);
    }
  }

  /** Whatever contains a string contains each of its prefixes. */
  lemma ContainsPrefix(s: string, a: string, b: string)
    requires Contains(s, a + b)
    ensures Contains(s, a)
  {
    ContainsIff(s, a + b);
    ContainsIff(s, a);
    var i :| OccursAt(s, a + b, i);
    assert s[i..i + |a|] == (a + b)[..|a|] == a;
    assert OccursAt(s, a, i);
  }
}
