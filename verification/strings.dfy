/**
 * The three string operations the access decision relies on: lower-casing,
 * prefix testing and substring search. Strings are sequences of characters
 * (one character per Unicode scalar value).
 */
module Strings {

  predicate IsUpper(c: char) {
    'A' <= c <= 'Z'
  }

  /** ASCII case folding of one character: `A`..`Z` map to `a`..`z`, everything else is kept. */
  function LowerChar(c: char): (d: char)
    ensures !IsUpper(d)
    ensures !IsUpper(c) ==> d == c
    ensures IsUpper(c) ==> d as int - c as int == 'a' as int - 'A' as int
  {
    if IsUpper(c) then (c as int - 'A' as int + 'a' as int) as char else c
  }

  /** Lower-cases a whole string, character by character. */
  function ToLower(s: string): (r: string)
    ensures |r| == |s|
    ensures forall i :: 0 <= i < |s| ==> r[i] == LowerChar(s[i])
  {
    if s == [] then [] else [LowerChar(s[0])] + ToLower(s[1..])
  }

  /** `s.startsWith(p)`, comparing character by character from the left. */
  predicate StartsWith(s: string, p: string) {
    |p| == 0 || (|s| > 0 && s[0] == p[0] && StartsWith(s[1..], p[1..]))
  }

  /** The character-by-character comparison agrees with comparing the first `|p|` characters of `s` with `p`. */
  lemma {:induction false} StartsWithIffPrefix(s: string, p: string)
    ensures StartsWith(s, p) <==> |p| <= |s| && s[..|p|] == p
  {
    if |p| > 0 && |s| > 0 {
      StartsWithIffPrefix(s[1..], p[1..]);
      if |p| <= |s| && s[..|p|] == p {
        assert s[1..][..|p| - 1] == s[..|p|][1..];
      }
      if StartsWith(s, p) {
        assert s[..|p|] == [s[0]] + s[1..][..|p| - 1];
        assert p == [p[0]] + p[1..];
      }
    }
  }

  /** The reference meaning of a substring test: `t` occurs in `s` at offset `i`. */
  predicate OccursAt(s: string, t: string, i: int) {
    0 <= i && i + |t| <= |s| && s[i..i + |t|] == t
  }

  /** `s.includes(t)`: scans `s` from the left for an occurrence of `t`. */
  predicate Contains(s: string, t: string)
    decreases |s|
  {
    StartsWith(s, t) || (|s| > 0 && Contains(s[1..], t))
  }

  /** The left-to-right scan finds `t` exactly when `t` occurs somewhere in `s`. */
  lemma {:induction false} ContainsIffOccurs(s: string, t: string)
    ensures Contains(s, t) <==> exists i :: OccursAt(s, t, i)
    decreases |s|
  {
    StartsWithIffPrefix(s, t);
    if StartsWith(s, t) {
      assert OccursAt(s, t, 0);
    } else if |s| == 0 {
    } else {
      ContainsIffOccurs(s[1..], t);
      if exists i :: OccursAt(s[1..], t, i) {
        var i :| OccursAt(s[1..], t, i);
        assert s[i + 1..i + 1 + |t|] == s[1..][i..i + |t|];
        assert OccursAt(s, t, i + 1);
      }
      if exists i :: OccursAt(s, t, i) {
        var i :| OccursAt(s, t, i);
        assert i != 0;
        assert s[1..][i - 1..i - 1 + |t|] == s[i..i + |t|];
        assert OccursAt(s[1..], t, i - 1);
      }
    }
  }

  /**
   * A fragment of two or more characters cannot occur where its first two
   * characters never stand next to each other.
   */
  lemma NoAdjacentPairNoContains(s: string, t: string)
    requires |t| >= 2
    requires forall i :: 0 <= i < |s| - 1 ==> s[i] != t[0] || s[i + 1] != t[1]
    ensures !Contains(s, t)
  {
    OccurrencesStartWithPair(s, t);
    ContainsIffOccurs(s, t);
  }

  /** Wherever a fragment of two or more characters occurs, its first two characters stand next to each other. */
  lemma OccurrencesStartWithPair(s: string, t: string)
    requires |t| >= 2
    ensures forall i :: OccursAt(s, t, i) ==> s[i] == t[0] && s[i + 1] == t[1]
  {
    forall i | OccursAt(s, t, i)
      ensures s[i] == t[0] && s[i + 1] == t[1]
    {
      assert s[i..i + |t|][0] == s[i] && s[i..i + |t|][1] == s[i + 1];
    }
  }

  /** A string can only contain strings no longer than itself. */
  lemma ContainsIsBounded(s: string, t: string)
    requires Contains(s, t)
    ensures |t| <= |s|
  {
    ContainsIffOccurs(s, t);
  }

  /** An occurrence of `t` forces the first character of `t` into `s`. */
  lemma ContainsFirstChar(s: string, t: string)
    requires |t| > 0 && Contains(s, t)
    ensures t[0] in s
  {
    ContainsIffOccurs(s, t);
    var i :| OccursAt(s, t, i);
    assert s[i] == s[i..i + |t|][0];
  }

  /** A string without upper-case letters is its own lower-cased form. */
  lemma ToLowerOfLowerCase(s: string)
    requires forall i :: 0 <= i < |s| ==> !IsUpper(s[i])
    ensures ToLower(s) == s
  {
  }

  /** Lower-casing is determined character by character. */
  lemma ToLowerPointwise(s: string, r: string)
    requires |s| == |r| && forall i :: 0 <= i < |s| ==> LowerChar(s[i]) == r[i]
    ensures ToLower(s) == r
  {
  }

  /** Lower-casing twice is lower-casing once. */
  lemma ToLowerIdempotent(s: string)
    ensures ToLower(ToLower(s)) == ToLower(s)
  {
  }
}
