/**
  The two string operations of the host language that the location filter
  calls: `String.prototype.toLowerCase`, restricted to ASCII letters, and
  `String.prototype.includes`, given both as a search that runs and as the
  substring relation it decides.
 */
module JsString {

  /** An ASCII upper-case letter, the only characters lower-casing changes here. */
  predicate IsUpper(c: char) {
    'A' <= c <= 'Z'
  }

  /** Lower-cases one character: an ASCII capital becomes the small letter at
      the same position of the alphabet, every other character is kept. */
  function ToLowerChar(c: char): (r: char)
    ensures !IsUpper(r)
    ensures IsUpper(c) ==> 'a' <= r <= 'z' && r as int - 'a' as int == c as int - 'A' as int
    ensures !IsUpper(c) ==> r == c
  {
    if IsUpper(c) then (c as int - 'A' as int + 'a' as int) as char else c
  }

  /** `s.toLowerCase()`: the same length, lower-cased character by character,
      with no capital letter left. */
  function ToLower(s: string): (r: string)
    ensures |r| == |s|
    ensures forall i :: 0 <= i < |s| ==> r[i] == ToLowerChar(s[i])
    ensures forall i :: 0 <= i < |r| ==> !IsUpper(r[i])
  {
    seq(|s|, i requires 0 <= i < |s| => ToLowerChar(s[i]))
  }

  /** Lower-casing twice is lower-casing once. */
  lemma {:induction false} ToLowerIdempotent(s: string)
    ensures ToLower(ToLower(s)) == ToLower(s)
  {
    var t := ToLower(s);
    forall i | 0 <= i < |s| ensures ToLower(t)[i] == t[i] {
      assert t[i] == ToLowerChar(s[i]);
    }
  }

  /** Lower-casing commutes with taking a prefix (deleting characters at the end). */
  lemma ToLowerPrefix(s: string, k: nat)
    requires k <= |s|
    ensures ToLower(s[..k]) == ToLower(s)[..k]
  {
    assert forall i :: 0 <= i < k ==> ToLower(s[..k])[i] == ToLower(s)[..k][i];
  }

  /** `sub` appears in `s` starting at index `i`. */
  predicate OccursAt(s: string, sub: string, i: nat) {
    i + |sub| <= |s| && s[i..i + |sub|] == sub
  }

  /** The substring relation that `s.includes(sub)` decides. */
  ghost predicate Contains(s: string, sub: string) {
    exists i: nat :: OccursAt(s, sub, i)
  }

  /** Compares `sub[k..]` with the characters of `s` from index `i + k` on, one
      character at a time, stopping at the first difference. */
  function MatchAt(s: string, sub: string, i: nat, k: nat): bool
    requires i + |sub| <= |s| && k <= |sub|
    decreases |sub| - k
  {
    if k == |sub| then true
    else if s[i + k] != sub[k] then false
    else MatchAt(s, sub, i, k + 1)
  }

  /** The character comparison succeeds exactly when the rest of `sub` is
      spelled out in `s` at that position. */
  lemma {:induction false} MatchAtCorrect(s: string, sub: string, i: nat, k: nat)
    requires i + |sub| <= |s| && k <= |sub|
    ensures MatchAt(s, sub, i, k) <==> s[i + k..i + |sub|] == sub[k..]
    decreases |sub| - k
  {
    if k < |sub| {
      MatchAtCorrect(s, sub, i, k + 1);
      assert s[i + k..i + |sub|] == [s[i + k]] + s[i + k + 1..i + |sub|];
      assert sub[k..] == [sub[k]] + sub[k + 1..];
    }
  }

  /** Tries the start positions `i`, `i + 1`, ... in turn and reports whether
      `sub` occurs at one of them. */
  function IncludesFrom(s: string, sub: string, i: nat): bool
    decreases |s| - i
  {
    if i + |sub| > |s| then false
    else if MatchAt(s, sub, i, 0) then true
    else IncludesFrom(s, sub, i + 1)
  }

  /** The search from `i` succeeds exactly when `sub` occurs at some position `j >= i`. */
  lemma {:induction false} IncludesFromCorrect(s: string, sub: string, i: nat)
    ensures IncludesFrom(s, sub, i) <==> exists j: nat :: i <= j && OccursAt(s, sub, j)
    decreases |s| - i
  {
    if i + |sub| > |s| {
      assert forall j: nat :: i <= j ==> !OccursAt(s, sub, j);
    } else {
      MatchAtCorrect(s, sub, i, 0);
      assert sub[0..] == sub;
      if MatchAt(s, sub, i, 0) {
        assert OccursAt(s, sub, i);
      } else {
        IncludesFromCorrect(s, sub, i + 1);
        assert !OccursAt(s, sub, i);
      }
    }
  }

  /** `s.includes(sub)`: a left-to-right search over every start position. */
  function Includes(s: string, sub: string): (b: bool)
    ensures b <==> Contains(s, sub)
  {
    IncludesFromCorrect(s, sub, 0);
    IncludesFrom(s, sub, 0)
  }

  /** Every string contains the empty string. */
  lemma ContainsEmpty(s: string)
    ensures Contains(s, "")
  {
    assert OccursAt(s, "", 0);
  }

  /** Every string contains each of its prefixes. */
  lemma ContainsPrefix(s: string, k: nat)
    requires k <= |s|
    ensures Contains(s, s[..k])
  {
    assert OccursAt(s, s[..k], 0);
  }

  /** A substring of a substring is a substring. */
  lemma ContainsTransitive(s: string, t: string, u: string)
    requires Contains(s, t) && Contains(t, u)
    ensures Contains(s, u)
  {
    var i: nat :| OccursAt(s, t, i);
    var j: nat :| OccursAt(t, u, j);
    forall k | 0 <= k < |u| ensures s[i + j + k] == u[k] {
      assert u[k] == t[j + k] == s[i + j + k];
    }
    assert s[i + j..i + j + |u|] == u;
    assert OccursAt(s, u, i + j);
  }

  /** A string that lacks one of the characters of `sub` does not contain `sub`. */
  lemma MissingChar(s: string, sub: string, c: char)
    requires c in sub && c !in s
    ensures !Contains(s, sub)
  {
  }
}
