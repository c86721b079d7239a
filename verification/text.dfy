/**
 The three string primitives the catalog relies on: `String.prototype.trim`,
 `toLowerCase` (restricted to ASCII) and `includes`.
 */
module Text {

  /** The characters `trim` strips: ECMAScript WhiteSpace and LineTerminator. */
  predicate IsTrimmable(c: char)
  {
    || c == '\t' || c == '\n' || c == '\U{B}' || c == '\U{C}' || c == '\r' || c == ' '
    || c == '\U{A0}' || c == '\U{1680}' || ('\U{2000}' <= c <= '\U{200A}')
    || c == '\U{2028}' || c == '\U{2029}' || c == '\U{202F}' || c == '\U{205F}'
    || c == '\U{3000}' || c == '\U{FEFF}'
  }

  /** Number of trimmable characters at the start of `s`. */
  function LeadingSpace(s: string): (k: nat)
    ensures k <= |s|
    ensures forall i :: 0 <= i < k ==> IsTrimmable(s[i])
    ensures k < |s| ==> !IsTrimmable(s[k])
  {
    if s != [] && IsTrimmable(s[0]) then 1 + LeadingSpace(s[1..]) else 0
  }

  /** Number of trimmable characters at the end of `s`. */
  function TrailingSpace(s: string): (k: nat)
    ensures k <= |s|
    ensures forall i :: |s| - k <= i < |s| ==> IsTrimmable(s[i])
    ensures k < |s| ==> !IsTrimmable(s[|s| - k - 1])
  {
    if s != [] && IsTrimmable(s[|s| - 1]) then 1 + TrailingSpace(s[..|s| - 1]) else 0
  }

  /**
   `s` without its leading and trailing trimmable characters: the result is
   the slice of `s` starting at `LeadingSpace(s)`, everything cut away is
   trimmable, and the result neither starts nor ends with a trimmable character.
   */
  function Trim(s: string): (r: string)
    ensures LeadingSpace(s) + |r| <= |s|
    ensures r == s[LeadingSpace(s) .. LeadingSpace(s) + |r|]
    ensures forall i :: 0 <= i < |s| && !(LeadingSpace(s) <= i < LeadingSpace(s) + |r|) ==> IsTrimmable(s[i])
    ensures r != [] ==> !IsTrimmable(r[0]) && !IsTrimmable(r[|r| - 1])
  {
    var a := LeadingSpace(s);
    if a == |s| then "" else
      var t := s[a..];
      t[..|t| - TrailingSpace(t)]
  }

  /** `trim` yields the empty string exactly when every character is trimmable. */
  lemma TrimEmptyIff(s: string)
    ensures Trim(s) == "" <==> forall i :: 0 <= i < |s| ==> IsTrimmable(s[i])
  {
  }

  /** Trimming twice is the same as trimming once. */
  lemma TrimIdempotent(s: string)
    ensures Trim(Trim(s)) == Trim(s)
  {
  }

  predicate IsUpper(c: char)
  {
    'A' <= c <= 'Z'
  }

  /** ASCII lower-casing of one character. */
  function LowerChar(c: char): (d: char)
    ensures !IsUpper(d)
    ensures IsUpper(c) ==> d as int == c as int + 32
    ensures !IsUpper(c) ==> d == c
  {
    if IsUpper(c) then (c as int + 32) as char else c
  }

  /** `toLowerCase`, character by character, over the ASCII letters. */
  function Lower(s: string): (r: string)
    ensures |r| == |s|
    ensures forall i :: 0 <= i < |s| ==> r[i] == LowerChar(s[i])
  {
    seq(|s|, i requires 0 <= i < |s| => LowerChar(s[i]))
  }

  /** Lower-casing distributes over concatenation. */
  lemma LowerConcat(a: string, b: string)
    ensures Lower(a + b) == Lower(a) + Lower(b)
  {
  }

  /** `p` occurs in `s` starting at index `i`. */
  predicate OccursAt(s: string, p: string, i: int)
  {
    0 <= i && i + |p| <= |s| && s[i .. i + |p|] == p
  }

  /** `s.includes(p)`: scan `s` for a prefix equal to `p`. */
  function Contains(s: string, p: string): (found: bool)
    ensures p == [] ==> found
    ensures found ==> |p| <= |s|
    ensures |p| <= |s| && s[..|p|] == p ==> found
    decreases |s|
  {
    if |p| <= |s| && s[..|p|] == p then true
    else if s == [] then false
    else Contains(s[1..], p)
  }

  /** The scan finds `p` exactly when `p` occurs somewhere in `s`. */
  lemma {:induction false} ContainsIffOccurs(s: string, p: string)
    ensures Contains(s, p) <==> exists i :: OccursAt(s, p, i)
    decreases |s|
  {
    if |p| <= |s| && s[..|p|] == p {
      assert OccursAt(s, p, 0);
    } else if s == [] {
      assert |p| > 0;
    } else {
      ContainsIffOccurs(s[1..], p);
      assert !OccursAt(s, p, 0) by {
        if |p| <= |s| {
          assert s[0 .. |p|] == s[..|p|];
        }
      }
      if Contains(s, p) {
        var i :| OccursAt(s[1..], p, i);
        assert s[1..][i .. i + |p|] == s[i + 1 .. i + 1 + |p|];
        assert OccursAt(s, p, i + 1);
      }
      if exists i :: OccursAt(s, p, i) {
        var i :| OccursAt(s, p, i);
        assert s[1..][i - 1 .. i - 1 + |p|] == s[i .. i + |p|];
        assert OccursAt(s[1..], p, i - 1);
      }
    }
  }

  /** Every string includes the empty string. */
  lemma ContainsEmpty(s: string)
    ensures Contains(s, "")
  {
  }

  /** An occurrence inside a part of a concatenation is an occurrence in the whole. */
  lemma ContainsInConcat(a: string, b: string, p: string)
    requires Contains(a, p) || Contains(b, p)
    ensures Contains(a + b, p)
  {
    ContainsIffOccurs(a, p);
    ContainsIffOccurs(b, p);
    ContainsIffOccurs(a + b, p);
    if Contains(a, p) {
      var i :| OccursAt(a, p, i);
      assert (a + b)[i .. i + |p|] == a[i .. i + |p|];
      assert OccursAt(a + b, p, i);
    } else {
      var i :| OccursAt(b, p, i);
      assert (a + b)[|a| + i .. |a| + i + |p|] == b[i .. i + |p|];
      assert OccursAt(a + b, p, |a| + i);
    }
  }
}
