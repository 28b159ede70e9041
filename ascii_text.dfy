/**
  The two string operations the command filter uses: `toLowerCase` and
  `startsWith`. Lower-casing is modelled over ASCII only: the letters
  'A'..'Z' map to 'a'..'z' and every other character is left as it is.
 */
module AsciiText {

  predicate IsUpper(c: char) { 'A' <= c <= 'Z' }

  predicate IsLower(c: char) { 'a' <= c <= 'z' }

  function LowerChar(c: char): char
  {
    if IsUpper(c) then (c as int + 32) as char else c
  }

  function UpperChar(c: char): char
  {
    if IsLower(c) then (c as int - 32) as char else c
  }

  /** `s.toLowerCase()` on an ASCII string. */
  function Lower(s: string): (r: string)
    ensures |r| == |s|
    ensures forall i :: 0 <= i < |s| ==> r[i] == LowerChar(s[i])
    ensures forall i :: 0 <= i < |r| ==> !IsUpper(r[i])
  {
    seq(|s|, i requires 0 <= i < |s| => LowerChar(s[i]))
  }

  /** `s.startsWith(prefix)`. */
  predicate StartsWith(s: string, prefix: string)
  {
    |prefix| <= |s| && s[..|prefix|] == prefix
  }

  /** `startsWith` holds exactly when `s` is `prefix` followed by some rest. */
  lemma StartsWithIsPrefix(s: string, prefix: string)
    ensures StartsWith(s, prefix) <==> exists rest :: s == prefix + rest
  {
    if StartsWith(s, prefix) {
      assert s == prefix + s[|prefix|..];
    }
    if exists rest :: s == prefix + rest {
      var rest :| s == prefix + rest;
      assert s[..|prefix|] == prefix;
    }
  }

  /**
    `a` and `b` spell the same word up to ASCII case: position by position
    the characters are equal or one is the upper-case form of the other.
   */
  predicate CaseVariant(a: string, b: string)
  {
    |a| == |b| &&
    forall i :: 0 <= i < |a| ==> a[i] == b[i] || a[i] == UpperChar(b[i]) || UpperChar(a[i]) == b[i]
  }

  /** Two characters lower-case to the same character exactly when they are equal up to case. */
  lemma LowerCharAgree(x: char, y: char)
    ensures LowerChar(x) == LowerChar(y) <==> (x == y || x == UpperChar(y) || UpperChar(x) == y)
  {
  }

  /** Lower-casing identifies exactly the case variants of a string, in both directions. */
  lemma CaseVariantIffSameLower(a: string, b: string)
    ensures CaseVariant(a, b) <==> Lower(a) == Lower(b)
  {
    if CaseVariant(a, b) {
      forall i | 0 <= i < |a| ensures Lower(a)[i] == Lower(b)[i] {
        LowerCharAgree(a[i], b[i]);
      }
    }
    if Lower(a) == Lower(b) {
      forall i | 0 <= i < |a| ensures a[i] == b[i] || a[i] == UpperChar(b[i]) || UpperChar(a[i]) == b[i] {
        assert Lower(a)[i] == Lower(b)[i];
        LowerCharAgree(a[i], b[i]);
      }
    }
  }

  /** Lower-casing keeps prefixes: if `s` starts with `p`, `Lower(s)` starts with `Lower(p)`. */
  lemma LowerKeepsPrefix(s: string, p: string)
    requires StartsWith(s, p)
    ensures StartsWith(Lower(s), Lower(p))
  {
    assert Lower(s)[..|p|] == Lower(p) by {
      forall i | 0 <= i < |p| ensures Lower(s)[..|p|][i] == Lower(p)[i] {
        assert s[i] == p[i];
      }
    }
  }

  /** Being a prefix is transitive. */
  lemma StartsWithTransitive(s: string, q: string, p: string)
    requires StartsWith(s, q) && StartsWith(q, p)
    ensures StartsWith(s, p)
  {
    assert s[..|p|] == s[..|q|][..|p|];
  }
}
