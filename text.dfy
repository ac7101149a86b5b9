/**
 The two JavaScript string operations the reconciliation uses:
 `String.prototype.trim` and `String.prototype.includes`.
 */
module Text {

  /**
   The characters `trim` removes: the WhiteSpace and LineTerminator code points of
   section 12.2 and 12.3 of ECMA-262 (tab, vertical tab, form feed, space, no-break
   space, the byte order mark, the space separators of Unicode category Zs,
   line feed, carriage return, line separator and paragraph separator).
   */
  predicate IsSpace(c: char)
  {
    || c == '\t' || c == '\n' || c == '\U{000B}' || c == '\U{000C}' || c == '\r'
    || c == ' ' || c == '\U{00A0}' || c == '\U{1680}'
    || ('\U{2000}' <= c <= '\U{200A}')
    || c == '\U{2028}' || c == '\U{2029}' || c == '\U{202F}' || c == '\U{205F}'
    || c == '\U{3000}' || c == '\U{FEFF}'
  }

  /** `s` neither starts nor ends with a space character. */
  predicate IsTrimmed(s: string)
  {
    s == [] || (!IsSpace(s[0]) && !IsSpace(s[|s| - 1]))
  }

  /** The first position at or after `i` that does not hold a space character. */
  function SkipSpaces(s: string, i: nat): (a: nat)
    requires i <= |s|
    ensures i <= a <= |s|
    ensures forall x :: i <= x < a ==> IsSpace(s[x])
    ensures a == |s| || !IsSpace(s[a])
    decreases |s| - i
  {
    if i < |s| && IsSpace(s[i]) then SkipSpaces(s, i + 1) else i
  }

  /** Moving down from `j` to no lower than `a`, the end of the last non-space character. */
  function SkipSpacesBack(s: string, a: nat, j: nat): (b: nat)
    requires a <= j <= |s|
    ensures a <= b <= j
    ensures forall x :: b <= x < j ==> IsSpace(s[x])
    ensures b == a || !IsSpace(s[b - 1])
    decreases j
  {
    if a < j && IsSpace(s[j - 1]) then SkipSpacesBack(s, a, j - 1) else j
  }

  /** `s.trim()`: `s` without its leading and trailing space characters. */
  function Trim(s: string): string
  {
    var a := SkipSpaces(s, 0);
    s[a..SkipSpacesBack(s, a, |s|)]
  }

  /**
   `Trim` cuts `s` down to a middle slice: what it removes on either side is all
   space, and what it keeps neither starts nor ends with a space.
   */
  lemma TrimSlice(s: string)
    ensures exists a, b :: && 0 <= a <= b <= |s| && Trim(s) == s[a..b]
                           && (forall i :: 0 <= i < a ==> IsSpace(s[i]))
                           && (forall i :: b <= i < |s| ==> IsSpace(s[i]))
    ensures IsTrimmed(Trim(s))
  {
    var a := SkipSpaces(s, 0);
    var b := SkipSpacesBack(s, a, |s|);
    assert Trim(s) == s[a..b];
  }

  /** A string that neither starts nor ends with a space is its own trim. */
  lemma TrimmedIsFixed(s: string)
    requires IsTrimmed(s)
    ensures Trim(s) == s
  {
  }

  /** The strings `trim` leaves unchanged are exactly those that neither start nor end with a space. */
  lemma TrimmedIffFixed(s: string)
    ensures IsTrimmed(s) <==> Trim(s) == s
  {
    TrimSlice(s);
  }

  /** Trimming twice is trimming once. */
  lemma TrimIdempotent(s: string)
    ensures Trim(Trim(s)) == Trim(s)
  {
    TrimSlice(s);
    TrimmedIsFixed(Trim(s));
  }

  /** `needle` occurs in `host` at position `k`. */
  ghost predicate OccursAt(host: string, needle: string, k: int)
  {
    0 <= k && k + |needle| <= |host| && host[k..k + |needle|] == needle
  }

  /** `host.includes(needle)`: `host` has `needle` as a contiguous substring. */
  function Contains(host: string, needle: string): bool
    decreases |host|
  {
    (|needle| <= |host| && host[..|needle|] == needle)
    || (host != [] && Contains(host[1..], needle))
  }

  /** An occurrence in `host[1..]` is an occurrence in `host` one position later. */
  lemma OccursShift(host: string, needle: string, k: int)
    requires host != [] && 0 <= k
    ensures OccursAt(host[1..], needle, k) <==> OccursAt(host, needle, k + 1)
  {
    if 0 <= k && k + 1 + |needle| <= |host| {
      assert host[1..][k..k + |needle|] == host[k + 1..k + 1 + |needle|];
    }
  }

  /** `Contains` holds exactly when `needle` occurs at some position of `host`. */
  lemma {:induction false} ContainsOccurs(host: string, needle: string)
    ensures Contains(host, needle) <==> exists k :: OccursAt(host, needle, k)
    decreases |host|
  {
    if |needle| <= |host| && host[..|needle|] == needle {
      assert OccursAt(host, needle, 0);
    } else if host == [] {
      assert forall k :: !OccursAt(host, needle, k);
    } else {
      ContainsOccurs(host[1..], needle);
      assert !OccursAt(host, needle, 0);
      if Contains(host[1..], needle) {
        var k :| OccursAt(host[1..], needle, k);
        OccursShift(host, needle, k);
      } else {
        forall k | OccursAt(host, needle, k)
          ensures false
        {
          OccursShift(host, needle, k - 1);
        }
      }
    }
  }

  /** Every string includes the empty string. */
  lemma ContainsEmpty(host: string)
    ensures Contains(host, "")
  {
  }

  /** A needle longer than the host, or whose first character the host lacks where it could start, is not contained. */
  lemma NotContained(host: string, needle: string)
    requires needle != []
    requires forall k :: 0 <= k && k + |needle| <= |host| ==> host[k] != needle[0]
    ensures !Contains(host, needle)
  {
    ContainsOccurs(host, needle);
  }
}
