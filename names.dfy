/**
 The QB name extractor: the leftmost match of the regular expression
 `(\w+(?:,)? \w+).*` in a free-text cell, its first group trimmed.
 The regular expression is not interpreted in general; the scanner below follows
 what a backtracking matcher does on this one pattern, and the lemmas relate it to
 a declarative description of the pattern.
 */
module Names {
  import opened Wrappers
  import opened Text

  /** `\w` without the `u` flag: an ASCII letter, a digit or the underscore. */
  predicate IsWordChar(c: char)
  {
    ('A' <= c <= 'Z') || ('a' <= c <= 'z') || ('0' <= c <= '9') || c == '_'
  }

  /** The end of the longest run of word characters starting at `i` (greedy `\w*`). */
  function RunEnd(s: string, i: nat): (j: nat)
    requires i <= |s|
    ensures i <= j <= |s|
    decreases |s| - i
  {
    if i < |s| && IsWordChar(s[i]) then RunEnd(s, i + 1) else i
  }

  /** The run `RunEnd` measures is all word characters, and it cannot be extended. */
  lemma {:induction false} RunEndSpec(s: string, i: nat)
    requires i <= |s|
    ensures forall x :: i <= x < RunEnd(s, i) ==> IsWordChar(s[x])
    ensures RunEnd(s, i) == |s| || !IsWordChar(s[RunEnd(s, i)])
    decreases |s| - i
  {
    if i < |s| && IsWordChar(s[i]) {
      RunEndSpec(s, i + 1);
    }
  }

  /**
   After the first run, ending at `j`: the optional comma and the one space
   `(?:,)? `, giving where the second run starts.
   */
  function SeparatorEnd(s: string, j: nat): (k: Option<nat>)
    requires j <= |s|
  {
    if j < |s| && s[j] == ' ' then Some(j + 1)
    else if j + 1 < |s| && s[j] == ',' && s[j + 1] == ' ' then Some(j + 2)
    else None
  }

  /**
   The end of the group `\w+(?:,)? \w+` when a match starts at `i`. Shortening
   the first run leaves a word character where the comma or space must be, and
   declining the comma leaves a comma where the space must be; neither can
   succeed, so the greedy choice is the only one. The trailing `.*` always matches.
   */
  function MatchAt(s: string, i: nat): (e: Option<nat>)
    requires i <= |s|
    ensures e.Some? ==> i < e.value <= |s|
  {
    var j := RunEnd(s, i);
    if j == i then None
    else
      match SeparatorEnd(s, j)
      case None => None
      case Some(k) =>
        var e := RunEnd(s, k);
        if e == k then None else Some(e)
  }

  /** `exec` tries the start positions `i`, `i + 1`, ... in turn. */
  function Scan(s: string, i: nat): (r: Option<(nat, nat)>)
    requires i <= |s|
    ensures r.Some? ==> i <= r.value.0 < r.value.1 <= |s|
    decreases |s| - i
  {
    match MatchAt(s, i)
    case Some(e) => Some((i, e))
    case None => if i == |s| then None else Scan(s, i + 1)
  }

  /** `extractName(rowData)`: the trimmed group of the leftmost match, or `undefined`. */
  function ExtractName(s: string): Option<string>
  {
    match Scan(s, 0)
    case None => None
    case Some((i, e)) => Some(Trim(s[i..e]))
  }

  // ---------------------------------------------------------------------------
  // The pattern, stated declaratively

  /**
   `s[i..e]` is a word run `s[i..j]`, then `" "` or `", "` as `s[j..k]`, then a
   word run `s[k..e]`.
   */
  ghost predicate Shape(s: string, i: int, j: int, k: int, e: int)
  {
    && 0 <= i < j < k < e <= |s|
    && (forall x :: i <= x < j ==> IsWordChar(s[x]))
    && (s[j..k] == " " || s[j..k] == ", ")
    && (forall x :: k <= x < e ==> IsWordChar(s[x]))
  }

  /** The group of the pattern matches `s[i..e]`. */
  ghost predicate PatternAt(s: string, i: int, e: int)
  {
    exists j, k :: Shape(s, i, j, k, e)
  }

  /** The pattern occurs somewhere in `s`. */
  ghost predicate Occurs(s: string)
  {
    exists i, e :: PatternAt(s, i, e)
  }

  /** A run that is followed by a non-word character ends where `RunEnd` says. */
  lemma RunEndExact(s: string, i: nat, j: nat)
    requires i <= j < |s|
    requires forall x :: i <= x < j ==> IsWordChar(s[x])
    requires !IsWordChar(s[j])
    ensures RunEnd(s, i) == j
  {
    RunEndSpec(s, i);
  }

  /** A run of word characters never extends past `RunEnd`. */
  lemma RunEndBound(s: string, i: nat, e: nat)
    requires i <= e <= |s|
    requires forall x :: i <= x < e ==> IsWordChar(s[x])
    ensures e <= RunEnd(s, i)
  {
    RunEndSpec(s, i);
  }

  /**
   `MatchAt` finds the group at `i` exactly when the pattern matches there, and
   then it returns the longest such match.
   */
  lemma MatchAtSpec(s: string, i: nat)
    requires i <= |s|
    ensures MatchAt(s, i).Some? ==> PatternAt(s, i, MatchAt(s, i).value)
    ensures forall e :: PatternAt(s, i, e) ==> MatchAt(s, i).Some? && e <= MatchAt(s, i).value
  {
    var j := RunEnd(s, i);
    RunEndSpec(s, i);
    if MatchAt(s, i).Some? {
      var k := SeparatorEnd(s, j).value;
      var e := RunEnd(s, k);
      RunEndSpec(s, k);
      if k == j + 1 {
        assert s[j..k] == [s[j]] == " ";
      } else {
        assert s[j..k] == [s[j], s[j + 1]] == ", ";
      }
      assert Shape(s, i, j, k, e);
    }
    forall e | PatternAt(s, i, e)
      ensures MatchAt(s, i).Some? && e <= MatchAt(s, i).value
    {
      var j', k' :| Shape(s, i, j', k', e);
      assert s[j'] == s[j'..k'][0];
      RunEndExact(s, i, j');
      if s[j'..k'] == " " {
        assert s[j'] == ' ';
        assert SeparatorEnd(s, j') == Some(k');
      } else {
        assert s[j'] == ',' && s[j' + 1] == s[j'..k'][1] == ' ';
        assert SeparatorEnd(s, j') == Some(k');
      }
      RunEndBound(s, k', e);
    }
  }

  /** `Scan` from `i` finds the first start position at or after `i` where the group matches. */
  lemma {:induction false} ScanSpec(s: string, i: nat)
    requires i <= |s|
    ensures Scan(s, i).None? ==> forall a :: i <= a <= |s| ==> MatchAt(s, a).None?
    ensures Scan(s, i).Some? ==> && MatchAt(s, Scan(s, i).value.0) == Some(Scan(s, i).value.1)
                                  && forall b :: i <= b < Scan(s, i).value.0 ==> MatchAt(s, b).None?
    decreases |s| - i
  {
    if MatchAt(s, i).None? && i < |s| {
      ScanSpec(s, i + 1);
    }
  }

  /** When no start position matches, the pattern occurs nowhere. */
  lemma NoMatchNoPattern(s: string)
    requires forall a :: 0 <= a <= |s| ==> MatchAt(s, a).None?
    ensures !Occurs(s)
  {
    forall a, e | PatternAt(s, a, e)
      ensures false
    {
      var j, k :| Shape(s, a, j, k, e);
      MatchAtSpec(s, a);
    }
  }

  /** The group found at `i` is the pattern's leftmost, longest match, and it is trimmed. */
  lemma FoundMatch(s: string, i: nat, e: nat)
    requires i <= |s| && MatchAt(s, i) == Some(e)
    requires forall b :: 0 <= b < i ==> MatchAt(s, b).None?
    ensures PatternAt(s, i, e)
    ensures forall a, e' :: 0 <= a < i ==> !PatternAt(s, a, e')
    ensures forall e' :: PatternAt(s, i, e') ==> e' <= e
    ensures IsTrimmed(s[i..e])
  {
    MatchAtSpec(s, i);
    var j, k :| Shape(s, i, j, k, e);
    IsWordCharNotSpace(s[i]);
    IsWordCharNotSpace(s[e - 1]);
    forall a, e' | 0 <= a < i
      ensures !PatternAt(s, a, e')
    {
      MatchAtSpec(s, a);
    }
  }

  /**
   The extractor is defined exactly when the pattern occurs. Its result is the
   group of the leftmost match, extended greedily to the longest match at that
   position; no trimming is needed, because the group starts and ends with a
   word character.
   */
  lemma ExtractNameSpec(s: string)
    ensures ExtractName(s).Some? <==> Occurs(s)
    ensures ExtractName(s).Some? ==>
      exists i, e :: && PatternAt(s, i, e) && ExtractName(s).value == s[i..e]
                     && (forall a, e' :: 0 <= a < i ==> !PatternAt(s, a, e'))
                     && (forall e' :: PatternAt(s, i, e') ==> e' <= e)
    ensures ExtractName(s).Some? ==> IsTrimmed(ExtractName(s).value)
  {
    ScanSpec(s, 0);
    match Scan(s, 0)
    case None =>
      NoMatchNoPattern(s);
    case Some((i, e)) =>
      FoundMatch(s, i, e);
      TrimmedIsFixed(s[i..e]);
      assert ExtractName(s).value == s[i..e];
  }

  /** No word character is a space character. */
  lemma IsWordCharNotSpace(c: char)
    requires IsWordChar(c)
    ensures !IsSpace(c)
  {
  }

  /**
   Without a space there is no separator, so nothing is extracted: a single token,
   the empty string, a number's digits, or the text `"undefined"` that `exec`
   makes of a missing cell.
   */
  lemma NoSpaceNoName(s: string)
    requires forall x :: 0 <= x < |s| ==> s[x] != ' '
    ensures ExtractName(s) == None
  {
    forall a | 0 <= a <= |s|
      ensures MatchAt(s, a).None?
    {
      assert SeparatorEnd(s, RunEnd(s, a)).None?;
    }
    ScanSpec(s, 0);
  }

  /** Text without any word character, such as blank text, yields no name. */
  lemma NoWordNoName(s: string)
    requires forall x :: 0 <= x < |s| ==> !IsWordChar(s[x])
    ensures ExtractName(s) == None
  {
    forall a | 0 <= a <= |s|
      ensures MatchAt(s, a).None?
    {
      assert RunEnd(s, a) == a;
    }
    ScanSpec(s, 0);
  }

  /**
   A span of the pattern's shape whose second run cannot be extended, with no
   match at any earlier start, is what the extractor returns.
   */
  lemma ShapeMatch(s: string, i: nat, j: nat, k: nat, e: nat)
    requires Shape(s, i, j, k, e) && (e == |s| || !IsWordChar(s[e]))
    ensures MatchAt(s, i) == Some(e)
  {
    assert s[j] == s[j..k][0];
    RunEndExact(s, i, j);
    if s[j..k] == " " {
      assert SeparatorEnd(s, j) == Some(k);
    } else {
      assert s[j + 1] == s[j..k][1];
      assert SeparatorEnd(s, j) == Some(k);
    }
    RunEndBound(s, k, e);
    if e < |s| {
      RunEndExact(s, k, e);
    }
  }

  /** A maximal shape with no match before it is what `extractName` returns. */
  lemma ExtractAt(s: string, i: nat, j: nat, k: nat, e: nat)
    requires Shape(s, i, j, k, e) && (e == |s| || !IsWordChar(s[e]))
    requires forall b :: 0 <= b < i ==> MatchAt(s, b).None?
    ensures ExtractName(s) == Some(s[i..e])
  {
    ShapeMatch(s, i, j, k, e);
    ScanSpec(s, 0);
    assert Scan(s, 0) == Some((i, e));
    IsWordCharNotSpace(s[i..e][0]);
    IsWordCharNotSpace(s[i..e][e - i - 1]);
    TrimmedIsFixed(s[i..e]);
  }

  /**
   No match starts inside, or right after, a word run that is not followed by a
   separator: every such start reaches the same dead end.
   */
  lemma NoStartInRun(s: string, a: nat, j: nat)
    requires a <= j < |s|
    requires forall x :: a <= x < j ==> IsWordChar(s[x])
    requires !IsWordChar(s[j]) && SeparatorEnd(s, j).None?
    ensures forall b :: a <= b <= j ==> MatchAt(s, b).None?
  {
    forall b | a <= b <= j
      ensures MatchAt(s, b).None?
    {
      RunEndExact(s, b, j);
    }
  }

  /** A string made of a word, a separator, a word and a tail that starts with no word character. */
  lemma ExtractParts(first: string, sep: string, second: string, tail: string)
    requires first != [] && forall x :: 0 <= x < |first| ==> IsWordChar(first[x])
    requires sep == " " || sep == ", "
    requires second != [] && forall x :: 0 <= x < |second| ==> IsWordChar(second[x])
    requires tail == [] || !IsWordChar(tail[0])
    ensures ExtractName(first + sep + second + tail) == Some(first + sep + second)
  {
    var s := first + sep + second + tail;
    var j := |first|;
    var k := j + |sep|;
    var e := k + |second|;
    assert s[j..k] == sep;
    assert s[..e] == first + sep + second;
    assert s[0..e] == s[..e];
    ExtractAt(s, 0, j, k, e);
  }

  // The examples below take their strings as parameters equal to literals: with the
  // literals written into the ensures, the solver evaluates every function on them eagerly.

  /** "Smith, John extra text" gives "Smith, John": the comma form, cut before the third token. */
  lemma ExtractCommaName(s: string)
    requires s == "Smith, John extra text"
    ensures ExtractName(s) == Some("Smith, John")
  {
    assert s[5..7] == ", " && s[11] == ' ';
    ExtractAt(s, 0, 5, 7, 11);
    assert s[0..11] == "Smith, John";
  }

  /** "John Smith more text" gives "John Smith". */
  lemma ExtractSpaceName(s: string)
    requires s == "John Smith more text"
    ensures ExtractName(s) == Some("John Smith")
  {
    assert s[4..5] == " " && s[10] == ' ';
    ExtractAt(s, 0, 4, 5, 10);
    assert s[0..10] == "John Smith";
  }

  /** A single token, the empty string and "undefined" (the text of a missing cell) give no name. */
  lemma ExtractNoName()
    ensures ExtractName("John") == None
    ensures ExtractName("") == None
    ensures ExtractName("undefined") == None
  {
    NoSpaceNoName("John");
    NoSpaceNoName("");
    NoSpaceNoName("undefined");
  }
}
