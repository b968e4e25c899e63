/**
 * String helpers shared by every handler: ASCII case folding (SQL `LOWER`/`UPPER`,
 * JavaScript `toLowerCase`), `startsWith`, `split('/').pop()` and `join`.
 */
module Ascii {

  predicate IsUpper(c: char) { 'A' <= c <= 'Z' }
  predicate IsLower(c: char) { 'a' <= c <= 'z' }

  function LowerChar(c: char): (r: char)
    ensures !IsUpper(r)
    ensures IsUpper(c) ==> IsLower(r) && UpperChar(r) == c
    ensures !IsUpper(c) ==> r == c
  {
    if IsUpper(c) then (c as int + 32) as char else c
  }

  function UpperChar(c: char): (r: char)
    ensures !IsLower(r)
    ensures IsLower(c) ==> IsUpper(r)
    ensures !IsLower(c) ==> r == c
  {
    if IsLower(c) then (c as int - 32) as char else c
  }

  /** Lower-cases every ASCII letter and keeps every other character. */
  function Lower(s: string): (r: string)
    ensures |r| == |s|
    ensures forall i :: 0 <= i < |s| ==> r[i] == LowerChar(s[i])
  {
    seq(|s|, i requires 0 <= i < |s| => LowerChar(s[i]))
  }

  /** Upper-cases every ASCII letter and keeps every other character. */
  function Upper(s: string): (r: string)
    ensures |r| == |s|
    ensures forall i :: 0 <= i < |s| ==> r[i] == UpperChar(s[i])
  {
    seq(|s|, i requires 0 <= i < |s| => UpperChar(s[i]))
  }

  /** Equality under `LOWER(a) = LOWER(b)`. */
  predicate SameLower(a: string, b: string) { Lower(a) == Lower(b) }

  /** Equality under `UPPER(a) = UPPER(b)`. */
  predicate SameUpper(a: string, b: string) { Upper(a) == Upper(b) }

  lemma LowerCharEqIffUpperCharEq(a: char, b: char)
    ensures LowerChar(a) == LowerChar(b) <==> UpperChar(a) == UpperChar(b)
  {
  }

  /**
   * Over ASCII, comparing by `LOWER` and comparing by `UPPER` agree, so the
   * lookups that use one and the lookups that use the other find the same rows.
   */
  lemma SameLowerIffSameUpper(a: string, b: string)
    ensures SameLower(a, b) <==> SameUpper(a, b)
  {
    if SameLower(a, b) {
      forall i | 0 <= i < |a| ensures Upper(a)[i] == Upper(b)[i] {
        assert Lower(a)[i] == Lower(b)[i];
        LowerCharEqIffUpperCharEq(a[i], b[i]);
      }
    }
    if SameUpper(a, b) {
      forall i | 0 <= i < |a| ensures Lower(a)[i] == Lower(b)[i] {
        assert Upper(a)[i] == Upper(b)[i];
        LowerCharEqIffUpperCharEq(a[i], b[i]);
      }
    }
  }

  /** Lower-casing forgets the case the caller typed: `LOWER(UPPER(n)) = LOWER(n)`. */
  lemma LowerOfUpper(s: string)
    ensures Lower(Upper(s)) == Lower(s)
  {
    forall i | 0 <= i < |s| ensures Lower(Upper(s))[i] == Lower(s)[i] {
      assert Upper(s)[i] == UpperChar(s[i]);
    }
  }

  predicate StartsWith(s: string, prefix: string)
  {
    |prefix| <= |s| && s[..|prefix|] == prefix
  }

  /**
   * `s.split('/').pop()`: the part of `s` after its last slash, or all of `s`
   * when it has none.
   */
  function LastSegment(s: string): (r: string)
    ensures '/' !in r
    ensures |r| <= |s| && r == s[|s| - |r|..]
    ensures |r| < |s| ==> s[|s| - |r| - 1] == '/'
    decreases |s|
  {
    if s == [] then []
    else if s[|s| - 1] == '/' then []
    else
      var init := s[..|s| - 1];
      var rest := LastSegment(init);
      assert s[|s| - |rest| - 1..] == init[|init| - |rest|..] + [s[|s| - 1]];
      rest + [s[|s| - 1]]
  }

  /** Whatever precedes the last slash does not matter to `split('/').pop()`. */
  lemma {:induction false} LastSegmentAfterSlash(prefix: string, segment: string)
    requires '/' !in segment
    ensures LastSegment(prefix + "/" + segment) == segment
    decreases |segment|
  {
    var s := prefix + "/" + segment;
    if segment == [] {
      assert s[|s| - 1] == '/';
    } else {
      var init := segment[..|segment| - 1];
      assert s[..|s| - 1] == prefix + "/" + init;
      assert '/' !in init by {
        forall i | 0 <= i < |init| ensures init[i] != '/' { assert init[i] == segment[i]; }
      }
      LastSegmentAfterSlash(prefix, init);
      assert segment == init + [segment[|segment| - 1]];
    }
  }

  /** `parts.join(sep)`. */
  function Join(parts: seq<string>, sep: string): (r: string)
    ensures |parts| == 1 ==> r == parts[0]
    ensures parts == [] ==> r == ""
  {
    if parts == [] then ""
    else if |parts| == 1 then parts[0]
    else parts[0] + sep + Join(parts[1..], sep)
  }

  /** One more part is appended after one more separator, so the parts keep their order. */
  lemma {:induction false} JoinSnoc(parts: seq<string>, last: string, sep: string)
    requires parts != []
    ensures Join(parts + [last], sep) == Join(parts, sep) + sep + last
    decreases |parts|
  {
    if |parts| > 1 {
      assert (parts + [last])[1..] == parts[1..] + [last];
      JoinSnoc(parts[1..], last, sep);
    }
  }
}
