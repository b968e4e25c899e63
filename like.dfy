/**
 * PostgreSQL's `LIKE` / `ILIKE` pattern matching, as used by drizzle's `ilike`
 * operator: `%` matches any run of characters, `_` exactly one, and a backslash
 * makes the next pattern character literal. `ILIKE` compares the lower-cased
 * string with the lower-cased pattern (ASCII case folding). A pattern ending in a
 * lone backslash is matched as if the backslash were literal.
 */
module Like {
  import opened Ascii

  predicate IsWildcard(c: char) { c == '%' || c == '_' || c == '\\' }

  /** A pattern holding none of `%`, `_` or `\`: every character stands for itself. */
  predicate Plain(p: string) { forall i :: 0 <= i < |p| ==> !IsWildcard(p[i]) }

  /** Case-sensitive `s LIKE p`. */
  predicate Matches(s: string, p: string)
    decreases |s| + |p|
  {
    if p == [] then s == []
    else if p[0] == '%' then Matches(s, p[1..]) || (s != [] && Matches(s[1..], p))
    else if p[0] == '_' then s != [] && Matches(s[1..], p[1..])
    else if p[0] == '\\' && |p| >= 2 then s != [] && s[0] == p[1] && Matches(s[1..], p[2..])
    else s != [] && s[0] == p[0] && Matches(s[1..], p[1..])
  }

  /** `s ILIKE p`. */
  predicate IMatches(s: string, p: string)
  {
    Matches(Lower(s), Lower(p))
  }

  /** Without wildcards, `LIKE` is plain string equality. */
  lemma {:induction false} PlainMatchesIffEqual(s: string, p: string)
    requires Plain(p)
    ensures Matches(s, p) <==> s == p
    decreases |p|
  {
    if p != [] {
      assert !IsWildcard(p[0]);
      assert Plain(p[1..]) by {
        forall i | 0 <= i < |p[1..]| ensures !IsWildcard(p[1..][i]) { assert p[1..][i] == p[i + 1]; }
      }
      if s != [] {
        PlainMatchesIffEqual(s[1..], p[1..]);
        if s[0] == p[0] && s[1..] == p[1..] {
          assert s == [s[0]] + s[1..] && p == [p[0]] + p[1..];
        }
      }
    }
  }

  /** Lower-casing never introduces a wildcard character. */
  lemma LowerKeepsPlain(p: string)
    requires Plain(p)
    ensures Plain(Lower(p))
  {
    forall i | 0 <= i < |p| ensures !IsWildcard(Lower(p)[i]) {
      assert !IsWildcard(p[i]);
    }
  }

  /**
   * For an argument free of `%`, `_` and `\`, `ILIKE` is exactly case-insensitive
   * equality, the same test as `LOWER(a) = LOWER(b)`.
   */
  lemma PlainIMatchesIffSameLower(s: string, p: string)
    requires Plain(p)
    ensures IMatches(s, p) <==> SameLower(s, p)
  {
    LowerKeepsPlain(p);
    PlainMatchesIffEqual(Lower(s), Lower(p));
  }

  /** The pattern `%` matches every string. */
  lemma {:induction false} PercentMatchesAll(s: string)
    ensures Matches(s, "%")
    decreases |s|
  {
    if s != [] {
      PercentMatchesAll(s[1..]);
    }
  }
}
