/** Small helpers shared by the middleware model: an optional value and the
    string operations the middleware calls (`startsWith`, `includes`, ASCII
    lower-casing of header names). */
module Common {

  datatype Option<+T> = None | Some(value: T)

  /** `String.prototype.startsWith`: `prefix` is a prefix of `s`. */
  predicate StartsWith(s: string, prefix: string)
  {
    |prefix| <= |s| && s[..|prefix|] == prefix
  }

  /** `sub` occurs in `s` starting at offset `i`. */
  predicate OccursAt(s: string, sub: string, i: int)
  {
    0 <= i <= |s| - |sub| && s[i..i + |sub|] == sub
  }

  /** `String.prototype.includes`: `sub` occurs in `s` at some offset (case-sensitive). */
  predicate Includes(s: string, sub: string)
  {
    exists i | 0 <= i <= |s| - |sub| :: OccursAt(s, sub, i)
  }

  /** ASCII lower-casing of one character: `A`-`Z` move to `a`-`z`, every
      other character is kept, and no upper-case letter remains. */
  function LowerChar(c: char): (d: char)
    ensures 'A' <= c <= 'Z' ==> d as int == c as int + 32
    ensures !('A' <= c <= 'Z') ==> d == c
    ensures !('A' <= d <= 'Z')
  {
    if 'A' <= c <= 'Z' then (c as int + 32) as char else c
  }

  /** Byte-wise ASCII lower-casing, which the Fetch `Headers` object applies to
      every header name it stores or looks up. */
  function Lower(s: string): (r: string)
    ensures |r| == |s|
  {
    seq(|s|, i requires 0 <= i < |s| => LowerChar(s[i]))
  }

  /** Every key of `m` is a lower-cased name, as the header names of a
      `Headers` object and the attribute names of an HTML element are. */
  predicate LowerKeyed(m: map<string, string>)
  {
    forall k | k in m :: Lower(k) == k
  }

  /** Lower-casing an already lower-cased name changes nothing, so a name
      stored lower-cased is found again by the same lower-cased lookup. */
  lemma LowerIdempotent(s: string)
    ensures Lower(Lower(s)) == Lower(s)
  {
    forall i | 0 <= i < |s|
      ensures Lower(Lower(s))[i] == Lower(s)[i]
    {
    }
  }
}
