/** `generateNonce` (functions/_middleware.js): a random version-4 UUID built
    by replacing every `x` and `y` of a fixed template, left to right, with a
    lower-case hex digit computed from one random draw.

    The random source is not modelled: each `Math.random() * 16 | 0` is an
    input `Nibble`, consumed in template order, so the generator becomes the
    pure function `Fill(Template, draws)`. */
module Nonce {
  import opened Common

  /** One draw `Math.random() * 16 | 0`: an integer in 0..15. */
  type Nibble = x: int | 0 <= x < 16

  /** The template handed to `String.prototype.replace`. */
  const Template: string := "xxxxxxxx-xxxx-4xxx-yxxx-xxxxxxxxxxxx"

  /** Number of random draws one nonce consumes (30 `x` and one `y`). */
  const NonceDraws: nat := 31

  // ---------------------------------------------------------------------------
  // Hex digits

  /** Value of a lower-case hex digit, `None` for any other character. */
  function HexValue(c: char): Option<Nibble>
  {
    if '0' <= c <= '9' then Some(c as int - '0' as int)
    else if 'a' <= c <= 'f' then Some(c as int - 'a' as int + 10)
    else None
  }

  predicate IsHexDigit(c: char)
  {
    HexValue(c).Some?
  }

  /** `v.toString(16)` for `v` in 0..15: exactly one lower-case hex digit,
      which reads back as `v`. */
  function HexDigit(v: Nibble): (c: char)
    ensures HexValue(c) == Some(v)
  {
    if v < 10 then ('0' as int + v) as char else ('a' as int + v - 10) as char
  }

  /** Every hex digit is written by `HexDigit` of its own value. */
  lemma HexDigitOfValue(c: char)
    requires IsHexDigit(c)
    ensures HexDigit(HexValue(c).value) == c
  {
  }

  // ---------------------------------------------------------------------------
  // The replace callback

  /** `r & 0x3 | 0x8`: keeps the two low bits of the draw and sets the two high
      bits to `10`, the variant of section 4.1.1 of RFC 4122. */
  function Variant(r: Nibble): (v: Nibble)
    ensures 8 <= v < 12
    ensures v % 4 == r % 4
  {
    (((r as bv4) & 0x3) | 0x8) as int
  }

  predicate IsPlaceholder(c: char)
  {
    c == 'x' || c == 'y'
  }

  /** The callback's `v`: the draw itself for `x`, its variant for `y`. */
  function Draw(c: char, r: Nibble): (v: Nibble)
    requires IsPlaceholder(c)
    ensures c == 'x' ==> v == r
    ensures c == 'y' ==> 8 <= v < 12 && v % 4 == r % 4
  {
    if c == 'x' then r else Variant(r)
  }

  /** How many times `replace` calls the callback on `t`, i.e. how many draws
      filling `t` consumes. */
  function Placeholders(t: string): (n: nat)
    ensures n <= |t|
  {
    if t == [] then 0
    else (if IsPlaceholder(t[0]) then 1 else 0) + Placeholders(t[1..])
  }

  /** `t.replace(/[xy]/g, callback)` with the callback's draws taken from
      `rs` in order. Filling consumes one draw per placeholder; should the
      draws run out, the remaining placeholders stay as they are (every
      caller below supplies `Placeholders(t)` draws). */
  function Fill(t: string, rs: seq<Nibble>): (s: string)
    ensures |s| == |t|
  {
    if t == [] then []
    else if IsPlaceholder(t[0]) && rs != [] then [HexDigit(Draw(t[0], rs[0]))] + Fill(t[1..], rs[1..])
    else [t[0]] + Fill(t[1..], rs)
  }

  lemma {:induction false} PlaceholdersPrefix(t: string, i: nat)
    requires i < |t|
    ensures Placeholders(t[..i + 1]) == Placeholders(t[..i]) + (if IsPlaceholder(t[i]) then 1 else 0)
    ensures Placeholders(t[..i]) + (if IsPlaceholder(t[i]) then 1 else 0) <= Placeholders(t)
  {
    if i == 0 {
      assert t[..1][1..] == [];
    } else {
      assert t[..i + 1][1..] == t[1..][..i];
      assert t[..i][1..] == t[1..][..i - 1];
      PlaceholdersPrefix(t[1..], i - 1);
    }
  }

  /** Character `i` of a filled template: fixed characters pass through, and a
      placeholder becomes the hex digit of the draw it consumed, which is the
      draw numbered by the placeholders before it. */
  lemma {:induction false} FillAt(t: string, rs: seq<Nibble>, i: nat)
    requires |rs| == Placeholders(t)
    requires i < |t|
    ensures Placeholders(t[..i]) + (if IsPlaceholder(t[i]) then 1 else 0) <= |rs|
    ensures !IsPlaceholder(t[i]) ==> Fill(t, rs)[i] == t[i]
    ensures IsPlaceholder(t[i]) ==> Fill(t, rs)[i] == HexDigit(Draw(t[i], rs[Placeholders(t[..i])]))
  {
    PlaceholdersPrefix(t, i);
    if i > 0 {
      assert t[..i][1..] == t[1..][..i - 1];
      if IsPlaceholder(t[0]) {
        FillAt(t[1..], rs[1..], i - 1);
      } else {
        FillAt(t[1..], rs, i - 1);
      }
    }
  }

  // ---------------------------------------------------------------------------
  // Reading a nonce back

  /** Whether character `c` can stand where the template has `tc`: any hex
      digit for `x`, one of `8 9 a b` for `y`, the character itself otherwise. */
  predicate Matches(tc: char, c: char)
  {
    if tc == 'x' then IsHexDigit(c)
    else if tc == 'y' then IsHexDigit(c) && 8 <= HexValue(c).value < 12
    else c == tc
  }

  predicate Fits(t: string, s: string)
  {
    |s| == |t| && forall i | 0 <= i < |t| :: Matches(t[i], s[i])
  }

  /** Inverse of `Fill`: recovers, from a string fitting `t`, the draws that
      produce it, choosing for a `y` the draw in 0..3. */
  function Unfill(t: string, s: string): (r: Option<seq<Nibble>>)
    ensures r.Some? ==> |r.value| == Placeholders(t)
  {
    if t == [] then (if s == [] then Some([]) else None)
    else if s == [] then None
    else if IsPlaceholder(t[0]) then
      match HexValue(s[0])
      case None => None
      case Some(v) =>
        if t[0] == 'y' && !(8 <= v < 12) then None
        else
          match Unfill(t[1..], s[1..])
          case None => None
          case Some(rest) => Some([if t[0] == 'x' then v else v - 8] + rest)
    else if s[0] == t[0] then Unfill(t[1..], s[1..])
    else None
  }

  /** The part of the draws that `Fill` keeps: an `x` draw whole, a `y` draw
      only modulo 4 (its two high bits are overwritten by `Variant`). */
  function Canonical(t: string, rs: seq<Nibble>): (cs: seq<Nibble>)
    requires |rs| == Placeholders(t)
    ensures |cs| == |rs|
  {
    if t == [] then []
    else if IsPlaceholder(t[0]) then [if t[0] == 'x' then rs[0] else rs[0] % 4] + Canonical(t[1..], rs[1..])
    else Canonical(t[1..], rs)
  }

  /** Reading back a filled template gives its draws, up to what `Variant`
      forgets. */
  lemma {:induction false} UnfillFill(t: string, rs: seq<Nibble>)
    requires |rs| == Placeholders(t)
    ensures Unfill(t, Fill(t, rs)) == Some(Canonical(t, rs))
  {
    if t != [] {
      var s := Fill(t, rs);
      if IsPlaceholder(t[0]) {
        assert s[1..] == Fill(t[1..], rs[1..]);
        UnfillFill(t[1..], rs[1..]);
      } else {
        assert s[1..] == Fill(t[1..], rs);
        UnfillFill(t[1..], rs);
      }
    }
  }

  /** Whatever `Unfill` accepts is produced by `Fill` from the draws it returns. */
  lemma {:induction false} FillUnfill(t: string, s: string)
    requires Unfill(t, s).Some?
    ensures Fill(t, Unfill(t, s).value) == s
  {
    if t != [] {
      var rs := Unfill(t, s).value;
      FillUnfill(t[1..], s[1..]);
      if IsPlaceholder(t[0]) {
        assert rs[1..] == Unfill(t[1..], s[1..]).value;
        HexDigitOfValue(s[0]);
      }
    }
  }

  /** `Unfill` accepts exactly the strings that fit the template. */
  lemma {:induction false} UnfillDefined(t: string, s: string)
    ensures Unfill(t, s).Some? <==> Fits(t, s)
  {
    if t != [] && s != [] {
      UnfillDefined(t[1..], s[1..]);
      if Fits(t, s) {
        assert forall i | 0 <= i < |t| - 1 :: t[1..][i] == t[i + 1] && s[1..][i] == s[i + 1];
      }
      if Fits(t[1..], s[1..]) && Matches(t[0], s[0]) {
        assert forall i | 1 <= i < |t| :: t[i] == t[1..][i - 1] && s[i] == s[1..][i - 1];
      }
    }
  }

  /** Every string `Fill` produces fits its template. */
  lemma FillFits(t: string, rs: seq<Nibble>)
    requires |rs| == Placeholders(t)
    ensures Fits(t, Fill(t, rs))
  {
    UnfillFill(t, rs);
    UnfillDefined(t, Fill(t, rs));
  }

  /** Two sequences of draws fill the template identically exactly when they
      agree on every `x` draw and on the low two bits of every `y` draw. */
  lemma FillCollision(t: string, rs1: seq<Nibble>, rs2: seq<Nibble>)
    requires |rs1| == Placeholders(t) && |rs2| == Placeholders(t)
    ensures Fill(t, rs1) == Fill(t, rs2) <==> Canonical(t, rs1) == Canonical(t, rs2)
  {
    UnfillFill(t, rs1);
    UnfillFill(t, rs2);
    FillUnfill(t, Fill(t, rs1));
    FillUnfill(t, Fill(t, rs2));
  }

  // ---------------------------------------------------------------------------
  // The nonce

  /** The textual layout of a version-4 UUID in lower case (sections 3 and 4.4
      of RFC 4122): 36 characters, hyphens at 8, 13, 18 and 23, the version
      digit `4` at 14, a variant digit `8`, `9`, `a` or `b` at 19, and a hex
      digit everywhere else. */
  predicate IsUuidV4(s: string)
  {
    && |s| == 36
    && s[8] == '-' && s[13] == '-' && s[18] == '-' && s[23] == '-'
    && s[14] == '4'
    && s[19] in "89ab"
    && forall i | 0 <= i < 36 && i !in {8, 13, 14, 18, 19, 23} :: IsHexDigit(s[i])
  }

  lemma TemplateAt(i: nat)
    requires i < |Template|
    ensures Template[i] == TemplateChar(i)
  {
  }

  /** Number of fixed (non-placeholder) template positions below `i`. */
  function FixedBelow(i: nat): nat
  {
    (if i > 8 then 1 else 0) + (if i > 13 then 1 else 0) + (if i > 14 then 1 else 0)
    + (if i > 18 then 1 else 0) + (if i > 23 then 1 else 0)
  }

  /** The template character at position `i`. */
  function TemplateChar(i: nat): char
  {
    if i in {8, 13, 18, 23} then '-' else if i == 14 then '4' else if i == 19 then 'y' else 'x'
  }

  lemma {:induction false} PrefixDraws(t: string, i: nat)
    requires |t| == 36 && i <= 36
    requires forall j | 0 <= j < 36 :: t[j] == TemplateChar(j)
    ensures Placeholders(t[..i]) == i - FixedBelow(i)
  {
    if i > 0 {
      PrefixDraws(t, i - 1);
      PlaceholdersPrefix(t, i - 1);
    }
  }

  lemma TemplateDraws()
    ensures Placeholders(Template) == NonceDraws
  {
    forall j | 0 <= j < 36 ensures Template[j] == TemplateChar(j) {
      TemplateAt(j);
    }
    PrefixDraws(Template, 36);
    assert Template[..36] == Template;
  }

  /** A string fits the template exactly when it is a lower-case version-4 UUID. */
  lemma UuidV4IffFits(s: string)
    ensures IsUuidV4(s) <==> Fits(Template, s)
  {
    if IsUuidV4(s) {
      forall i | 0 <= i < |Template| ensures Matches(Template[i], s[i]) {
        TemplateAt(i);
      }
    }
    if Fits(Template, s) {
      forall i | 0 <= i < 36 && i !in {8, 13, 14, 18, 19, 23} ensures IsHexDigit(s[i]) {
        TemplateAt(i);
      }
      TemplateAt(19);
    }
  }

  /** `generateNonce()` with its 31 draws given: a lower-case version-4 UUID. */
  function GenerateNonce(rs: seq<Nibble>): (nonce: string)
    requires |rs| == NonceDraws
    ensures IsUuidV4(nonce)
  {
    TemplateDraws();
    FillFits(Template, rs);
    UuidV4IffFits(Fill(Template, rs));
    Fill(Template, rs)
  }

  /** The nonces `generateNonce` can return are exactly the lower-case
      version-4 UUIDs. */
  lemma NonceImage(s: string)
    ensures IsUuidV4(s) <==> exists rs: seq<Nibble> :: |rs| == NonceDraws && GenerateNonce(rs) == s
  {
    if IsUuidV4(s) {
      TemplateDraws();
      UuidV4IffFits(s);
      UnfillDefined(Template, s);
      FillUnfill(Template, s);
      var rs := Unfill(Template, s).value;
      assert GenerateNonce(rs) == s;
    }
  }

  /** Which character of the nonce each draw becomes: draw `k` (counted from
      0) lands at the `k`-th placeholder of the template. */
  lemma NonceAt(rs: seq<Nibble>, i: nat)
    requires |rs| == NonceDraws && i < 36
    ensures Placeholders(Template[..i]) + (if IsPlaceholder(Template[i]) then 1 else 0) <= NonceDraws
    ensures IsPlaceholder(Template[i]) ==> GenerateNonce(rs)[i] == HexDigit(Draw(Template[i], rs[Placeholders(Template[..i])]))
  {
    TemplateDraws();
    FillAt(Template, rs, i);
  }

  /** A nonce holds only hex digits and hyphens, so it never contains the
      quote that ends a CSP source expression. */
  lemma NonceAlphabet(n: string)
    requires IsUuidV4(n)
    ensures forall i | 0 <= i < |n| :: IsHexDigit(n[i]) || n[i] == '-'
    ensures '\'' !in n
  {
  }
}
