/** The Content-Security-Policy value `onRequest` builds for an HTML response
    (functions/_middleware.js): nine directives, the second of which admits
    scripts carrying the request's nonce, joined by single spaces. */
module Csp {
  import opened Common

  /** Where part `k` starts in `Join(parts, sep)`: every earlier part and the
      separator after it come first. */
  function Offset(parts: seq<string>, sep: string, k: nat): nat
    requires k <= |parts|
  {
    if k == 0 then 0 else |parts[0]| + |sep| + Offset(parts[1..], sep, k - 1)
  }

  /** `Array.prototype.join(sep)`: the parts in order with `sep` between
      neighbours; `""` for no parts. */
  function Join(parts: seq<string>, sep: string): (r: string)
    ensures parts == [] ==> r == ""
    // the last part ends the joined string
    ensures parts != [] ==> |r| == Offset(parts, sep, |parts| - 1) + |parts[|parts| - 1]|
  {
    if |parts| == 0 then ""
    else if |parts| == 1 then parts[0]
    else parts[0] + sep + Join(parts[1..], sep)
  }

  lemma OccursShift(prefix: string, s: string, sub: string, i: int)
    requires OccursAt(s, sub, i)
    ensures OccursAt(prefix + s, sub, |prefix| + i)
  {
  }

  /** What occurs in a part occurs in the whole, shifted by the part's offset. */
  lemma OccursWithin(s: string, part: string, i: int, sub: string, j: int)
    requires OccursAt(s, part, i) && OccursAt(part, sub, j)
    ensures OccursAt(s, sub, i + j)
  {
    assert forall t | 0 <= t < |part| :: s[i + t] == s[i..i + |part|][t] == part[t];
    assert s[i + j..i + j + |sub|] == part[j..j + |sub|];
  }

  /** `Join` lays the parts out in order: part `k` occurs at `Offset(k)`. */
  lemma {:induction false} JoinPartAt(parts: seq<string>, sep: string, k: nat)
    requires k < |parts|
    ensures OccursAt(Join(parts, sep), parts[k], Offset(parts, sep, k))
  {
    if |parts| > 1 {
      var rest := Join(parts[1..], sep);
      var head := parts[0] + sep;
      assert Join(parts, sep) == head + rest;
      if k == 0 {
        assert (head + rest)[..|parts[0]|] == parts[0];
      } else {
        JoinPartAt(parts[1..], sep, k - 1);
        OccursShift(head, rest, parts[k], Offset(parts[1..], sep, k - 1));
      }
    }
  }

  /** A separator follows every part but the last. */
  lemma {:induction false} JoinSepAt(parts: seq<string>, sep: string, k: nat)
    requires k + 1 < |parts|
    ensures OccursAt(Join(parts, sep), sep, Offset(parts, sep, k) + |parts[k]|)
  {
    var rest := Join(parts[1..], sep);
    var head := parts[0] + sep;
    assert Join(parts, sep) == head + rest;
    if k == 0 {
      assert (head + rest)[|parts[0]|..|parts[0]| + |sep|] == sep;
    } else {
      JoinSepAt(parts[1..], sep, k - 1);
      OccursShift(head, rest, sep, Offset(parts[1..], sep, k - 1) + |parts[k]|);
    }
  }

  /** Marker that opens a nonce source expression. */
  const NonceMarker: string := "'nonce-"

  /** The first directive: everything else defaults to the site's own origin. */
  const DefaultSrc: string := "default-src 'self';"

  /** The script directive up to the nonce. */
  const ScriptLead: string := "script-src 'self' "

  /** The external script origins the policy admits besides the nonce. */
  const ScriptSources: string := " https://www.googletagmanager.com https://cdn.jsdelivr.net;"

  /** The directive that governs scripts, with the nonce embedded as the
      source expression `'nonce-N'` right after `script-src 'self' `. */
  function ScriptSrc(nonce: string): (d: string)
    ensures StartsWith(d, ScriptLead)
    ensures OccursAt(d, NonceMarker + nonce + "'", |ScriptLead|)
  {
    assert ScriptLead + NonceMarker + nonce + "'" + ScriptSources
        == ScriptLead + (NonceMarker + nonce + "'") + ScriptSources;
    ScriptLead + NonceMarker + nonce + "'" + ScriptSources
  }

  /** The nine directives, in the order the middleware lists them. */
  function Directives(nonce: string): (ds: seq<string>)
    ensures |ds| == 9
  {
    [DefaultSrc, ScriptSrc(nonce)] + LaterDirectives
  }

  /** The seven directives after the script directive, none depending on the
      nonce. */
  const LaterDirectives: seq<string> := [
    "style-src 'self' 'unsafe-inline';",
    "font-src 'self';",
    "img-src 'self' data: raw.githubusercontent.com;",
    "frame-src 'self' https://www.googletagmanager.com;",
    "connect-src 'self' https://www.google-analytics.com;",
    "object-src 'none';",
    "base-uri 'self';"
  ]

  /** The header value: the directives joined by a single space. */
  function Policy(nonce: string): string
  {
    Join(Directives(nonce), " ")
  }

  /** The policy holds each directive, in order, separated by single spaces;
      together these fix every character of the policy. */
  lemma PolicyLayout(nonce: string, k: nat)
    requires k < 9
    ensures OccursAt(Policy(nonce), Directives(nonce)[k], Offset(Directives(nonce), " ", k))
    ensures k < 8 ==> OccursAt(Policy(nonce), " ", Offset(Directives(nonce), " ", k) + |Directives(nonce)[k]|)
    ensures k == 8 ==> |Policy(nonce)| == Offset(Directives(nonce), " ", k) + |Directives(nonce)[k]|
  {
    JoinPartAt(Directives(nonce), " ", k);
    if k < 8 {
      JoinSepAt(Directives(nonce), " ", k);
    }
  }

  /** The nonce source expression sits inside the policy's second directive,
      the script directive. */
  lemma NonceInScriptDirective(nonce: string)
    ensures Directives(nonce)[1] == ScriptSrc(nonce)
    ensures OccursAt(Policy(nonce), NonceMarker + nonce + "'", Offset(Directives(nonce), " ", 1) + |ScriptLead|)
  {
    var ds := Directives(nonce);
    JoinPartAt(ds, " ", 1);
    OccursWithin(Policy(nonce), ds[1], Offset(ds, " ", 1), NonceMarker + nonce + "'", |ScriptLead|);
  }

  // ---------------------------------------------------------------------------
  // Reading the nonce back out of a policy: the value of the first
  // `'nonce-...'` source expression anywhere in the string. This is a plain
  // text search, not a directive-aware parse; `NonceInScriptDirective` shows
  // that in this policy that expression lies inside the script directive.

  /** The characters before the first `'`; `None` if there is none. */
  function TakeQuoted(s: string): (r: Option<string>)
    ensures r.Some? ==> '\'' !in r.value
  {
    if s == [] then None
    else if s[0] == '\'' then Some([])
    else match TakeQuoted(s[1..])
      case None => None
      case Some(v) => Some([s[0]] + v)
  }

  /** The value of the first `'nonce-...'` source expression in the string,
      read up to its closing quote. */
  function FindNonce(policy: string): Option<string>
  {
    if |policy| < |NonceMarker| then None
    else if policy[..|NonceMarker|] == NonceMarker then TakeQuoted(policy[|NonceMarker|..])
    else FindNonce(policy[1..])
  }

  lemma {:induction false} TakeQuotedUpTo(v: string, rest: string)
    requires '\'' !in v
    ensures TakeQuoted(v + "'" + rest) == Some(v)
  {
    if v == [] {
      assert v + "'" + rest == "'" + rest;
    } else {
      assert v[0] in v;
      assert forall c | c in v[1..] :: c in v;
      assert (v + "'" + rest)[1..] == v[1..] + "'" + rest;
      TakeQuotedUpTo(v[1..], rest);
      assert [v[0]] + v[1..] == v;
    }
  }

  /** A lead-in holding no `n` and not ending in a quote cannot hold the start
      of a nonce marker, so the search skips it. */
  lemma {:induction false} FindNonceSkips(lead: string, rest: string)
    requires 'n' !in lead
    requires lead != [] ==> lead[|lead| - 1] != '\''
    ensures FindNonce(lead + rest) == FindNonce(rest)
  {
    if lead != [] {
      var s := lead + rest;
      assert forall c | c in lead[1..] :: c in lead;
      assert lead[1..] != [] ==> lead[1..][|lead| - 2] == lead[|lead| - 1];
      FindNonceSkips(lead[1..], rest);
      assert s[1..] == lead[1..] + rest;
      if |s| >= |NonceMarker| {
        assert NonceMarker[0] == '\'' && NonceMarker[1] == 'n';
        if |lead| >= 2 {
          assert lead[1] in lead;
          assert s[..|NonceMarker|][1] == lead[1];
        } else {
          assert s[..|NonceMarker|][0] == lead[0];
        }
        assert s[..|NonceMarker|] != NonceMarker;
        assert FindNonce(s) == FindNonce(s[1..]);
      }
    } else {
      assert lead + rest == rest;
    }
  }

  /** What follows the nonce in the policy: the rest of the script directive
      and the seven directives after it. */
  const AfterNonce: string := ScriptSources + " " + Join(LaterDirectives, " ")

  /** What precedes the nonce marker in the policy. */
  const BeforeNonce: string := DefaultSrc + " " + ScriptLead

  lemma Regroup(d: string, sp: string, lead: string, m: string, n: string, q: string, src: string, rest: string)
    ensures d + sp + (lead + m + n + q + src + sp + rest) == (d + sp + lead) + (m + n + q + (src + sp + rest))
  {
  }

  lemma PolicySplit(nonce: string)
    ensures Policy(nonce) == BeforeNonce + (NonceMarker + nonce + "'" + AfterNonce)
  {
    var ds := Directives(nonce);
    var rest := Join(LaterDirectives, " ");
    assert ds[1..][0] == ds[1];
    assert ds[1..][1..] == LaterDirectives;
    assert Join(ds[1..], " ") == ScriptSrc(nonce) + " " + rest;
    assert Policy(nonce) == ds[0] + " " + (ScriptSrc(nonce) + " " + rest);
    Regroup(DefaultSrc, " ", ScriptLead, NonceMarker, nonce, "'", ScriptSources, rest);
  }

  lemma BeforeNonceHasNoMarkerStart()
    ensures 'n' !in BeforeNonce
    ensures BeforeNonce[|BeforeNonce| - 1] != '\''
  {
  }

  /** A string opening with a nonce source expression reads back as its
      nonce. */
  lemma NonceFirst(nonce: string, tail: string)
    requires '\'' !in nonce
    ensures FindNonce(NonceMarker + nonce + "'" + tail) == Some(nonce)
  {
    var marked := NonceMarker + nonce + "'" + tail;
    assert marked == NonceMarker + (nonce + "'" + tail);
    assert marked[..|NonceMarker|] == NonceMarker;
    assert marked[|NonceMarker|..] == nonce + "'" + tail;
    TakeQuotedUpTo(nonce, tail);
  }

  /** A policy names exactly the nonce it was built with: the first nonce
      source expression in `Policy(n)` reads back as `n`, for any nonce
      without a quote character. */
  lemma PolicyNonce(nonce: string)
    requires '\'' !in nonce
    ensures FindNonce(Policy(nonce)) == Some(nonce)
  {
    PolicySplit(nonce);
    BeforeNonceHasNoMarkerStart();
    FindNonceSkips(BeforeNonce, NonceMarker + nonce + "'" + AfterNonce);
    NonceFirst(nonce, AfterNonce);
  }
}
