# Edge response decorator, modelled in Dafny

This project models the Cloudflare Pages middleware `functions/_middleware.js`.
The middleware decorates every response that the static-asset origin returns:

- It always sets seven fixed security headers.
- It gives fonts under `/assets/fonts/` a year-long immutable cache lifetime.
- For HTML only, it generates a nonce. It writes that nonce into a nine-directive
  Content-Security-Policy header, then rewrites every `<script>` element of the
  body to carry the same nonce.

The model has six modules:

- `Common` (common.dfy): `Option`, the string tests the handler calls (`startsWith`, `includes`), and ASCII lower-casing.
- `Nonce` (nonce.dfy): `generateNonce`. Each `Math.random() * 16 | 0` draw is an input `Nibble`, so the generator becomes the pure function `Fill(Template, draws)`. It has an inverse, `Unfill`, and the version-4 UUID layout of RFC 4122, `IsUuidV4`.
- `Csp` (csp.dfy): `Array.prototype.join`, the nine directives and the policy string. It also reads the nonce back out of a policy as the value of the first `'nonce-...'` source expression in the string, and shows that this expression lies inside the script directive.
- `Http` (headers.dfy): the Fetch `Headers` object, as a class over a map keyed by lower-cased names. Its invariant `Valid` says every stored name is lower-cased, and every operation keeps it.
- `Rewriter` (rewriter.dfy): the `HtmlElement` objects the rewriter presents, whose invariant `Valid` says their attribute names are lower-cased as HTML attribute names are, the `NonceInjector` class, and the `transform` loop over the body's elements. The `script` selector matches tag names without regard to ASCII case.
- `Middleware` (middleware.dfy): `onRequest`. It builds the header map in place through the same `set` calls as the source, and it is proved against the specification function `DecoratedHeaders`.

`onRequest` is split into two methods:

- `Decorate` takes the nonce as a parameter. It is proved for any version-4 UUID.
- `OnRequest` feeds it `GenerateNonce(draws)`.

Because `GenerateNonce` is pure and its value is used only in the HTML branch, building it for every request changes nothing the model can observe.

Two properties of the code that the model keeps as written:

- **Content type.** The HTML test `contentType.includes("text/html")` is case-sensitive, so a response labelled `Text/HTML` gets no policy and no rewrite. `Middleware.IsHtml` is case-sensitive as well.
- **Nonce source.** The nonce comes from `Math.random`, which is not a cryptographic source; it is a version-4 UUID with 122 random bits. The model takes the draws as inputs and claims nothing about uniqueness or unpredictability.

## Model

| member | source | states |
|---|---|---|
| Nonce.HexDigit | functions/_middleware.js:10 | `v.toString(16)` for `v` in 0..15 is one lower-case hex digit that reads back as `v` |
| Nonce.HexDigitOfValue | functions/_middleware.js:10 | every lower-case hex digit is `toString(16)` of its own value, so digits and nibbles correspond one to one |
| Nonce.Draw | functions/_middleware.js:9 | the callback's `v`: the draw itself for `x`; for `y`, a value in 8..11 keeping the draw's two low bits |
| Nonce.Placeholders | functions/_middleware.js:8 | the number of callback calls, one per `x` or `y` of the template, is at most the template's length |
| Nonce.Variant | functions/_middleware.js:9 | `r & 0x3 \| 0x8` lies in 8..11 and keeps the two low bits of the draw |
| Nonce.Fill | functions/_middleware.js:8-11 | `replace` over the template keeps its length: one output character per template character |
| Nonce.PlaceholdersPrefix | functions/_middleware.js:8 | counting the `x`/`y` placeholders of a prefix one character at a time; a prefix never holds more than the whole template |
| Nonce.FillAt | functions/_middleware.js:8-11 | fixed template characters pass through; the placeholder at `i` becomes the hex digit of the draw numbered by the placeholders before it (its `Variant` for `y`) |
| Nonce.Unfill | functions/_middleware.js:8-11 | the inverse reading of a filled template yields exactly one draw per placeholder |
| Nonce.Canonical | functions/_middleware.js:9 | the part of the draws the output keeps: one entry per draw |
| Nonce.UnfillFill | functions/_middleware.js:8-11 | reading back a filled template recovers its draws, except the two high bits of the `y` draw that `Variant` overwrites |
| Nonce.FillUnfill | functions/_middleware.js:8-11 | every string the inverse accepts is what `Fill` makes from the draws it returns |
| Nonce.UnfillDefined | functions/_middleware.js:8-10 | the inverse accepts exactly the strings that fit the template: fixed characters equal, any hex digit for `x`, one of `8 9 a b` for `y` |
| Nonce.FillFits | functions/_middleware.js:8-11 | every filled template fits its template |
| Nonce.FillCollision | functions/_middleware.js:8-11 | two draw sequences give the same output if and only if they agree on every `x` draw and on the low two bits of the `y` draw |
| Nonce.TemplateAt | functions/_middleware.js:8 | the template's character at each position: hyphens at 8, 13, 18, 23, `4` at 14, `y` at 19, `x` elsewhere |
| Nonce.PrefixDraws | functions/_middleware.js:8 | every template prefix holds as many placeholders as its length minus the fixed characters before it |
| Nonce.TemplateDraws | functions/_middleware.js:8-9 | one nonce consumes 31 draws: 30 for `x` and one for `y` |
| Nonce.UuidV4IffFits | functions/_middleware.js:8 | a string fits the template if and only if it is a lower-case version-4 UUID |
| Nonce.GenerateNonce | functions/_middleware.js:7-12 | the nonce is a lower-case version-4 UUID: 36 characters, hyphens at 8, 13, 18 and 23, `4` at 14, one of `8 9 a b` at 19, and hex digits elsewhere |
| Nonce.NonceImage | functions/_middleware.js:7-12 | the strings `generateNonce` can return are exactly the lower-case version-4 UUIDs |
| Nonce.NonceAt | functions/_middleware.js:8-10 | character `i` of the nonce is the hex digit of the draw consumed at the placeholder `i` |
| Nonce.NonceAlphabet | functions/_middleware.js:8-10 | a nonce holds only hex digits and hyphens, and never the quote that would end its CSP source expression |
| Csp.Join | functions/_middleware.js:56 | `join` of no parts is `""`; otherwise the joined string ends right after the last part, at the offset of the last part plus its length |
| Csp.JoinPartAt | functions/_middleware.js:56 | `join` places part `k` at the offset after all earlier parts and their separators |
| Csp.JoinSepAt | functions/_middleware.js:56 | `join` puts one separator right after every part but the last |
| Csp.ScriptSrc | functions/_middleware.js:48 | the script directive starts `script-src 'self' ` and carries `'nonce-N'` right after it |
| Csp.Directives | functions/_middleware.js:46-55 | the policy has nine directives |
| Csp.PolicyLayout | functions/_middleware.js:46-56 | the policy holds the nine directives in source order, each followed by a single space except the last, which ends it |
| Csp.Policy | functions/_middleware.js:46-56 | the header value: the nine directives joined by single spaces (its layout is stated by `Csp.PolicyLayout`) |
| Csp.NonceInScriptDirective | functions/_middleware.js:48 | the policy's second directive is the script directive, and `'nonce-N'` occurs in the policy inside it |
| Csp.TakeQuoted | functions/_middleware.js:48 | the text read up to the closing quote of a source expression contains no quote |
| Csp.TakeQuotedUpTo | functions/_middleware.js:48 | a quote-free value followed by a quote reads back as itself |
| Csp.FindNonceSkips | functions/_middleware.js:47-48 | text with no `n` that does not end in a quote cannot hide a `'nonce-` source, so the search passes over it |
| Csp.PolicySplit | functions/_middleware.js:46-56 | the policy is the default and script lead-in, then `'nonce-N'`, then the remaining script sources and the seven later directives |
| Csp.BeforeNonceHasNoMarkerStart | functions/_middleware.js:47-48 | the text before the nonce source cannot hold the start of one |
| Csp.NonceFirst | functions/_middleware.js:48 | a `'nonce-N'` source expression reads back as `N` |
| Csp.FindNonce | functions/_middleware.js:48 | the value of the first `'nonce-...'` source expression in a string, read up to its closing quote (a text search, not a directive-aware parse) |
| Csp.PolicyNonce | functions/_middleware.js:46-56 | the first `'nonce-...'` source expression in the policy built with nonce `N` has the value `N`, for any quote-free `N` |
| Common.StartsWith | functions/_middleware.js:38 | `startsWith`: the prefix is the string's first characters |
| Common.Includes | functions/_middleware.js:42 | `includes`: the text occurs at some offset, compared case-sensitively |
| Common.LowerChar | functions/_middleware.js:26-58 | ASCII lower-casing of one character moves `A`-`Z` to `a`-`z`, keeps every other character, and leaves no upper-case letter |
| Common.Lower | functions/_middleware.js:26-58 | the lower-cased name `Headers` stores and looks up has the name's length |
| Common.LowerIdempotent | functions/_middleware.js:26-58 | lower-casing a lower-cased name changes nothing, so a stored name is found by the same lookup |
| Common.LowerKeyed | functions/_middleware.js:26-58 | a header map (or an attribute map) whose names are all stored lower-cased, as in any `Headers` object and any HTML element |
| Http.Headers.Copy | functions/_middleware.js:28 | the new response's headers start as a copy of the origin's, and keep their names lower-cased |
| Http.Headers.Get | functions/_middleware.js:26 | `get` returns `null` exactly when no stored name matches the given one in any spelling; otherwise it returns the value stored under the matching name |
| Http.Headers.Set | functions/_middleware.js:30-40 | `set` keeps names lower-cased, makes `get` under the name in any spelling return the new value, replaces any earlier value, and leaves `get` of every other name as it was |
| Rewriter.HtmlElement.constructor | functions/_middleware.js:60-62 | an element as the rewriter presents it: its tag name and its attributes, whose names are lower-case (`Valid`) |
| Rewriter.HtmlElement.SetAttribute | functions/_middleware.js:19 | `setAttribute` stores the value under the lower-cased name, so an existing attribute of that name in any spelling gets the value; every other attribute is kept and the names stay lower-case |
| Rewriter.NonceInjector.constructor | functions/_middleware.js:15-17 | the injector stores the nonce it is given |
| Rewriter.NonceInjector.Element | functions/_middleware.js:18-20 | the handler sets the element's `nonce` attribute to the injector's nonce, overwriting an earlier one in any spelling, and changes nothing else; the names stay lower-case |
| Rewriter.Selects | functions/_middleware.js:61 | the `script` selector matches an element whose tag name equals it up to ASCII case |
| Rewriter.Injected | functions/_middleware.js:18-20 | after the rewrite, a matching element carries the nonce under `nonce`, keeps every other attribute and gains no other; any other element keeps its attributes exactly |
| Rewriter.InjectedLowerKeyed | functions/_middleware.js:18-20 | the rewrite keeps attribute names lower-case, so a rewritten element has one `nonce` attribute and no other spelling of it |
| Rewriter.InjectedIdempotent | functions/_middleware.js:18-20 | running the injector a second time changes nothing |
| Rewriter.Transform | functions/_middleware.js:60-62 | every `script` element ends with the injector's nonce, every other element is left exactly as it was, and every element keeps lower-case attribute names |
| Middleware.Response.constructor | functions/_middleware.js:28 | `new Response(body, response)` keeps the body and status and copies the headers into a fresh object |
| Middleware.ContentTypeOf | functions/_middleware.js:26 | `get("Content-Type") \|\| ""`: the stored content type, or `""` when there is none |
| Middleware.IsHtml | functions/_middleware.js:42 | the HTML test: the content type contains `text/html`, compared case-sensitively |
| Middleware.NoContentTypeNotHtml | functions/_middleware.js:26 | a response without `Content-Type` reads as `""` and is not HTML, so it gets no policy and no rewrite |
| Middleware.IsFontPath | functions/_middleware.js:38 | the font test: the pathname starts with `/assets/fonts/`, compared case-sensitively |
| Middleware.DecoratedHeaders | functions/_middleware.js:26-58 | in the decorated headers, the seven security headers have their literal values whatever the origin sent. Cache-Control is written if and only if the path is a font path, and otherwise the origin's entry is kept. The CSP is written if and only if the content type contains `text/html`, and otherwise the origin's entry is kept. Every other origin header passes through, no other header appears, and every name stays lower-cased |
| Middleware.ManagedNamesLower | functions/_middleware.js:30-58 | the names the model writes are lower-case (`Lower(k) == k`) |
| Middleware.ManagedNamesDistinct | functions/_middleware.js:30-58 | the security, cache and policy header names are pairwise distinct, so no write undoes another |
| Middleware.SecuritySets | functions/_middleware.js:30-36 | the seven writes, in order, leave the security headers over the earlier map |
| Middleware.SpelledSecuritySets | functions/_middleware.js:30-36 | the same holds with the names spelled as the handler spells them (each name's lower-casing is a small helper lemma, `Middleware.AllowOriginName` and its nine siblings) |
| Middleware.SetSecurityHeaders | functions/_middleware.js:30-36 | after the seven `set` calls, the headers are the earlier ones overlaid with the seven security headers |
| Middleware.SetFontCache | functions/_middleware.js:38-40 | Cache-Control is set to the font value exactly for paths under `/assets/fonts/`, and the headers are otherwise untouched |
| Middleware.ApplyNoncePolicy | functions/_middleware.js:46-62 | the HTML branch writes the policy for the nonce and injects the nonce into every `script` element, leaving other elements alone. The first nonce source in the policy, which lies in its script directive, names the nonce every script element carries |
| Middleware.Decorate | functions/_middleware.js:23-66 | for a given nonce, the response has the origin's status and body, headers equal to `DecoratedHeaders`, and elements rewritten only for HTML. For HTML, the first nonce source in the policy names every script element's nonce. The origin's headers are unchanged, the new headers keep their names lower-cased, and every element keeps lower-case attribute names |
| Middleware.OnRequest | functions/_middleware.js:23-66 | the same as `Decorate`, with the nonce being `GenerateNonce` of the request's draws |

## Left out

- The origin fetch (`context.env.ASSETS.fetch`) and `async`/`await` are not modelled. The handler receives the origin's response as a parameter.
- `new URL(...)` parsing is not modelled. `Request` carries only the pathname the handler reads.
- `Math.random` is not modelled. Each draw is an input `Nibble`, so the model makes no claim about uniqueness across requests or about unpredictability.
- Nonce.Fill: the callback always has a draw in the source. The model's `Fill` is also defined when draws run out, leaving the remaining placeholders unfilled. Every lemma about it, and `GenerateNonce`, supply exactly one draw per placeholder.
- `HTMLRewriter` tokenization and body streaming are not modelled. The body is the sequence of element objects the rewriter hands to its handler, and `transform` visits them in order.
- `transform` returns a new `Response` object in the source. In the model, `OnRequest` returns the decorated response, and its elements carry the rewrite.
- Http.Headers.Set: the Fetch `Headers` object also trims whitespace from values and rejects invalid names. The model does neither: every name and value the handler writes is a valid literal or a nonce policy without leading or trailing whitespace.
- Middleware.Response.constructor: `new Response(body, response)` also copies `statusText`. The model's `Response` keeps only the status, the headers and the body, because the handler never reads or changes the status text.
- Header values that a real `Headers` object combines from repeated origin headers are one map entry in the model.
