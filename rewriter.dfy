/** The body rewrite of an HTML response: `HTMLRewriter().on("script",
    new NonceInjector(nonce)).transform(response)` (functions/_middleware.js).

    The HTML tokenizer is not modelled; the body is the sequence of elements
    the rewriter hands to its handlers, each with its tag name and attribute
    map, and the handler changes an element's attributes in place. */
module Rewriter {
  import opened Common

  /** One element of the document as the rewriter presents it. */
  class HtmlElement {
    const tagName: string
    var attributes: map<string, string>

    /** HTML attribute names ignore ASCII case; the rewriter hands them over
        lower-cased. */
    ghost predicate Valid()
      reads this
    {
      LowerKeyed(attributes)
    }

    constructor (tagName: string, attributes: map<string, string>)
      requires LowerKeyed(attributes)
      ensures this.tagName == tagName && this.attributes == attributes
      ensures Valid()
    {
      this.tagName := tagName;
      this.attributes := attributes;
    }

    /** `element.setAttribute(name, value)`: the name is lower-cased, the
        attribute of that name in any spelling gets the value (or is added),
        and every other attribute is kept. */
    method SetAttribute(name: string, value: string)
      requires Valid()
      modifies this
      ensures Valid()
      ensures attributes == old(attributes)[Lower(name) := value]
      ensures forall a | a in attributes && Lower(a) == Lower(name) :: attributes[a] == value
    {
      LowerIdempotent(name);
      attributes := attributes[Lower(name) := value];
    }
  }

  /** The attribute name the injector writes, already lower-case. */
  lemma NonceAttributeName()
    ensures Lower("nonce") == "nonce"
  {
  }

  /** The element handler bound to one response's nonce. */
  class NonceInjector {
    var nonce: string

    constructor (nonce: string)
      ensures this.nonce == nonce
    {
      this.nonce := nonce;
    }

    /** `element(element)`: sets the element's `nonce` attribute to this
        injector's nonce, overwriting any earlier one. */
    method Element(element: HtmlElement)
      requires element.Valid()
      modifies element
      ensures element.Valid()
      ensures element.attributes == old(element.attributes)["nonce" := nonce]
      ensures forall a | a in element.attributes && Lower(a) == "nonce" :: element.attributes[a] == nonce
    {
      NonceAttributeName();
      element.SetAttribute("nonce", nonce);
    }
  }

  /** Whether a type selector such as `"script"` matches an element: HTML tag
      names compare without regard to ASCII case. */
  predicate Selects(selector: string, tagName: string)
  {
    Lower(tagName) == Lower(selector)
  }

  /** The attributes an element ends with after a rewrite that calls the
      injector on the elements `selector` matches: a matching element carries
      `nonce` under `"nonce"` and keeps every other attribute; any other
      element keeps its attributes exactly. */
  function Injected(attributes: map<string, string>, tagName: string, selector: string, nonce: string): (r: map<string, string>)
    ensures Selects(selector, tagName) ==> "nonce" in r && r["nonce"] == nonce
    ensures forall a | a in attributes && a != "nonce" :: a in r && r[a] == attributes[a]
    ensures r.Keys <= attributes.Keys + {"nonce"}
    ensures !Selects(selector, tagName) ==> r == attributes
  {
    if Selects(selector, tagName) then attributes["nonce" := nonce] else attributes
  }

  /** The rewrite keeps attribute names lower-cased, and the element then
      holds exactly one attribute named `nonce` in any spelling. */
  lemma InjectedLowerKeyed(attributes: map<string, string>, tagName: string, selector: string, nonce: string)
    requires LowerKeyed(attributes)
    ensures LowerKeyed(Injected(attributes, tagName, selector, nonce))
    ensures forall a | a in Injected(attributes, tagName, selector, nonce) && Lower(a) == "nonce" :: a == "nonce"
  {
    NonceAttributeName();
  }

  /** Injecting a second time changes nothing. */
  lemma InjectedIdempotent(attributes: map<string, string>, tagName: string, selector: string, nonce: string)
    ensures Injected(Injected(attributes, tagName, selector, nonce), tagName, selector, nonce)
         == Injected(attributes, tagName, selector, nonce)
  {
  }

  /** `transform`: runs the injector on every element the selector matches,
      in document order. Each matching element ends with the
      injector's nonce; every other element is left exactly as it was. */
  method Transform(selector: string, injector: NonceInjector, body: seq<HtmlElement>)
    requires forall e | e in body :: e.Valid()
    modifies set e | e in body
    ensures forall e | e in body :: e.Valid()
    ensures forall e | e in body :: e.attributes == Injected(old(e.attributes), e.tagName, selector, injector.nonce)
  {
    var i := 0;
    while i < |body|
      invariant 0 <= i <= |body|
      invariant forall e | e in body[..i] :: e.attributes == Injected(old(e.attributes), e.tagName, selector, injector.nonce)
      invariant forall e | e in body && e !in body[..i] :: e.attributes == old(e.attributes)
    {
      var e := body[i];
      if Selects(selector, e.tagName) {
        injector.Element(e);
      }
      assert body[..i + 1] == body[..i] + [e];
      i := i + 1;
    }
    assert body[..i] == body;
    forall e | e in body
      ensures e.Valid()
    {
      InjectedLowerKeyed(old(e.attributes), e.tagName, selector, injector.nonce);
    }
  }
}
