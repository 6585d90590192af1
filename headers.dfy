/** The Fetch `Headers` object of a response, as the middleware uses it: a
    dictionary from header name to value whose names are compared
    case-insensitively, modelled as a map keyed by the lower-cased name. */
module Http {
  import opened Common

  class Headers {
    /** Header name, lower-cased, to value. */
    var entries: map<string, string>

    /** The stored names are lower-cased. */
    ghost predicate Valid()
      reads this
    {
      LowerKeyed(entries)
    }

    /** The copy `new Response(body, response)` makes of the origin's headers. */
    constructor Copy(other: Headers)
      requires other.Valid()
      ensures entries == other.entries
      ensures Valid()
    {
      entries := other.entries;
    }

    /** `headers.get(name)`: the value stored under `name` in any spelling,
        or `None` (JavaScript's `null`) when no stored name matches it. */
    function Get(name: string): (r: Option<string>)
      reads this
      requires Valid()
      ensures r.None? <==> forall k | k in entries :: Lower(k) != Lower(name)
      ensures r.Some? ==> exists k | k in entries :: Lower(k) == Lower(name) && entries[k] == r.value
    {
      LowerIdempotent(name);
      if Lower(name) in entries then Some(entries[Lower(name)]) else None
    }

    /** `headers.set(name, value)`: replaces any value stored under `name` in
        any spelling and leaves every other header as it was. */
    method Set(name: string, value: string)
      requires Valid()
      modifies this
      ensures Valid()
      ensures entries == old(entries)[Lower(name) := value]
      ensures Get(name) == Some(value)
      ensures forall other | Lower(other) != Lower(name) :: Get(other) == old(Get(other))
    {
      LowerIdempotent(name);
      entries := entries[Lower(name) := value];
    }
  }
}
