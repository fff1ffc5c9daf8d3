/**
 * The countries discovery endpoint, whose distinct lookup may be scoped by
 * the request's `topic` parameter. The store is not modelled: its
 * `distinct("country", ...)` is the function `distinctCountry`, applied to
 * `Some(topic)` for the lookup scoped by `{"topic": topic}` and to `None` for
 * the unscoped one.
 */
module Endpoints {
  import opened Options
  import opened RequestArgs
  import opened Sorting
  import opened Normalizer

  /**
   * Which country lookup runs: scoped by the exact supplied topic when the
   * `topic` parameter is present and non-empty (whitespace included, nothing
   * trimmed), unscoped otherwise.
   */
  function CountryScope(args: Args): (scope: Option<string>)
    ensures scope.Some? <==> "topic" in args && args["topic"] != ""
    ensures scope.Some? ==> scope.value == args["topic"]
  {
    var topic := Get(args, "topic");
    if Truthy(topic) then topic else None
  }

  /**
   * `GET /api/countries`: the countries of the chosen lookup, cleaned by the
   * same rule as topics and regions.
   */
  function Countries(args: Args, distinctCountry: Option<string> -> seq<Option<string>>): (r: seq<string>)
    ensures Sorted(r)
    ensures forall x :: multiset(r)[x] == (if Blank(x) then 0 else multiset(distinctCountry(CountryScope(args)))[Some(x)])
  {
    CleanStrings(distinctCountry(CountryScope(args)))
  }

  /** Parameters other than `topic` play no part in the countries returned. */
  lemma CountriesDependOnTopicOnly(a1: Args, a2: Args, distinctCountry: Option<string> -> seq<Option<string>>)
    requires ("topic" in a1) == ("topic" in a2)
    requires "topic" in a1 ==> a1["topic"] == a2["topic"]
    ensures Countries(a1, distinctCountry) == Countries(a2, distinctCountry)
  {
    assert CountryScope(a1) == CountryScope(a2);
  }

  /** An empty `topic` parameter is the same as none at all: the lookup is unscoped. */
  lemma EmptyTopicUnscoped(args: Args, distinctCountry: Option<string> -> seq<Option<string>>)
    requires "topic" in args && args["topic"] == ""
    ensures Countries(args, distinctCountry) == Countries(args - {"topic"}, distinctCountry)
  {
    assert CountryScope(args) == None == CountryScope(args - {"topic"});
  }

}
