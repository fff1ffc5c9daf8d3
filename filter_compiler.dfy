/**
 * The filter compiler behind `GET /api/data`: it turns the request's query
 * parameters into the equality query handed to the store's `find`.
 */
module FilterCompiler {
  import opened Options
  import opened RequestArgs

  /** The nine record fields a caller may filter on, in the order they are visited. */
  const Fields: seq<string> :=
    ["end_year", "start_year", "topic", "sector", "region", "pestle", "source", "country", "city"]

  /**
   * Builds the query one recognised field at a time: a field becomes the
   * constraint `field == value` when its parameter was supplied with a
   * non-empty value, which is copied as it is (no trimming, no conversion).
   */
  method CompileQuery(args: Args) returns (query: map<string, string>)
    ensures forall k :: k in query <==> k in Fields && k in args && args[k] != ""
    ensures forall k :: k in query ==> query[k] == args[k]
    ensures (forall k :: k in Fields ==> k !in args || args[k] == "") ==> query == map[]
  {
    query := map[];
    for i := 0 to |Fields|
      invariant forall k :: k in query <==> k in Fields[..i] && k in args && args[k] != ""
      invariant forall k :: k in query ==> query[k] == args[k]
    {
      var field := Fields[i];
      var value := Get(args, field);
      if Truthy(value) {
        query := query[field := value.value];
      }
    }
    assert Fields[..|Fields|] == Fields;
  }

  /**
   * The two clauses of `CompileQuery`'s contract fix the query completely:
   * compiling the same parameters twice gives the same query.
   */
  lemma QueryDetermined(args: Args, q1: map<string, string>, q2: map<string, string>)
    requires forall k :: k in q1 <==> k in Fields && k in args && args[k] != ""
    requires forall k :: k in q1 ==> q1[k] == args[k]
    requires forall k :: k in q2 <==> k in Fields && k in args && args[k] != ""
    requires forall k :: k in q2 ==> q2[k] == args[k]
    ensures q1 == q2
  {
    assert q1.Keys == q2.Keys;
  }

  /**
   * `/api/data?topic=oil&country=India&page=2&city=` asks for exactly the
   * records whose topic is "oil" and whose country is "India": the unknown
   * `page` and the empty `city` contribute nothing.
   */
  lemma ExampleQuery(q: map<string, string>)
    requires forall k :: k in q <==> k in Fields && k in ExampleArgs() && ExampleArgs()[k] != ""
    requires forall k :: k in q ==> q[k] == ExampleArgs()[k]
    ensures q == map["topic" := "oil", "country" := "India"]
  {
    var args := ExampleArgs();
    var expected := map["topic" := "oil", "country" := "India"];
    assert "topic" in Fields && "country" in Fields && "page" !in Fields;
    assert forall k :: k in expected <==> k in Fields && k in args && args[k] != "";
    QueryDetermined(args, q, expected);
  }

  function ExampleArgs(): Args {
    map["topic" := "oil", "country" := "India", "page" := "2", "city" := ""]
  }

}
