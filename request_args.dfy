/**
 * The query string of an HTTP request as the handlers read it: a mapping
 * from parameter name to the (first) text supplied for it.
 */
module RequestArgs {
  import opened Options

  type Args = map<string, string>

  /** `request.args.get(name)`: the supplied text, or `None` when the parameter is absent. */
  function Get(args: Args, name: string): (r: Option<string>)
    ensures r.Some? <==> name in args
    ensures r.Some? ==> r.value == args[name]
  {
    if name in args then Some(args[name]) else None
  }

  /** Python truthiness of an optional string: present and not empty. */
  predicate Truthy(v: Option<string>) {
    v.Some? && v.value != ""
  }

}
