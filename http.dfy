/** The shapes of requests and responses both handlers see. The HTTP listener, URL
    parsing and JSON decoding happen outside the model: a request arrives with its
    method, its path name and its body already decoded. */
module Http {

  import opened Wrappers

  type Header = (string, string)

  /** A request body after JSON decoding. `Unparsable` is a body that is not well-formed
      JSON (an empty body included). Flask's `get_json(silent=True)` also gives None for a
      well-formed JSON body whose Content-Type is not JSON, while the worker's
      `request.json()` ignores the Content-Type, so for Flask `Unparsable` stands for that
      request too; the decoded body the worker sees for it is not modelled. */
  datatype Body =
    | Unparsable
    | JsonNull                                              // the JSON literal null
    | JsonObject(key: Option<string>, ip: Option<string>)  // an object; a member it lacks is None

  datatype Request = Request(verb: string, path: string, body: Body)

  /** A response as the handler builds it: the headers are those the code passes. Headers
      the runtime adds are not part of it, such as the Content-Type the Fetch API gives a
      string body or the text/html Flask gives a returned (body, status) pair. */
  datatype Response = Response(status: int, body: string, headers: seq<Header>)

  /** JavaScript's `!!v` and Python's `bool(v)` for an optional string member: false
      for an absent member and for the empty string. */
  predicate IsTruthy(v: Option<string>) {
    v.Some? && v.value != ""
  }
}
