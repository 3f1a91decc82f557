/** The Flask version of the service (cloud-run/main.py): the view functions `update()`
    and `get_ip()` over the process global `latest_ip`.

    The global is the field `latestIp` of an `App` object; the secret read from the
    environment variable UPDATE_SECRET is given to its constructor. Flask's routing
    is outside the model: `Update` is the view of `POST /update`, `GetIp` that of `GET /`. */
module CloudRun {

  import opened Wrappers
  import opened Http

  /** What a view function hands back to Flask. */
  datatype Reply =
    | Aborted(code: int, description: Option<string>)   // abort(code) or abort(code, description)
    | Text(body: string, status: int, headers: seq<Header>)   // a (body, status[, headers]) tuple
    | Jsonified(jsonStatus: string, ip: string)         // jsonify(status=..., ip=...)
  {
    /** The HTTP status Flask sends: jsonify answers 200. */
    function Code(): int {
      match this
      case Aborted(code, _) => code
      case Text(_, status, _) => status
      case Jsonified(_, _) => 200
    }
  }

  const PlainText: seq<Header> := [("Content-Type", "text/plain; charset=utf-8")]

  const Unauthorized := Aborted(401, None)
  const NoIp := Aborted(400, Some("no ip"))
  const IpNotSet := Text("IP not set", 404, [])

  // ---------------------------------------------------------------------------
  // What the views compute

  /** `not data or data.get('key') != SECRET`. get_json(silent=True) gives None for a body
      that is not JSON; None and the JSON null are falsy. An empty object is falsy too,
      and it has no key either, so modelling it by the key test gives the same answer. */
  predicate KeyRejected(secret: string, body: Body) {
    body.Unparsable? || body.JsonNull? || body.key != Some(secret)
  }

  /** The reply of update() and the value of latest_ip after it. */
  datatype Step = Step(reply: Reply, latestIp: Option<string>)

  function UpdateStep(secret: string, latestIp: Option<string>, body: Body): (s: Step)
    ensures s.reply.Jsonified? <==> !KeyRejected(secret, body) && IsTruthy(body.ip)
    ensures !s.reply.Jsonified? ==> s.reply.Aborted? && s.reply.code in {400, 401}
    ensures s.reply.Aborted? ==> (s.reply.code == 401 <==> KeyRejected(secret, body))
    ensures s.latestIp == latestIp || (s.reply.Jsonified? && s.latestIp == Some(s.reply.ip) && s.reply.ip != "")
  {
    if KeyRejected(secret, body) then Step(Unauthorized, latestIp)
    else if !IsTruthy(body.ip) then Step(NoIp, latestIp)
    else Step(Jsonified("ok", body.ip.value), Some(body.ip.value))
  }

  /** The reply of get_ip(): `not latest_ip` is true for None and for the empty string. */
  function GetIpReply(latestIp: Option<string>): (r: Reply)
    ensures r.Code() == 404 <==> !IsTruthy(latestIp)
    ensures r.Code() == 200 ==> r == Text(latestIp.value, 200, PlainText)
  {
    if !IsTruthy(latestIp) then IpNotSet else Text(latestIp.value, 200, PlainText)
  }

  /** latest_ip is None or a non-empty string: it is assigned only after the `not ip` test. */
  predicate SlotInvariant(latestIp: Option<string>) {
    latestIp.None? || IsTruthy(latestIp)
  }

  // ---------------------------------------------------------------------------
  // The application

  class App {
    const secret: string
    /** The global latest_ip. */
    var latestIp: Option<string>

    ghost predicate Valid()
      reads this
    {
      SlotInvariant(latestIp)
    }

    constructor (secret: string)
      ensures Valid() && this.secret == secret && latestIp == None
    {
      this.secret := secret;
      latestIp := None;
    }

    /** update(): the key test first, then the ip test, then the assignment. */
    method Update(body: Body) returns (r: Reply)
      requires Valid()
      modifies this
      ensures Valid()
      ensures Step(r, latestIp) == UpdateStep(secret, old(latestIp), body)
    {
      if body.Unparsable? || body.JsonNull? || body.key != Some(secret) {
        return Unauthorized;
      }
      var ip := body.ip;
      if ip.None? || ip.value == "" {
        return NoIp;
      }
      latestIp := ip;
      r := Jsonified("ok", ip.value);
    }

    /** get_ip(): reads latest_ip and changes nothing. */
    method GetIp() returns (r: Reply)
      ensures !IsTruthy(latestIp) ==> r == IpNotSet
      ensures IsTruthy(latestIp) ==> r == Text(latestIp.value, 200, PlainText)
      ensures Valid() && latestIp.Some? ==> r.Code() == 200
    {
      if latestIp.None? || latestIp.value == "" {
        return IpNotSet;
      }
      return Text(latestIp.value, 200, PlainText);
    }
  }

  // ---------------------------------------------------------------------------
  // Properties of one call

  /** A body that is not JSON, the JSON null, or an object whose key is not the secret is
      refused with 401, whatever its ip; latest_ip is kept. */
  lemma WrongKeyUnauthorized(secret: string, latestIp: Option<string>, body: Body)
    requires KeyRejected(secret, body)
    ensures UpdateStep(secret, latestIp, body) == Step(Unauthorized, latestIp)
  {
  }

  /** The key is tested before the ip: with the right key an absent or empty ip is 400
      "no ip", and with a wrong key it is 401. */
  lemma KeyCheckedBeforeIp(secret: string, latestIp: Option<string>, key: Option<string>, ip: Option<string>)
    requires !IsTruthy(ip)
    ensures UpdateStep(secret, latestIp, JsonObject(key, ip)).reply
            == if key == Some(secret) then NoIp else Unauthorized
    ensures UpdateStep(secret, latestIp, JsonObject(key, ip)).latestIp == latestIp
  {
  }

  /** An update is accepted exactly when the key is the secret and the ip is non-empty; it
      then sets latest_ip to that ip and answers {status: "ok", ip}. */
  lemma UpdateAcceptedExactly(secret: string, latestIp: Option<string>, body: Body)
    ensures UpdateStep(secret, latestIp, body).reply.Jsonified?
            <==> body.JsonObject? && body.key == Some(secret) && IsTruthy(body.ip)
    ensures UpdateStep(secret, latestIp, body).reply.Jsonified? ==>
            UpdateStep(secret, latestIp, body)
            == Step(Jsonified("ok", body.ip.value), Some(body.ip.value))
  {
  }

  /** update() keeps latest_ip None or non-empty. */
  lemma UpdateKeepsInvariant(secret: string, latestIp: Option<string>, body: Body)
    requires SlotInvariant(latestIp)
    ensures SlotInvariant(UpdateStep(secret, latestIp, body).latestIp)
  {
  }

  /** get_ip() is 404 exactly when latest_ip is unset, and otherwise gives the stored ip
      verbatim as plain text. */
  lemma GetIpAnswers(latestIp: Option<string>)
    requires SlotInvariant(latestIp)
    ensures GetIpReply(latestIp) == IpNotSet <==> latestIp.None?
    ensures latestIp.Some? ==> GetIpReply(latestIp) == Text(latestIp.value, 200, PlainText)
  {
  }

  // ---------------------------------------------------------------------------
  // Sequences of calls

  datatype Call = UpdateCall(body: Body) | GetIpCall

  /** latest_ip after one call; get_ip() leaves it as it is. */
  function After(secret: string, latestIp: Option<string>, call: Call): Option<string> {
    match call
    case UpdateCall(body) => UpdateStep(secret, latestIp, body).latestIp
    case GetIpCall => latestIp
  }

  /** latest_ip after the calls, in order. */
  function Serve(secret: string, latestIp: Option<string>, calls: seq<Call>): Option<string>
    decreases |calls|
  {
    if calls == [] then latestIp else Serve(secret, After(secret, latestIp, calls[0]), calls[1..])
  }

  /** Every sequence of calls keeps latest_ip None or non-empty. */
  lemma {:induction false} ServeKeepsInvariant(secret: string, latestIp: Option<string>, calls: seq<Call>)
    requires SlotInvariant(latestIp)
    ensures SlotInvariant(Serve(secret, latestIp, calls))
    decreases |calls|
  {
    if calls != [] {
      if calls[0].UpdateCall? {
        UpdateKeepsInvariant(secret, latestIp, calls[0].body);
      }
      ServeKeepsInvariant(secret, After(secret, latestIp, calls[0]), calls[1..]);
    }
  }

  /** Once an update has been accepted, get_ip() never answers 404 again, whatever
      calls follow. */
  lemma {:induction false} NeverUnsetAgain(secret: string, latestIp: Option<string>, calls: seq<Call>)
    requires IsTruthy(latestIp)
    ensures IsTruthy(Serve(secret, latestIp, calls))
    ensures GetIpReply(Serve(secret, latestIp, calls)).Code() == 200
    decreases |calls|
  {
    if calls != [] {
      NeverUnsetAgain(secret, After(secret, latestIp, calls[0]), calls[1..]);
    }
  }

  /** Last write wins: after accepted updates with a and then b, get_ip() gives b. */
  lemma LastWriteWins(secret: string, latestIp: Option<string>, a: string, b: string)
    requires a != "" && b != ""
    ensures var calls := [UpdateCall(JsonObject(Some(secret), Some(a))), UpdateCall(JsonObject(Some(secret), Some(b)))];
            GetIpReply(Serve(secret, latestIp, calls)) == Text(b, 200, PlainText)
  {
    var calls := [UpdateCall(JsonObject(Some(secret), Some(a))), UpdateCall(JsonObject(Some(secret), Some(b)))];
    assert Serve(secret, latestIp, calls) == Serve(secret, Some(a), calls[1..]);
    assert Serve(secret, Some(a), calls[1..]) == Serve(secret, Some(b), []);
  }
}
