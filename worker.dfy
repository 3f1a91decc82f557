/** The Cloudflare Worker version of the service (cloudflare-worker/worker.js):
    `handleRequest` answers `POST /update` and `GET /` over the one KV slot "latest",
    and anything else with 404.

    The KV namespace is the field `latest` of a `Worker` object; the shared secret
    UPDATE_SECRET is given to its constructor; the clock reading is the argument `now`. */
module CloudflareWorker {

  import opened Wrappers
  import opened Http
  import IstClock
  import Strings

  /** The object stored under the KV key "latest": the reported ip and the instant the
      update was accepted, in milliseconds since the Unix epoch (stored as its ISO-8601 text). */
  datatype Record = Record(ip: string, ts: int)

  /** What handleRequest produces: a response, or an exception it does not catch. */
  datatype Outcome = Answer(response: Response) | Thrown

  /** The headers of both answers to `GET /`. */
  const NoCacheHeaders: seq<Header> := [
    ("Content-Type", "text/plain; charset=utf-8"),
    ("Cache-Control", "no-store, no-cache, must-revalidate, proxy-revalidate"),
    ("Pragma", "no-cache"),
    ("Expires", "0")
  ]

  const BadJson := Response(400, "Bad JSON", [])
  const Unauthorized := Response(401, "Unauthorized or missing ip", [])
  const UpdateOk := Response(200, "OK", [])
  const IpNotSet := Response(404, "IP not set", NoCacheHeaders)
  const NotFound := Response(404, "Not found", [])

  // ---------------------------------------------------------------------------
  // What handleRequest computes

  /** The report text: "IP: <ip>" and "Updated: <date> <time>", the time of the update
      in India Standard Time. It begins with the line of the ip. */
  function ReportBody(r: Record): (b: string)
    ensures "IP: " + r.ip + "\nUpdated: " <= b
    ensures '\n' !in r.ip ==> Strings.IndexOf(b, '\n') == |r.ip| + 4 && b[..|r.ip| + 4] == "IP: " + r.ip
  {
    ReportText(r.ip, IstClock.DatePart(r.ts), IstClock.TimePart(r.ts))
  }

  /** `IP: ${ip}\nUpdated: ${datePart} ${timePart}`. When the ip holds no line break, the
      first line is exactly "IP: " and the ip. */
  function ReportText(ip: string, date: string, time: string): (b: string)
    ensures "IP: " + ip + "\nUpdated: " <= b
    ensures '\n' !in ip ==> Strings.IndexOf(b, '\n') == |ip| + 4 && b[..|ip| + 4] == "IP: " + ip
  {
    var head, tail := "IP: " + ip, "Updated: " + date + " " + time;
    assert "IP: " + ip + "\nUpdated: " + date + " " + time == head + ['\n'] + tail;
    assert '\n' !in ip ==>
      (Strings.IndexOf(head + ['\n'] + tail, '\n') == |head| && (head + ['\n'] + tail)[..|head|] == head) by {
      if '\n' !in ip {
        forall k | 0 <= k < |head| ensures head[k] != '\n' {
          if k >= 4 { assert head[k] == ip[k - 4]; }
        }
        Strings.SplitAtFirst(head, '\n', tail);
      }
    }
    head + ['\n'] + tail
  }

  /** The answer to `GET /` for a given slot. */
  function Report(slot: Option<Record>): (r: Response)
    ensures r.status == 404 <==> slot.None?
    ensures r.status == 200 <==> slot.Some?
    ensures r.headers == NoCacheHeaders
  {
    match slot
    case None => IpNotSet
    case Some(r) => Response(200, ReportBody(r), NoCacheHeaders)
  }

  datatype Route = UpdateRoute | ReportRoute | NoRoute

  /** Routing compares the method and the path name exactly. */
  function RouteOf(req: Request): (r: Route)
    ensures r == UpdateRoute <==> req.verb == "POST" && req.path == "/update"
    ensures r == ReportRoute <==> req.verb == "GET" && req.path == "/"
  {
    if req.verb == "POST" && req.path == "/update" then UpdateRoute
    else if req.verb == "GET" && req.path == "/" then ReportRoute
    else NoRoute
  }

  /** What the checks of `POST /update` decide about a body. */
  datatype Verdict = RejectBadJson | Throw | RejectUnauthorized | Accept(ip: string)

  /** Parsing first, then the key and the ip together. Reading `data.key` of the JSON
      value null throws a TypeError that handleRequest does not catch. */
  function Gate(secret: string, body: Body): (v: Verdict)
    ensures v.Accept? <==> body.JsonObject? && body.key == Some(secret) && IsTruthy(body.ip)
    ensures v.Accept? ==> body.ip == Some(v.ip) && v.ip != ""
    ensures v == Throw <==> body.JsonNull?
    ensures v == RejectBadJson <==> body.Unparsable?
  {
    match body
    case Unparsable => RejectBadJson
    case JsonNull => Throw
    case JsonObject(key, ip) =>
      if key != Some(secret) || !IsTruthy(ip) then RejectUnauthorized else Accept(ip.value)
  }

  /** The outcome of one request and the slot after it. */
  datatype Step = Step(outcome: Outcome, slot: Option<Record>)

  function Handle(secret: string, slot: Option<Record>, req: Request, now: int): (s: Step)
    ensures s.outcome == Thrown <==> RouteOf(req) == UpdateRoute && req.body.JsonNull?
    ensures s.slot != slot ==>
      RouteOf(req) == UpdateRoute && Gate(secret, req.body).Accept?
      && s.slot == Some(Record(Gate(secret, req.body).ip, now))
  {
    match RouteOf(req)
    case UpdateRoute =>
      (match Gate(secret, req.body)
       case RejectBadJson => Step(Answer(BadJson), slot)
       case Throw => Step(Thrown, slot)
       case RejectUnauthorized => Step(Answer(Unauthorized), slot)
       case Accept(ip) => Step(Answer(UpdateOk), Some(Record(ip, now))))
    case ReportRoute => Step(Answer(Report(slot)), slot)
    case NoRoute => Step(Answer(NotFound), slot)
  }

  // ---------------------------------------------------------------------------
  // The worker

  class Worker {
    const secret: string
    /** The KV slot "latest"; None before the first accepted update. */
    var latest: Option<Record>

    constructor (secret: string)
      ensures this.secret == secret && latest == None
    {
      this.secret := secret;
      latest := None;
    }

    /** The `GET /` branch: one read of the slot. */
    method FetchReport() returns (r: Response)
      ensures latest.None? ==> r == IpNotSet
      ensures latest.Some? ==> r == Response(200, ReportBody(latest.value), NoCacheHeaders)
    {
      var raw := latest;
      if raw.None? {
        return IpNotSet;
      }
      var body := ReportBody(raw.value);
      r := Response(200, body, NoCacheHeaders);
    }

    method HandleRequest(req: Request, now: int) returns (out: Outcome)
      modifies this
      ensures Step(out, latest) == Handle(secret, old(latest), req, now)
    {
      if req.verb == "POST" && req.path == "/update" {
        match req.body
        case Unparsable =>
          return Answer(BadJson);
        case JsonNull =>
          return Thrown;
        case JsonObject(key, ip) =>
          if key != Some(secret) || !IsTruthy(ip) {
            return Answer(Unauthorized);
          }
          latest := Some(Record(ip.value, now));
          return Answer(UpdateOk);
      }
      if req.verb == "GET" && req.path == "/" {
        var r := FetchReport();
        return Answer(r);
      }
      return Answer(NotFound);
    }
  }

  /** A client of the class: an accepted update at time t1, then a report at time t2. */
  method UpdateThenFetch(t1: int, t2: int) returns (first: Outcome, second: Outcome)
    ensures first == Answer(UpdateOk)
    ensures second == Answer(Response(200, ReportBody(Record("203.0.113.9", t1)), NoCacheHeaders))
  {
    var w := new Worker("secret");
    first := w.HandleRequest(Request("POST", "/update", JsonObject(Some("secret"), Some("203.0.113.9"))), t1);
    second := w.HandleRequest(Request("GET", "/", Unparsable), t2);
  }

  // ---------------------------------------------------------------------------
  // Properties of one request

  /** A body that is not JSON is answered 400 "Bad JSON" and the slot is not touched. */
  lemma BadJsonRejected(secret: string, slot: Option<Record>, req: Request, now: int)
    requires RouteOf(req) == UpdateRoute && req.body == Unparsable
    ensures Handle(secret, slot, req, now) == Step(Answer(BadJson), slot)
  {
  }

  /** An object body is refused with 401 exactly when its key is not the secret or its
      ip is absent or empty, whatever the other member holds; the slot is then kept. */
  lemma UnauthorizedExactly(secret: string, slot: Option<Record>, req: Request, now: int)
    requires RouteOf(req) == UpdateRoute && req.body.JsonObject?
    ensures Handle(secret, slot, req, now).outcome == Answer(Unauthorized)
            <==> req.body.key != Some(secret) || !IsTruthy(req.body.ip)
    ensures Handle(secret, slot, req, now).outcome == Answer(Unauthorized)
            ==> Handle(secret, slot, req, now).slot == slot
  {
  }

  /** An accepted update replaces the slot with exactly {ip, ts: now}, whatever it held. */
  lemma AcceptedUpdateOverwrites(secret: string, slot: Option<Record>, req: Request, now: int, ip: string)
    requires RouteOf(req) == UpdateRoute && req.body == JsonObject(Some(secret), Some(ip)) && ip != ""
    ensures Handle(secret, slot, req, now) == Step(Answer(UpdateOk), Some(Record(ip, now)))
  {
  }

  /** The record an accepted update writes, if the call is one. */
  function Written(secret: string, req: Request, now: int): Option<Record> {
    if RouteOf(req) == UpdateRoute && Gate(secret, req.body).Accept?
    then Some(Record(Gate(secret, req.body).ip, now))
    else None
  }

  /** The slot changes only by an accepted update, and then to what that update wrote. */
  lemma OnlyAcceptedUpdatesWrite(secret: string, slot: Option<Record>, req: Request, now: int)
    ensures Handle(secret, slot, req, now).slot
            == if Written(secret, req, now).Some? then Written(secret, req, now) else slot
    ensures Handle(secret, slot, req, now).outcome == Answer(UpdateOk) <==> Written(secret, req, now).Some?
  {
  }

  /** `GET /` reads the slot and leaves it as it was. */
  lemma ReportIsReadOnly(secret: string, slot: Option<Record>, req: Request, now: int)
    requires RouteOf(req) == ReportRoute
    ensures Handle(secret, slot, req, now) == Step(Answer(Report(slot)), slot)
  {
  }

  /** Every other method and path gets 404 "Not found", whatever the body, and the slot is kept. */
  lemma UnknownRouteNotFound(secret: string, slot: Option<Record>, req: Request, now: int)
    requires !(req.verb == "POST" && req.path == "/update") && !(req.verb == "GET" && req.path == "/")
    ensures Handle(secret, slot, req, now) == Step(Answer(NotFound), slot)
  {
  }

  /** The report is 404 exactly when the slot is empty, and carries the four no-cache and
      content-type headers either way. */
  lemma ReportStatus(slot: Option<Record>)
    ensures Report(slot).status == 404 <==> slot.None?
    ensures slot.None? ==> Report(slot).body == "IP not set"
    ensures Report(slot).headers == NoCacheHeaders
  {
  }

  /** A stored record is reported as its ip and the Asia/Kolkata wall-clock date and time of
      its instant: the one valid date and time that lies 5:30 hours ahead of it. */
  lemma ReportShowsIstTime(r: Record, t: IstClock.DateTime)
    requires IstClock.ValidDateTime(t)
    requires IstClock.SecondsFromCivil(t) == IstClock.EpochSecond(r.ts) + IstClock.IstOffsetSeconds
    ensures Report(Some(r)) == Response(200,
      "IP: " + r.ip + "\nUpdated: " + IstClock.DateText(t.date) + " " + IstClock.TimeText(t),
      NoCacheHeaders)
  {
    IstClock.IstDateTimeUnique(r.ts, t);
  }

  /** Last write wins: after accepted updates with a and then b, the report is b's. */
  lemma LastWriteWins(secret: string, slot: Option<Record>, first: Request, second: Request,
                      t1: int, t2: int, a: string, b: string)
    requires RouteOf(first) == UpdateRoute && first.body == JsonObject(Some(secret), Some(a)) && a != ""
    requires RouteOf(second) == UpdateRoute && second.body == JsonObject(Some(secret), Some(b)) && b != ""
    ensures var s1 := Handle(secret, slot, first, t1).slot;
            var s2 := Handle(secret, s1, second, t2).slot;
            s2 == Some(Record(b, t2)) && Report(s2) == Response(200, ReportBody(Record(b, t2)), NoCacheHeaders)
  {
  }

  // ---------------------------------------------------------------------------
  // Sequences of requests

  datatype Call = Call(req: Request, now: int)

  /** The slot after handling the calls in order. */
  function Run(secret: string, slot: Option<Record>, calls: seq<Call>): Option<Record>
    decreases |calls|
  {
    if calls == [] then slot
    else Run(secret, Handle(secret, slot, calls[0].req, calls[0].now).slot, calls[1..])
  }

  /** The record written by the last accepted update among the calls, if any. */
  function LastWrite(secret: string, calls: seq<Call>): Option<Record>
    decreases |calls|
  {
    if calls == [] then None
    else
      var last := calls[|calls| - 1];
      var w := Written(secret, last.req, last.now);
      if w.Some? then w else LastWrite(secret, calls[..|calls| - 1])
  }

  lemma {:induction false} RunAppend(secret: string, slot: Option<Record>, calls: seq<Call>, c: Call)
    ensures Run(secret, slot, calls + [c]) == Handle(secret, Run(secret, slot, calls), c.req, c.now).slot
    decreases |calls|
  {
    if calls != [] {
      assert (calls + [c])[1..] == calls[1..] + [c];
      RunAppend(secret, Handle(secret, slot, calls[0].req, calls[0].now).slot, calls[1..], c);
    }
  }

  /** After any sequence of requests the slot holds what the last accepted update wrote,
      or what it held before when no update was accepted. */
  lemma {:induction false} RunIsLastWrite(secret: string, slot: Option<Record>, calls: seq<Call>)
    ensures Run(secret, slot, calls)
            == if LastWrite(secret, calls).Some? then LastWrite(secret, calls) else slot
    decreases |calls|
  {
    if calls != [] {
      var init, last := calls[..|calls| - 1], calls[|calls| - 1];
      assert calls == init + [last];
      RunAppend(secret, slot, init, last);
      RunIsLastWrite(secret, slot, init);
    }
  }
}
