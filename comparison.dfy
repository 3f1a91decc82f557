/** The two versions of the service side by side: they accept the same updates and store
    the same ip, but refuse bad requests with different statuses and report differently. */
module Comparison {

  import opened Wrappers
  import opened Http
  import CloudflareWorker
  import CloudRun

  /** Both versions accept exactly the same decoded update bodies and store the same ip.
      (Flask decodes a body only when its Content-Type is JSON; the worker always does.) */
  lemma SameUpdatesAccepted(secret: string, slot: Option<CloudflareWorker.Record>,
                            latestIp: Option<string>, body: Body)
    ensures CloudflareWorker.Gate(secret, body).Accept?
            <==> CloudRun.UpdateStep(secret, latestIp, body).reply.Jsonified?
    ensures CloudflareWorker.Gate(secret, body).Accept? ==>
            CloudRun.UpdateStep(secret, latestIp, body).latestIp
            == Some(CloudflareWorker.Gate(secret, body).ip)
  {
  }

  /** Where the refusals differ: a body that is not JSON is 400 for the worker and 401 for
      Flask; the JSON null makes the worker throw and Flask answer 401; the right key with
      no ip is 401 for the worker and 400 for Flask. */
  lemma RefusalsDiffer(secret: string, latestIp: Option<string>, ip: Option<string>)
    requires !IsTruthy(ip)
    ensures CloudflareWorker.Gate(secret, Unparsable) == CloudflareWorker.RejectBadJson
    ensures CloudRun.UpdateStep(secret, latestIp, Unparsable).reply.Code() == 401
    ensures CloudflareWorker.Gate(secret, JsonNull) == CloudflareWorker.Throw
    ensures CloudRun.UpdateStep(secret, latestIp, JsonNull).reply.Code() == 401
    ensures CloudflareWorker.Gate(secret, JsonObject(Some(secret), ip)) == CloudflareWorker.RejectUnauthorized
    ensures CloudRun.UpdateStep(secret, latestIp, JsonObject(Some(secret), ip)).reply.Code() == 400
  {
  }

  /** The worker wraps the ip in a report text; Flask answers the bare ip. */
  lemma ReportsDiffer(r: CloudflareWorker.Record)
    requires r.ip != ""
    ensures CloudRun.GetIpReply(Some(r.ip)) == CloudRun.Text(r.ip, 200, CloudRun.PlainText)
    ensures CloudflareWorker.Report(Some(r)).body != r.ip
  {
    assert |CloudflareWorker.Report(Some(r)).body| > |r.ip|;
  }
}
