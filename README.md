# Remote IP reporter, modelled in Dafny

The service lets a client push its current public IP address, with a shared secret, and
lets anyone read the latest one back. It exists in two versions, and each is modelled
here against its own code:

- **Cloudflare Worker** (`cloudflare-worker/worker.js`, module `CloudflareWorker` in
  `worker.dfy`). `handleRequest` routes on the exact method and path. `POST /update`
  parses the body, checks the key and the ip, and overwrites the KV slot `latest` with
  `{ip, ts}`. `GET /` reads the slot. It answers 404 "IP not set" when the slot is
  empty, and otherwise a text report with the time of the update in India Standard
  Time. Both `GET /` answers carry no-cache headers. Everything else gets 404
  "Not found". The KV slot is the field `latest: Option<Record>` of class `Worker`.
  The secret is a constructor parameter, and the clock reading is the argument `now`,
  in epoch milliseconds.
- **IST rendering** (`cloudflare-worker/worker.js:38-47`, module `IstClock` in
  `ist_clock.dfy`). This replaces `toLocaleDateString`/`toLocaleTimeString` with
  integer arithmetic. The steps are: drop the milliseconds, add the India Standard
  Time offset of +05:30 (19800 s), which Asia/Kolkata has kept since 1945-10-15,
  split into a day number and a second of the day, and convert the day number to a
  proleptic Gregorian date. The result is rendered as
  `<Month> <Day>, <Year>` and `HH:MM:SS` (hours 00..23). The date conversion is proved
  against an independent reference, `DaysFromCivil`, in both directions, and the
  date and time texts are read back into the fields they render.
- **Flask app** (`cloud-run/main.py`, module `CloudRun` in `cloud_run.dfy`).
  `update()` and `get_ip()` act on the global `latest_ip`, modelled as the field
  `latestIp` of class `App`. Its gate differs from the worker's. A body that is not
  JSON, is null, or has a wrong key gets 401. A missing or empty ip gets 400 "no ip".
  `get_ip()` answers the bare ip.
- **Comparison** (`comparison.dfy`) states where the two versions agree and where they
  differ.

`wrappers.dfy` holds `Option`, and `strings.dfy` the search for a character that the
texts are read back with. `http.dfy` holds the decoded request shape
(`Request(verb, path, body)`) with the body as `Unparsable`, `JsonNull` or
`JsonObject(key, ip)`, and the response shape.

Three details of the code's behaviour:

- An empty-string `ip` is refused by both versions (`!data.ip`, `not ip`). It is not
  accepted as present.
- In the Flask version, a correct key with a missing ip gets 400, not 401.
- In the worker, the JSON body `null` makes `data.key` throw. The model gives this the
  outcome `Thrown`.

## Model

| member | source | states |
|---|---|---|
| `CloudflareWorker.Worker.constructor` | cloudflare-worker/worker.js:16-26 | The worker starts with the configured secret and an empty `latest` slot. |
| `CloudflareWorker.RouteOf` | cloudflare-worker/worker.js:9-25 | A request is routed to the update exactly when it is POST `/update`, and to the report exactly when it is GET `/`. |
| `CloudflareWorker.Gate` | cloudflare-worker/worker.js:11-18 | A body is accepted exactly when it is an object whose key is the secret and whose ip is non-empty, and the verdict carries that ip. It throws exactly for null and is 400 exactly when it is not JSON. |
| `CloudflareWorker.Handle` | cloudflare-worker/worker.js:5-62 | One request throws exactly when it is POST `/update` with the body null. The slot changes only by an accepted update, and then to `{ip, ts: now}`. |
| `CloudflareWorker.ReportBody` | cloudflare-worker/worker.js:47 | The report body begins with `IP: <ip>`, a line break and `Updated: `. When the ip holds no line break, the first line is exactly `IP: <ip>`, so the ip reads back from the body. |
| `CloudflareWorker.Report` | cloudflare-worker/worker.js:26-57 | The answer to `GET /` is 404 exactly when the slot is empty and 200 exactly when it holds a record, always with the four no-cache headers. |
| `CloudflareWorker.Worker.HandleRequest` | cloudflare-worker/worker.js:5-62 | The early-return handler: its outcome and new slot are exactly `Handle` of the old slot, the request and `now`. |
| `CloudflareWorker.Worker.FetchReport` | cloudflare-worker/worker.js:26-57 | One read of the slot: empty gives 404 "IP not set" with the four headers; a record gives 200 with the report body and the same headers. |
| `CloudflareWorker.UpdateThenFetch` | cloudflare-worker/worker.js:9-57 | On a fresh worker, an update with the right key is answered 200 "OK". A following `GET /` is answered 200 with the report of `{ip: "203.0.113.9", ts: t1}`. |
| `CloudflareWorker.BadJsonRejected` | cloudflare-worker/worker.js:11-15 | A body that is not JSON gives 400 "Bad JSON", and the slot is unchanged. |
| `CloudflareWorker.UnauthorizedExactly` | cloudflare-worker/worker.js:16-18 | A JSON object gets 401 if and only if its key is not the secret or its ip is absent or empty. In that case the slot is unchanged. |
| `CloudflareWorker.AcceptedUpdateOverwrites` | cloudflare-worker/worker.js:19-21 | An accepted update answers 200 "OK" and sets the slot to exactly `{ip, ts: now}`, whatever the slot held before. |
| `CloudflareWorker.OnlyAcceptedUpdatesWrite` | cloudflare-worker/worker.js:16-21 | The slot after any request is the record written by an accepted update, or else the old slot. 200 "OK" is answered exactly when an update is accepted. |
| `CloudflareWorker.ReportIsReadOnly` | cloudflare-worker/worker.js:25-57 | `GET /` answers the report of the current slot and leaves the slot unchanged. |
| `CloudflareWorker.UnknownRouteNotFound` | cloudflare-worker/worker.js:61 | Any request other than POST `/update` or GET `/` gets 404 "Not found", and the slot is unchanged. |
| `CloudflareWorker.ReportStatus` | cloudflare-worker/worker.js:27-57 | The report is 404 exactly when the slot is empty, with body "IP not set" then. Both answers carry the four no-cache/content-type headers. |
| `CloudflareWorker.ReportShowsIstTime` | cloudflare-worker/worker.js:38-57 | For a stored record, the answer is 200 with body `"IP: " + ip + "\nUpdated: " + date + " " + time`, where date and time are those of the unique valid wall-clock time 5:30 h after the stored instant. |
| `CloudflareWorker.LastWriteWins` | cloudflare-worker/worker.js:20-47 | After accepted updates with a and then b, the slot holds b's record, and the report is b's. |
| `CloudflareWorker.RunAppend` | cloudflare-worker/worker.js:20 | Handling the requests xs and then c leaves the slot that handling c leaves after xs. |
| `CloudflareWorker.RunIsLastWrite` | cloudflare-worker/worker.js:20 | After any sequence of requests, the slot holds what the last accepted update wrote. If no update was accepted, it holds what it held before. |
| `IstClock.DaysBeforeYearStep` | cloudflare-worker/worker.js:40-42 | The day count of January 1 starts at 0 for 1970 and grows by each year's length: 366 for leap years, 365 otherwise. |
| `IstClock.DaysBeforeYearMonotone` | cloudflare-worker/worker.js:40-42 | The whole of an earlier year lies before the first day of any later year. |
| `IstClock.YearOfDayCorrect` | cloudflare-worker/worker.js:40-42 | The 400/100/4/1-year split of a day number gives a year and a day of that year. The day is within the year's length, and the pair adds back to the day number. |
| `IstClock.MonthContaining` | cloudflare-worker/worker.js:40-42 | The month found is the last one that starts on or before the day of the year. |
| `IstClock.MonthContainingUnique` | cloudflare-worker/worker.js:40-42 | Any month whose days contain the day of the year is the month found. |
| `IstClock.CivilFromDays` | cloudflare-worker/worker.js:40-42 | A day number becomes a valid date: month 1..12, and a day within that month's length. |
| `IstClock.CivilFromDaysCorrect` | cloudflare-worker/worker.js:40-42 | The date found has the given day number under the reference `DaysFromCivil`. |
| `IstClock.CivilFromDaysInverse` | cloudflare-worker/worker.js:40-42 | Every valid date is recovered from its day number, so the conversion is the inverse of the reference. |
| `IstClock.IstDateTime` | cloudflare-worker/worker.js:39-46 | The rendered fields form a valid date with hour 0..23 and minute and second 0..59. |
| `IstClock.IstDateTimeCorrect` | cloudflare-worker/worker.js:39-46 | The wall-clock fields, read back as seconds, are the stored instant (whole seconds) plus 19800 s (+05:30). |
| `IstClock.IstDateTimeUnique` | cloudflare-worker/worker.js:39-46 | Any valid date and time that lies 19800 s after the instant is the one rendered. |
| `IstClock.YearText` | cloudflare-worker/worker.js:40-42 | The year text is digits, or a minus sign and digits, and reads back as the year. |
| `IstClock.DateText` | cloudflare-worker/worker.js:40-42 | The date text `<Month> <Day>, <Year>` starts with the long month name and a space. |
| `IstClock.DateTextRoundTrip` | cloudflare-worker/worker.js:40-42 | The date text splits at its first space and first comma and reads back as the date. |
| `IstClock.DateTextInjective` | cloudflare-worker/worker.js:40-42 | Two valid dates have the same text exactly when they are the same date. |
| `IstClock.TimeText` | cloudflare-worker/worker.js:43-46 | The time text is 8 characters, with colons at positions 2 and 5 and digits elsewhere. |
| `IstClock.DecimalRoundTrip` | cloudflare-worker/worker.js:40-42 | The unpadded decimal text of a number is all digits, has no leading zero and reads back as the number. |
| `IstClock.TimeTextRoundTrip` | cloudflare-worker/worker.js:43-46 | The time text is exactly `HH:MM:SS` (8 characters, colons at 2 and 5), and reads back as the hour, minute and second. |
| `IstClock.MonthNamesDistinct` | cloudflare-worker/worker.js:40-42 | The long English month names of two months are equal exactly when the months are. |
| `IstClock.NewYear2024Instant` | cloudflare-worker/worker.js:39-46 | 2024-01-01T12:00:00Z (1704110400000 ms) is 2024-01-01 17:30:00 in Asia/Kolkata. |
| `IstClock.NewYear2024Example` | cloudflare-worker/worker.js:38-47 | That instant renders as "January 1, 2024 17:30:00". |
| `CloudRun.App.constructor` | cloud-run/main.py:7-10 | The app starts with the configured secret, and `latest_ip` is None. |
| `CloudRun.UpdateStep` | cloud-run/main.py:13-22 | `update()` answers jsonify exactly when the key test passes and the ip is non-empty. Otherwise it aborts, with 401 exactly when the key test fails and 400 otherwise. `latest_ip` changes only on acceptance, to the ip answered. |
| `CloudRun.GetIpReply` | cloud-run/main.py:25-28 | `get_ip()` is 404 exactly when `latest_ip` is None or empty; a 200 answer is the stored ip as plain text. |
| `CloudRun.App.Update` | cloud-run/main.py:13-22 | `update()` keeps the invariant. Its reply and the new `latest_ip` are exactly `UpdateStep` of the old value and the body. |
| `CloudRun.App.GetIp` | cloud-run/main.py:25-28 | An unset or empty `latest_ip` gives 404 "IP not set". Otherwise the answer is the stored ip verbatim, with status 200 and a text/plain content type. Under the invariant, a set value always gives 200. |
| `CloudRun.WrongKeyUnauthorized` | cloud-run/main.py:15-17 | An unparsable body, null, or a wrong key gives 401 whatever the ip, and `latest_ip` is unchanged. |
| `CloudRun.KeyCheckedBeforeIp` | cloud-run/main.py:16-20 | With an absent or empty ip, the right key gives 400 "no ip" and a wrong key gives 401. `latest_ip` is unchanged either way. |
| `CloudRun.UpdateAcceptedExactly` | cloud-run/main.py:16-22 | An update is accepted if and only if the key is the secret and the ip is non-empty. It then sets `latest_ip` to the ip and answers `{status: "ok", ip}`. |
| `CloudRun.UpdateKeepsInvariant` | cloud-run/main.py:19-21 | `update()` keeps `latest_ip` either None or a non-empty string. |
| `CloudRun.GetIpAnswers` | cloud-run/main.py:26-28 | Under the invariant, `get_ip()` is 404 exactly when `latest_ip` is None, and otherwise the bare ip with status 200. |
| `CloudRun.ServeKeepsInvariant` | cloud-run/main.py:7-21 | Every sequence of calls keeps `latest_ip` None or non-empty. |
| `CloudRun.NeverUnsetAgain` | cloud-run/main.py:19-27 | Once an update has been accepted, `get_ip()` answers 200 after any further sequence of calls. |
| `CloudRun.LastWriteWins` | cloud-run/main.py:21-28 | After accepted updates with a and then b, `get_ip()` answers b. |
| `Comparison.SameUpdatesAccepted` | cloud-run/main.py:15-21 | Both versions accept exactly the same decoded bodies, and both store the same ip. |
| `Comparison.RefusalsDiffer` | cloud-run/main.py:15-20 | The refusals differ by version. A body that is not JSON is 400 for the worker and 401 for Flask. Null makes the worker throw and Flask answer 401. The right key with no ip is 401 for the worker and 400 for Flask. |
| `Comparison.ReportsDiffer` | cloud-run/main.py:26-28 | Flask answers the bare ip, while the worker's report body is never just the ip. |

## Left out

- The HTTP runtime is not modelled: `addEventListener`/`respondWith`, `new URL(...)`, the Flask app object and its route decorators. A request arrives with its method, path name and decoded body. Query strings and URL normalisation are not modelled.
- Flask's own 405 for a wrong method on a known path is not modelled. It happens in Flask's routing, before the view functions.
- `abort` is modelled by its code and description. Flask's error page bodies and `jsonify`'s serialisation are not modelled.
- JSON decoding is reduced to: not JSON, `null`, or an object whose `key` and `ip` members are strings or absent. Other JSON values are not modelled: bodies that are booleans, numbers, strings or arrays, and `key` or `ip` members of other types. The two versions treat many of them differently, because JavaScript and Python disagree on which values are truthy (an empty array or object is truthy in JavaScript and falsy in Python) and because Flask fails on some of them where the worker does not.
- Flask's `get_json(silent=True)` decodes a body only when its Content-Type is JSON, and the worker's `request.json()` ignores the Content-Type. A well-formed JSON body sent with another Content-Type (a form post, say) is therefore `Unparsable` for Flask (401) but decoded by the worker. The model has one decoded body per request and does not capture this difference, so `Comparison.SameUpdatesAccepted` is about decoded bodies only.
- The ISO-8601 text of the timestamp is not modelled (`toISOString`, `new Date(ts)`). The record holds the instant as epoch milliseconds, and the text round trip is taken as exact.
- `Intl` engine quirks are not modelled, such as "24:00:00" at midnight under `hour12: false`. The model renders hours 00..23. Negative year numbers are written with a minus sign, and year 0 (1 BCE) as "0"; `Intl`'s era notation for years before 1 CE is not modelled.
- The time zone database's history of Asia/Kolkata is not modelled. The model adds +05:30 to every instant, while the zone was +06:30 from 1941-10 to 1942-05-15 and from 1942-09 to 1945-10-15, and used local mean times before 1906. Stored instants are the server clock at update time, so they lie after 1945.
- The KV store's consistency between isolates, and concurrent requests to either version, are not modelled. One slot field stands for the store, and requests are handled one at a time.
- Failures of the store are not modelled. Neither version handles them.
- Configuration lookup is not modelled (`UPDATE_SECRET` as an ambient binding, `os.environ`). The secret is a constructor parameter.
- An empty JSON object `{}` is falsy in `update()`. The model refuses it through the key test instead. The answer is the same (401, `latest_ip` unchanged), because `{}` has no key either.
