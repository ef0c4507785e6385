# Custom-hostname certificate issuance, modelled in Dafny

`IssueCert` (node/issuecert.js) issues a domain-validated TLS certificate for
a customer hostname through Cloudflare's SSL-for-SaaS API and then watches it
until it is live. One invocation does the following:

- It builds the certificate request body `{hostname, ssl:{method, type:"dv"}, custom_origin_server?}`.
- It schedules a recurring status check.
- It resolves the configured parent zone name to a zone identifier by scanning the zone listing.
- It POSTs the certificate request to that zone's custom-hostnames endpoint.
- It yields the status check's handle.

Each time the status check fires, it queries the hostname's certificate status. The interpreter logs one message per status and cancels the check once the status is `active`.

The model follows that structure, one module per part:

- `Wrappers`: `Option`. `None` stands for a JavaScript `undefined` argument or a failed request.
- `Payload`: the issuance request and the request body as records, and `BuildPayload`, which creates the body and then amends it, as the source does.
- `Endpoints`: the three API URLs, and parsers that read the zone identifier and the hostname back out of them.
- `ZoneResolver`: the zone listing entries and `ResolveZone`, the specification of the scan: the identifier of the first entry whose name equals the parent zone name exactly.
- `StatusInterpreter`: the status vocabulary, the message for each status, and `Consumed`, which gives how many status replies the recurring check interprets before it is cancelled.
- `Polling`: class `StatusCheck`, the scheduled task. It has a `stopped` flag, the interpreter's `log`, `Tick` (one status reply) and `Drive` (the task firing once per reply until it is cancelled).
- `Workflow`: class `IssueCert`, the state the closure shares between the asynchronous steps: `zoneID`, the body and the task handle. Every HTTP request it issues is recorded in `calls`. Its methods are the steps `ValidateZone`, `RequestCert` and `GetCertStatus`. `Run` chains the first two in the promise chain's order, and `Poll` fires `GetCertStatus` once per reply until the task is cancelled.

The network is replaced by parameters that carry already-parsed replies:

- the zone listing: `None` when the request fails, its body is not JSON, or it has no `result` array;
- the POST reply's `success` flag: `None` when the request fails, its body is not JSON, or `success` is missing;
- the status reply: `None` when the query fails or its body is not JSON; otherwise its `result` entries, each the `ssl.status` of the entry, or `None` for an entry without an `ssl` object.

Some reply shapes throw inside a step, and the step's `.catch` swallows the error:

- a zone listing without `result`: the top-level handler swallows it, and no certificate request is sent;
- a POST reply without `success`: `requestCert` swallows it, and the handle is still yielded;
- a status reply with no `result`, an empty `result`, or a first entry without `ssl`: `getCertStatus` swallows it, logs no status message, and polling continues.

Other shapes do not throw, and they are encoded as ordinary values:

- A first entry whose `ssl.status` is missing or not a string reaches the `switch` and takes the default case. It is logged as "status unknown" and polling continues. It is passed as any string other than the four case labels; all such strings give the same message and effect (`MessagesDistinct`, `ParseStatus`).
- A zone entry without a `name` never matches the parent zone name. It is passed with any other name.
- A matching zone entry without an `id` sets `zoneID` to `undefined`. The URLs then contain the text `undefined`, for example `/zones/undefined/custom_hostnames`, and nothing rejects them. It is passed as an entry whose id is `"undefined"`. The value the scan itself returns then differs, but the promise chain ignores that value.

The model records what the code does, including its defects:

- A zone listing without the parent zone leaves `zoneID` empty. The certificate request is still sent, to `…/zones//custom_hostnames`.
- The status check is created, already running, when `IssueCert` is evaluated. That is before the zone is resolved, so nothing stops `GetCertStatus` from running first, with the empty identifier.
- A status reply that arrives after cancellation is still interpreted.
- A second `active` reply calls `destroy()` again. `Destroy` assumes that cancelling an already cancelled task is harmless. That is an assumption about node-cron's `destroy()`, which is not part of this model.

## Model

| member | source | states |
|---|---|---|
| `Payload.EffectiveMethod` | node/issuecert.js:12 | the validation method is `"http"` when the argument is left undefined, otherwise the argument |
| `Payload.BuildPayload` | node/issuecert.js:23-38 | the body's hostname is the customer hostname, its `ssl.method` the effective validation method, its `ssl.type` `"dv"`; `custom_origin_server` is present iff the argument was supplied, and then holds it; the record type admits no other key |
| `Endpoints.CustomHostnamesUrl` | node/issuecert.js:69 | the POST URL is the API's `/zones/` prefix, then exactly the zone identifier, then `/custom_hostnames` |
| `Endpoints.StatusUrl` | node/issuecert.js:94 | the status URL is the POST URL for the same zone, then `?hostname=`, then exactly the hostname, unescaped |
| `Endpoints.ZoneIdOf` | node/issuecert.js:69 | whatever zone identifier is read out of a URL rebuilds that URL |
| `Endpoints.HostnameOf` | node/issuecert.js:94 | whatever hostname is read out of a status URL for a zone rebuilds that URL |
| `Endpoints.ZoneIdOfCustomHostnamesUrl` | node/issuecert.js:69 | reading the zone back out of a POST URL gives the zone it was built from |
| `Endpoints.CustomHostnamesUrlInjective` | node/issuecert.js:69 | distinct zone identifiers give distinct POST URLs |
| `Endpoints.HostnameOfStatusUrl` | node/issuecert.js:94 | within a zone, reading the hostname back out of a status URL gives the hostname it was built from |
| `Endpoints.UnresolvedZoneUrls` | node/issuecert.js:69-94 | with the empty zone identifier both URLs are still built, with an empty path segment |
| `ZoneResolver.ResolveZone` | node/issuecert.js:53-63 | defined as the id of the first entry whose name equals the parent zone name, or none; its contract: any id it yields belongs to an entry named exactly the parent zone name |
| `ZoneResolver.ResolveZoneFirstMatch` | node/issuecert.js:53-59 | when entry i is the first whose name equals the parent zone name (case-sensitive equality), the scan yields entry i's id |
| `ZoneResolver.ResolveZoneSound` | node/issuecert.js:53-62 | whatever the scan yields is the id of the first exactly matching entry |
| `ZoneResolver.ResolveZoneNone` | node/issuecert.js:53-63 | the scan yields nothing iff no entry's name matches |
| `ZoneResolver.ResolveZoneIgnoresLater` | node/issuecert.js:55-60 | once a match is found, entries appended after the listing do not change the result |
| `ZoneResolver.ResolveZoneSkipsMisses` | node/issuecert.js:54-62 | non-matching entries in front of a listing do not change the result |
| `StatusInterpreter.ParseStatus` | node/issuecert.js:113-133 | each status string is classified by exact comparison with the four case labels; any other string falls to the default case, verbatim; only `"active"` is classified as active |
| `StatusInterpreter.ParseStatusName` | node/issuecert.js:113-132 | classifying the name of a status gives that status back |
| `StatusInterpreter.Message` | node/issuecert.js:114-134 | defined as the line logged for each case, with the hostname spliced in, and the effective validation method too for `pending_validation`; its contract: every line names the hostname, and the `pending_validation` line names the method |
| `StatusInterpreter.MessagesDistinct` | node/issuecert.js:114-134 | two statuses log the same message iff they are the same status or both unrecognised, for every hostname and validation method |
| `StatusInterpreter.Consumed` | node/issuecert.js:127-129 | the task interprets statuses up to and including the first `active` and then no more; without `active` it interprets them all |
| `StatusInterpreter.NormalLifecycle` | node/issuecert.js:114-130 | fed pending_validation, pending_issuance, pending_deployment, active, the task logs four pairwise different messages in that order, and it is stopped only by the fourth |
| `Polling.StatusCheck.constructor` | node/issuecert.js:85-87 | a newly scheduled task is running and has logged nothing |
| `Polling.StatusCheck.Destroy` | node/issuecert.js:129 | cancelling stops the task, also when it is already stopped, and logs nothing |
| `Polling.StatusCheck.Tick` | node/issuecert.js:112-136 | one status appends exactly its message to the log and stops the task iff the status is `"active"`; every other status leaves it as it was |
| `Polling.StatusCheck.Drive` | node/issuecert.js:85-87 | the firing task logs the messages of the statuses it consumes, in order, and ends stopped iff one of them was `active` |
| `Workflow.IssueCert.constructor` | node/issuecert.js:10-43 | an invocation starts with the body built from its arguments, a running status check with an empty log, an empty zone identifier and no requests issued |
| `Workflow.IssueCert.ValidateZone` | node/issuecert.js:46-64 | the scan yields the first exact match of the parent zone name and stores it in `zoneID`; on a miss it yields nothing and `zoneID` keeps its value; one listing request is issued |
| `Workflow.IssueCert.RequestCert` | node/issuecert.js:67-82 | the body is POSTed to the URL of the current `zoneID`; the result is `"true"`/`"false"` from the reply's success flag, or nothing when the request fails |
| `Workflow.IssueCert.GetCertStatus` | node/issuecert.js:92-105 | the status of the current `zoneID` and hostname is queried; the first result's status is interpreted; a failed query, an empty result or a first entry without `ssl` changes neither log nor task |
| `Workflow.IssueCert.Poll` | node/issuecert.js:85-105 | the task fires once per reply while not cancelled. Each firing records a status query. The log gains the messages of the statuses the fired replies report, in order. The task ends cancelled iff some reply reports `active` |
| `Workflow.Firings` | node/issuecert.js:85-129 | the task fires for every reply up to and including the first that reports `active`, and for all of them if none does |
| `Workflow.PollingAsDrive` | node/issuecert.js:99-104 | polling through failed, empty and `ssl`-less replies logs exactly what the task logs when driven with the reported statuses alone |
| `Workflow.PollingStopsIffActive` | node/issuecert.js:127-129 | `active` is among the statuses a run of replies reports, so `Poll` ends with the task cancelled, iff some single reply reports `active` |
| `Workflow.IssueCert.Run` | node/issuecert.js:138-147 | the listing request comes first, then the POST to the resolved (or still empty) zone, then the handle is yielded; a failed listing issues no POST and yields nothing |

## Left out

- HTTP transport, headers and credentials (node/issuecert.js:17-21) are left out. The replies are parameters; each request is recorded as verb, URL and body in `IssueCert.calls`.
- JSON serialisation and parsing are left out. The body is a record, and replies arrive already parsed; the shapes are listed above.
- A `success` flag that is present but not boolean is left out. `toString` would yield its text, such as `"1"`; the model takes the flag as a boolean.
- The 15-second cron cadence and the timer itself are left out. `Poll` fires the task once per supplied reply, and `Drive` once per supplied status. Overlapping in-flight queries are concurrency, which this sequential model does not capture beyond letting `Tick` run on a stopped task.
- `console.log` output is left out, except the interpreter's messages, which go to `StatusCheck.log`. Errors caught by the `.catch` handlers are logged and swallowed; the model keeps only the swallowing.
- The process environment (node/issuecert.js:4-8) is left out. The parent zone name is a constructor parameter, so an unset `CF_ZONE` is not modelled; with it unset, entries without a name would match. The API key and email appear only in headers.
- Arguments that are not strings are left out. A template literal would stringify `null` or a number, for example to `"null"`; the model takes the optional arguments as optional strings.
