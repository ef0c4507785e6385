/** One invocation of `IssueCert`: the state its closure shares between the
    asynchronous steps (the resolved zone identifier, the request body, the
    scheduled status check) and the steps themselves. Every HTTP request the
    invocation issues is recorded, in order, in `calls`; the replies are
    parameters, already parsed, with `None` for a request that failed. */
module Workflow {
  import opened Wrappers
  import opened Payload
  import opened Endpoints
  import opened ZoneResolver
  import opened StatusInterpreter
  import opened Polling

  datatype Verb = Get | Post

  /** An outbound request: verb, URL and, for the POST, its body. */
  datatype ApiCall = ApiCall(verb: Verb, url: string, body: Option<HostnamePayload>)

  const ListZones: ApiCall := ApiCall(Get, ZonesUrl, None)

  /** A parsed reply to the status query: the `result` entries, each with the
      `ssl.status` of its `ssl` object, or `None` where the entry has no `ssl`
      object. The reply itself is `None` when the query failed. */
  type StatusReply = Option<seq<Option<string>>>

  /** The status the interpreter gets to see from a reply: none when the query
      failed, or `result[0]` or its `ssl` object is missing, since each of
      those throws before the `switch` and is swallowed. */
  function ReportedStatus(reply: StatusReply): Option<string>
  {
    if reply.Some? && reply.value != [] then reply.value[0] else None
  }

  /** The statuses one reply reports: its status, if the interpreter sees one. */
  function ReportedBy(reply: StatusReply): seq<string>
  {
    match ReportedStatus(reply)
    case Some(st) => [st]
    case None => []
  }

  /** The statuses a run of replies reports, in order; a reply that reports
      none contributes nothing. */
  function Reported(replies: seq<StatusReply>): seq<string>
  {
    if replies == [] then [] else ReportedBy(replies[0]) + Reported(replies[1..])
  }

  /** How many times the status check fires for a run of replies before it is
      cancelled: up to and including the first reply reporting `active`, or
      all of them. */
  function Firings(replies: seq<StatusReply>): (n: nat)
    ensures n <= |replies|
    ensures forall j :: 0 <= j < n - 1 ==> ReportedStatus(replies[j]) != Some("active")
    ensures n < |replies| ==> 0 < n && ReportedStatus(replies[n - 1]) == Some("active")
  {
    if replies == [] then 0
    else if ReportedStatus(replies[0]) == Some("active") then 1
    else 1 + Firings(replies[1..])
  }

  /** The requests `k` firings of the status check issue. */
  function StatusQueries(zoneID: string, hostname: string, k: nat): seq<ApiCall>
  {
    seq(k, _ => ApiCall(Get, StatusUrl(zoneID, hostname), None))
  }

  /** The statuses reported by a reply followed by a run of replies. */
  lemma ReportedCons(reply: StatusReply, rest: seq<StatusReply>)
    ensures Reported([reply] + rest) == ReportedBy(reply) + Reported(rest)
  {
    assert ([reply] + rest)[0] == reply;
    assert ([reply] + rest)[1..] == rest;
  }

  /** The statuses reported by two runs of replies, one after the other. */
  lemma {:induction false} ReportedAppend(a: seq<StatusReply>, b: seq<StatusReply>)
    ensures Reported(a + b) == Reported(a) + Reported(b)
  {
    if a == [] {
      assert a + b == b;
    } else {
      assert a + b == [a[0]] + (a[1..] + b);
      ReportedCons(a[0], a[1..] + b);
      ReportedAppend(a[1..], b);
      assert a == [a[0]] + a[1..];
      ReportedCons(a[0], a[1..]);
    }
  }

  /** One more firing: the status check either stops at it or goes on with
      the remaining replies. */
  lemma FiringsStep(replies: seq<StatusReply>, i: nat)
    requires i < |replies|
    ensures ReportedStatus(replies[i]) == Some("active") ==> Firings(replies[i..]) == 1
    ensures ReportedStatus(replies[i]) != Some("active") ==> Firings(replies[i..]) == 1 + Firings(replies[i + 1..])
  {
    assert replies[i..][0] == replies[i];
    assert replies[i..][1..] == replies[i + 1..];
  }

  /** A status other than `active` in front of a run of statuses is
      interpreted, and the task goes on with the run. */
  lemma ConsumedAfter(head: seq<string>, rest: seq<string>)
    requires |head| <= 1 && "active" !in head
    ensures Consumed(head + rest) == |head| + Consumed(rest)
    ensures (head + rest)[..|head| + Consumed(rest)] == head + rest[..Consumed(rest)]
  {
    if head == [] {
      assert head + rest == rest;
    } else {
      assert (head + rest)[0] == head[0];
      assert (head + rest)[1..] == rest;
    }
  }

  /** The effect of one more firing on the statuses seen, the messages
      logged and the requests issued. */
  lemma PollStep(replies: seq<StatusReply>, i: nat, hostname: string, validationMethod: string, zoneID: string, customerHostname: string)
    requires i < |replies|
    ensures "active" in Reported(replies[..i + 1])
            <==> "active" in Reported(replies[..i]) || ReportedStatus(replies[i]) == Some("active")
    ensures Messages(Reported(replies[..i + 1]), hostname, validationMethod)
            == Messages(Reported(replies[..i]), hostname, validationMethod)
               + (if ReportedStatus(replies[i]).Some?
                  then [Message(ParseStatus(ReportedStatus(replies[i]).value), hostname, validationMethod)]
                  else [])
    ensures StatusQueries(zoneID, customerHostname, i + 1)
            == StatusQueries(zoneID, customerHostname, i) + [ApiCall(Get, StatusUrl(zoneID, customerHostname), None)]
  {
    assert replies[..i + 1] == replies[..i] + [replies[i]];
    ReportedAppend(replies[..i], [replies[i]]);
    ReportedCons(replies[i], []);
    assert [replies[i]] + [] == [replies[i]];
    var before := Reported(replies[..i]);
    if ReportedStatus(replies[i]).Some? {
      var st := ReportedStatus(replies[i]).value;
      assert Messages(before + [st], hostname, validationMethod)
          == Messages(before, hostname, validationMethod) + [Message(ParseStatus(st), hostname, validationMethod)];
    } else {
      assert before + [] == before;
    }
  }

  /** Polling through failed and empty queries logs exactly what driving the
      task on the reported statuses alone logs. */
  lemma {:induction false} PollingAsDrive(replies: seq<StatusReply>)
    ensures Reported(replies[..Firings(replies)]) == Reported(replies)[..Consumed(Reported(replies))]
  {
    if replies != [] {
      var r, rest := replies[0], replies[1..];
      assert replies == [r] + rest;
      ReportedCons(r, rest);
      var head, tail := ReportedBy(r), Reported(rest);
      assert Reported(replies) == head + tail;
      if ReportedStatus(r) == Some("active") {
        assert Firings(replies) == 1;
        assert replies[..1] == [r] + [];
        ReportedCons(r, []);
        assert head == ["active"];
        assert (head + tail)[0] == "active";
        assert Consumed(head + tail) == 1;
        assert (head + tail)[..1] == head;
      } else {
        var f := Firings(rest);
        assert Firings(replies) == 1 + f;
        PollingAsDrive(rest);
        assert replies[..1 + f] == [r] + rest[..f];
        ReportedCons(r, rest[..f]);
        assert Reported(replies[..1 + f]) == head + tail[..Consumed(tail)];
        ConsumedAfter(head, tail);
      }
    }
  }

  /** The status check is cancelled by a run of replies exactly when one of
      them reports `active`. */
  lemma {:induction false} PollingStopsIffActive(replies: seq<StatusReply>)
    ensures "active" in Reported(replies) <==> exists j :: 0 <= j < |replies| && ReportedStatus(replies[j]) == Some("active")
  {
    if replies != [] {
      var r, rest := replies[0], replies[1..];
      assert replies == [r] + rest;
      ReportedCons(r, rest);
      PollingStopsIffActive(rest);
      if exists j :: 0 <= j < |rest| && ReportedStatus(rest[j]) == Some("active") {
        var j :| 0 <= j < |rest| && ReportedStatus(rest[j]) == Some("active");
        assert replies[j + 1] == rest[j];
      }
      if exists j :: 0 <= j < |replies| && ReportedStatus(replies[j]) == Some("active") {
        var j :| 0 <= j < |replies| && ReportedStatus(replies[j]) == Some("active");
        if j > 0 {
          assert rest[j - 1] == replies[j];
        }
      }
    }
  }

  class IssueCert {
    const request: IssuanceRequest
    /** The configured name of the white-labelled parent zone. */
    const parentZoneName: string
    /** The certificate request body, built once per invocation. */
    const payload: HostnamePayload
    /** The handle of the recurring status check. */
    const scheduleStatusCheck: StatusCheck
    /** The resolved zone identifier; empty until resolution succeeds. */
    var zoneID: string
    /** The HTTP requests issued so far, oldest first. */
    var calls: seq<ApiCall>

    /** Evaluating `IssueCert`: builds the body, schedules the status check
        (already running, before the zone is resolved) and starts with an
        empty zone identifier. */
    constructor (request: IssuanceRequest, parentZoneName: string)
      ensures this.request == request && this.parentZoneName == parentZoneName
      ensures payload.hostname == request.customerHostname
      ensures payload.ssl == Ssl(EffectiveMethod(request), DomainValidated)
      ensures payload.customOriginServer == request.customOriginServer
      ensures fresh(scheduleStatusCheck)
      ensures scheduleStatusCheck.hostname == request.customerHostname
      ensures scheduleStatusCheck.validationMethod == EffectiveMethod(request)
      ensures !scheduleStatusCheck.stopped && scheduleStatusCheck.log == []
      ensures zoneID == "" && calls == []
    {
      var p := BuildPayload(request);
      var task := new StatusCheck(request.customerHostname, EffectiveMethod(request));
      this.request := request;
      this.parentZoneName := parentZoneName;
      payload := p;
      scheduleStatusCheck := task;
      zoneID := "";
      calls := [];
    }

    /** Lists the zones and scans the listing for the parent zone name,
        storing the identifier of the first match; on a miss it returns
        nothing and leaves `zoneID` as it was. */
    method ValidateZone(listing: seq<Zone>) returns (r: Option<string>)
      modifies this
      ensures r == ResolveZone(listing, parentZoneName)
      ensures zoneID == if r.Some? then r.value else old(zoneID)
      ensures calls == old(calls) + [ListZones]
    {
      calls := calls + [ListZones];
      var i := 0;
      while i < |listing|
        invariant 0 <= i <= |listing|
        invariant forall j :: 0 <= j < i ==> listing[j].name != parentZoneName
        invariant ResolveZone(listing[i..], parentZoneName) == ResolveZone(listing, parentZoneName)
        invariant zoneID == old(zoneID) && calls == old(calls) + [ListZones]
      {
        if listing[i].name == parentZoneName {
          zoneID := listing[i].id;
          return Some(zoneID);
        }
        assert listing[i..][1..] == listing[i + 1..];
        i := i + 1;
      }
      r := None;
    }

    /** POSTs the body to the zone's custom-hostnames endpoint, using whatever
        `zoneID` holds, and yields the API's success flag as the string
        `"true"` or `"false"`; a failed request yields nothing. */
    method RequestCert(reply: Option<bool>) returns (r: Option<string>)
      modifies this
      ensures calls == old(calls) + [ApiCall(Post, CustomHostnamesUrl(zoneID), Some(payload))]
      ensures zoneID == old(zoneID)
      ensures reply.None? ==> r.None?
      ensures reply.Some? ==> r == Some(if reply.value then "true" else "false")
    {
      calls := calls + [ApiCall(Post, CustomHostnamesUrl(zoneID), Some(payload))];
      match reply
      case None => r := None;
      case Some(success) => r := Some(if success then "true" else "false");
    }

    /** One firing of the status check: queries the hostname's status and
        hands the first result's status to the interpreter. A failed query, an
        empty result or a first entry without `ssl` is swallowed and changes
        nothing but the recorded query. */
    method GetCertStatus(reply: StatusReply)
      modifies this, scheduleStatusCheck
      ensures calls == old(calls) + [ApiCall(Get, StatusUrl(zoneID, request.customerHostname), None)]
      ensures zoneID == old(zoneID)
      ensures ReportedStatus(reply).Some? ==>
                && scheduleStatusCheck.log == old(scheduleStatusCheck.log)
                     + [Message(ParseStatus(ReportedStatus(reply).value), scheduleStatusCheck.hostname, scheduleStatusCheck.validationMethod)]
                && scheduleStatusCheck.stopped == (old(scheduleStatusCheck.stopped) || ReportedStatus(reply).value == "active")
      ensures ReportedStatus(reply).None? ==>
                && scheduleStatusCheck.log == old(scheduleStatusCheck.log)
                && scheduleStatusCheck.stopped == old(scheduleStatusCheck.stopped)
    {
      calls := calls + [ApiCall(Get, StatusUrl(zoneID, request.customerHostname), None)];
      if reply.Some? && reply.value != [] && reply.value[0].Some? {
        scheduleStatusCheck.Tick(reply.value[0].value);
      }
    }

    /** The status check firing once per reply, in order, for as long as it
        has not been cancelled; each firing is a `GetCertStatus`. */
    method Poll(replies: seq<StatusReply>)
      modifies this, scheduleStatusCheck
      ensures zoneID == old(zoneID)
      ensures var k := if old(scheduleStatusCheck.stopped) then 0 else Firings(replies);
              && calls == old(calls) + StatusQueries(zoneID, request.customerHostname, k)
              && scheduleStatusCheck.log == old(scheduleStatusCheck.log)
                   + Messages(Reported(replies[..k]), scheduleStatusCheck.hostname, scheduleStatusCheck.validationMethod)
      ensures scheduleStatusCheck.stopped == (old(scheduleStatusCheck.stopped) || "active" in Reported(replies))
    {
      var task := scheduleStatusCheck;
      if task.stopped {
        assert replies[..0] == [];
        return;
      }
      ghost var h, m := task.hostname, task.validationMethod;
      ghost var calls0, log0 := calls, task.log;
      var i := 0;
      while i < |replies| && !task.stopped
        invariant 0 <= i <= |replies|
        invariant zoneID == old(zoneID)
        invariant calls == calls0 + StatusQueries(zoneID, request.customerHostname, i)
        invariant task.log == log0 + Messages(Reported(replies[..i]), h, m)
        invariant task.stopped <==> "active" in Reported(replies[..i])
        invariant !task.stopped ==> Firings(replies) == i + Firings(replies[i..])
        invariant task.stopped ==> i == Firings(replies)
      {
        PollStep(replies, i, h, m, zoneID, request.customerHostname);
        FiringsStep(replies, i);
        GetCertStatus(replies[i]);
        i := i + 1;
      }
      ReportedAppend(replies[..i], replies[i..]);
      assert replies[..i] + replies[i..] == replies;
    }

    /** The invocation's promise chain: resolve the zone, then request the
        certificate, then yield the status check's handle. A failed zone
        listing skips the rest and yields nothing. A listing without the
        parent zone does not: the request is still sent, with the empty
        identifier in its URL. A failed certificate request is swallowed and
        the handle is still yielded. */
    method Run(listing: Option<seq<Zone>>, reply: Option<bool>) returns (handle: Option<StatusCheck>)
      modifies this
      ensures listing.None? ==> handle.None? && zoneID == old(zoneID) && calls == old(calls) + [ListZones]
      ensures listing.Some? ==>
                && handle == Some(scheduleStatusCheck)
                && zoneID == ResolveZone(listing.value, parentZoneName).GetOr(old(zoneID))
                && calls == old(calls) + [ListZones, ApiCall(Post, CustomHostnamesUrl(zoneID), Some(payload))]
    {
      if listing.None? {
        calls := calls + [ListZones];
        return None;
      }
      var _ := ValidateZone(listing.value);
      var _ := RequestCert(reply);
      handle := Some(scheduleStatusCheck);
    }
  }

  /** A client of the specifications above: the parent zone is listed second,
      the certificate gets requested in that zone, an unrecognised status is
      logged as unknown without ending the polling, and failed, empty and
      `ssl`-less replies are swallowed while polling goes on to `active`. */
  method ShopScenario()
  {
    var req := IssuanceRequest("shop.example.com", None, None);
    var w := new IssueCert(req, "sb.example.net");
    var zones := [Zone("Z000", "example.org"), Zone("Z123", "sb.example.net")];
    var handle := w.Run(Some(zones), Some(true));
    assert handle == Some(w.scheduleStatusCheck);
    assert w.zoneID == "Z123";
    assert w.calls[1] == ApiCall(Post, ApiBase + "/zones/Z123/custom_hostnames", Some(w.payload));
    assert w.payload == HostnamePayload("shop.example.com", Ssl("http", "dv"), None);
    w.GetCertStatus(Some([Some("revoked")]));
    assert w.scheduleStatusCheck.log == [Message(Unrecognised("revoked"), "shop.example.com", "http")];
    assert Message(Unrecognised("revoked"), "shop.example.com", "http") == "shop.example.com status unknown";
    assert !w.scheduleStatusCheck.stopped;
    var replies: seq<StatusReply> := [None, Some([]), Some([None]), Some([Some("active")]), Some([Some("pending_issuance")])];
    assert Reported(replies[5..]) == [];
    assert Reported(replies[4..]) == ["pending_issuance"] by { assert replies[4..][1..] == replies[5..]; }
    assert Reported(replies[3..]) == ["active", "pending_issuance"] by { assert replies[3..][1..] == replies[4..]; }
    assert Reported(replies[2..]) == Reported(replies[3..]) by { assert replies[2..][1..] == replies[3..]; }
    assert Reported(replies[1..]) == Reported(replies[2..]) by { assert replies[1..][1..] == replies[2..]; }
    assert Reported(replies) == ["active", "pending_issuance"];
    assert Firings(replies) == 4;
    w.Poll(replies);
    assert w.scheduleStatusCheck.stopped;
    assert |w.calls| == 2 + 1 + 4;
    w.GetCertStatus(Some([Some("active")]));
    assert w.scheduleStatusCheck.stopped;
  }
}
