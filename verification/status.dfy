/** The status interpreter: each `ssl.status` string reported for the custom
    hostname maps to exactly one log message, and only `active` ends polling. */
module StatusInterpreter {

  /** The statuses the interpreter distinguishes; any other string is kept
      verbatim as `Unrecognised`. */
  datatype CertStatus =
    | PendingValidation
    | PendingIssuance
    | PendingDeployment
    | Active
    | Unrecognised(raw: string)

  /** The status strings the `switch` has a case for. */
  predicate IsKnownName(s: string)
  {
    s == "pending_validation" || s == "pending_issuance" || s == "pending_deployment" || s == "active"
  }

  /** The string a status is reported as. */
  function StatusName(c: CertStatus): string
  {
    match c
    case PendingValidation => "pending_validation"
    case PendingIssuance => "pending_issuance"
    case PendingDeployment => "pending_deployment"
    case Active => "active"
    case Unrecognised(raw) => raw
  }

  /** A status value the interpreter can actually produce. */
  predicate WellFormed(c: CertStatus)
  {
    c.Unrecognised? ==> !IsKnownName(c.raw)
  }

  /** Classifies a reported status string by exact comparison, as the
      `switch` does; every other string falls to the default case. */
  function ParseStatus(s: string): (c: CertStatus)
    ensures WellFormed(c)
    ensures StatusName(c) == s
    ensures c.Unrecognised? <==> !IsKnownName(s)
    ensures c == Active <==> s == "active"
  {
    if s == "pending_validation" then PendingValidation
    else if s == "pending_issuance" then PendingIssuance
    else if s == "pending_deployment" then PendingDeployment
    else if s == "active" then Active
    else Unrecognised(s)
  }

  /** Classifying the name of a status gives that status back. */
  lemma ParseStatusName(c: CertStatus)
    requires WellFormed(c)
    ensures ParseStatus(StatusName(c)) == c
  {
  }

  /** Whether observing the status cancels the scheduled status check. */
  predicate StopsPolling(c: CertStatus)
  {
    c == Active
  }

  /** `word` occurs in `line` at offset `k`. */
  predicate MentionsAt(line: string, word: string, k: int)
  {
    0 <= k && k + |word| <= |line| && line[k..k + |word|] == word
  }

  /** The line logged for a status, for the given hostname and validation
      method: each case has its own template, and every line names the
      hostname. */
  function Message(c: CertStatus, hostname: string, validationMethod: string): (line: string)
    ensures exists k :: MentionsAt(line, hostname, k)
    ensures c == PendingValidation ==> exists k :: MentionsAt(line, validationMethod, k)
  {
    match c
    case PendingValidation =>
      var line := hostname + " still awaiting " + validationMethod + " validation";
      assert MentionsAt(line, hostname, 0);
      assert MentionsAt(line, validationMethod, |hostname| + 16);
      line
    case PendingIssuance =>
      var line := "Issuance pending for " + hostname;
      assert MentionsAt(line, hostname, 21);
      line
    case PendingDeployment =>
      var line := "Certificate issued for " + hostname + ". Now pending deployment";
      assert MentionsAt(line, hostname, 23);
      line
    case Active =>
      var line := "Certificate Provisioned for: " + hostname;
      assert MentionsAt(line, hostname, 29);
      line
    case Unrecognised(_) =>
      var line := hostname + " status unknown";
      assert MentionsAt(line, hostname, 0);
      line
  }

  /** Letters that occur, or do not, in the fixed text of the messages. */
  lemma FixedTextLetters()
    ensures 'v' in " validation" && 'w' in " still awaiting "
    ensures 'v' !in "Certificate issued for " && 'v' !in ". Now pending deployment"
    ensures 'w' !in "Certificate Provisioned for: "
  {
  }

  /** The pending-validation message always has a 'v' more than the hostname,
      the pending-deployment message exactly as many. */
  lemma PendingValidationNotDeployment(hostname: string, validationMethod: string)
    ensures Message(PendingValidation, hostname, validationMethod) != Message(PendingDeployment, hostname, validationMethod)
  {
    var pv := hostname + " still awaiting " + validationMethod + " validation";
    var pd := "Certificate issued for " + hostname + ". Now pending deployment";
    FixedTextLetters();
    assert multiset(" validation")['v'] >= 1;
    assert multiset("Certificate issued for ")['v'] == 0;
    assert multiset(". Now pending deployment")['v'] == 0;
    assert multiset(pv)['v'] >= multiset(hostname)['v'] + 1;
    assert multiset(pd)['v'] == multiset(hostname)['v'];
    assert pv != pd;
  }

  /** The pending-validation message always has a 'w' more than the hostname,
      the active message exactly as many. */
  lemma PendingValidationNotActive(hostname: string, validationMethod: string)
    ensures Message(PendingValidation, hostname, validationMethod) != Message(Active, hostname, validationMethod)
  {
    var pv := hostname + " still awaiting " + validationMethod + " validation";
    var ac := "Certificate Provisioned for: " + hostname;
    FixedTextLetters();
    assert multiset(" still awaiting ")['w'] >= 1;
    assert multiset("Certificate Provisioned for: ")['w'] == 0;
    assert multiset(pv)['w'] >= multiset(hostname)['w'] + 1;
    assert multiset(ac)['w'] == multiset(hostname)['w'];
    assert pv != ac;
  }

  /** No other status shares the pending-validation message. */
  lemma PendingValidationUnique(other: CertStatus, hostname: string, validationMethod: string)
    requires other != PendingValidation
    ensures Message(PendingValidation, hostname, validationMethod) != Message(other, hostname, validationMethod)
  {
    if other == PendingDeployment {
      PendingValidationNotDeployment(hostname, validationMethod);
    } else if other == Active {
      PendingValidationNotActive(hostname, validationMethod);
    } else {
      // The remaining messages are shorter than any pending-validation one.
      assert |Message(other, hostname, validationMethod)| < |Message(PendingValidation, hostname, validationMethod)|;
    }
  }

  /** Two statuses produce the same message exactly when they are the same
      status or both unrecognised, whatever the hostname and method. */
  lemma MessagesDistinct(c1: CertStatus, c2: CertStatus, hostname: string, validationMethod: string)
    ensures Message(c1, hostname, validationMethod) == Message(c2, hostname, validationMethod)
            <==> c1 == c2 || (c1.Unrecognised? && c2.Unrecognised?)
  {
    var h, m := hostname, validationMethod;
    if c1 == c2 || (c1.Unrecognised? && c2.Unrecognised?) {
    } else if c1 == PendingValidation {
      PendingValidationUnique(c2, h, m);
    } else if c2 == PendingValidation {
      PendingValidationUnique(c1, h, m);
    } else {
      // The other four messages have four different lengths.
      assert |Message(c1, h, m)| != |Message(c2, h, m)|;
    }
  }

  /** How many reported statuses the poller interprets before its task is
      cancelled: up to and including the first `active`, or all of them. */
  function Consumed(statuses: seq<string>): (n: nat)
    ensures n <= |statuses|
    ensures forall j :: 0 <= j < n - 1 ==> statuses[j] != "active"
    ensures "active" in statuses <==> 0 < n && statuses[n - 1] == "active"
    ensures "active" !in statuses ==> n == |statuses|
  {
    if statuses == [] then 0
    else if statuses[0] == "active" then 1
    else
      assert statuses == [statuses[0]] + statuses[1..];
      1 + Consumed(statuses[1..])
  }

  /** The messages logged for a run of reported statuses, in order. */
  function Messages(statuses: seq<string>, hostname: string, validationMethod: string): seq<string>
  {
    seq(|statuses|, i requires 0 <= i < |statuses| => Message(ParseStatus(statuses[i]), hostname, validationMethod))
  }

  /** The statuses of the certificate's normal life. */
  const NormalStatuses: seq<string> := ["pending_validation", "pending_issuance", "pending_deployment", "active"]

  /** In the normal life, `active` first comes fourth. */
  lemma NormalLifecycleStops()
    ensures Consumed(NormalStatuses) == 4
    ensures "active" !in NormalStatuses[..3]
  {
    var s := NormalStatuses;
    assert Consumed(s[3..]) == 1;
    assert Consumed(s[2..]) == 2;
    assert Consumed(s[1..]) == 3;
    assert s[..3] == ["pending_validation", "pending_issuance", "pending_deployment"];
  }

  /** In the normal life, the messages of the four stages are logged in order. */
  lemma NormalLifecycleLog(hostname: string, validationMethod: string)
    ensures Messages(NormalStatuses, hostname, validationMethod)
            == [Message(PendingValidation, hostname, validationMethod),
                Message(PendingIssuance, hostname, validationMethod),
                Message(PendingDeployment, hostname, validationMethod),
                Message(Active, hostname, validationMethod)]
  {
    var s := NormalStatuses;
    var cs := [PendingValidation, PendingIssuance, PendingDeployment, Active];
    forall i | 0 <= i < 4
      ensures Messages(s, hostname, validationMethod)[i] == Message(cs[i], hostname, validationMethod)
    {
      assert ParseStatus(s[i]) == cs[i];
    }
  }

  /** The certificate's normal life: three pending stages, then active. The
      poller interprets all four, logging four different messages in stage
      order, and is not yet cancelled after the third. */
  lemma NormalLifecycle(hostname: string, validationMethod: string)
    ensures var log := Messages(NormalStatuses, hostname, validationMethod);
            && Consumed(NormalStatuses) == 4
            && "active" !in NormalStatuses[..3]
            && log == [Message(PendingValidation, hostname, validationMethod),
                       Message(PendingIssuance, hostname, validationMethod),
                       Message(PendingDeployment, hostname, validationMethod),
                       Message(Active, hostname, validationMethod)]
            && forall i, j :: 0 <= i < j < 4 ==> log[i] != log[j]
  {
    var h, m := hostname, validationMethod;
    var cs := [PendingValidation, PendingIssuance, PendingDeployment, Active];
    NormalLifecycleStops();
    NormalLifecycleLog(h, m);
    var log := Messages(NormalStatuses, h, m);
    forall i, j | 0 <= i < j < 4
      ensures log[i] != log[j]
    {
      assert log[i] == Message(cs[i], h, m) && log[j] == Message(cs[j], h, m);
      MessagesDistinct(cs[i], cs[j], h, m);
    }
  }
}
