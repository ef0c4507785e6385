/** The issuance request a caller hands to `IssueCert` and the JSON body that
    is POSTed to the custom-hostnames endpoint, as a record rather than as the
    serialised string. */
module Payload {
  import opened Wrappers

  /** The destructured argument of `IssueCert`; `None` is an argument left
      `undefined`. */
  datatype IssuanceRequest = IssuanceRequest(
    customerHostname: string,
    validationMethod: Option<string>,
    customOriginServer: Option<string>)

  /** The `ssl` sub-object: `{method, type}` (`validation` is its `method`). */
  datatype Ssl = Ssl(validation: string, certType: string)

  /** The request body `{hostname, ssl, custom_origin_server?}`. Being a
      record, it can carry no key besides these three. */
  datatype HostnamePayload = HostnamePayload(
    hostname: string,
    ssl: Ssl,
    customOriginServer: Option<string>)

  const DefaultValidationMethod: string := "http"
  const DomainValidated: string := "dv"

  /** The validation method after the destructuring default has applied. */
  function EffectiveMethod(req: IssuanceRequest): (m: string)
    ensures req.validationMethod.None? ==> m == DefaultValidationMethod
    ensures req.validationMethod.Some? ==> m == req.validationMethod.value
  {
    req.validationMethod.GetOr(DefaultValidationMethod)
  }

  /** Builds the body of the certificate request: the object is first created
      with `hostname` and `ssl`, then amended with `custom_origin_server` when
      that argument was supplied. */
  method BuildPayload(req: IssuanceRequest) returns (p: HostnamePayload)
    ensures p.hostname == req.customerHostname
    ensures p.ssl.validation == EffectiveMethod(req)
    ensures p.ssl.certType == DomainValidated
    ensures p.customOriginServer == req.customOriginServer
  {
    p := HostnamePayload(req.customerHostname, Ssl(EffectiveMethod(req), DomainValidated), None);
    if req.customOriginServer.Some? {
      p := p.(customOriginServer := Some(req.customOriginServer.value));
    }
  }
}
