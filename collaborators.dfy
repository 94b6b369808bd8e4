/**
 * The two network collaborators of the validation route, reduced to what
 * app.js decides about their answers: the DNS MX lookup (`validateMxRecord`)
 * and the SES probe send (`sendTestEmail`). What the resolver and SES answer
 * is a parameter; the rules applied to the answers are modelled.
 */
module Collaborators {
  import opened Text

  /** One mail-exchange record as the resolver reports it. */
  datatype MxRecord = MxRecord(exchange: string, priority: int)

  /** The resolver's callback: an error, or the (possibly empty) list of records. */
  datatype MxAnswer = MxError(code: string) | MxRecords(records: seq<MxRecord>)

  /** How the promise of `validateMxRecord` settles. */
  datatype MxVerdict = HasMx | NoMx(message: string)

  const MX_MISSING_PREFIX: string := "No se encontraron registros MX para el dominio: "

  /** The rejection message, naming the domain that was looked up. */
  function MxMissingMessage(domain: string): (message: string)
    ensures Contains(message, domain)
  {
    ContainsInfix(MX_MISSING_PREFIX, domain, "");
    assert MX_MISSING_PREFIX + domain + "" == MX_MISSING_PREFIX + domain;
    MX_MISSING_PREFIX + domain
  }

  /** `validateMxRecord(domain)` given the resolver's answer for `domain`: an error and an empty list both reject. */
  function ValidateMxRecord(domain: string, answer: MxAnswer): (verdict: MxVerdict)
    ensures verdict.HasMx? <==> answer.MxRecords? && |answer.records| > 0
    ensures verdict.NoMx? ==> Contains(verdict.message, domain)
  {
    match answer
    case MxError(_) => NoMx(MxMissingMessage(domain))
    case MxRecords(records) =>
      if |records| == 0 then NoMx(MxMissingMessage(domain)) else HasMx
  }

  /** The parameters handed to `ses.sendEmail`. */
  datatype SendRequest = SendRequest(source: string, toAddresses: seq<string>, subject: string, textBody: string)

  /** What `ses.sendEmail(params).promise()` does: resolve with a message id, or throw. */
  datatype SesReply = SesAccepted(messageId: string) | SesThrew(error: string)

  const PROBE_SOURCE: string := "tu_correo_verificado@dominio.com"
  const PROBE_SUBJECT: string := "Correo de prueba"
  const PROBE_TEXT: string := "Este es un correo de prueba para validar la dirección."

  /** The probe message for `email`: fixed sender, subject and text, the address as sole recipient. */
  function ProbeRequest(email: string): (request: SendRequest)
    ensures email in request.toAddresses
    ensures forall a :: a in request.toAddresses ==> a == email
    ensures request.source == PROBE_SOURCE && request.subject == PROBE_SUBJECT && request.textBody == PROBE_TEXT
  {
    SendRequest(PROBE_SOURCE, [email], PROBE_SUBJECT, PROBE_TEXT)
  }

  /**
   * `sendTestEmail(email)` against an SES that answers `ses`: the probe goes
   * to `email` alone, and every thrown failure is turned into `false`.
   */
  function SendTestEmail(email: string, ses: SendRequest -> SesReply): (sent: bool)
    ensures sent <==> ses(SendRequest(PROBE_SOURCE, [email], PROBE_SUBJECT, PROBE_TEXT)).SesAccepted?
  {
    match ses(ProbeRequest(email))
    case SesAccepted(_) => true
    case SesThrew(_) => false
  }

  /** The outcome of a probe depends on SES's answer to that one request and on nothing else it might answer. */
  lemma SendTestEmailDependsOnlyOnProbe(email: string, ses1: SendRequest -> SesReply, ses2: SendRequest -> SesReply)
    requires ses1(ProbeRequest(email)).SesAccepted? == ses2(ProbeRequest(email)).SesAccepted?
    ensures SendTestEmail(email, ses1) == SendTestEmail(email, ses2)
  {
  }

  /** Probes to different addresses are different requests: one address's probe is never addressed to another. */
  lemma ProbeRequestInjective(a: string, b: string)
    ensures ProbeRequest(a) == ProbeRequest(b) <==> a == b
  {
    if ProbeRequest(a) == ProbeRequest(b) {
      assert ProbeRequest(a).toAddresses[0] == a;
    }
  }
}
