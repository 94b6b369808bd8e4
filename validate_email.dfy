/**
 * The `POST /validate-email` handler: a fixed chain of guards, each of which
 * answers and stops on failure — address present, format, public provider,
 * MX records, probe send. The format validator, the DNS resolver and SES
 * are parameters (`formatOk`, `resolveMx`, `ses`).
 */
module ValidateEmailRoute {
  import opened Wrappers
  import opened Text
  import opened Providers
  import opened Collaborators

  /** The JSON body of a reply: `{ error: ... }` or `{ message: ... }`. */
  datatype Body = ErrorBody(error: string) | MessageBody(message: string)

  datatype Reply = Reply(status: int, body: Body)

  /** The handler either answers, or throws before any answer is written. */
  datatype Outcome = Responded(reply: Reply) | Uncaught

  const REQUIRED_ERROR: string := "El correo electrónico es obligatorio"
  const FORMAT_ERROR: string := "El formato del correo electrónico es inválido"
  const DOMAIN_ERROR: string := "El dominio no pertenece a una lista de dominios públicos comunes."
  const SEND_ERROR: string := "No se pudo enviar el correo de prueba."

  /** The success message, quoting the address the probe went to. */
  function SuccessMessage(email: string): (message: string)
    ensures Contains(message, email)
  {
    ContainsInfix("Correo de prueba enviado a ", email, ". Esperando notificación de rebote de SNS.");
    "Correo de prueba enviado a " + email + ". Esperando notificación de rebote de SNS."
  }

  /** `!email`: the field is absent (or null) or the empty string. */
  predicate IsFalsy(email: Option<string>): (falsy: bool)
    ensures !falsy ==> email.Some? && |email.value| > 0
  {
    email.None? || email.value == ""
  }

  /** `email.split('@')[1]`: the text after the first '@' up to the next '@'; undefined without an '@'. */
  function DomainOf(email: string): (domain: Option<string>)
    ensures domain.None? <==> '@' !in email
    ensures domain.Some? ==> '@' !in domain.value
  {
    var parts := Split(email, '@');
    SplitCountsSeparator(email, '@');
    if |parts| > 1 then Some(parts[1]) else None
  }

  /** With a single '@', the domain is everything after it. */
  lemma {:induction false} DomainOfSingleAt(local: string, domain: string)
    requires '@' !in local && '@' !in domain
    ensures DomainOf(local + "@" + domain) == Some(domain)
  {
    SplitJoin([local, domain], '@');
    assert Join([domain], '@') == domain;
    assert Join([local, domain], '@') == local + "@" + domain;
  }

  /** All guards before the probe pass: address present, format accepted, public provider, MX records found. */
  predicate ChecksPassed(email: Option<string>, formatOk: string -> bool, resolveMx: string -> MxAnswer) {
    && !IsFalsy(email)
    && formatOk(email.value)
    && DomainOf(email.value).Some?
    && IsPublicDomain(DomainOf(email.value).value)
    && ValidateMxRecord(DomainOf(email.value).value, resolveMx(DomainOf(email.value).value)).HasMx?
  }

  /** The whole handler, from the body's `email` field to its reply. */
  function ValidateEmail(email: Option<string>, formatOk: string -> bool,
                         resolveMx: string -> MxAnswer, ses: SendRequest -> SesReply): (r: Outcome)
    ensures r.Responded? ==> r.reply.status in {200, 400, 500}
    ensures r.Responded? && r.reply.status == 200 ==> email.Some? && r.reply.body.MessageBody? && Contains(r.reply.body.message, email.value)
  {
    if IsFalsy(email) then Responded(Reply(400, ErrorBody(REQUIRED_ERROR)))
    else if !formatOk(email.value) then Responded(Reply(400, ErrorBody(FORMAT_ERROR)))
    else
      match DomainOf(email.value)
      // isPublicDomain(undefined) throws outside the try block
      case None => Uncaught
      case Some(domain) =>
        if !IsPublicDomain(domain) then Responded(Reply(400, ErrorBody(DOMAIN_ERROR)))
        else
          match ValidateMxRecord(domain, resolveMx(domain))
          case NoMx(message) => Responded(Reply(400, ErrorBody(message)))
          case HasMx =>
            if SendTestEmail(email.value, ses) then Responded(Reply(200, MessageBody(SuccessMessage(email.value))))
            else Responded(Reply(500, ErrorBody(SEND_ERROR)))
  }

  /** A missing or empty address is refused first; no collaborator is consulted. */
  lemma MissingAddressRejectedFirst(email: Option<string>,
                                    formatOk: string -> bool, resolveMx: string -> MxAnswer, ses: SendRequest -> SesReply,
                                    formatOk': string -> bool, resolveMx': string -> MxAnswer, ses': SendRequest -> SesReply)
    requires IsFalsy(email)
    ensures ValidateEmail(email, formatOk, resolveMx, ses) == Responded(Reply(400, ErrorBody(REQUIRED_ERROR)))
    ensures ValidateEmail(email, formatOk, resolveMx, ses) == ValidateEmail(email, formatOk', resolveMx', ses')
  {
  }

  /** A format rejection answers 400; neither DNS nor SES is consulted. */
  lemma FormatRejectionStops(email: string, formatOk: string -> bool,
                             resolveMx: string -> MxAnswer, ses: SendRequest -> SesReply,
                             resolveMx': string -> MxAnswer, ses': SendRequest -> SesReply)
    requires email != "" && !formatOk(email)
    ensures ValidateEmail(Some(email), formatOk, resolveMx, ses) == Responded(Reply(400, ErrorBody(FORMAT_ERROR)))
    ensures ValidateEmail(Some(email), formatOk, resolveMx, ses) == ValidateEmail(Some(email), formatOk, resolveMx', ses')
  {
  }

  /** A domain outside the allow-list answers 400; neither DNS nor SES is consulted. */
  lemma DomainRejectionStops(email: string, formatOk: string -> bool,
                             resolveMx: string -> MxAnswer, ses: SendRequest -> SesReply,
                             resolveMx': string -> MxAnswer, ses': SendRequest -> SesReply)
    requires email != "" && formatOk(email)
    requires DomainOf(email).Some? && !IsPublicDomain(DomainOf(email).value)
    ensures ValidateEmail(Some(email), formatOk, resolveMx, ses) == Responded(Reply(400, ErrorBody(DOMAIN_ERROR)))
    ensures ValidateEmail(Some(email), formatOk, resolveMx, ses) == ValidateEmail(Some(email), formatOk, resolveMx', ses')
  {
  }

  /** A failed or empty MX lookup answers 400 with a message naming the domain; no probe is sent. */
  lemma MxRejectionStops(email: string, formatOk: string -> bool,
                         resolveMx: string -> MxAnswer, ses: SendRequest -> SesReply, ses': SendRequest -> SesReply)
    requires email != "" && formatOk(email)
    requires DomainOf(email).Some? && IsPublicDomain(DomainOf(email).value)
    requires resolveMx(DomainOf(email).value).MxError? || resolveMx(DomainOf(email).value).records == []
    ensures var r := ValidateEmail(Some(email), formatOk, resolveMx, ses);
      r.Responded? && r.reply.status == 400 && r.reply.body.ErrorBody?
      && Contains(r.reply.body.error, DomainOf(email).value)
    ensures ValidateEmail(Some(email), formatOk, resolveMx, ses) == ValidateEmail(Some(email), formatOk, resolveMx, ses')
  {
  }

  /** Once every guard passed, the probe decides: 200 quoting the address on success, 500 on failure. */
  lemma ProbeDecides(email: Option<string>, formatOk: string -> bool,
                     resolveMx: string -> MxAnswer, ses: SendRequest -> SesReply)
    requires ChecksPassed(email, formatOk, resolveMx)
    ensures var r := ValidateEmail(email, formatOk, resolveMx, ses);
      if ses(ProbeRequest(email.value)).SesAccepted? then
        r.Responded? && r.reply.status == 200 && r.reply.body.MessageBody?
        && Contains(r.reply.body.message, email.value)
      else
        r == Responded(Reply(500, ErrorBody(SEND_ERROR)))
  {
  }

  /** SES can change the answer only when every earlier guard passed: a probe is sent only then. */
  lemma ProbeOnlyAfterAllChecks(email: Option<string>, formatOk: string -> bool,
                                resolveMx: string -> MxAnswer, ses: SendRequest -> SesReply, ses': SendRequest -> SesReply)
    requires ValidateEmail(email, formatOk, resolveMx, ses) != ValidateEmail(email, formatOk, resolveMx, ses')
    ensures ChecksPassed(email, formatOk, resolveMx)
    ensures ses(ProbeRequest(email.value)).SesAccepted? != ses'(ProbeRequest(email.value)).SesAccepted?
  {
  }

  /** When the address, its format or its provider fails, or the handler throws first, neither DNS nor SES is consulted. */
  lemma MxOnlyAfterEarlierChecks(email: Option<string>, formatOk: string -> bool,
                                 resolveMx: string -> MxAnswer, ses: SendRequest -> SesReply,
                                 resolveMx': string -> MxAnswer, ses': SendRequest -> SesReply)
    requires IsFalsy(email) || !formatOk(email.value) || '@' !in email.value
             || (DomainOf(email.value).Some? && !IsPublicDomain(DomainOf(email.value).value))
    ensures ValidateEmail(email, formatOk, resolveMx, ses) == ValidateEmail(email, formatOk, resolveMx', ses')
  {
  }

  /** What each status means: 200 and 500 only after all guards passed, 400 for a guard failing. */
  lemma StatusMeaning(email: Option<string>, formatOk: string -> bool,
                      resolveMx: string -> MxAnswer, ses: SendRequest -> SesReply)
    ensures var r := ValidateEmail(email, formatOk, resolveMx, ses);
      && (r.Responded? ==> r.reply.status in {200, 400, 500})
      && (r.Responded? && r.reply.status == 200 <==> ChecksPassed(email, formatOk, resolveMx) && SendTestEmail(email.value, ses))
      && (r.Responded? && r.reply.status == 500 <==> ChecksPassed(email, formatOk, resolveMx) && !SendTestEmail(email.value, ses))
      && (r.Responded? && r.reply.status == 400 <==> !ChecksPassed(email, formatOk, resolveMx) && r != Uncaught)
  {
  }

  /** The handler throws exactly when the format validator accepted an address without an '@'. */
  lemma UncaughtOnlyWithoutAt(email: Option<string>, formatOk: string -> bool,
                              resolveMx: string -> MxAnswer, ses: SendRequest -> SesReply)
    ensures ValidateEmail(email, formatOk, resolveMx, ses) == Uncaught
      <==> !IsFalsy(email) && formatOk(email.value) && '@' !in email.value
  {
  }

  /** A format validator that accepts only addresses with an '@' makes the handler always answer. */
  lemma AlwaysAnswersWithSoundValidator(email: Option<string>, formatOk: string -> bool,
                                        resolveMx: string -> MxAnswer, ses: SendRequest -> SesReply)
    requires forall s :: formatOk(s) ==> '@' in s
    ensures ValidateEmail(email, formatOk, resolveMx, ses).Responded?
  {
  }

  /** An address `local@domain` reaches the resolver with `domain` exactly as typed, not lower-cased. */
  lemma MxLookupUsesTypedDomain(local: string, domain: string, formatOk: string -> bool,
                                resolveMx: string -> MxAnswer, ses: SendRequest -> SesReply)
    requires '@' !in local && '@' !in domain
    requires formatOk(local + "@" + domain) && IsPublicDomain(domain)
    requires resolveMx(domain).MxError?
    ensures ValidateEmail(Some(local + "@" + domain), formatOk, resolveMx, ses)
      == Responded(Reply(400, ErrorBody(MxMissingMessage(domain))))
  {
    DomainOfSingleAt(local, domain);
  }
}
