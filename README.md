# Email deliverability check: a verified model of `app.js`

The service has two HTTP routes.

- `POST /validate-email` takes a JSON body with an `email` field and runs a fixed chain of guards. Each guard answers and stops as soon as it fails:
  1. the address is present and non-empty;
  2. the address passes the `email-validator` format check;
  3. its domain (`email.split('@')[1]`) is one of four popular public providers, compared case-insensitively;
  4. the domain has MX records;
  5. a test message sent through Amazon SES is accepted.
- `POST /sns-bounce` receives Amazon SNS posts. It tells a subscription confirmation from a notification. For an SES bounce notification it extracts the bounced recipients' addresses, which it only logs. Every post it answers gets 200.

The model is pure: datatypes, functions and lemmas. The format validator, the DNS resolver and SES become parameters of the route function:
- `formatOk: string -> bool`;
- `resolveMx: string -> MxAnswer`, which returns an error or a list of records;
- `ses: SendRequest -> SesReply`, which accepts with a message id or throws.

What `app.js` does with their answers is modelled. "A later stage is not consulted" is stated semantically: the reply is the same whatever the later collaborators would have answered.

Modules, one per component of `app.js`:

- `Wrappers` (`wrappers.dfy`): `Option`, for absent JSON fields and headers.
- `Text` (`text.dfy`): `toLowerCase`, `split` with its inverse `Join`, and substring containment.
- `Providers` (`providers.dfy`): the allow-list and `isPublicDomain`.
- `Collaborators` (`collaborators.dfy`): `validateMxRecord` and `sendTestEmail`, with the probe's fixed parameters.
- `ValidateEmailRoute` (`validate_email.dfy`): the `/validate-email` handler `ValidateEmail`.
- `SnsBounceRoute` (`sns_bounce.dfy`): the `/sns-bounce` handler `HandleSnsBounce`.

Two paths make a handler throw before it answers. The model keeps them as the outcome `Uncaught`:
- In `/validate-email`, an address that the format check accepts but that has no `@`. Then `split('@')[1]` is undefined, and `isPublicDomain` throws outside the `try` block. `UncaughtOnlyWithoutAt` and `AlwaysAnswersWithSoundValidator` state when this happens.
- In `/sns-bounce`, a notification whose `Message` does not parse, or a `Bounce` notification without a `bounce` object. So "always 200" holds for every post the handler answers. `ThrowsOnlyOnMalformedNotification` states exactly which posts throw.

Lower-casing covers ASCII `A`–`Z` and U+212A KELVIN SIGN, which lower-cases to `k`. These are the only characters whose lower case is made of ASCII characters. Every other character is kept as it is. That can differ from JavaScript's output, but it cannot change whether a domain equals an entry of the all-ASCII list, so membership is exact.

## Model

| member | source | states |
|---|---|---|
| `Text.LowerChar` | app.js:42 | one character's lower case (ASCII `A`–`Z` and U+212A only) is never an ASCII upper-case letter or U+212A, and only those characters are changed |
| `Text.ToLower` | app.js:42 | the lower-cased domain has the same length, and each character is that character's lower case |
| `Text.ToLowerIdempotent` | app.js:42 | lower-casing an already lower-cased string changes nothing |
| `Text.Split` | app.js:87 | `split('@')` yields at least one piece, and no piece contains `@` |
| `Text.JoinSplit` | app.js:87 | joining the pieces of a split with the separator gives back the original address |
| `Text.SplitJoin` | app.js:87 | splitting the join of separator-free pieces gives back exactly those pieces |
| `Text.SplitWithoutSeparator` | app.js:87 | a string without `@` splits into itself alone |
| `Text.SplitCountsSeparator` | app.js:87 | a split has a second piece (index 1) exactly when the separator occurs |
| `Providers.IsPublicDomain` | app.js:41-43 | `isPublicDomain(d)` holds iff `d` spells gmail.com, yahoo.com, outlook.com or hotmail.com in some mix of upper and lower case |
| `Providers.LowerCasedInList` | app.js:7-9 | the lower-cased domain is in the constant list iff the domain matches one entry letter by letter, ignoring case |
| `Providers.ToLowerMatches` | app.js:42 | for a target that `LowerChar` leaves unchanged, lower-casing to it with `LowerChar` is the same as matching it letter by letter ignoring case (both directions) |
| `Providers.LowerCharSpellings` | app.js:42 | a character's `LowerChar` lower case is `c` (a character `LowerChar` leaves unchanged) iff it is one of `c`'s case spellings |
| `Providers.PublicDomainsAreLowerCase` | app.js:7-9 | every entry of the constant list is already lower case, so the comparison after `toLowerCase` can match it |
| `Providers.PublicDomainLengths` | app.js:7-9 | only a 9- or 11-character domain can pass, because membership is whole-string equality |
| `Providers.IsPublicDomainUnderLowerCase` | app.js:41-43 | lower-casing the domain first does not change the verdict |
| `Providers.MixedCaseProviderPasses` | app.js:41-43 | `GMail.COM` passes |
| `Providers.NearMissesRejected` | app.js:41-43 | `mail.gmail.com`, `gmail.co` and the empty domain do not pass (no sub-domain or prefix matching) |
| `Collaborators.MxMissingMessage` | app.js:32 | the rejection message names the domain |
| `Collaborators.ValidateMxRecord` | app.js:28-37 | the lookup passes iff the resolver returned no error and a non-empty list; a rejection's message names the domain |
| `Collaborators.ProbeRequest` | app.js:47-62 | the probe has the fixed sender, subject and text, and the address is its sole recipient |
| `Collaborators.SendTestEmail` | app.js:46-72 | the probe with the fixed sender, subject and text, addressed to the address alone, yields true iff SES accepted it; any thrown failure yields false, never an error |
| `Collaborators.SendTestEmailDependsOnlyOnProbe` | app.js:64-71 | the send outcome depends only on SES's answer to that one probe request |
| `Collaborators.ProbeRequestInjective` | app.js:47-62 | probes to two addresses are equal iff the addresses are equal |
| `ValidateEmailRoute.SuccessMessage` | app.js:102 | the success message quotes the address |
| `ValidateEmailRoute.IsFalsy` | app.js:78 | an address that is not falsy is present and non-empty |
| `ValidateEmailRoute.DomainOf` | app.js:87 | `email.split('@')[1]` is undefined iff the address has no `@`, and never contains `@` |
| `ValidateEmailRoute.DomainOfSingleAt` | app.js:87 | for `local@domain` with a single `@`, the domain is everything after it |
| `ValidateEmailRoute.ValidateEmail` | app.js:75-110 | every reply has status 200, 400 or 500, and a 200 reply's message quotes the submitted address |
| `ValidateEmailRoute.MissingAddressRejectedFirst` | app.js:78-80 | a missing or empty address answers 400 "obligatorio", whatever the format validator, the resolver and SES would do |
| `ValidateEmailRoute.FormatRejectionStops` | app.js:83-85 | a format rejection answers 400 with the format error, whatever the resolver and SES would do |
| `ValidateEmailRoute.DomainRejectionStops` | app.js:87-92 | a domain outside the list answers 400 with the domain error, whatever the resolver and SES would do |
| `ValidateEmailRoute.MxRejectionStops` | app.js:94-109 | an MX error or an empty record list answers 400 with a message containing the domain, whatever SES would do |
| `ValidateEmailRoute.ProbeDecides` | app.js:99-105 | after all guards pass: SES acceptance answers 200 quoting the address, and a failed send answers 500 with the send error |
| `ValidateEmailRoute.ProbeOnlyAfterAllChecks` | app.js:75-110 | if SES's answer changes the reply, then every earlier guard passed and the two SES answers to the probe differ |
| `ValidateEmailRoute.MxOnlyAfterEarlierChecks` | app.js:75-96 | when the address is missing, the format fails, the address has no `@` or the domain is off the list, the reply is the same whatever the resolver and SES would do |
| `ValidateEmailRoute.StatusMeaning` | app.js:75-110 | 200 iff all guards pass and the probe is sent; 500 iff all guards pass and the send fails; 400 iff a guard fails (and nothing throws) |
| `ValidateEmailRoute.UncaughtOnlyWithoutAt` | app.js:83-92 | the handler throws exactly when the format check accepted a non-empty address without `@` |
| `ValidateEmailRoute.AlwaysAnswersWithSoundValidator` | app.js:83-92 | with a format check that accepts only addresses containing `@`, the handler always answers |
| `ValidateEmailRoute.MxLookupUsesTypedDomain` | app.js:87-96 | the MX lookup and its message use the domain as typed, not lower-cased |
| `SnsBounceRoute.BouncedAddresses` | app.js:126 | the extracted list has one entry per bounced recipient, and entry `i` is recipient `i`'s `emailAddress` |
| `SnsBounceRoute.BouncedAddressesAppend` | app.js:126 | extraction distributes over concatenation of recipient lists |
| `SnsBounceRoute.HandleSnsBounce` | app.js:113-133 | every answered post, whatever its message type, is answered 200 |
| `SnsBounceRoute.ThrowsOnlyOnMalformedNotification` | app.js:121-126 | the handler throws iff the post is a `Notification` whose message does not parse, or a `Bounce` without a `bounce` object |
| `SnsBounceRoute.BounceRecipientsExtracted` | app.js:121-129 | a `Bounce` notification answers 200 and yields its recipients' addresses, in order and one for one |
| `SnsBounceRoute.RecipientsOnlyFromBounces` | app.js:116-130 | recipients are extracted iff the post is a `Notification` of type `Bounce` with a `bounce` object; a `SubscriptionConfirmation` only logs its `SubscribeURL` |

## Left out

- Express setup, the JSON middleware, `app.listen` and the response objects (app.js:1, 15-20, 136-138). These are plumbing; replies are the `Outcome` and `SnsOutcome` datatypes.
- What happens to an `Uncaught` outcome is left out. It depends on the Express and Node versions, which are not part of this model. Express 5 answers 500. Under Express 4 the rejected promise is never handled: the request hangs, and from Node 15 on the default `--unhandled-rejections=throw` ends the process, so later requests go unanswered too.
- The `email-validator` library's grammar (app.js:2, 24). It is a foreign library, so the format check is the parameter `formatOk`.
- The DNS query and the AWS SDK, its region and its credentials (app.js:3-4, 12-13, 30, 65). These are network calls; only their answers are modelled.
- `JSON.parse` of the SNS `Message` (app.js:122). The message arrives parsed; `None` stands for a message that fails to parse or parses to null.
- Logging with `console.log` and `console.error` (app.js:66, 69, 119, 127). The values the handler would log are kept in `Intake` and `SesReply`.
- Async/await scheduling. The handler awaits each stage in turn, so it is modelled as one sequential function.
- An `email` field that is a JSON value other than a string or null, and a request body that is missing altogether.
- A `bouncedRecipients` field that is missing or not an array, and a recipient without `emailAddress`: these are typed as present.
- `ValidateEmailRoute.ValidateEmail`: its own contract states only the status range and the success message. How each status arises is stated by the lemmas beside it.
- Bounce bookkeeping: `app.js` keeps no record of the probes it sends and does not match bounces to them; it only logs the bounced addresses (app.js:127-128).
- `Text.ToLower`: only `A`–`Z` and U+212A are lower-cased; other characters stay as they are, where JavaScript lower-cases them too (É becomes é, and U+0130 becomes two code units, so JavaScript does not keep the length). Membership in the all-ASCII list is unaffected: see `Providers.IsPublicDomain`.
