/**
 * The `POST /sns-bounce` handler: it dispatches on the
 * `x-amz-sns-message-type` header and, for an SES bounce notification,
 * extracts the bounced recipients' addresses (which it only logs). The
 * `Message` JSON arrives already parsed.
 */
module SnsBounceRoute {
  import opened Wrappers

  /** One entry of `bounce.bouncedRecipients`. */
  datatype Recipient = Recipient(emailAddress: string, action: Option<string>,
                                 status: Option<string>, diagnosticCode: Option<string>)

  /** The `bounce` object of an SES notification. */
  datatype BounceDetail = BounceDetail(bounceType: Option<string>, bouncedRecipients: seq<Recipient>)

  /** The parsed `Message`; a field the JSON lacks is `None`. */
  datatype SesNotification = SesNotification(notificationType: Option<string>, bounce: Option<BounceDetail>)

  /**
   * One SNS post: the message-type header, the body's `SubscribeURL`, and its
   * `Message` after parsing (`None` when parsing throws or yields null).
   */
  datatype SnsPost = SnsPost(messageType: Option<string>, subscribeUrl: Option<string>,
                             message: Option<SesNotification>)

  /** What the handler did with the post before answering. */
  datatype Intake =
    | SubscriptionLogged(subscribeUrl: Option<string>)
    | BounceLogged(recipients: seq<string>)
    | NotificationIgnored
    | Ignored

  /** The handler answers `status` with an empty body, or throws before answering. */
  datatype SnsOutcome = Answered(status: int, intake: Intake) | Uncaught

  const SUBSCRIPTION_CONFIRMATION: string := "SubscriptionConfirmation"
  const NOTIFICATION: string := "Notification"
  const BOUNCE: string := "Bounce"

  /** `bouncedRecipients.map(recipient => recipient.emailAddress)`. */
  function BouncedAddresses(recipients: seq<Recipient>): (addresses: seq<string>)
    ensures |addresses| == |recipients|
    ensures forall i :: 0 <= i < |recipients| ==> addresses[i] == recipients[i].emailAddress
  {
    if recipients == [] then []
    else [recipients[0].emailAddress] + BouncedAddresses(recipients[1..])
  }

  /** Extraction of a concatenation is the concatenation of the extractions. */
  lemma BouncedAddressesAppend(a: seq<Recipient>, b: seq<Recipient>)
    ensures BouncedAddresses(a + b) == BouncedAddresses(a) + BouncedAddresses(b)
  {
    assert forall i :: 0 <= i < |a + b| ==> BouncedAddresses(a + b)[i] == (BouncedAddresses(a) + BouncedAddresses(b))[i];
  }

  /** The post is a notification whose handling throws: unparsable, or a bounce without its `bounce` object. */
  predicate ThrowsOn(post: SnsPost) {
    && post.messageType == Some(NOTIFICATION)
    && (post.message.None?
        || (post.message.value.notificationType == Some(BOUNCE) && post.message.value.bounce.None?))
  }

  /** The handler: whatever the message type, an answered post is answered 200. */
  function HandleSnsBounce(post: SnsPost): (r: SnsOutcome)
    ensures r.Answered? ==> r.status == 200
  {
    if post.messageType == Some(SUBSCRIPTION_CONFIRMATION) then
      Answered(200, SubscriptionLogged(post.subscribeUrl))
    else if post.messageType == Some(NOTIFICATION) then
      match post.message
      case None => Uncaught
      case Some(notification) =>
        if notification.notificationType == Some(BOUNCE) then
          match notification.bounce
          case None => Uncaught
          case Some(bounce) => Answered(200, BounceLogged(BouncedAddresses(bounce.bouncedRecipients)))
        else Answered(200, NotificationIgnored)
    else
      Answered(200, Ignored)
  }

  /** The handler throws exactly on an unparsable notification or a bounce without its `bounce` object; every other post gets its 200. */
  lemma ThrowsOnlyOnMalformedNotification(post: SnsPost)
    ensures HandleSnsBounce(post).Uncaught? <==> ThrowsOn(post)
  {
  }

  /** A bounce notification yields its bounced recipients' addresses, in order and one for one. */
  lemma BounceRecipientsExtracted(post: SnsPost)
    requires post.messageType == Some(NOTIFICATION) && post.message.Some?
    requires post.message.value.notificationType == Some(BOUNCE) && post.message.value.bounce.Some?
    ensures var r := HandleSnsBounce(post);
      var recipients := post.message.value.bounce.value.bouncedRecipients;
      && r.Answered? && r.status == 200 && r.intake.BounceLogged?
      && |r.intake.recipients| == |recipients|
      && forall i :: 0 <= i < |recipients| ==> r.intake.recipients[i] == recipients[i].emailAddress
  {
  }

  /** Only a bounce notification yields recipients; a subscription confirmation or any other type yields none. */
  lemma RecipientsOnlyFromBounces(post: SnsPost)
    ensures HandleSnsBounce(post).Answered? && HandleSnsBounce(post).intake.BounceLogged?
      <==> post.messageType == Some(NOTIFICATION) && post.message.Some?
           && post.message.value.notificationType == Some(BOUNCE) && post.message.value.bounce.Some?
    ensures post.messageType == Some(SUBSCRIPTION_CONFIRMATION)
      ==> HandleSnsBounce(post) == Answered(200, SubscriptionLogged(post.subscribeUrl))
  {
  }
}
