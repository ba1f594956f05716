/** The rows postbud keeps, the draft a caller submits and the outcomes a relay can give. Except for
    attachments rows are never deleted, so a table is a sequence and a row's id is its index. Times
    are microseconds on the one clock that the database and its workers share. */
module Schema {
  import opened Wrappers

  type Time = int
  const SECOND: Time := 1000000
  const MINUTE: Time := 60 * SECOND
  const DAY: Time := 24 * 60 * MINUTE

  datatype Status = Queued | Sent | Failed | Suppressed
  datatype RelayState = Active | Deferred | Delivered

  /** What the caller submitted; never edited, but its bodies may be blanked when it is long done. */
  datatype Content = Content(
    mailFrom: string, fromName: Option<string>, rcptTo: string, replyTo: Option<string>,
    subject: string, bodyText: Option<string>, bodyHtml: Option<string>)

  datatype Attachment = Attachment(filename: string, contentType: string, content: seq<int>)

  datatype Draft = Draft(tenant: nat, key: string, content: Content, attachments: seq<Attachment>)

  datatype Message = Message(
    tenant: nat, key: string, content: Content,
    status: Status, attempts: nat, nextAttemptAt: Time,
    claimedAt: Option<Time>, claimedBy: Option<string>,
    relayQueueId: Option<string>, lastError: Option<string>, completedAt: Option<Time>,
    relayState: Option<RelayState>, relayDetail: Option<string>, relayStateAt: Option<Time>,
    bodyPurgedAt: Option<Time>)

  datatype AttachmentRow = AttachmentRow(message: nat, position: nat, file: Attachment)

  datatype Verdict = Taken | Transient | Permanent

  /** One row of the insert-only delivery log. */
  datatype Attempt = Attempt(
    message: nat, attempt: nat, verdict: Verdict, at: Time,
    code: Option<int>, relayQueueId: Option<string>, detail: Option<string>)

  /** A row without a tenant is global. */
  datatype Suppression = Suppression(
    tenant: Option<nat>, address: string, reason: string, source: string, detail: Option<string>,
    createdAt: Time, removedAt: Option<Time>, removedBy: Option<string>)

  datatype Bounce = Bounce(
    raw: string, relayQueueId: Option<string>, message: Option<nat>, finalRecipient: Option<string>,
    status: Option<string>, diagnostic: Option<string>, classification: Option<string>)

  datatype Tables = Tables(
    messages: seq<Message>, attachments: seq<AttachmentRow>, log: seq<Attempt>,
    suppressions: seq<Suppression>, bounces: seq<Bounce>)

  /** What handing one message to the relay came to. */
  datatype Outcome =
    | Accepted(queueId: Option<string>)
    | Deferral(code: Option<int>, detail: string)
    | Refusal(code: Option<int>, detail: string)

  /** One message the relay still holds. */
  datatype QueueEntry = QueueEntry(queueId: string, queueName: string, reason: Option<string>)
}
