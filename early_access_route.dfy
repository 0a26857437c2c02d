/**
 * The POST handler of /api/early-access. One request is one call of `Post`:
 * the outcome of parsing the body, the two optional address settings and the
 * outcome of the provider call go in; the response and the payload of the
 * send call (when one was made) come out.
 */
module EarlyAccessRoute {
  import opened EmailCheck

  datatype Option<T> = None | Some(value: T)

  /** The `email` property of the parsed body. Non-string values are kept
      only as their JavaScript truthiness, which is all the handler reads. */
  datatype EmailField = Missing | NonString(truthy: bool) | Text(s: string)

  /** The result of `await request.json()`. `JsonNull` is the body "null":
      it parses, but destructuring `{ email }` out of it throws. Every other
      JSON value yields its `email` property (Missing for non-objects). */
  datatype RequestBody = Unparsable | JsonNull | Json(email: EmailField)

  /** RESEND_FROM and RESEND_TO: None when unset. */
  datatype Env = Env(from: Option<string>, to: Option<string>)

  /** What the provider's `emails.send` does: resolve without an error,
      resolve with an `error`, or throw. */
  datatype Delivery = Accepted | Rejected | Threw

  datatype Message = Message(from: string, to: string, replyTo: string, subject: string, html: string)

  datatype ReplyBody = ErrorBody(error: string) | SuccessBody

  datatype Reply = Reply(status: int, body: ReplyBody)

  /** What one request does: the response, and the payload handed to the
      provider if the handler called it. */
  datatype Handled = Handled(reply: Reply, attempted: Option<Message>)

  const DefaultFrom := "Early Access <onboarding@resend.dev>"
  const DefaultTo := "you@yourdomain.com"
  const Subject := "New Early Access signup"

  const RequiredReply := Reply(400, ErrorBody("Email is required"))
  const InvalidReply := Reply(400, ErrorBody("Invalid email"))
  const SendFailedReply := Reply(500, ErrorBody("Email failed to send"))
  const InternalErrorReply := Reply(500, ErrorBody("Internal server error"))
  const SuccessReply := Reply(200, SuccessBody)

  /** The HTML before and after the interpolated email. */
  const HtmlHead := "\n        <div style=\"font-family:Arial,sans-serif;line-height:1.5\">\n          <h2 style=\"margin:0 0 8px\">New Early Access signup</h2>\n          <p style=\"margin:0 0 4px\"><strong>Email:</strong> "
  const HtmlTail := "</p>\n          <hr style=\"margin:12px 0;border:none;border-top:1px solid #eee\" />\n          <p style=\"color:#888;font-size:12px;margin:0\">Sent via Caffriend</p>\n        </div>\n      "

  /** JavaScript truthiness of the field: undefined and "" are falsy. */
  predicate Truthy(f: EmailField) {
    match f
    case Missing => false
    case NonString(t) => t
    case Text(s) => s != ""
  }

  /** `setting || fallback` for an environment variable. */
  function OrDefault(setting: Option<string>, fallback: string): (r: string)
    ensures setting.Some? && setting.value != "" ==> r == setting.value
    ensures setting.None? || setting.value == "" ==> r == fallback
  {
    if setting.Some? && setting.value != "" then setting.value else fallback
  }

  /** `needle` stands in `hay` from index `i` on. */
  predicate OccursAt(needle: string, hay: string, i: nat) {
    i + |needle| <= |hay| && hay[i..i + |needle|] == needle
  }

  ghost predicate Occurs(needle: string, hay: string) {
    exists i: nat :: OccursAt(needle, hay, i)
  }

  /** The payload of the send call for a submitted email. */
  function Notification(email: string, env: Env): (m: Message)
    ensures m.replyTo == email
    ensures m.subject == Subject
    ensures Occurs(email, m.html)
    ensures m.from == OrDefault(env.from, DefaultFrom)
    ensures m.to == OrDefault(env.to, DefaultTo)
  {
    var html := HtmlHead + email + HtmlTail;
    assert OccursAt(email, html, |HtmlHead|);
    Message(OrDefault(env.from, DefaultFrom), OrDefault(env.to, DefaultTo), email, Subject, html)
  }

  predicate IsListedReply(r: Reply) {
    r in {RequiredReply, InvalidReply, SendFailedReply, InternalErrorReply, SuccessReply}
  }

  /** The handler, route.ts lines 7-49. */
  function Post(body: RequestBody, env: Env, delivery: Delivery): (h: Handled)
    ensures IsListedReply(h.reply)
    ensures h.attempted.Some? <==> body.Json? && body.email.Text? && IsValidEmail(body.email.s)
    ensures h.attempted.Some? ==> h.attempted.value == Notification(body.email.s, env)
    ensures h.reply.status == 200 <==> h.attempted.Some? && delivery == Accepted
  {
    match body
    case Unparsable => Handled(InternalErrorReply, None)
    case JsonNull => Handled(InternalErrorReply, None)
    case Json(field) =>
      if !Truthy(field) || !field.Text? then Handled(RequiredReply, None)
      else if !IsValidEmail(field.s) then Handled(InvalidReply, None)
      else
        var message := Notification(field.s, env);
        match delivery
        case Threw => Handled(InternalErrorReply, Some(message))
        case Rejected => Handled(SendFailedReply, Some(message))
        case Accepted => Handled(SuccessReply, Some(message))
  }

  // ---------------------------------------------------------------------------
  // Properties of the handler

  /** A missing, falsy or non-string email is refused as required, and the
      provider is not called. */
  lemma MissingEmailRejected(field: EmailField, env: Env, delivery: Delivery)
    requires !(field.Text? && field.s != "")
    ensures Post(Json(field), env, delivery) == Handled(RequiredReply, None)
  {
  }

  /** A non-empty string that fails the check is refused as invalid, and the
      provider is not called. */
  lemma InvalidEmailRejected(s: string, env: Env, delivery: Delivery)
    requires s != "" && !IsValidEmail(s)
    ensures Post(Json(Text(s)), env, delivery) == Handled(InvalidReply, None)
  {
  }

  /** No 400 response ever comes with a provider call. */
  lemma RefusalSendsNothing(body: RequestBody, env: Env, delivery: Delivery)
    ensures Post(body, env, delivery).reply.status == 400 ==> Post(body, env, delivery).attempted == None
  {
  }

  /** A valid email leads to exactly one provider call, whose payload replies
      to the applicant, has the fixed subject, carries the email verbatim in
      its HTML, and whose outcome decides the response. */
  lemma ValidEmailSendsOne(s: string, env: Env, delivery: Delivery)
    requires IsValidEmail(s)
    ensures var h := Post(Json(Text(s)), env, delivery);
      && h.attempted.Some?
      && h.attempted.value.replyTo == s
      && h.attempted.value.subject == Subject
      && Occurs(s, h.attempted.value.html)
      && h.reply == match delivery
                    case Accepted => SuccessReply
                    case Rejected => SendFailedReply
                    case Threw => InternalErrorReply
  {
  }

  /** Sender and recipient are the settings when set and non-empty, and the
      built-in defaults otherwise. */
  lemma AddressResolution(email: string, env: Env)
    ensures env.from.Some? && env.from.value != "" ==> Notification(email, env).from == env.from.value
    ensures env.from.None? || env.from.value == "" ==> Notification(email, env).from == DefaultFrom
    ensures env.to.Some? && env.to.value != "" ==> Notification(email, env).to == env.to.value
    ensures env.to.None? || env.to.value == "" ==> Notification(email, env).to == DefaultTo
  {
  }

  /** A body that cannot be destructured is an internal error, not a
      validation error, and the provider is not called. */
  lemma ParseFailureIsInternal(env: Env, delivery: Delivery)
    ensures Post(Unparsable, env, delivery) == Handled(InternalErrorReply, None)
    ensures Post(JsonNull, env, delivery) == Handled(InternalErrorReply, None)
  {
  }

  /** The five responses are pairwise different, so each request ends in
      exactly one of them. */
  lemma RepliesDistinct()
    ensures |{RequiredReply, InvalidReply, SendFailedReply, InternalErrorReply, SuccessReply}| == 5
  {
  }

  /** The HTML is not escaped: a validated email may carry markup, and it
      reaches the operator's message as it was typed. */
  lemma MarkupReachesHtml(env: Env)
    ensures IsValidEmail("<b>x</b>@a.b")
    ensures Occurs("<b>x</b>@a.b", Notification("<b>x</b>@a.b", env).html)
  {
    assert "<b>x</b>@a.b" == "<b>x</b>" + ['@'] + "a" + ['.'] + "b";
    PatternOfParts("<b>x</b>", "a", "b");
  }

  /** The worked example: "user@example.com" gives one provider call that
      replies to that address, and 200 `{success: true}` once accepted. */
  lemma UserExampleAccepted(env: Env)
    ensures var h := Post(Json(Text("user@example.com")), env, Accepted);
      && h.attempted.Some?
      && h.attempted.value.replyTo == "user@example.com"
      && h.reply == SuccessReply
  {
    assert "user@example.com" == "user" + ['@'] + "example" + ['.'] + "com";
    PatternOfParts("user", "example", "com");
  }
}
