# Early-access intake endpoint

This project models the one server endpoint of the Caffriend landing page: `POST /api/early-access`. The endpoint reads a JSON body. It checks that the body's `email` is a non-empty string and that the string passes a syntactic sanity check. It then builds one notification message for the site operator and hands it to an external email provider. Finally it answers with one of five JSON responses:

| status | body | when |
|---|---|---|
| 400 | `{error: "Email is required"}` | `email` is missing, falsy or not a string |
| 400 | `{error: "Invalid email"}` | `email` fails the pattern or is longer than 254 |
| 500 | `{error: "Email failed to send"}` | the provider reports an error |
| 500 | `{error: "Internal server error"}` | the body does not parse or destructure, or the provider call throws |
| 200 | `{success: true}` | the provider accepted the message |

Two modules follow the handler's structure:

- `EmailCheck` (`email_check.dfy`) models the sanity check. The pattern `^[^\s@]+@[^\s@]+\.[^\s@]+$` is read as a search over the positions of its literal `@` and `.`, as a backtracking matcher searches. It is proved equal to a split-based reading: no whitespace, exactly one `@` and not first, and a `.` strictly inside the text after the `@`. Dots elsewhere in the domain are allowed. `\s` is the ECMAScript set: WhiteSpace plus LineTerminator, with the Zs category as of current Unicode. The length is JavaScript's `length` of well-formed UTF-16, so a code point above U+FFFF counts as two.
- `EarlyAccessRoute` (`early_access_route.dfy`) models the handler as one function, `Post`. Its inputs are the parse outcome, the two optional address settings (`RESEND_FROM`, `RESEND_TO`) and the provider's outcome. Its result is the response plus the payload of the provider call, when a call was made.

Edge cases the code decides:

- An empty string is refused as "Email is required", not as "Invalid email", because `!email` is checked first.
- The body `null` parses as JSON, but destructuring `{ email }` from it throws. So it yields 500 "Internal server error", not a 400.
- The 254 bound counts UTF-16 code units, not characters.
- An address setting that is set to the empty string falls back to the default, because the code uses `||`.

## Model

| member | source | states |
|---|---|---|
| `EmailCheck.PatternIffSplit` | src/app/api/early-access/route.ts:16 | the pattern accepts a string exactly when the string has no whitespace, exactly one `@` that is not first, and a `.` with a character on each side in the text after the `@` |
| `EmailCheck.PatternImpliesSplit` | src/app/api/early-access/route.ts:16 | every match of the pattern has the split shape (the "only if" half) |
| `EmailCheck.SplitImpliesPattern` | src/app/api/early-access/route.ts:16 | every string of the split shape matches the pattern (the "if" half) |
| `EmailCheck.ValidEmailIff` | src/app/api/early-access/route.ts:16 | the whole check holds exactly when the four split conditions hold and the UTF-16 length is at most 254 |
| `EmailCheck.PatternOfParts` | src/app/api/early-access/route.ts:16 | any three non-empty runs of `[^\s@]` joined as run `@` run `.` run match the pattern |
| `EmailCheck.PartsOfPattern` | src/app/api/early-access/route.ts:16 | every match splits into three non-empty runs of `[^\s@]` around one `@` and one `.` |
| `EmailCheck.Utf16Length` | src/app/api/early-access/route.ts:16 | `email.length` lies between the number of code points and twice that, and equals it when no code point exceeds U+FFFF |
| `EmailCheck.TooLongRejected` | src/app/api/early-access/route.ts:16 | a string of more than 254 characters is rejected whatever its shape |
| `EmailCheck.BoundaryAccepted` | src/app/api/early-access/route.ts:16 | a well-shaped string of exactly 254 characters, all in the Basic Multilingual Plane, is accepted |
| `EmailCheck.Sample254Accepted` | src/app/api/early-access/route.ts:16 | the address of 247 `a`s then `@ex.com` has exactly 254 characters and is accepted; the same address with one more character is rejected |
| `EarlyAccessRoute.OrDefault` | src/app/api/early-access/route.ts:21-22 | `setting \|\| fallback` is the setting when it is set and non-empty, and the fallback otherwise |
| `EarlyAccessRoute.Notification` | src/app/api/early-access/route.ts:24-37 | the message replies to the submitted email, has subject "New Early Access signup", carries the email verbatim in its HTML, and takes its sender and recipient from the settings or the defaults |
| `EarlyAccessRoute.Post` | src/app/api/early-access/route.ts:7-49 | every request ends in one of the five responses; the provider is called exactly when the email is a string that passes the check, and then with that email's notification; the status is 200 exactly when the provider was called and accepted |
| `EarlyAccessRoute.MissingEmailRejected` | src/app/api/early-access/route.ts:11-13 | a missing, empty or non-string email gives 400 "Email is required" and no provider call |
| `EarlyAccessRoute.InvalidEmailRejected` | src/app/api/early-access/route.ts:16-19 | a non-empty string that fails the check gives 400 "Invalid email" and no provider call |
| `EarlyAccessRoute.RefusalSendsNothing` | src/app/api/early-access/route.ts:11-19 | no 400 response comes with a provider call |
| `EarlyAccessRoute.ValidEmailSendsOne` | src/app/api/early-access/route.ts:24-47 | a valid email gives exactly one provider call; its payload has replyTo equal to the email, the fixed subject and the email in its HTML; acceptance gives 200 `{success: true}`, a reported error gives 500 "Email failed to send", and a throw gives 500 "Internal server error" |
| `EarlyAccessRoute.AddressResolution` | src/app/api/early-access/route.ts:21-22 | the sender is `RESEND_FROM` when set and non-empty, else "Early Access <onboarding@resend.dev>"; the recipient is `RESEND_TO` when set and non-empty, else "you@yourdomain.com" |
| `EarlyAccessRoute.ParseFailureIsInternal` | src/app/api/early-access/route.ts:45-48 | a body that fails to parse, or the body `null` whose destructuring at line 9 throws, gives 500 "Internal server error" and no provider call |
| `EarlyAccessRoute.RepliesDistinct` | src/app/api/early-access/route.ts:12-47 | the five reply constants are pairwise different |
| `EarlyAccessRoute.UserExampleAccepted` | src/app/api/early-access/route.ts:24-44 | the address `user@example.com` gives one provider call whose replyTo is that address, and 200 `{success: true}` when the provider accepts |
| `EarlyAccessRoute.MarkupReachesHtml` | src/app/api/early-access/route.ts:32 | the HTML is not escaped: an address containing markup passes the check and appears verbatim in the operator's message |

## Left out

- The provider client, its API key and the network call (route.ts lines 3-5 and 24) are a foreign library and I/O. The provider appears only as an input outcome: accepted, rejected with an error, or thrown. Whether it accepts does not depend on the payload in this model.
- JSON parsing is abstracted to its outcome: unparsable, `null`, or a value whose `email` property is missing, a string, or some other value reduced to its truthiness.
- The `console.error` logging (lines 40 and 46) and the `async`/`await` plumbing have no observable effect on the response.
- The optional provider response data that a success may echo is not modelled, because the handler returns only `{success: true}`.
- The client-side forms in src/components/Hero.tsx and src/components/Footer.tsx are UI and I/O. They trim the input and post it here.
- The presentational components in src/components/HowItWorks.tsx, src/components/FeatureCards.tsx, src/components/EarlyAccessEmail.tsx and src/app/page.tsx have no behaviour to model.
- Emails are modelled as sequences of Unicode scalar values, so an unpaired UTF-16 surrogate (which the JSON escape `\ud800` produces) cannot be expressed. The code treats each such surrogate as one `[^\s@]` unit of length 1, and accepts and sends an address like `\ud800@a.b`.
- The `\s` set is fixed to the Zs category as of current Unicode; a future Unicode version that adds space separators would widen it.
