# webook user handler: field validation, modelled in Dafny

The webook backend's user HTTP handler (`webook/internal/web/user.go`)
validates requests before it calls the user service:

- **SignUp** runs three checks in a fixed order. It first checks the email
  format, then that the password equals its confirmation, then the
  password's strength. The first check that fails decides the reply. When
  all three pass, the handler forwards a user record holding only the email
  and the password.
- **Edit** checks four optional fields in a fixed order: birthday, nickname,
  introduction, location. A field is checked only when it is non-empty, and
  the first invalid field decides the reply. When all pass, the handler
  forwards the session's user id with the four fields. The request's avatar
  is not forwarded.

Each check is an anchored regular expression (user.go lines 29-34). The
model gives every pattern two forms and proves that they accept the same
strings:

- a ghost transcription, built from the regex constructs the pattern uses
  (module `Regex`: counted repetition `X{lo,hi}`, `W+([S]W+)*`, and a
  `(?=.*X)` lookahead tried at the start);
- an explicit predicate over the characters (module `Rules`), which the
  handler decisions use.

Both handlers are modelled as pure functions from the decoded request to
a `Decision`: `Forward(user)` or `Reject(reason)`. Their ordering is tied
to a generic "first failing check decides" pipeline (module `Pipeline`).
The text each handler writes back is a function of that decision and of the
service's answer, which is an input.

Files:

- `chars.dfy`: the character classes.
- `regex.dfy`: the regex constructs: their semantics, their direct
  characterisations, and the equivalence lemmas.
- `rules.dfy`: the six rules. Also a round trip between accepted birthdays
  and their date fields, and example inputs.
- `pipeline.dfy`: ordered checks where the first failure decides.
- `handler.dfy`: the requests, the user record, and SignUp's and Edit's
  decisions and replies.

Assumptions about the regular-expression engine (dlclark/regexp2 in its
default mode):

- `\w` is `[A-Za-z0-9_]` and `\d` is `[0-9]`.
- `.` matches every character except a line feed.
- `$` matches only at the very end of the string.
- Strings are sequences of Unicode code points.

## Model

| member | source | states |
|---|---|---|
| `Regex.RepeatIff` | webook/internal/web/user.go:30-34 | `X{lo,hi}` over a one-character class matches exactly the strings whose length is within the bounds and whose every character is in the class |
| `Regex.SeparatedRunsIff` | webook/internal/web/user.go:29 | `\w+([S]\w+)*` with separators disjoint from `\w` matches exactly the non-empty strings of word characters and separators that start and end with a word character and never have two separators in a row |
| `Regex.SeparatedRunsJoin` | webook/internal/web/user.go:29 | two such strings joined by a separator form one |
| `Regex.SeparatedRunsSplit` | webook/internal/web/user.go:29 | such a string cut at a separator falls into two such strings, and the separator is neither first nor last |
| `Regex.LookaheadIff` | webook/internal/web/user.go:30 | on a string without line feeds, `(?=.*X)` at the start holds exactly when some character is in X |
| `Rules.EmailPatternIff` | webook/internal/web/user.go:29 | the email pattern accepts exactly: a local part of word runs separated by single `-`/`+`/`.`, then `@`, then a domain of word runs separated by single `-`/`.` that contains at least one `.` |
| `Rules.EmailHasOneAt` | webook/internal/web/user.go:29 | an accepted email contains exactly one `@` |
| `Rules.EmailAccepted` | webook/internal/web/user.go:29 | `a.b+c@d-e.f` is accepted |
| `Rules.EmailWithoutDotRejected` | webook/internal/web/user.go:29 | `a@b` is rejected: the domain needs a `.` |
| `Rules.EmailDoubleSeparatorRejected` | webook/internal/web/user.go:29 | `a..b@c.d` is rejected: two separators in a row |
| `Rules.PasswordPatternIff` | webook/internal/web/user.go:30 | the password pattern accepts exactly the strings of length at least 8 drawn from letters, digits and `$@!%*#?&` that contain at least one letter, one digit and one of `$@!%*#?&` |
| `Rules.BirthdayPatternIff` | webook/internal/web/user.go:31 | the birthday pattern accepts exactly the 10-character strings `19` or `20`, two digits, `-`, two digits, `-`, two digits |
| `Rules.BirthdayAcceptsExactlyPaddedDates` | webook/internal/web/user.go:31 | a birthday is accepted iff it is the zero-padded `CCYY-MM-DD` form of a century 19 or 20 and any two-digit year, month and day |
| `Rules.ParseFormat` | webook/internal/web/user.go:31 | reading the fields back from a formatted birthday gives the same fields |
| `Rules.FormatParse` | webook/internal/web/user.go:31 | every accepted birthday is the formatted form of the fields read from it |
| `Rules.BirthdayExamples` | webook/internal/web/user.go:237 | the example `1999-1-28` given in the rejection message is itself rejected; `1999-01-28` and the non-date `2000-99-99` are accepted; `2100-01-01` is rejected |
| `Rules.NicknamePatternIff` | webook/internal/web/user.go:32 | the nickname pattern accepts exactly 2 to 10 characters, each an ideograph U+4E00–U+9FA5, `_`, an ASCII letter or a digit |
| `Rules.IntroductionPatternIff` | webook/internal/web/user.go:33 | the introduction pattern accepts exactly 10 to 300 characters, each an ideograph, `，` or `。` |
| `Rules.LocationPatternIff` | webook/internal/web/user.go:34 | the location pattern accepts exactly 3 to 60 ideographs |
| `Rules.RulesRejectEmpty` | webook/internal/web/user.go:29-34 | no rule accepts the empty string |
| `Pipeline.FirstFailure` | webook/internal/web/user.go:84-106 | ordered checks pass iff every check passes; otherwise the reason reported is that of a check that fails while all before it pass |
| `Pipeline.FirstFailureAt` | webook/internal/web/user.go:84-106 | when check k is the first to fail, its reason is the one reported |
| `Pipeline.FirstFailureIgnoresRest` | webook/internal/web/user.go:230-273 | checks after the first failing one do not affect the verdict |
| `UserHandler.SignUp` | webook/internal/web/user.go:84-112 | SignUp's guarded returns are the pipeline email → confirmation → strength, forwarding the email-and-password record when all pass |
| `UserHandler.SignUpForwardsIff` | webook/internal/web/user.go:84-112 | SignUp forwards iff the email is valid, the confirmation equals the password and the password is strong; the forwarded record then has only email and password set, and both are valid |
| `UserHandler.SignUpEmailCheckedFirst` | webook/internal/web/user.go:84-92 | a malformed email is reported whatever the passwords are |
| `UserHandler.SignUpMismatchBeforeStrength` | webook/internal/web/user.go:93-106 | with a valid email a confirmation mismatch is reported whether the password is strong or weak |
| `UserHandler.SignUpRepliesDistinct` | webook/internal/web/user.go:84-122 | equal replies mean the same rejection, or the same service answer |
| `UserHandler.SignUpReplySuccessIff` | webook/internal/web/user.go:84-122 | the success reply is written iff all three checks pass and the service stored the record; after a rejection the service's answer does not affect the reply |
| `UserHandler.Edit` | webook/internal/web/user.go:230-282 | Edit's guarded returns are the pipeline birthday → nickname → introduction → location, each passing when its field is empty or valid, forwarding the session id and the four fields when all pass |
| `UserHandler.EditForwardsIff` | webook/internal/web/user.go:230-282 | Edit forwards iff each of the four fields is empty or valid; the forwarded record holds the session id and the four fields, and an empty avatar, email and password |
| `UserHandler.EditAllEmptyPasses` | webook/internal/web/user.go:230-273 | an edit request with all four fields empty is forwarded, whatever its avatar, although no rule accepts the empty string |
| `UserHandler.EditReportsFirstInvalid` | webook/internal/web/user.go:230-273 | the reported field is the first invalid one in the order birthday, nickname, introduction, location, and it is non-empty |
| `UserHandler.EditIgnoresLaterFields` | webook/internal/web/user.go:230-273 | requests that agree up to and including the first invalid field get the same decision, whatever their later fields, avatar and session id |
| `UserHandler.EditIgnoresAvatar` | webook/internal/web/user.go:276-282 | the avatar is neither checked nor forwarded |
| `UserHandler.EditReplySuccessIff` | webook/internal/web/user.go:230-287 | the success reply is written iff every non-empty field is valid and the update succeeded; after a rejection the service's answer does not affect the reply |

## Left out

- The `err != nil` branches after each `MatchString` (the "系统错误" replies): regexp2 returns an error only when a match timeout expires, and no timeout is set.
- regexp2's default .NET semantics, where `\w` and `\d` also match non-ASCII letters and digits and `$` also matches before a final line feed: the model uses the ASCII classes and an end-only `$`.
- Go strings are UTF-8 byte strings: the model works on code points and does not model invalid UTF-8.
- `ctx.Bind` and its 400 reply: the model starts from a decoded request.
- The session store: the user id Edit forwards is a parameter. The panic at line 275, when the session has no int64 `userId`, is not modelled.
- The user service: its answer (`svc.SignUp`, `svc.Edit`) is an input. Those two methods are not part of the service file shown, which defines only `Signup`. The bcrypt hashing in that file is not modelled.
- HTTP status codes: every reply modelled here is written with status 200.
- `domain.User` is not part of this model: the record has the fields the handler and the repository use.
- Login, LoginJWT, Logout, Profile, ProfileJWT, Status and route registration are not part of this model. They have no validation logic and depend on the session library, JWT signing and the wall clock.
- `webook/internal/repository/user.go` is not part of this model: it only copies fields to and from a data-access object that is not shown.
