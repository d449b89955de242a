# Quiz-Master browser client, modelled in Dafny

Quiz-Master is a quiz platform used from the browser. An author signs in, writes a quiz on the
authoring page and creates it with the quiz service. Participants enter the quiz code on the
join page, give their name, roll number and branch, and wait on the attempt page until the quiz
starts. They then answer the questions against a countdown, under an anti-cheat watcher, and
submit. The quiz-details page shows the participants and the leaderboard.

Every page is a script that talks to a remote HTTP service and writes to the document. This
project models the sequential logic under that glue and proves what it guarantees:

- `Attempt` (attempt.dfy) models the attempt page (`js/attempt.js`) as a state machine.
  - `Step` says what each callback does to the page's state. The callbacks are the poll, the
    countdown tick, blur and visibility changes, option and button clicks, and the settling of
    the submit request.
  - `Enabled` says when the page can deliver each callback.
  - The class `Session` holds the same variables in fields. It has one method per callback, and
    each method's new state is `Step` of the old one.
  - Lemmas cover the invariant that every reachable state keeps, the cursor bounds, the `m:ss`
    countdown, the unanswered count, the warning escalation and the submit teardown.
- `Create` (create.dfy) models the authoring page (`js/create.js`).
  - The class `Editor` holds the in-place question list, the edit cursor and the busy flag.
  - The save, edit, delete, clear and create checks are stated against pure validation
    functions.
- `Join` (join.dfy) models the join page (`js/join.js`).
  - The code, name, roll-number and branch validators.
  - The decision on the service's reply.
  - The class `JoinFlow`, which holds the verified code and the joiner record.
- `QuizDetails` (details.dfy) models the participants and leaderboard tabs of `js/test.js` and
  its tab switch.
- `Auth` (auth.dfy) models the sign-in page (`js/script.js`): the login and registration
  checks, the e-mail pattern, the form switch and the redirect.
- `HtmlEscape` (html.dfy) holds the shared escapers.
  - `escapeHtml`, which three pages define identically.
  - `sanitizeInput`, specified by the text-node escaping of the WHATWG HTML Living Standard,
    section 13.3 "Serializing HTML fragments".
- `Text` (text.dfy), `JsArray` (jsarray.dfy) and `Wrappers` (wrappers.dfy) hold the string,
  sparse-array and option/result primitives the scripts rely on.

Replies of the quiz service, the clock and the answers to dialogs are parameters.

## Model

| member | source | states |
|---|---|---|
| Text.Trim | js/create.js:68-74 | `trim` never lengthens its input and leaves no whitespace at either end |
| Text.TrimStartSuffix | js/create.js:68 | removing leading whitespace leaves a suffix of the input |
| Text.TrimEndPrefix | js/create.js:68 | removing trailing whitespace leaves a prefix of the input |
| Text.TrimOfTrimmed | js/join.js:157 | a string with no whitespace at either end is its own trim |
| Text.TrimIdempotent | js/join.js:239-253 | trimming twice is trimming once, so re-trimming a cleaned field changes nothing |
| Text.TrimEmptyIffAllSpace | js/script.js:49-52 | a trimmed field is empty exactly when the field holds only whitespace |
| Text.ToUpper | js/join.js:37 | upper-casing keeps the length and maps each character by ASCII case |
| Text.UpperCharSpace | js/join.js:148 | upper-casing a character neither creates nor removes whitespace |
| Text.ToUpperIdempotent | js/join.js:148 | upper-casing twice is upper-casing once |
| Text.ToUpperPrefix | js/join.js:148 | upper-casing commutes with taking a prefix |
| Text.TrimStartToUpper | js/join.js:148 | removing leading whitespace commutes with upper-casing |
| Text.TrimEndToUpper | js/join.js:148 | removing trailing whitespace commutes with upper-casing |
| Text.TrimToUpper | js/join.js:37 | `trim` and `toUpperCase` commute, so `isValidCode` can apply them in either order |
| Text.ToUpperTrimmed | js/join.js:37 | upper-casing a trimmed string keeps it trimmed |
| Text.NatToString | js/attempt.js:85 | the decimal rendering of a number is non-empty digits with no leading zero, and a single digit exactly below 10 |
| Text.ParseNatToString | js/attempt.js:85 | reading the decimal rendering back gives the number |
| Text.NatToStringInjective | js/test.js:240 | distinct numbers render differently |
| Text.ParseNatLeadingZero | js/attempt.js:85 | a leading `0` does not change the value of a digit string |
| Text.PadStart | js/attempt.js:85 | `padStart` gives the width or the input's length, whichever is larger, with the fill before the unchanged input |
| Text.IncludesIffOccurs | js/script.js:182 | `Includes` (`includes`) holds exactly when the substring occurs at some position |
| HtmlEscape.EscapeHtml | js/create.js:38-46 | `escapeHtml` (the same in js/join.js:129-138 and js/test.js:34-43) never shortens the text and leaves no `<`, `>`, `"` or `'` in it |
| HtmlEscape.EscapeHtmlTable | js/create.js:39-46 | `&`, `<`, `>`, `"` and `'` become `&amp;`, `&lt;`, `&gt;`, `&quot;` and `&#039;`, and every other character is kept |
| HtmlEscape.EscapeHtmlConcat | js/create.js:46 | escaping distributes over concatenation |
| HtmlEscape.EscapeHtmlFixedIff | js/join.js:129-138 | escaping leaves a text unchanged exactly when it holds none of the five characters |
| HtmlEscape.UnescapeEscapeChar | js/create.js:39-45 | decoding one escaped character followed by anything gives that character followed by the decoded rest |
| HtmlEscape.UnescapeEscapeHtml | js/test.js:34-43 | decoding the five entities undoes `escapeHtml`, so no text is lost |
| HtmlEscape.EscapeHtmlInjective | js/test.js:34-43 | distinct texts escape to distinct markup |
| HtmlEscape.Sanitize | js/create.js:27-31 | `sanitizeInput` never shortens its input, is empty exactly when the input is, and leaves no `<` or `>` |
| HtmlEscape.SanitizeConcat | js/create.js:27-31 | sanitising distributes over concatenation |
| HtmlEscape.SanitizeTrimmed | js/join.js:239-241 | sanitising a string with no whitespace at its ends gives one with none |
| HtmlEscape.SanitizeWithoutAmp | js/join.js:37 | a sanitised string holding no `&` is the input itself |
| HtmlEscape.CleanedEmptyIffBlank | js/create.js:68-81 | `Cleaned`, a trimmed and sanitised field, is empty exactly when the field is all whitespace |
| HtmlEscape.SanitizePlain | js/join.js:118-122 | sanitising changes nothing in a string without `&`, no-break space, `<` or `>` |
| JsArray.Assign | js/create.js:101 | `a[k] = v` puts `v` at `k`, leaves every other index reading as before, and grows the array to `k + 1` when `k` is past its end |
| JsArray.Splice | js/create.js:192 | `splice(i, 1)` removes slot `i` and moves the later slots down, and removes nothing past the end |
| JsArray.CountDefined | js/attempt.js:168 | the number of defined slots is at most the array's length |
| JsArray.CountDefinedConcat | js/attempt.js:168 | counting defined slots is additive over concatenation |
| JsArray.CountDefinedHoles | js/attempt.js:119 | the holes that an assignment past the end creates count as undefined |
| JsArray.CountDefinedUpdate | js/attempt.js:119 | overwriting an existing slot adds one defined slot exactly when that slot was a hole |
| JsArray.CountDefinedAssign | js/attempt.js:119 | assigning an answer adds one defined slot exactly when that slot read as `undefined` |
| Attempt.InitialValid | js/attempt.js:25-36 | the page as loaded (waiting, polling, no questions or answers, no warnings) satisfies the state invariant |
| Attempt.NavigationButtonsMatchMoves | js/attempt.js:134-142 | "Previous" is disabled exactly when going back is a no-op; the primary button is "Submit" exactly on the last question, where going forward is a no-op, and "Next" elsewhere moves one forward |
| Attempt.WalkInBounds | js/attempt.js:149-161 | any sequence of next/previous calls keeps the cursor on a question |
| Attempt.Countdown | js/attempt.js:83-84 | the seconds shown are below 60, and 60 times the minutes plus the seconds is the whole number of seconds left |
| Attempt.TwoDigits | js/attempt.js:85 | seconds below 100 padded to two places are two digits that read back as the seconds |
| Attempt.TimerMinutes | js/attempt.js:83-85 | the minutes field of `⏱ m:ss` is the plain decimal rendering of `Math.floor(diff / 60000)` |
| Attempt.TimerTextReadsBack | js/attempt.js:83-85 | the countdown `⏱ m:ss` reads back as minutes, written as `NatToString` of the whole minutes with no leading zero, and two-digit seconds below 60 whose total is the whole seconds left |
| Attempt.MissingBelowPrefix | js/attempt.js:168 | the number of undefined slots among the first `m` is `m` minus the defined slots of the prefix |
| Attempt.UnansweredIsMissing | js/attempt.js:168 | the prompt's count is the number of questions whose slot is undefined, between 0 and the number of questions |
| Attempt.ConfirmMessage | js/attempt.js:170-173 | the prompt is the bare question exactly when nothing is unanswered, and otherwise longer, ending in "questions." exactly when more than one is unanswered |
| Attempt.ConfirmMessageReadsBack | js/attempt.js:170-173 | with questions left unanswered, `ConfirmMessage` reads back as the question, "You have ", digits that parse as the unanswered count, and "unanswered question" with the plural exactly for more than one |
| Attempt.StepPreservesValid | js/attempt.js:36-250 | `Step` of every callback that `Enabled` lets the page deliver keeps the state invariant (phase flags, cursor bound, timer and watcher together, warning bound, joiner record, answers in range) |
| Attempt.RunPreservesValid | js/attempt.js:36-250 | `Run` of every sequence of callbacks, each `Enabled` in its turn, keeps the state invariant |
| Attempt.PollStartsOnlyOnQuestions | js/attempt.js:36-64 | while waiting, a poll changes the state exactly when an ok reply has a non-empty question list; that reply stores its questions and end time, stops the poll and starts the countdown and the watcher |
| Attempt.ClickOptionSetsOneSlot | js/attempt.js:116-121 | an option click sets only the shown question's slot; that option becomes the one drawn active, and the unanswered count drops by one exactly when the slot was empty |
| Attempt.NavigationKeepsAnswers | js/attempt.js:149-161 | next/previous clicks change only the cursor, which stays on a question, so answers survive navigation |
| Attempt.TickSubmitsWhenTimeIsUp | js/attempt.js:76-81 | a tick with no time left submits, and the countdown can no longer fire |
| Attempt.TickRedraws | js/attempt.js:76-86 | a tick with time left only redraws the countdown with the time left, and the countdown keeps running |
| Attempt.WarnEscalates | js/attempt.js:222-235 | each blur or hidden-document change adds exactly one warning; below three it only warns, and the third submits; a visible-document change does nothing |
| Attempt.SubmitDetachesEverything | js/attempt.js:183-217 | after `submit` neither the countdown, nor a violation, nor the poll can fire again, and the request carries the answers as they were |
| Attempt.SubmitReplyOutcome | js/attempt.js:189-203 | a resolved request, whatever its status, shows the thank-you screen and removes the joiner record; a rejected one returns to the quiz screen with the answers kept and neither the countdown nor the watcher reinstalled |
| Attempt.ThanksIsFinal | js/attempt.js:196-199 | on the thank-you screen no callback can be delivered |
| Attempt.ExampleSubmission | js/attempt.js:36-194 | example only, one concrete run: a one-question quiz answered with its second option and confirmed sends answer 1 for question 0 |
| Attempt.Session.constructor | js/attempt.js:25-36 | the loaded page is the initial state, which is valid |
| Attempt.Session.SetupAntiCheat | js/attempt.js:238-250 | installs the anti-cheat handlers and changes nothing else |
| Attempt.Session.RemoveAntiCheat | js/attempt.js:209-217 | detaches the anti-cheat handlers and changes nothing else |
| Attempt.Session.StartTimer | js/attempt.js:74-75 | installs the countdown and changes nothing else |
| Attempt.Session.Poll | js/attempt.js:36-69 | one poll callback with its outcome: the new state is the poll step of the old one, and it stays valid |
| Attempt.Session.Tick | js/attempt.js:75-86 | one countdown callback at time `now` is the tick step; it calls `submit` exactly when no time is left |
| Attempt.Session.SelectOption | js/attempt.js:118-121 | the option click handler is the option step and keeps the state valid |
| Attempt.Session.NextQuestion | js/attempt.js:149-154 | `nextQuestion` is the forward step and keeps the state valid |
| Attempt.Session.PrevQuestion | js/attempt.js:156-161 | `prevQuestion` is the back step and keeps the state valid |
| Attempt.Session.ConfirmSubmit | js/attempt.js:166-178 | shows the prompt for the current unanswered count and calls `submit` exactly when the participant confirms |
| Attempt.Session.Submit | js/attempt.js:183-194 | clears the countdown, detaches the watcher and issues the request with the answers as they are |
| Attempt.Session.SubmitSettled | js/attempt.js:189-203 | the settling of the submit request is the reply step and keeps the state valid |
| Attempt.Session.Warn | js/attempt.js:222-230 | `warn` is the blur step; it submits exactly when the warnings reach three |
| Attempt.Session.HandleVisibilityChange | js/attempt.js:233-235 | the visibility handler is the visibility step: it warns only when the document is hidden |
| Attempt.Session.PreventsCopy | js/attempt.js:245-249 | the context menu and copying are blocked exactly while the watcher is installed, which is only during the live quiz |
| Create.CleanedAll | js/create.js:69-74 | each option field is trimmed and sanitised, in order |
| Create.ValidateQuestionOrder | js/create.js:68-97 | `ValidateQuestion`, the checks of `saveQuestion`, rejects blank text first, then a blank option, then a missing correct option; an accepted question is the cleaned form, non-empty, with no `<` or `>` in its text |
| Create.ValidateQuestionWellFormed | js/create.js:93-97 | with the radio values 0 to 3, an accepted question has non-empty text, four non-empty options and a correct index below four |
| Create.CorrectLabel | js/create.js:128 | the label is the letter `'A' + correctIndex` |
| Create.CorrectLabelsOfOptions | js/create.js:128 | the four options are labelled `A` to `D` |
| Create.CorrectLabelInjective | js/create.js:128 | distinct indices get distinct letters |
| Create.DurationSeconds | js/create.js:269 | the duration in seconds exceeds the minutes times 60, and divides back into the minutes with a 20-second remainder |
| Create.DurationSecondsInjective | js/create.js:269 | distinct minute counts give distinct durations |
| Create.CheckTestOrder | js/create.js:238-271 | `CheckTest`, the checks of `createTest`, rejects a blank title, then a blank description, then a duration that is not a positive number, then an empty list; an accepted payload carries the cleaned texts, the minutes as seconds plus 20, and the list as it is |
| Create.Editor.constructor | js/create.js:17-19 | the loaded page has no questions, is in adding mode and has no request running |
| Create.Editor.SaveQuestion | js/create.js:61-111 | a rejected form changes nothing; an accepted question is appended in adding mode or written at the edited index, and the form returns to adding mode; every entry stays well formed |
| Create.Editor.DeleteQuestion | js/create.js:188-201 | a confirmed delete splices out entry `i` and clears the cursor only when it was `i`, without shifting a higher one; an unconfirmed dialog changes nothing |
| Create.Editor.EditQuestion | js/create.js:156-174 | the editor switches to editing `i` exactly when entry `i` exists; a hole or an index past the end throws first and leaves the cursor |
| Create.Editor.ClearForm | js/create.js:207-225 | `clearForm` always returns to adding mode, changes nothing else and keeps every entry well formed |
| Create.Editor.EscapeKey | js/create.js:379-384 | the Escape key always leaves the editor in adding mode |
| Create.Editor.CreateTest | js/create.js:231-271 | while a request runs it returns at once; otherwise it yields the checks' outcome and raises the busy flag exactly when they pass |
| Create.Editor.CreateSettled | js/create.js:284-300 | the busy flag stays raised only after a successful creation, and is lowered after a reply that is not ok or a failure |
| Create.AssignKeepsWellFormed | js/create.js:100-102 | writing a well-formed question at any index keeps every entry well formed |
| Create.SaveShapes | js/create.js:100-107 | adding appends one entry and keeps the earlier ones; editing entry `k` changes only entry `k`, and changes the length only when `k` was past the end |
| Create.DeleteRemovesOne | js/create.js:192 | a confirmed delete removes exactly entry `i`, keeps the others in order, and loses nothing else |
| Create.SpliceKeepsWellFormed | js/create.js:192 | removing an entry keeps every entry well formed |
| Join.MatchCodeCharsIff | js/join.js:148 | the anchored matcher for `[A-Z0-9]{lo,hi}` accepts exactly the strings of that class with a length in range |
| Join.IsValidCodeIff | js/join.js:146-149 | `IsValidCode` (`isValidCode`) holds exactly when the trimmed, upper-cased code (in either order) is 3 to 10 letters and digits |
| Join.IsValidCodeIgnoresCaseAndSpace | js/join.js:146-149 | neither case nor surrounding whitespace changes whether a code is valid |
| Join.TrimCleaned | js/join.js:239-241 | a trimmed, sanitised field has nothing more to trim |
| Join.LimitOnCleaned | js/join.js:252-265 | the length limits apply to a non-blank field's sanitised length, which is its trimmed length when it has no escaped characters |
| Join.ReadCodeEmptyIff | js/join.js:37-47 | the code reads as empty exactly when its field is all whitespace |
| Join.ShapedCodeIsValid | js/join.js:37-52 | a code of the right shape is read unchanged (trimming, upper-casing and sanitising it give it back) and passes the format check |
| Join.ValidReadCodeHasShape | js/join.js:37-52 | a code that passes the format check is the trimmed, upper-cased field itself, of the right shape |
| Join.CheckCodeSound | js/join.js:37-52 | `CheckCode`, the checks of `verifyCode`, reports an empty code exactly for a blank field, and sends exactly the fields that trim and upper-case to 3 to 10 letters and digits, as that code |
| Join.CheckedCodeHasShape | js/join.js:49-61 | every code sent to the service has the shape of a quiz code |
| Join.PrefillPassesCheck | js/join.js:441-449 | a code pre-filled from the page's address passes the checks of `verifyCode` |
| Join.DecideProceedIff | js/join.js:74-103 | `Decide`, the reply handling both steps share: only an ok reply with status "created" or "allowed" proceeds; an ok "ended" reply is refused, an ok reply with any other status is unexpected, a reply that is not ok is an error, and a failed request is a connection error |
| Join.CheckParticipantOrder | js/join.js:239-265 | `CheckParticipant`, the checks of `joinQuiz`, reports an empty field first, then checks the name (50), roll number (20) and branch (50) limits in that order; an accepted participant is the cleaned fields, within the limits |
| Join.JoinerRecordFields | js/join.js:305-310 | the stored code is the verified code, and the stored name, roll number and branch each equal the checked (cleaned) value exactly when it has no characters that sanitising rewrites |
| Join.SanitizeFixedIff | js/join.js:118-122 | sanitising leaves a string unchanged exactly when it has no `&`, no-break space, `<` or `>` |
| Join.JoinFlow.constructor | js/join.js:10-11 | the loaded page has no verified code and no stored record |
| Join.JoinFlow.BackToStep1 | js/join.js:24-29 | `backToStep1` always forgets the verified code |
| Join.JoinFlow.VerifyCode | js/join.js:35-110 | a code that fails the checks changes nothing; otherwise the reply is decided, and the code is verified exactly when the reply proceeds; a verified code always has the shape of a quiz code |
| Join.JoinFlow.JoinQuiz | js/join.js:223-331 | without a verified code it refuses and goes back to step one; once a code is verified, rejected fields leave the record unchanged, and the joiner record is stored exactly when every check passes and the reply proceeds |
| QuizDetails.Medal | js/test.js:239-240 | positions 0, 1 and 2 get the gold, silver and bronze medal, and position `i` from 3 on gets `i + 1` followed by a dot |
| QuizDetails.MedalInjective | js/test.js:239-240 | distinct positions get distinct labels |
| QuizDetails.LeaderRows | js/test.js:237-248 | one leaderboard row per entry, in order, each built from its entry and position |
| QuizDetails.ParticipantRows | js/test.js:196-205 | one participants row per entry, in order, each built from its entry |
| QuizDetails.LeaderboardShape | js/test.js:217-254 | `Leaderboard`: a missing or empty list gives only "No results yet"; otherwise one row per entry with its medal or rank, escaped name and score |
| QuizDetails.ParticipantsShape | js/test.js:176-211 | `Participants`: a missing or empty list gives only "No participants yet"; otherwise one row per entry with its escaped name, escaped roll number and score |
| QuizDetails.RowNamesFaithful | js/test.js:200-243 | each row's name decodes back to the name received and contains no `<` |
| QuizDetails.LeaderLabelsDistinct | js/test.js:239-240 | no two rows of one leaderboard share a rank label |
| QuizDetails.SwitchTabDispatch | js/test.js:377-396 | `SwitchTab` (`switchTab`) runs exactly the loader named by "participants", "leaderboard" or "summary", and no loader for any other name |
| Auth.AllPlain | js/script.js:59 | the scan holds exactly when no character is whitespace or `@` |
| Auth.IndexOf | js/script.js:59 | the scan finds the first occurrence of a character, or reports that there is none |
| Auth.IsValidEmailIff | js/script.js:59-60 | `IsValidEmail`, the address check, accepts exactly the strings matching `^[^\s@]+@[^\s@]+\.[^\s@]+$` |
| Auth.EmailAccepted | js/script.js:59 | example only: the one address `a@b.c` is accepted |
| Auth.EmailRejected | js/script.js:123 | examples only: the two addresses `ada@host` (no dot after the `@`) and `a@@b.c` (a second `@`) are rejected |
| Auth.ValidateLoginOrder | js/script.js:49-64 | `ValidateLogin`, the checks of `login`, reports a blank field before checking the e-mail, never checks the password's length, and sends only the trimmed, matching pair |
| Auth.ValidateRegisterOrder | js/script.js:112-135 | `ValidateRegister`, the checks of `registerUser`, rejects blank fields, then a malformed e-mail, then a trimmed password shorter than six characters; it sends the trimmed fields |
| Auth.PasswordBoundary | js/script.js:131-135 | examples only: the six-character password `secret` is accepted and the five-character `short` is rejected |
| Auth.SwitchAuthShows | js/script.js:21-34 | `SwitchAuth`: the login form is shown exactly for "login" and the registration form exactly for "register", the tabs follow, any other name hides both, and without both forms nothing happens |
| Auth.ShouldRedirectIff | js/script.js:178-185 | `ShouldRedirect`: the page redirects exactly when a non-empty token is stored and "auth.html" occurs in the path |
| Auth.RedirectExamples | js/script.js:182-184 | examples only: on `/auth.html` the token `t0k` redirects, while no token or an empty one does not |

## Left out

- Network: every request, reply and JSON parse. A reply is a parameter: an ok flag and a status or list, or resolved/rejected for the submit request.
- Presentation: document writes, markup templates, styles, `render`'s layout, `renderQuestions`, and the alert, message, notification and confirm-dialog helpers. Dialog answers are boolean parameters.
- Real timers and concurrency: intervals, timeouts and the wall clock. Time is an integer parameter in milliseconds, and each poll or tick is a call.
  - The poll can overlap a slow request, which is not modelled.
  - The attempt page's events require the quiz screen, so the window in which a pending submit request could be re-entered is not modelled.
- Floating point: the progress-bar percentage, the summary average and fractional minutes. `Create.CheckTest` takes the duration as an integer number of minutes, or none when the field is not a number.
- Storage, navigation and clipboard: local storage is a flag (`joinerStored`) or a field (`joiner`). Redirects and copying are not modelled, which includes the attempt and details pages' redirects when their parameters are missing.
- js/profile.js and js/dashboard.js are not part of this model: they only fetch and render.
- The quiz-details page's `loadQuiz`, `loadSummary`, `startQuiz`, `deleteQuiz`, `copyText` and notifications are request-and-render glue without decisions of their own and are not modelled.
- Unicode: `trim` and `\s` are a fixed whitespace set (ASCII whitespace, no-break space, line and paragraph separators, byte-order mark), and `toUpperCase` changes ASCII letters only.
- String lengths are counted in Unicode scalar values, not in the UTF-16 code units a script counts; the two agree for text without astral characters.
- `sanitizeText` on the attempt page is the identity on strings, and the question and option texts it displays are not modelled.
- The early returns of `login` and `registerUser` when an input element is missing from the document are not modelled, and neither is the throw of `switchAuth` when a tab element is missing.
- `verifyCode` and `joinQuiz` after the decision: the button state, the delayed screen switch and the delayed redirect are presentation.
- Attempt.Session.Poll: the end time is an integer number of milliseconds; an end time that does not parse as a date is not modelled.
- Attempt.CountdownText: the countdown element is modelled by the milliseconds left at the last draw (`timerLeft`), from which the displayed text is computed.
- Create.CorrectLabel: requires an index below 26, the letters; the form only produces 0 to 3.
- Create.Editor.SaveQuestion: requires the checked radio button's value to be 0 to 3, the values the form's four radio buttons carry.
- Create.Editor.EditQuestion: only the cursor is modelled; loading the form's fields is a document write.
