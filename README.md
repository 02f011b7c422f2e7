# Contact form, FAQ accordion and page flags of the "Pro Váš Klid" site

This project models the client-side behaviour of the site's `script.js`:

- the contact form's field validator. A fixed rule table covers `name`, `email`,
  `phone`, `service` and `message`. The value is trimmed, and the checks run in
  the order required, minimum length, pattern. The first failure sets the
  group's `error` class and the error slot's text; a pass clears both;
- the blur and input re-validation handlers (an input event carries the edited value);
- the submit handler. It validates every field, with no short-circuit. It
  stops before the busy state when any field fails. Otherwise it marks the
  submit button busy (`disabled` plus `loading`) and sends one request. On an
  ok response it shows the success banner and resets the form. The busy
  state is cleared on every path;
- the FAQ accordion, an exclusive toggle over the items' `active` classes;
- the mobile navigation toggle and the header's `scrolled` flag.

Layout:

- `text.dfy` (module `Text`): the ECMAScript whitespace set, `trim`, counting and
  searching in strings.
- `patterns.dfy` (module `Patterns`): the e-mail and phone regular expressions.
  Each is given as a decision procedure (`IsEmail`, `IsPhone`) and as a
  reference definition shaped like the regex (`EmailRegex`, `PhoneRegex`),
  with lemmas proving that the two agree on every string.
- `rules.dfy` (module `Rules`): the rule table and the pure decision of
  `validateField`.
- `contact_form.dfy` (module `ContactForm`): class `Form`, holding the field list,
  the button's busy marks, the banner and a count of requests sent; its
  methods are the event handlers.
- `faq.dfy` (module `Faq`): class `Accordion` over an `array<bool>`.
- `page.dfy` (module `Page`): classes `MobileNav` and `Header`.

The network call is a parameter: `Outcome` is `Ok` (`response.ok`), `NotOk`
or `NetworkError` (an exception from `fetch`). The submit handler is split at
its `await`. `BeginSubmit` validates the fields, sets the busy marks and
sends. `FinishSubmit` handles the outcome and clears the busy marks.
`OnSubmit` runs both in turn.

## Model

| member | source | states |
|---|---|---|
| `Text.TrimStart` | script.js:113 | the result is no longer than the input and does not start with whitespace |
| `Text.TrimStartCuts` | script.js:113 | the leading-trim result is a suffix of the input and everything cut off is whitespace |
| `Text.TrimEnd` | script.js:113 | the result is no longer than the input, keeps its first character and does not end with whitespace |
| `Text.TrimEndCuts` | script.js:113 | the trailing-trim result is a prefix of the input and everything cut off is whitespace |
| `Text.Trim` | script.js:113 | `trim()` never lengthens the value, and its result neither starts nor ends with whitespace |
| `Text.TrimInfix` | script.js:113 | the trimmed value is the infix of the value that has only whitespace before and after it |
| `Text.TrimIdempotent` | script.js:113 | trimming an already trimmed value changes nothing |
| `Text.TrimEmptyIffWhitespace` | script.js:113 | a value trims to the empty string exactly when every character is whitespace, so `!fieldValue` means "blank" |
| `Text.Utf16Length` | script.js:131 | `.length` counts between one and two code units per character |
| `Text.Utf16LengthBmp` | script.js:131 | `.length` equals the number of characters iff every character lies in the Basic Multilingual Plane |
| `Text.Count` | script.js:92 | the number of occurrences of a character is at most the length |
| `Text.CountZero` | script.js:92 | the count is zero iff the character occurs nowhere |
| `Text.NoWhitespaceIff` | script.js:92 | the recursive no-whitespace test holds iff no character is whitespace (the `[^\s@]` classes) |
| `Text.IndexOf` | script.js:92 | the first occurrence of the character, or the length when there is none |
| `Text.CountOne` | script.js:92 | a character occurs exactly once iff it occurs at its first index and nowhere else |
| `Patterns.HasInnerDotIff` | script.js:92 | the domain test holds iff some `.` has at least one character on each side of it |
| `Patterns.IsEmailIffRegex` | script.js:92 | the e-mail decision (no whitespace, exactly one `@`, a non-empty local part, a `.` strictly inside the domain) accepts exactly what `^[^\s@]+@[^\s@]+\.[^\s@]+$` matches |
| `Patterns.EmailExamples` | script.js:92 | `a@b.co` matches the e-mail regex; `a@b` and `a.com` do not |
| `Patterns.FitsGroups` | script.js:97 | a string that fits a sequence of `[ ]?[0-9]{3}` groups passes the group decision |
| `Patterns.GroupsFit` | script.js:97 | a string that passes the group decision fits the groups, with the spaces it has |
| `Patterns.IsPhoneMatchesRegex` | script.js:97 | every value the phone decision accepts matches the phone regex |
| `Patterns.RegexMatchesIsPhone` | script.js:97 | every value the phone regex matches is accepted by the phone decision |
| `Patterns.IsPhoneIffRegex` | script.js:97 | the phone decision (optional `+420`, then three groups of three digits, each after an optional single space) accepts exactly what `^(\+420)?[ ]?[0-9]{3}[ ]?[0-9]{3}[ ]?[0-9]{3}$` matches |
| `Patterns.PhoneLength` | script.js:97 | every value the phone regex accepts has 9 to 16 characters |
| `Patterns.PhoneExamples` | script.js:97 | `+420 123 456 789`, `123456789`, `123 456 789` and `+420123456789` match the phone regex; `12345` does not |
| `Rules.Check` | script.js:125-142 | a rule's checks pass iff every part of the rule (required, minimum length in UTF-16 code units, pattern) holds of the trimmed value, and a failure carries exactly the rule's message |
| `Rules.ValidateValue` | script.js:112-114 | a field name without a rule passes; a failure belongs to a field with a rule and carries that rule's message |
| `Rules.AllRulesRequired` | script.js:84-109 | every rule of the table is required |
| `Rules.TrimmedValueDecides` | script.js:113 | surrounding whitespace never changes a field's verdict |
| `Rules.WhitespaceOnlyFails` | script.js:113-129 | a whitespace-only value fails every field that has a rule, with that field's own message |
| `Rules.NameField` | script.js:85-89 | `name` passes iff its trimmed value is at least 2 UTF-16 code units long, else fails with the name message |
| `Rules.EmailField` | script.js:90-94 | `email` passes iff its trimmed value matches the e-mail regex, else fails with the e-mail message |
| `Rules.PhoneField` | script.js:95-99 | `phone` passes iff its trimmed value matches the phone regex, else fails with the phone message |
| `Rules.ServiceField` | script.js:100-103 | `service` passes iff it is not blank, else fails with the service message |
| `Rules.MessageField` | script.js:104-108 | `message` passes iff its trimmed value is at least 10 UTF-16 code units long, else fails with the message-field message |
| `Rules.NameLengthInCodeUnits` | script.js:131 | lengths are `.length`, in UTF-16 code units: a single character outside the Basic Multilingual Plane is a long enough name, a single one inside it is not |
| `Rules.MinLengthThreshold` | script.js:131-135 | for a field with a minimum length, a value one UTF-16 code unit short of it fails and a value exactly at it passes |
| `ContactForm.Revalidated` | script.js:115-143 | without a group or an error slot the field is left as it was; otherwise its error flag is set iff validation fails, and its message is the rule's message on failure and empty on a pass; name and value are never touched |
| `ContactForm.RevalidatedIdempotent` | script.js:111-144 | validating a field a second time changes nothing more |
| `ContactForm.ErrorMeansRuleFailed` | script.js:118-141 | a field shown in error after validation has a group, an error slot and a rule, its value failed the rule, and it shows that rule's message |
| `ContactForm.AllPassIff` | script.js:164-169 | `AllPass`, the flag the validation loop accumulates, is true iff every field passes |
| `ContactForm.Form.ValidateField` | script.js:111-144 | returns whether the field passes, and leaves exactly that field revalidated, every other field untouched |
| `ContactForm.Form.OnInput` | script.js:150-155 | an input event first writes the edited value; when the group is in error the field is then revalidated, so its error stays iff the new value fails; otherwise only the value changes |
| `ContactForm.Form.ValidateAll` | script.js:164-169 | every field is revalidated, none skipped after a failure, and the result is `AllPass` of the fields before, that is, true iff all pass |
| `ContactForm.Form.FirstError` | script.js:172 | the first field, in document order, whose group is in error, or none when no group is |
| `ContactForm.Form.BeginSubmit` | script.js:163-181 | the result is `AllPass` of the fields before; when some field fails: the busy marks are untouched, nothing is sent, and the first field in error is the scroll target; when all pass: no field is in error, the button is busy and exactly one request is sent |
| `ContactForm.Form.FinishSubmit` | script.js:194-216 | on an ok response the banner is shown and the values reset; on any other outcome the values and banner stay; the busy marks are cleared on every path |
| `ContactForm.Form.OnSubmit` | script.js:160-217 | the form is sent iff every field passes (`AllPass` of the fields before); a request is sent only then; the busy marks end cleared after a send; values are reset and the banner shown only on an ok response |
| `Faq.AtMostOneOpen` | script.js:68-75 | items closed everywhere except at one position hold at most one open item, and exactly one iff that one is open |
| `Faq.ClickLeavesAtMostOneOpen` | script.js:62-77 | after a click on item i, item i is open iff it was closed before, every other item is closed, and so at most one item is open |
| `Faq.ClickOnOpenClosesAll` | script.js:65-75 | clicking the open item closes the whole accordion |
| `Faq.Accordion.Click` | script.js:62-77 | the items after the click are exactly the exclusive-toggle result, and at most one is open |
| `Page.MobileNav.ToggleClick` | script.js:6-12 | the toggle flips the menu, and the page scroll is locked exactly while the menu is open |
| `Page.MobileNav.LinkClick` | script.js:14-22 | a link click closes the menu and unlocks the page scroll (when the page has a toggle) |
| `Page.Header.OnScroll` | script.js:47-57 | the header is `scrolled` iff the page offset exceeds 100, whatever it was before |

## Left out

- The request itself: `FormData`, `fetch`, the form's `action` URL and the `Accept` header. Only the number of requests sent and their outcome are modelled.
- `alert` and `console.error` on a failed submission, and the `console.log` banner at the end of the file. These are output only.
- The `setTimeout` that hides the success banner after 8 seconds. It is a timer callback, so the model only shows the banner on success.
- `scrollIntoView` and smooth anchor scrolling. These are browser geometry over floating-point offsets. `FirstError` gives the field that would be scrolled to.
- The IntersectionObserver reveal animations. These are floating-point thresholds, styles and browser callbacks.
- The unused `lastScroll` variable.
- The JavaScript regex engine. The two patterns are hand-written predicates, proved equal to regex-shaped reference definitions.
- Page.Header.OnScroll: the page offset is an integer here. In the browser it is a floating-point number.
- Each field is assumed to have its own `.form-group`. Fields sharing one group, and the order of groups outside the field list, are not modelled.
- When the page has a `.nav-toggle` but no `.nav`, the handler throws. This is not modelled: a toggle is taken to come with its menu.
- ContactForm.Form.OnSubmit: events that arrive while the request is in flight are not interleaved. Their effect is only reachable by calling `BeginSubmit` and `FinishSubmit` separately.
- `form.reset()` also resets the hidden `_gotcha` input, which is not in the field list, and it is modelled as restoring each field's default value.
