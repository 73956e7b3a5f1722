# stemulateprogram.com, modelled in Dafny

This project models the logic of the STEMulate programme's website and of its
automation scripts:

- the application form (word counting, field validation, the capped "fields
  of interest" toggle, whole-form validation and the submit decision);
- the two email one-time-password sign-in components: the current
  `useAuthFlow` hook and the older inline `AuthSection`;
- the two deadline countdowns of the landing pages (time left, zero padding,
  the "deadline passed" condition and the fixed June deadline);
- the resend cool-down hook `useCountdown`;
- the word chunking of `StaggerText` and the two-row split of the research
  areas marquee;
- the applications-to-Google-Sheets transfer: `createdBy` replaced by the
  creator's email, the sheet's column order, the sort by `id`, the blanking of
  missing values and the header row;
- the parsing of the school contact list and of the info-session recipient
  list in the mail scripts, together with their sending loops.

Every call to a service the program does not own is a parameter of the
model. This covers Supabase `signInWithOtp`, `verifyOtp`, `insert` and
`get_user_by_id`, the hCaptcha widget, SMTP and gspread.
- An awaited Supabase call is an `Outcome`: it resolves with no error, it
  resolves with an error code and message, or it throws.
- A user lookup is a `UserLookup` function.
- The clock is a millisecond `now`.
- A file's contents are a string.
- The rows of a CSV reader are a sequence.

State that the source updates in place is a Dafny `class`:
- the form's React state;
- the nine state variables of each sign-in component;
- the timer hooks.

Each handler is a method. Its `ensures` gives the whole new state. The
request it sends to the service is its out-parameter, with `None` when no
call is made. Pure computations are functions, and lemmas state what they
promise. The mail scripts' dictionaries are association lists (`OrderedDict`),
because Python dicts keep insertion order and re-assignment keeps a key in
place.

As for the files:
- Each source file has a module of its own.
- `Strings` holds JavaScript `trim`, Python `strip`, `split` and `join`.
- `OrderedDict` holds the Python dict.
- `Services` holds `Option` and `Outcome`.
- `Otp` holds the constants the two sign-in components share.
- `Arithmetic` holds a few facts about division.

An empty `motivation` has zero words and so fails its 100..150 rule
(`ApplicationForm.EmptyMotivationIsError`). The form has no draft and no
activity list, and `financialAid` is a string.

## Model

| member | source | states |
|---|---|---|
| ApplicationForm.EmptyForm | src/components/application/application-form.tsx:67-85 | the initial record: every string field is empty and no interest is chosen |
| ApplicationForm.Set | src/components/application/application-form.tsx:123 | `{...prev, [name]: value}`: the named field has the new value, every other field and the interest list are unchanged |
| ApplicationForm.KeyOrderIsComplete | src/components/application/form.ts:1-19 | the entries `validateAll` visits are all and only the seventeen properties of `FormDataType`, each under a name of its own |
| ApplicationForm.SplitOnWhitespaceRuns | src/components/application/application-form.tsx:96 | the split on `/\s+/` gives at least one piece, and the first is empty exactly when the text is empty or starts with white space |
| ApplicationForm.NonEmpty | src/components/application/application-form.tsx:96 | `.filter(Boolean)` keeps exactly the non-empty pieces and never adds one |
| ApplicationForm.NonEmptySplitCountsRuns | src/components/application/application-form.tsx:96 | the non-empty pieces of the split are as many as the maximal runs of non-white-space characters |
| ApplicationForm.WordEndsTrim | src/components/application/application-form.tsx:96 | trimming the text first does not change its number of runs |
| ApplicationForm.CountWordsCountsRuns | src/components/application/application-form.tsx:95-96 | `countWords` equals the number of maximal non-white-space runs in the text |
| ApplicationForm.CountWordsZero | src/components/application/application-form.tsx:95-96 | `countWords` is 0 exactly when the text is empty or white space only |
| ApplicationForm.AddressMatches | src/components/application/application-form.tsx:106 | `local@domain.tld`, with three non-empty parts free of white space, matches `/\S+@\S+\.\S+/` |
| ApplicationForm.MatchNeedsAtThenDot | src/components/application/application-form.tsx:106 | a text that matches the email pattern has an `@` with a `.` after it |
| ApplicationForm.EmailExamples | src/components/application/application-form.tsx:106 | `a@b.com` matches the pattern and `not-an-email` does not |
| ApplicationForm.ValidateField | src/components/application/application-form.tsx:98-117 | an empty value gives "This field is required." for the five required names. A non-empty email is valid exactly when it matches the pattern, and otherwise gets "Invalid email format.". Motivation is valid exactly for 100..150 words. Research interest is valid exactly up to 300 words. Any other name never errs. The other required fields err exactly when empty |
| ApplicationForm.EmptyMotivationIsError | src/components/application/application-form.tsx:112-115 | an empty motivation gets "Should be 100-150 words." |
| ApplicationForm.Without | src/components/application/application-form.tsx:132 | `filter(item => item !== value)` drops every copy of the value and keeps every other element as often as it occurred |
| ApplicationForm.WithoutAbsent | src/components/application/application-form.tsx:132 | filtering out a value the list does not hold leaves the list as it is |
| ApplicationForm.WithoutConcat | src/components/application/application-form.tsx:132 | the filter works element by element, so it keeps the order of what remains: filtering a concatenation filters each part |
| ApplicationForm.ToggleInterest | src/components/application/application-form.tsx:127-135 | a present value is removed: the result is the list filtered by `Without`, in order. An absent value is appended when there is room; on a full list the list is cut back to three. The value ends up in the list exactly when it was absent and there was room. A list of at most three stays at most three |
| ApplicationForm.ToggleFullListUnchanged | src/components/application/application-form.tsx:131-133 | toggling a new value on a full list of three leaves the list unchanged |
| ApplicationForm.ToggleTwice | src/components/application/application-form.tsx:131-133 | toggling the same new value twice, on a list with room, gives the list back |
| ApplicationForm.WithoutAppended | src/components/application/application-form.tsx:132-133 | removing a just-appended value gives the list it was appended to |
| ApplicationForm.HasErrorsInField | src/components/application/application-form.tsx:146-152 | an error in the record is a string field failing `validateField` (the interest list has no rule) |
| ApplicationForm.ErrorsForSnoc | src/components/application/application-form.tsx:148-150 | one more turn of `forEach` sets that key's entry and leaves the others |
| ApplicationForm.ErrorMapEntries | src/components/application/application-form.tsx:147-150 | the error record has an entry for every property, holding that property's validation message |
| ApplicationForm.ErrorMapReportsErrors | src/components/application/application-form.tsx:152 | `Object.values(errors).some(Boolean)` holds exactly when some field fails its rule |
| ApplicationForm.ComputeErrors | src/components/application/application-form.tsx:147-152 | the loop builds the record of one validation message per property, and its flag is true exactly when some field has an error |
| ApplicationForm.EmptyRequiredFieldFails | src/components/application/application-form.tsx:100-105 | a form with an empty required field has an error, so it is not submitted |
| ApplicationForm.ApplicationFormState.constructor | src/components/application/application-form.tsx:67-93 | empty record, no errors, all three dialogs closed, empty submission message |
| ApplicationForm.ApplicationFormState.HandleChange | src/components/application/application-form.tsx:119-125 | only the named field and its own error entry change; the entry is that field's validation message; the other errors, fields and dialog flags are unchanged |
| ApplicationForm.ApplicationFormState.HandleMultiSelectChange | src/components/application/application-form.tsx:127-135 | the interest list becomes its toggle with the value; every other field is unchanged; the three-entry bound is kept |
| ApplicationForm.ApplicationFormState.HandleSelectChange | src/components/application/application-form.tsx:137-144 | the field takes the value, and the financial-aid dialog opens when "yes" is chosen for financial aid. Otherwise the dialog flag keeps its value |
| ApplicationForm.ApplicationFormState.ValidateAll | src/components/application/application-form.tsx:146-153 | the errors become the full error record of the current data, and the result is true exactly when some field has an error |
| ApplicationForm.ApplicationFormState.HandleSubmit | src/components/application/application-form.tsx:155-188 | an invalid form: no insert, the data kept, "Please correct the errors before submitting." in an open error dialog. An insert error: the data kept and `error.message` verbatim in an open error dialog. Success: the record reset to the empty defaults and the success dialog open. A thrown insert changes nothing more |
| AuthFlow.SendErrorMessage | src/components/application/auth/use-auth-flow.tsx:41-60 | `validation_failed`, `over_email_send_rate_limit` and `otp_disabled` each map to their fixed message. For `otp_disabled` that is "Account with such email doesn't exist." when signing in and "OTP disabled for this email." otherwise. Any other code maps to the generic message, and no message is empty |
| AuthFlow.VerifyOutcomeMessage | src/components/application/auth/use-auth-flow.tsx:94-110 | no message exactly on success. `otp_expired` or `invalid_token` give the expired-code message, other codes the generic one, and a throw the unexpected-error message |
| AuthFlow.AuthFlowState.constructor | src/components/application/auth/use-auth-flow.tsx:5-15 | all nine state variables start at their initial values |
| AuthFlow.AuthFlowState.HandleSendOtp | src/components/application/auth/use-auth-flow.tsx:17-76 | both errors are cleared first. An empty email stops with "Email address is required." and no call; a missing captcha stops with the captcha message and no call. `isCodeSent` is unchanged in both cases. Otherwise the call carries the email, the redirect, `shouldCreateUser` and the token, and `sendingOtp` is false once it settles. Success sets `isCodeSent`. An error's message goes to `sendCodeError` before a code was sent and to `verifyCodeError` after. A throw sets the unexpected-error message. An enabled send button always leads to a call |
| AuthFlow.AuthFlowState.HandleVerifyCode | src/components/application/auth/use-auth-flow.tsx:78-114 | a code whose length is not 6 stops with "Please enter a 6-digit code." and no call. Otherwise `verifyOtp` gets the email, the code and type "email", `verifyCodeError` is the outcome's message and `verifyingOtp` ends false |
| AuthFlow.AuthFlowState.ResetAuthFlow | src/components/application/auth/use-auth-flow.tsx:116-126 | all nine state variables are back at their initial values |
| LegacyAuthSection.CurrentView | src/components/application/auth-section.tsx:114-140 | the code screen exactly when a code was sent; otherwise the choice while no mode is chosen, then the sign-in or the sign-up form |
| LegacyAuthSection.SendErrorMessage | src/components/application/auth-section.tsx:53-74 | each of the three known codes maps to its message, `otp_disabled` to "Account with such email doesn't exist." whatever the mode, and anything else to the generic message |
| LegacyAuthSection.ShownOnCodeScreen | src/components/application/auth-section.tsx:53-74 | an error goes to `verifyCodeError` exactly when a code was sent and the code is not `validation_failed` |
| LegacyAuthSection.VerifyOutcomeMessage | src/components/application/auth-section.tsx:98-106 | a message is always set; it is the expired-code one exactly when the error code is `otp_expired` |
| LegacyAuthSection.SuccessfulVerifyShowsError | src/components/application/auth-section.tsx:98-104 | a verification that succeeds leaves "Something went wrong, please try again." |
| LegacyAuthSection.AuthSectionState.constructor | src/components/application/auth-section.tsx:23-33 | initial values, a `null` captcha token, and the choice screen |
| LegacyAuthSection.AuthSectionState.Choose | src/components/application/auth-section.tsx:123-138 | the Login and Sign up buttons set the mode and show its form |
| LegacyAuthSection.AuthSectionState.HandleSendOtp | src/components/application/auth-section.tsx:35-82 | an empty email changes nothing at all. A missing or empty captcha token sets the captcha message and makes no call. Otherwise the call is made and `sendingOtp` ends false. Success sets `isCodeSent`. The error message is routed by `ShownOnCodeScreen`. A throw sets the generic `sendCodeError` |
| LegacyAuthSection.AuthSectionState.HandleVerifyCode | src/components/application/auth-section.tsx:84-110 | a code whose length is not 6 sets the length message with no call. After a call, `verifyCodeError` is the as-written outcome message, which is never empty, and `verifyingOtp` is false |
| LegacyAuthSection.AuthSectionState.GoBackFromForm | src/components/application/auth-section.tsx:171 | "Go back" on a form clears the mode and shows the choice screen |
| LegacyAuthSection.AuthSectionState.GoBackFromCode | src/components/application/auth-section.tsx:276-280 | "Go back" on the code screen clears the mode and `isCodeSent`, keeps email and code, and shows the choice screen |
| CountdownMath.CalculateTimeLeft | src/components/landing/deadline-countdown.tsx:31-49 | a difference of 0 or less gives all zeros; hours < 24, minutes < 60 and seconds < 60 always |
| CountdownMath.RecomposesToSeconds | src/components/landing/deadline-countdown.tsx:44-47 | for a positive difference, days·86400 + hours·3600 + minutes·60 + seconds is the number of whole seconds left |
| CountdownMath.PassedWithinLastMinute | src/components/landing/deadline-countdown.tsx:75 | the passed view shows exactly when less than a minute is left, so up to 59 seconds before the deadline |
| CountdownMath.PassedStaysPassed | src/components/landing/deadline-countdown.tsx:75 | once the passed view shows, it shows at every later time |
| CountdownMath.Decimal | src/components/landing/deadline-countdown.tsx:16 | the numeral of a value is non-empty, all digits, and has no leading zero above 9 |
| CountdownMath.ParseDecimalOfDecimal | src/components/landing/deadline-countdown.tsx:16 | the numeral reads back as the value |
| CountdownMath.Pad | src/components/landing/deadline-countdown.tsx:16 | at least two characters; it starts with "0" exactly for values below 10; values from 10 up show unchanged |
| CountdownMath.PadReadsBack | src/components/landing/deadline-countdown.tsx:16 | the padded text reads back as the value |
| CountdownMath.TwoDigitsBelowHundred | src/components/landing/deadline-countdown.tsx:16 | values below 100 show as exactly two characters |
| CountdownMath.ClockComponentsShowTwoDigits | src/components/landing/deadline-countdown.tsx:45-47 | hours, minutes and seconds always show as two digits |
| DeadlineCountdown.DeadlineCountdownView.constructor | src/components/landing/deadline-countdown.tsx:62 | the first state is the time left at mount |
| DeadlineCountdown.DeadlineCountdownView.Tick | src/components/landing/deadline-countdown.tsx:64-67 | each interval firing replaces the state by the time left now |
| DeadlineCountdown.DeadlineCountdownView.UnitTexts | src/components/landing/deadline-countdown.tsx:16 | four unit texts, each at least two characters |
| LandingCountdown.DaysFromCivilCounts | src/components/landing/countdown.tsx:6 | the day count that `new Date(...)` rests on is 0 at 1970-01-01 and steps by one per day within a month |
| LandingCountdown.MonthLength | src/components/landing/countdown.tsx:6 | months have 28 to 31 days, and February has 29 exactly in a Gregorian leap year |
| LandingCountdown.YearLength | src/components/landing/countdown.tsx:6 | from one 1 March to the next there are 366 days when the February between is a leap one, 365 otherwise |
| LandingCountdown.MonthEnds | src/components/landing/countdown.tsx:6 | the day after the last day of a month, by the Gregorian month lengths, is the first of the next month, and 31 December is followed by 1 January of the next year |
| LandingCountdown.KnownDates | src/components/landing/countdown.tsx:6 | three fixed dates get their known day numbers: 2000-03-01 is 11017, 2024-02-29 is 19782 and 1969-12-31 is -1 |
| LandingCountdown.TargetMs | src/components/landing/countdown.tsx:6 | the target is one second before local midnight at the end of month index 5, day 19, of the current year: 23:59:59 on June 19th |
| LandingCountdown.LandingCountdownView.constructor | src/components/landing/countdown.tsx:6-7 | the target is fixed from the current year, and the first state is the time left to it |
| LandingCountdown.LandingCountdownView.Tick | src/components/landing/countdown.tsx:29-32 | each firing replaces the state by the time left now |
| LandingCountdown.PassedFromLastMinute | src/components/landing/countdown.tsx:40 | the passed message shows exactly from one minute before the target on |
| ResendCountdown.Step | src/hooks/use-countdown.ts:10-19 | an inactive timer is unchanged. An active one never goes below 0 and strictly decreases while positive. An active count at 0 or below becomes 0. It stays active exactly when the count was above 1 |
| ResendCountdown.CountsDown | src/hooks/use-countdown.ts:18 | started at n, after k < n ticks it shows n − k and is still active |
| ResendCountdown.StopsAtZero | src/hooks/use-countdown.ts:13-17 | started at n ≥ 1, after n ticks or more it is at 0 and inactive |
| ResendCountdown.StaysStopped | src/hooks/use-countdown.ts:10-21 | an inactive timer never changes, however many ticks |
| ResendCountdown.CountdownHook.constructor | src/hooks/use-countdown.ts:3-5 | the count starts at `initialTime` (60 by default), inactive |
| ResendCountdown.CountdownHook.Tick | src/hooks/use-countdown.ts:10-21 | one second passing applies one `Step` to the count and the flag |
| ResendCountdown.CountdownHook.StartCountdown | src/hooks/use-countdown.ts:26-29 | the count goes back to `initialTime` and the timer is active, whatever it was before |
| StaggerText.Chunk | src/components/landing/animated-text.tsx:15-19 | the chunks are the words grouped by `chunkSize`, each group joined with spaces. There are ⌈words/chunkSize⌉ of them. Joined with " " they give the text back, and with size 1 they are the words |
| StaggerText.NextChunk | src/components/landing/animated-text.tsx:17-18 | one turn of the loop: the chunk at position i is `words[i..i+size]` joined, followed by the chunks from i + size |
| StaggerText.ChunksOfText | src/components/landing/animated-text.tsx:15-19 | the chunks of a text number ⌈words/size⌉ and join back to the text |
| StaggerText.GroupsCount | src/components/landing/animated-text.tsx:17 | there are ⌈n/size⌉ groups |
| StaggerText.GroupSizes | src/components/landing/animated-text.tsx:17-18 | every group but the last has exactly `size` words, and the last has 1 to `size` |
| StaggerText.GroupsJoin | src/components/landing/animated-text.tsx:18 | joining each group and then all of them gives the words joined |
| StaggerText.SingleWordChunks | src/components/landing/animated-text.tsx:13-19 | with the default size 1 the chunks are the words |
| ResearchAreasMarquee.SplitRows | src/components/landing/research-areas-marquee.tsx:6-8 | the two rows concatenate to the areas; the first has ⌈n/2⌉ of them and is at most one longer than the second; no areas give two empty rows |
| GoogleSheets.Present | automation/google_sheets.py:109 | the comprehension keeps exactly the desired columns that the frame has, without repeats when the desired list has none |
| GoogleSheets.Without | automation/google_sheets.py:114-116 | the columns not in the excluded list, in their order, and only those |
| GoogleSheets.OrderColumns | automation/google_sheets.py:109-116 | the comprehension and the append loop compute `FinalColumns`. For distinct labels that is the desired columns present, in desired order, then the remaining columns in frame order. It is a permutation of the frame's columns |
| GoogleSheets.AppendMissingDistinct | automation/google_sheets.py:113-116 | over distinct columns, the append loop adds exactly the columns not already listed, in order |
| GoogleSheets.FinalColumnsShape | automation/google_sheets.py:109-116 | the final columns are the desired ones present, in desired order, followed by the others in frame order |
| GoogleSheets.FinalColumnsPermutation | automation/google_sheets.py:111-118 | the final columns are a permutation of the frame's: nothing lost, nothing duplicated |
| GoogleSheets.DesiredOrderDistinct | automation/google_sheets.py:100-106 | the sheet's 23 column names never repeat |
| GoogleSheets.IndexOf | automation/google_sheets.py:118 | a label is found exactly when the frame has it, at its first position |
| GoogleSheets.SetColumn | automation/google_sheets.py:94-96 | `df[name] = cells`: the frame keeps its shape, the column holds the new cells, and every other cell is unchanged |
| GoogleSheets.SetColumnLabels | automation/google_sheets.py:94-96 | `df[name] = cells` leaves the labels as they are when the column exists and adds `name` at the right otherwise |
| GoogleSheets.DropColumn | automation/google_sheets.py:97 | `drop(columns=[...])`: the column goes, and every other column keeps its cells |
| GoogleSheets.DropColumnLabels | automation/google_sheets.py:97 | after `drop(columns=[...])` the labels are the old ones, in order, without the one at `k` |
| GoogleSheets.Select | automation/google_sheets.py:118 | `df[order]`: the columns are `order`, and each cell under them is the one the frame had |
| GoogleSheets.LookupIds | automation/google_sheets.py:90 | the ids looked up are exactly the non-null `createdBy` values, each once |
| GoogleSheets.EmailText | automation/google_sheets.py:66-74 | a user's non-empty email is kept. An empty email gives "Email Not Found", a missing user "User Not Found" and a failed call "Error Fetching Email", so the text is never empty |
| GoogleSheets.UserEmailsById | automation/google_sheets.py:58-76 | the loop builds a map in which each id looked up has its result's text and no other key exists |
| GoogleSheets.UserEmailsDistinct | automation/google_sheets.py:63-76 | the map never repeats an id |
| GoogleSheets.UserEmailsLookup | automation/google_sheets.py:64-74 | the map gives an id the text for its lookup exactly when the id was looked up |
| GoogleSheets.EmailOfCreator | automation/google_sheets.py:90-96 | each row's new email is the text fetched for its `createdBy`, or "N/A" when that is missing |
| GoogleSheets.WithEmails | automation/google_sheets.py:94-97 | after the replacement, the columns are the old ones plus `email`, minus `createdBy`, and every other cell is unchanged |
| GoogleSheets.WithEmailsColumns | automation/google_sheets.py:94-97 | after the replacement, the labels are the old ones in order without `createdBy`, followed by `email` when the table had none |
| GoogleSheets.WithoutConcat | automation/google_sheets.py:114-116 | filtering a concatenation of labels filters each part |
| GoogleSheets.RemoveDistinct | automation/google_sheets.py:97 | in labels without repeats, dropping the label at `k` is filtering that label out |
| GoogleSheets.WithoutAbsent | automation/google_sheets.py:114-116 | filtering out labels that do not occur changes nothing |
| GoogleSheets.SetThenDrop | automation/google_sheets.py:94-97 | adding a missing label and then dropping another leaves the old labels in order without the dropped one, followed by the added one |
| GoogleSheets.WithoutTwice | automation/google_sheets.py:114-116 | filtering twice is filtering once by both lists |
| GoogleSheets.RestInTableOrder | automation/google_sheets.py:94-116 | the labels left after the sheet's own columns are the table's, in the table's order, without `createdBy` |
| GoogleSheets.WithEmailsEmail | automation/google_sheets.py:94-97 | after the replacement, each row's `email` is the email of its creator |
| GoogleSheets.InsertById | automation/google_sheets.py:121 | inserting a row adds exactly that row |
| GoogleSheets.InsertSorted | automation/google_sheets.py:121 | inserting into rows sorted by id keeps them sorted |
| GoogleSheets.SortById | automation/google_sheets.py:121 | the rows come out sorted by id, as a permutation of the rows given |
| GoogleSheets.SortFrame | automation/google_sheets.py:121 | `sort_values(by="id")`: same columns, the same rows permuted, ascending by id |
| GoogleSheets.FilledCells | automation/google_sheets.py:126-130 | blanking keeps the shape, leaves no missing value and keeps every present value |
| GoogleSheets.FillNulls | automation/google_sheets.py:126-130 | the loop over the columns computes the blanked frame |
| GoogleSheets.Ordered | automation/google_sheets.py:109-118 | the reordered frame has the final columns, the same labels as before, and the same cell under every label |
| GoogleSheets.TransferToSheet | automation/google_sheets.py:84-133 | the script's steps one after another, the frame rebound at each, compute `Transform` |
| GoogleSheets.TransferStops | automation/google_sheets.py:86-121 | nothing is written exactly for an empty table. A table without `createdBy`, or without `id`, stops at the step that needs that column. With both columns no column is missing |
| GoogleSheets.FinishStops | automation/google_sheets.py:121 | from the reordered frame, the transfer stops for a missing column exactly when `id` is absent |
| GoogleSheets.FinishWrites | automation/google_sheets.py:121-133 | what is written is the header and then one row per frame row, sorted by id, with no missing value |
| GoogleSheets.FinishRows | automation/google_sheets.py:121-133 | each written row is a row of the frame, blanked |
| GoogleSheets.FilledSorted | automation/google_sheets.py:121-130 | blanking keeps the rows in order of id |
| GoogleSheets.TransferWrites | automation/google_sheets.py:86-133 | the data written has one more row than the table. Its header is `createdBy` replaced by `email`, the sheet's columns first in the sheet's order and the rest in the order of the table's own labels, once each. The rows are sorted by id and hold no missing values |
| GoogleSheets.WrittenRow | automation/google_sheets.py:94-133 | every written row is one application of the table: under `email` its creator's email, under any other column its own cell, blanked |
| GoogleSheets.FinishRow | automation/google_sheets.py:121-133 | each written row holds, column by column, the blanked cells of one row of the reordered frame |
| GoogleSheets.OrderedEmailCell | automation/google_sheets.py:94-118 | through the replacement and the reordering, each row's `email` cell is its creator's email |
| GoogleSheets.OrderedOtherCell | automation/google_sheets.py:94-118 | through the replacement and the reordering, each row's other cells are unchanged |
| RecipientList.RowEntryShape | automation/mail/info_sess_link.py:214-216 | a row is skipped exactly when its email is empty or all white space. An entry's email is non-empty, and both it and the first name are stripped |
| RecipientList.LoadRecipientList | automation/mail/info_sess_link.py:208-219 | the loop assigns `email → first name` for every row with an email, in file order |
| RecipientList.RecipientEmails | automation/mail/info_sess_link.py:213-217 | the addresses of the result are exactly the stripped emails of the rows that have one |
| RecipientList.RecipientEmailsStripped | automation/mail/info_sess_link.py:214-217 | every address of the result is non-empty and stripped |
| RecipientList.RecipientsDistinct | automation/mail/info_sess_link.py:209-219 | each address appears once, at its first row's place, and there are no more recipients than rows |
| RecipientList.LastRowWins | automation/mail/info_sess_link.py:217 | for a repeated address the first name on its last row is kept |
| RecipientList.SendAll | automation/mail/info_sess_link.py:226-232 | one send per recipient, in the dict's order, whatever the sends raise; the failures reported are exactly the recipients whose send raised, in order |
| RecipientList.OneInvitationPerAddress | automation/mail/info_sess_link.py:217-226 | loading and then sending writes to each address exactly once |
| SchoolContacts.LineWithTab | automation/mail/for_schools.py:257-258 | a line contributes exactly when it still holds a tab after stripping, that is, when it has at least two fields |
| SchoolContacts.LineEntryStripped | automation/mail/for_schools.py:257-260 | the school and the email are stripped and hold no tab |
| SchoolContacts.LoadSchoolContacts | automation/mail/for_schools.py:249-263 | the text is stripped and cut into lines, and `contacts[email] = school` is assigned for every line with two fields or more, in file order |
| SchoolContacts.SchoolAndEmailOfLine | automation/mail/for_schools.py:257-261 | a line written as tab-joined fields yields its last field as the email and its first as the school, whatever lies between |
| SchoolContacts.ContactEmails | automation/mail/for_schools.py:256-263 | the emails of the result are exactly those of the lines that contribute |
| SchoolContacts.ContactsDistinct | automation/mail/for_schools.py:256-263 | every email is listed once, in the order of its first line, and there are no more contacts than lines |
| SchoolContacts.LastLineWins | automation/mail/for_schools.py:261 | for a repeated email the school on its last line is kept |
| SchoolContacts.SendAll | automation/mail/for_schools.py:268-273 | one send per contact, in the dict's order, whatever the sends raise; the failures reported are exactly the contacts whose send raised, in order |
| OrderedDict.FailedKeys | automation/mail/for_schools.py:268-273 | the keys reported as failed are exactly those of the entries whose send raised, and there are no more of them than entries |
| OrderedDict.Put | automation/mail/for_schools.py:261 | `d[k] = v`: an existing key keeps its place and a new key goes last; every other entry is unchanged |
| OrderedDict.PutDistinct | automation/mail/for_schools.py:261 | assignment never duplicates a key |
| OrderedDict.PutLookupSame | automation/mail/for_schools.py:261 | after `d[k] = v`, `k` has the value `v` |
| OrderedDict.PutLookupOther | automation/mail/for_schools.py:261 | after `d[k] = v`, every other key keeps its value |
| OrderedDict.FillFrom | automation/mail/for_schools.py:256-261 | the assigning loop over the items computes `Fill` |
| OrderedDict.FillDistinct | automation/mail/info_sess_link.py:213-217 | a dict filled by assignments never repeats a key |
| OrderedDict.FillKeyOrder | automation/mail/info_sess_link.py:213-217 | the keys of the filled dict are the assigned keys, each at its first assignment's place, and no more than the items |
| OrderedDict.FillLastWins | automation/mail/info_sess_link.py:217 | an assignment that no later one overrides decides its key's value |
| Strings.TrimIsStripped | automation/mail/for_schools.py:257 | after `strip()`, neither end is white space |
| Strings.TrimEmpty | automation/mail/info_sess_link.py:214-216 | `strip()` gives "" exactly for all-white-space text |
| Strings.TrimStrippedIsIdentity | automation/mail/for_schools.py:259-260 | stripping an already-stripped string changes nothing |
| Strings.SplitPieces | automation/mail/for_schools.py:257-258 | a split has at least two pieces exactly when the separator occurs |
| Strings.SplitJoin | automation/mail/for_schools.py:257 | splitting a join of separator-free pieces gives the pieces back |
| Strings.JoinSplit | src/components/landing/animated-text.tsx:15-18 | joining the pieces of a split gives the string back |

## Left out

- Every network and service call is a parameter and is not modelled as
  such: Supabase, hCaptcha, SMTP, gspread and Google credentials. That
  includes the fetch of the applications table
  (automation/google_sheets.py:40-55), the worksheet write and its error path
  (automation/google_sheets.py:135-145), the email HTML templates and the
  `print` output.
- Reading schools.txt and events.csv is left out. The file contents come in
  as a string, and the CSV reader's rows as a sequence of the two columns
  read. Two malformed inputs are not modelled, and both abort the run before
  any send. A header without one of the two columns raises `KeyError`. A
  short row gets `None` for its missing fields, and `.strip()` on `None`
  raises `AttributeError`.
- Timers, React re-rendering, effects and async interleaving are out. Each
  interval firing is an explicit `Tick`. Each awaited call is one step whose
  result is passed in, so the model has no state between the call and its
  settling other than the in-flight flag it asserts.
- The clock is an integer millisecond parameter. Local time is a fixed UTC
  offset, so daylight-saving changes are not modelled. Floating-point
  division is replaced by integer division, which agrees for positive
  differences.
- Strings are sequences of code points. JavaScript's UTF-16 `length` (the
  six-character code rule) agrees only for codes without astral
  characters.
- The regular expression `/\S+@\S+\.\S+/` is modelled by its meaning (an
  `@` and a later `.`, each with non-white-space around them), not by a
  regex engine.
- The input, captcha and OTP widgets are left out. Only the button-disable
  guards appear, as the predicates `SendEnabled` and `VerifyEnabled`.
- GoogleSheets: the data frame is a value. Each rebinding of
  `applications_df` is a new value, so pandas' in-place column assignment
  and aliasing are not modelled.
- GoogleSheets: a cell is missing, an integer or a text. Floats, NaN
  semantics and the stringifying of list, dict, set or tuple cells
  (automation/google_sheets.py:127-129) are not modelled; `fillna("")` is.
- GoogleSheets.Transform: ids that are not all integers give
  `IdsNotIntegers` instead of pandas' mixed-type sort. For equal ids the
  model fixes one order (insertion sort, stable), where pandas' default
  sort does not promise one.
- GoogleSheets.Transform: a table whose column labels repeat, or whose rows
  differ in length, is excluded by `WellFormed`. Frames built from database
  records always satisfy it.
- GoogleSheets.EmailText: a user whose email is `None` and one whose email
  is "" are the same case, an empty email.
- GoogleSheets.WrittenRow: traces every written row back to a row of the
  table. That the written rows are a permutation of the table's is stated for
  the sort (`SortFrame`), not restated for the written data.
- LandingCountdown.TargetMs: the proleptic Gregorian day count stands for
  `Date`'s calendar. Years outside `Date`'s range are not excluded.
- The recipient filter of the info-session script, the world maps, the
  country input and the static pages carry no logic of their own and are
  not part of this model.

## Findings

| source | as written | input that shows it | evidently intended | confidence | as-written member | corrected member |
|---|---|---|---|---|---|---|
| src/components/application/auth-section.tsx:98-104 | every settled `verifyOtp` whose error code is not `otp_expired` sets "Something went wrong, please try again.", including a call that returned no error | `verifyOtp` resolving with no error | a successful verification leaves no error, as `useAuthFlow` does (src/components/application/auth/use-auth-flow.tsx:94-106) | not executed | LegacyAuthSection.SuccessfulVerifyShowsError | AuthFlow.VerifyOutcomeMessage |
