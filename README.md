# Profile completion page, modelled in Dafny

This project models the profile-completion page of the mobile application, `app/auth/complete-profile.tsx`. The page does four things:

- **Load.** It fetches the signed-in user's profile. When the profile already has a first name, last name or email, it sends the user to the main tabs (`/(tabs)`). Otherwise it copies the profile into the editable draft.
- **Edit.** It lets the user edit the first name, the last name and the email.
- **Validate.** On submit it checks the email: an empty email is accepted; any other email must match `^[^\s@]+@[^\s@]+\.[^\s@]+$`.
- **Submit.** It sends the fields to the API, with empty strings sent as absent. On success it stores the returned profile in the auth state and then goes to the tabs.

The project has three files:

- `wrappers.dfy`: the `Option` type. It models a JavaScript field that may be missing.
- `email_validation.dfy` (module `EmailValidation`): `validateEmail`. The regular expression gets two declarative readings:
  - `RegexMatch` reads the pattern literally: three non-empty runs of `[^\s@]` characters, separated by `@` and `.`.
  - `WellFormedEmail` describes the same language field by field: no whitespace, exactly one `@`, a non-empty part before it, and a `.` inside the part after it that is neither that part's first nor its last character.

  The regex test itself is modelled by a finite automaton (`Step`, `Run`, `Matches`) that reads one character at a time. The contract of `Matches`, proved by the lemmas, says that the automaton, `RegexMatch` and `WellFormedEmail` accept exactly the same strings. `ValidateEmail` is defined through the automaton, and its contract is stated in terms of both declarative readings.
- `complete_profile.dfy` (module `CompleteProfile`): the profile datatypes, the completeness test, the update payload and the class `CompleteProfilePage`.
  - The class fields are the page's React state: `firstName`, `lastName`, `email`, `errors`, `loading` and `initialLoading`.
  - The ghost field `calls` records, in order, the calls to collaborators (`GetProfile`, `UpdateProfile(payload)`, `UpdateUser(user)`, `Replace(route)`) and every write of the loading flag (`SetLoading(on)`). The contracts can therefore say which calls happen while `loading` is raised.
  - Each awaited API call is one step. Its outcome (`Resolved(value)` or `Rejected`) is a parameter of the method that awaits it.
  - Two client methods, `BlankProfileScenario` and `InvalidEmailScenario`, run the methods in sequence and assert the calls they produce. They have no row in the table because they carry no `ensures`.

Three behaviours of the code that are easy to misread:

- **Fetch failure.** The form is not emptied. The draft keeps the values it was initialised with from the auth user (lines 13-15), because the `catch` only logs.
- **Email pattern.** A domain containing a `.` is not enough. The `.` must have at least one `[^\s@]` character on each side within the domain. A domain may itself begin with a `.`, so `a@..b` is accepted.
- **Submit failure.** A failed submit is only logged. No error field changes, and after `updateProfile` nothing further is called.

## Model

| member | source | states |
|---|---|---|
| EmailValidation.ValidateEmail | app/auth/complete-profile.tsx:48-53 | The result is either "" or the fixed message. It is "" exactly when the email is empty or matches the pattern, in both the literal-regex reading and the field-by-field reading. The empty string always gets "". |
| EmailValidation.Matches | app/auth/complete-profile.tsx:49 | The regex test, run as an automaton, accepts a string iff the string splits as local@middle.last with three non-empty runs of `[^\s@]`. Equivalently, iff it has no whitespace, exactly one `@` with a non-empty part before it, and a `.` after the `@` that is neither first nor last in the part after the `@`. |
| EmailValidation.Step | app/auth/complete-profile.tsx:49 | Reading one character: whitespace always leaves the language, an `@` is allowed only right after a non-empty local part, and any other `[^\s@]` character never leaves it. |
| EmailValidation.Run | app/auth/complete-profile.tsx:49 | Running the automaton over a string: once the input has left the language it never returns. |
| EmailValidation.AcceptsIffSplit | app/auth/complete-profile.tsx:49 | The automaton accepts exactly the strings that are a non-empty plain part, an `@`, and a domain matching `[^\s@]+\.[^\s@]+`. |
| EmailValidation.SplitIffRegex | app/auth/complete-profile.tsx:49 | A plain part, an `@` and such a domain is the same language as the literal regex split. |
| EmailValidation.SplitIffWellFormed | app/auth/complete-profile.tsx:49 | The same language equals the field-by-field description. |
| EmailValidation.RunInLocal | app/auth/complete-profile.tsx:49 | From the local-part state, the automaton accepts iff some `@` is preceded only by plain characters and followed by a valid domain. |
| EmailValidation.RunInDomain | app/auth/complete-profile.tsx:49 | Inside the domain, the automaton accepts iff the rest is plain and has a `.` before its last character. |
| EmailValidation.RejectsWithoutAt | app/auth/complete-profile.tsx:49-50 | A non-empty string without `@` gets the message. |
| EmailValidation.RejectsWithoutInnerDot | app/auth/complete-profile.tsx:49-50 | If the part after an `@` has no `.` strictly inside it, the string gets the message. This covers having no `.` after the `@` at all. |
| EmailValidation.RejectsWhitespace | app/auth/complete-profile.tsx:49-50 | A string containing a `\s` character gets the message. |
| EmailValidation.RejectsTwoAts | app/auth/complete-profile.tsx:49-50 | A string with two `@` gets the message. |
| EmailValidation.RejectsEmptyLocalPart | app/auth/complete-profile.tsx:49-50 | A string starting with `@` gets the message. |
| EmailValidation.RejectsDotRightAfterAt | app/auth/complete-profile.tsx:49-50 | `ali@.com` gets the message. |
| EmailValidation.RejectsTrailingDot | app/auth/complete-profile.tsx:49-50 | `ali@example.` gets the message. |
| EmailValidation.AcceptsLeadingDotInDomain | app/auth/complete-profile.tsx:49 | `a@..b` is accepted, because `[^\s@]` contains `.`. |
| EmailValidation.AcceptsExample | app/auth/complete-profile.tsx:49-52 | `ali@example.com` is accepted. |
| CompleteProfile.TextOf | app/auth/complete-profile.tsx:38-40 | The text of a field (the JavaScript `field` defaulting to '') is non-empty exactly when the field is present and non-empty, and is then the field's value. |
| CompleteProfile.OrAbsent | app/auth/complete-profile.tsx:74-76 | The payload field for `s` (`s` defaulting to undefined) is absent exactly when `s` is "", and otherwise carries `s` unchanged. |
| CompleteProfile.TextOfOrAbsent | app/auth/complete-profile.tsx:74-76 | Reading a payload field back gives the draft string. |
| CompleteProfile.IsComplete | app/auth/complete-profile.tsx:33 | A profile is complete iff the text of at least one of first name, last name or email is non-empty. |
| CompleteProfile.AuthFields | app/auth/complete-profile.tsx:13-15 | `user?.field` over the auth user: the user's own fields when someone is signed in, and otherwise three missing fields, which make an incomplete profile. |
| CompleteProfile.IncompleteIsBlank | app/auth/complete-profile.tsx:33-40 | A profile that fails the completeness test has "" as the text of all three fields. |
| CompleteProfile.Payload | app/auth/complete-profile.tsx:73-77 | Each payload field is absent exactly when its draft string is empty. Any other string, whitespace-only names included, is sent unchanged. |
| CompleteProfile.PayloadRoundTrip | app/auth/complete-profile.tsx:73-77 | The draft can be read back from the payload. The payload passes the completeness test iff some draft field is non-empty. |
| CompleteProfile.PayloadExample | app/auth/complete-profile.tsx:73-77 | For first name "Ali", last name "" and email "ali@example.com", the payload is {first name "Ali", email "ali@example.com"} with no last name, and the email passes validation. |
| CompleteProfile.CompleteProfilePage.constructor | app/auth/complete-profile.tsx:12-22 | Each draft field starts as the auth user's field, or '' when there is no user or no such field. There are no errors, `loading` is false, `initialLoading` is true, and nothing has been called yet. |
| CompleteProfile.CompleteProfilePage.CheckUserProfile | app/auth/complete-profile.tsx:28-46 | The profile is fetched. A complete profile leads to `replace('/(tabs)')` with the draft untouched. An incomplete profile overwrites the draft with its (empty) fields. A rejected fetch keeps the draft. `initialLoading` ends false in every case, and errors and `loading` are untouched. |
| CompleteProfile.CompleteProfilePage.SetFirstName | app/auth/complete-profile.tsx:117 | The first-name input sets the draft first name. |
| CompleteProfile.CompleteProfilePage.SetLastName | app/auth/complete-profile.tsx:126 | The last-name input sets the draft last name. |
| CompleteProfile.CompleteProfilePage.SetEmail | app/auth/complete-profile.tsx:135 | The email input sets the draft email. |
| CompleteProfile.CompleteProfilePage.HandleSubmit | app/auth/complete-profile.tsx:55-90 | The errors become {"", "", ValidateEmail(email)}, and the draft is unchanged. On an invalid email nothing is called and `loading` is never written. Otherwise the trace is `setLoading(true)`, `updateProfile(Payload(draft))`, then `updateUser(returned profile)` and `replace('/(tabs)')` when the update resolves, and finally `setLoading(false)`. When it rejects, `setLoading(false)` comes right after `updateProfile`. Both name errors stay "" and `loading` ends false. |

## Left out

- `navigation/RootNavigator.tsx` is not part of this model. It is a fixed, declarative list of five tab registrations with icons and localized titles, and has no behaviour beyond that constant.
- The JSX rendering, the spinner/form switch and the style sheet (lines 92-196) are user interface. The model keeps only the three `onChangeText` setters of the inputs.
- The internals of `api.user.getProfile`, `api.user.updateProfile`, `useAuth` and `expo-router` are foreign code. Their results are parameters, and calls to them are entries in the ghost `calls` trace.
- The `useEffect` that triggers the load step on mount is left out. `CheckUserProfile` is a method that the caller invokes after the constructor.
- Promise scheduling, React state batching and async interleaving are left out. Each `await` is one atomic step, so a second submit cannot start while one is pending. For that reason `HandleSubmit` requires the resting invariant `Valid()`, which includes `loading` being false.
- After `router.replace` the page is unmounted. The model does not forbid calling further methods on the object afterwards; the trace shows where the navigation happened.
- `console.error` logging (lines 42 and 85) is left out.
- `IsWs` is the ECMAScript set of WhiteSpace and LineTerminator code points, with the space separators listed as of current Unicode. The general lemmas depend only on `@` and `.` not being whitespace. The concrete examples (`AcceptsExample`, `AcceptsLeadingDotInDomain` and those built on them) also use the fact that their letters are not whitespace.
- A Dafny `char` is a Unicode scalar value, whereas a JavaScript regular expression without the `u` flag runs over UTF-16 code units. The two agree on well-formed strings, because both halves of a surrogate pair are in `[^\s@]`. A string with a lone surrogate cannot be represented.
- `updateUser` and `router.replace` are assumed never to throw. In the code, a throw at line 34, 80 or 83 would be caught by the surrounding `catch`, and a throw at line 80 would skip the `replace` at line 83.
