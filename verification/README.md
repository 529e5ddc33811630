# FocusBoard credential and session protocol, in Dafny

This project models how FocusBoard signs users up and in, and how it keeps their session. It covers both sides:

- the React sign-in page (`AuthPage.jsx`) as a state machine: field validation, edits, mode switching, submission and the handling of the reply;
- the dashboard's session guard, logout and bearer header (`Dashboard.jsx`);
- the hand-rolled JSON Web Tokens of `JwtUtil.java`: generation, username extraction, the expiry check and validation;
- sign-up and login in `UserService.java`, over an in-memory user store;
- the `"Error: "` envelope of `AuthController.java`;
- the role table of `TestController.java`.

Everything is pure functions over immutable records. The clock, HMAC-SHA256, JSON, the authentication manager and the password encoder are parameters.

The library behaviour the source relies on is modelled exactly, in separate modules, except where "## Left out" names a difference:

- `Text`: `indexOf`, JavaScript `replace` with a string pattern and an empty replacement (first occurrence only), and Java `split` (which drops trailing empty pieces).
- `JsText`: JavaScript `trim`, its white-space set, and `length` in UTF-16 code units.
- `EmailPattern`: the unanchored regular expression `\S+@\S+\.\S+`, with a linear scan proved equivalent to it.
- `JavaLong`: `long` wrap-around, truncating `/ 1000`, `%d` and `Long.parseLong`.
- `Base64Url`: the URL-safe alphabet of section 5 of RFC 4648, the padding-free encoder and the decoder that also accepts padding.
- `Utf8`: encoding and decoding, with U+FFFD for malformed input.

Module `Journeys` connects the page to the controllers. It proves that a server message reaches the banner unchanged, that a successful sign-up or sign-in lets the dashboard in as the stored user, and that the backend's password comparison cannot be triggered from the page.

Behaviour of the code a reader might not expect:

- The "Sign In"/"Sign Up" tabs only set the mode. They keep the draft and every message (`SelectTab`, `TabOnCurrentModeIsNoOp`). Only the toggle link resets the form.
- A 2xx reply whose body is not JSON makes `response.json()` throw. The page then shows the connectivity message, not the generic one: a throw is `Threw`.
- The server message loses the first `"Error: "` wherever it occurs, not only a leading one (`Text.RemoveFirst`).
- There is no status enumeration. The page state is `loading` plus the `error` and `success` strings, and a pending navigation.
- Only the disabled submit button stops a second request. The handler itself does not check `loading` (`AuthFormLaws.HandlerIgnoresLoading`).
- The form leaves browser validation on, and the e-mail input has `type="email"`. A non-empty address the browser rejects never reaches the handler, so the page's own "valid email" message only appears for addresses the browser accepts (`AuthForm.PressSubmit`).

## Model

| member | source | states |
|---|---|---|
| AuthForm.NameError | FrontEnd/src/components/AuthPage.jsx:24-28 | Sign-in never reports a name. In sign-up, "Name is required" exactly when the trimmed name is empty; "at least 2 characters" exactly when it is not empty after trimming but its untrimmed UTF-16 length is below 2 |
| JsText.TrimEmptyIffAllSpace | FrontEnd/src/components/AuthPage.jsx:24 | `trim()` gives the empty string exactly when every character is JavaScript white space |
| JsText.Utf16Length | FrontEnd/src/components/AuthPage.jsx:26 | `length` counts UTF-16 code units: one for a single basic-plane character, two for a single character beyond it, between one and two per character in general |
| JsText.Utf16LengthAppend | FrontEnd/src/components/AuthPage.jsx:26 | The length of a concatenation is the sum of the lengths, so with the one-character values every string's length is fixed: one unit per basic-plane character plus two per other character |
| AuthForm.EmailError | FrontEnd/src/components/AuthPage.jsx:30-34 | "Email is required" exactly for empty or all-space input; "Please enter a valid email" exactly when it is not blank and no substring matches the pattern; no error otherwise, in either mode |
| EmailPattern.RegexIffAtDot | FrontEnd/src/components/AuthPage.jsx:32 | An unanchored match of `\S+@\S+\.\S+` exists exactly when there is an `@` and a later `.` with non-space characters on both sides and between them |
| EmailPattern.ScanFrom | FrontEnd/src/components/AuthPage.jsx:32 | The linear scan finds a match from position `k` on exactly when such an `@`/`.` pair ends at or after `k` |
| EmailPattern.LooksLikeEmail | FrontEnd/src/components/AuthPage.jsx:32 | `test` is true exactly when the regular expression matches somewhere in the string |
| AuthForm.PasswordError | FrontEnd/src/components/AuthPage.jsx:36-40 | "Password is required" exactly for the empty password; the length error exactly for 1 to 5 UTF-16 units, untrimmed; in either mode |
| AuthForm.ConfirmError | FrontEnd/src/components/AuthPage.jsx:42-46 | Sign-in never reports the confirmation. In sign-up, "Please confirm your password" exactly when it is empty; "Passwords do not match" exactly when it is non-empty and differs |
| AuthForm.AcceptableIffNoRuleFails | FrontEnd/src/components/AuthPage.jsx:21-46 | The four rules all pass exactly when the form meets the acceptance conditions |
| AuthForm.Validate | FrontEnd/src/components/AuthPage.jsx:21-50 | The error map has a key exactly for each failing rule, holding that rule's non-empty message; sign-in never has `name` or `confirmPassword` keys |
| AuthForm.ValidIffAcceptable | FrontEnd/src/components/AuthPage.jsx:48-49 | The form is valid exactly when the error map is empty |
| AuthForm.EditField | FrontEnd/src/components/AuthPage.jsx:52-67 | Only the named field changes. Its error becomes "no error" while the key stays. The banner error is cleared and nothing else changes |
| AuthForm.ToggleMode | FrontEnd/src/components/AuthPage.jsx:145-160 | The mode flips. All four fields, both messages and the field errors are wiped. `loading` and the pending navigation are kept |
| AuthForm.SelectTab | FrontEnd/src/components/AuthPage.jsx:229-238 | A tab sets the mode and leaves the draft, the messages and the field errors as they were |
| AuthForm.RequestFor | FrontEnd/src/components/AuthPage.jsx:81-95 | Sign-in posts exactly `{email,password}` to the login URL. Sign-up posts exactly `{name,email,password,confirmPassword}` to the sign-up URL |
| AuthForm.StartSubmit | FrontEnd/src/components/AuthPage.jsx:69-103 | The field errors become the validation result. A request is issued exactly when the form is acceptable; otherwise only the field errors change. When it is issued, `loading` is set and both banners are cleared |
| Text.RemoveFirst | FrontEnd/src/components/AuthPage.jsx:130 | With no occurrence the string is unchanged; otherwise exactly the first occurrence, wherever it is, is cut out |
| AuthForm.FinishSubmit | FrontEnd/src/components/AuthPage.jsx:105-142 | A 2xx reply stores the token and the serialised `{id,name,email,role}`, sets the success message for the mode and arms navigation to the dashboard. A non-2xx reply with a message shows it with the first "Error: " removed, else the generic text. A throw shows the connectivity text. Storage changes only on success, and `loading` is false in every case |
| AuthForm.HandleSubmit | FrontEnd/src/components/AuthPage.jsx:69-143 | The whole handler issues what validation allows; a rejected form changes only the field errors; a completed request leaves `loading` false and the field errors empty |
| AuthForm.PressSubmit | FrontEnd/src/components/AuthPage.jsx:249-357 | While `loading`, pressing the button changes nothing and issues nothing. A non-empty e-mail value that the browser's `type="email"` check rejects also stops the press before the handler: no request and no field error. Otherwise the press runs the handler |
| AuthFormLaws.NothingIssuedWhileLoading | FrontEnd/src/components/AuthPage.jsx:356 | While a request is in flight, no sequence of edits, toggles, tab clicks and presses issues a request or clears `loading` |
| AuthFormLaws.AtMostOneInFlight | FrontEnd/src/components/AuthPage.jsx:353-357 | Between replies, any sequence of user events issues at most one request |
| AuthFormLaws.HandlerIgnoresLoading | FrontEnd/src/components/AuthPage.jsx:69-78 | The handler alone would issue a second request while one is in flight; the button guard is what prevents it |
| AuthFormLaws.TabKeepsDraftToggleClears | FrontEnd/src/components/AuthPage.jsx:157-160 | The other tab and the toggle link reach the same mode, but only the link wipes the draft |
| AuthFormLaws.TabOnCurrentModeIsNoOp | FrontEnd/src/components/AuthPage.jsx:229-238 | Clicking the tab of the current mode leaves the page state identical |
| AuthFormLaws.ToggleTwice | FrontEnd/src/components/AuthPage.jsx:157-160 | Two toggles restore the mode but leave a blank form and no messages |
| AuthFormLaws.InvalidSubmitOnlyShowsErrors | FrontEnd/src/components/AuthPage.jsx:72-74 | Submitting an unacceptable form issues nothing, leaves storage alone, changes only the field errors, and the error map is non-empty |
| Browser.GetItem | FrontEnd/src/components/Dashboard.jsx:11-12 | `getItem` answers the stored string for a present key and `null` for an absent one |
| Browser.RemoveItem | FrontEnd/src/components/Dashboard.jsx:31-32 | `removeItem` deletes that key only; every other entry keeps its presence and value |
| SessionGuard.Guard | FrontEnd/src/components/Dashboard.jsx:9-28 | Content is shown (loading false, user set to the parse result) exactly when both entries are present and non-empty and the user entry parses. Otherwise the guard redirects to `/auth`, sets no user and keeps `loading` |
| SessionGuard.Logout | FrontEnd/src/components/Dashboard.jsx:30-34 | Logout removes exactly `token` and `user`, keeps every other entry and goes to `/` |
| SessionGuard.BearerHeader | FrontEnd/src/components/Dashboard.jsx:37-43 | The header is "Bearer " followed by the stored token, or "Bearer null" when none is stored |
| SessionGuard.LogoutIdempotent | FrontEnd/src/components/Dashboard.jsx:30-34 | A second logout leaves storage as the first left it |
| SessionGuard.GuardAfterLogout | FrontEnd/src/components/Dashboard.jsx:11-16 | After logout the guard always redirects to `/auth`, whatever else is stored and whatever the JSON codec does |
| SessionGuard.LogoutKeepsOtherEntries | FrontEnd/src/components/Dashboard.jsx:31-32 | Every other stored entry survives logout with its value |
| Journeys.SuccessPassesGuard | FrontEnd/src/components/Dashboard.jsx:11-20 | With a round-tripping JSON codec, the session a successful submit stores (non-empty token) passes the guard. The user shown is the stored `{id,name,email,role}`, and the header carries the stored token |
| Text.IndexOf | FB_BackEnd/src/main/java/com/focusboard/util/JwtUtil.java:58-62 | `indexOf` answers the first occurrence at or after the start, or -1 when there is none |
| Text.IndexOfFirstAt | FB_BackEnd/src/main/java/com/focusboard/util/JwtUtil.java:58 | `indexOf(key)` answers the first index where the key occurs, and no other index |
| Text.IndexOfChar | FB_BackEnd/src/main/java/com/focusboard/util/JwtUtil.java:95-96 | `indexOf(c, from)` is -1 exactly when no `c` follows `from`, and otherwise the first `c` from there on |
| Text.JavaSplit | FB_BackEnd/src/main/java/com/focusboard/util/JwtUtil.java:51 | `split` on a dot gives the whole string when there is no dot, else the pieces with trailing empty ones dropped |
| Text.JavaSplitThree | FB_BackEnd/src/main/java/com/focusboard/util/JwtUtil.java:51-52 | Three dot-free pieces joined by dots, the last non-empty, split back into exactly those three |
| JavaLong.Add | FB_BackEnd/src/main/java/com/focusboard/util/JwtUtil.java:30 | `long` addition is exact when the sum fits and otherwise wraps by 2^64 |
| JavaLong.Div1000Truncates | FB_BackEnd/src/main/java/com/focusboard/util/JwtUtil.java:35 | Division by 1000 truncates toward zero: a negative count rounds up |
| JavaLong.Div1000Monotone | FB_BackEnd/src/main/java/com/focusboard/util/JwtUtil.java:100 | The truncated second never decreases as the millisecond count grows |
| JavaLong.ParseFormat | FB_BackEnd/src/main/java/com/focusboard/util/JwtUtil.java:99 | `parseLong` reads back every `long` that `%d` printed |
| JavaLong.Parse | FB_BackEnd/src/main/java/com/focusboard/util/JwtUtil.java:99 | Empty input and any character other than a digit or sign are rejected, and a sign is accepted only in front of at least one digit. A digit string, a `+` and digits, or a `-` and digits parses to its (signed) value exactly when that value fits in a `long` |
| Base64Url.Encode | FB_BackEnd/src/main/java/com/focusboard/util/JwtUtil.java:38-41 | The encoding uses only URL-safe digits, never a dot; it is empty only for no bytes, and its length is never 1 more than a multiple of 4 |
| Base64Url.EncodeLength | FB_BackEnd/src/main/java/com/focusboard/util/JwtUtil.java:38-41 | Every 3 bytes give 4 digits, and a final 1 or 2 bytes give 2 or 3 digits |
| Base64Url.DecodeEncode | FB_BackEnd/src/main/java/com/focusboard/util/JwtUtil.java:54 | The URL decoder gives back exactly the bytes the padding-free encoder encoded |
| Base64Url.DecodeAcceptsPadding | FB_BackEnd/src/main/java/com/focusboard/util/JwtUtil.java:54 | The decoder also accepts the padded form of the same bytes |
| Base64Url.Decode | FB_BackEnd/src/main/java/com/focusboard/util/JwtUtil.java:54 | The decoder accepts only alphabet digits and `=`; for digit-only input it fails exactly when the length is 1 more than a multiple of 4. Input with anything after the digits is accepted exactly when that is `==` after 4k+2 digits or `=` after 4k+3 digits: padding must complete the last unit and end the input |
| Utf8.DecodeEncode | FB_BackEnd/src/main/java/com/focusboard/util/JwtUtil.java:54 | Decoding the UTF-8 bytes of a string gives the string back |
| Utf8.DecodeStepEncodeChar | FB_BackEnd/src/main/java/com/focusboard/util/JwtUtil.java:54 | The decoder reads back each encoded character with exactly its byte count |
| Jwt.EncodeSegment | FB_BackEnd/src/main/java/com/focusboard/util/JwtUtil.java:38-41 | A segment contains no dot |
| Jwt.DecodeSegment | FB_BackEnd/src/main/java/com/focusboard/util/JwtUtil.java:38-41 | The URL decoder turns a segment back into the UTF-8 bytes of its text |
| Jwt.Sign | FB_BackEnd/src/main/java/com/focusboard/util/JwtUtil.java:106-116 | Signing fails with "Error generating HMAC" exactly for an empty secret; a signature is non-empty and dot-free |
| Jwt.SignedToken | FB_BackEnd/src/main/java/com/focusboard/util/JwtUtil.java:38-46 | Signing a payload fails exactly for an empty secret, with the HMAC message; a token is non-empty |
| Jwt.GenerateToken | FB_BackEnd/src/main/java/com/focusboard/util/JwtUtil.java:28-47 | Generation fails exactly for an empty secret, with the HMAC message; a token is non-empty |
| Jwt.SignedParts | FB_BackEnd/src/main/java/com/focusboard/util/JwtUtil.java:32-46 | A signed token splits into exactly three segments, which decode to the header, the payload and the HMAC, under the secret's bytes, of the first two segments joined by a dot |
| Jwt.SignedPayload | FB_BackEnd/src/main/java/com/focusboard/util/JwtUtil.java:38-54 | The payload read back from a signed token is exactly the text that was signed |
| Jwt.GeneratedPayload | FB_BackEnd/src/main/java/com/focusboard/util/JwtUtil.java:28-54 | A generated token splits into exactly three parts, and its payload reads back as exactly the claims text for the user, `now / 1000` and `(now + expiration) / 1000` |
| Jwt.PayloadOf | FB_BackEnd/src/main/java/com/focusboard/util/JwtUtil.java:51-54 | A payload is read only from a token with exactly three parts whose middle part decodes |
| Jwt.SubClaim | FB_BackEnd/src/main/java/com/focusboard/util/JwtUtil.java:56-65 | A `sub` value is found exactly when the first `"sub":"` is followed somewhere by a quote, and it is the text between them (`SubSpan`); no key gives null. A result is quote-free |
| Jwt.ExtractUsername | FB_BackEnd/src/main/java/com/focusboard/util/JwtUtil.java:49-68 | A wrong part count or a bad middle part gives null; otherwise the result is what the sub scan finds |
| Jwt.UpToQuote | FB_BackEnd/src/main/java/com/focusboard/util/JwtUtil.java:62-65 | The username cut before its first quote: a quote-free prefix that is the whole name exactly when the name has no quote |
| Jwt.SubClaimAfterKey | FB_BackEnd/src/main/java/com/focusboard/util/JwtUtil.java:56-65 | After `{"sub":"`, a username and a quote, the scan returns the username cut at its first quote |
| Jwt.QuoteScan | FB_BackEnd/src/main/java/com/focusboard/util/JwtUtil.java:61-65 | The quote search from the start of the username stops at the username's first quote, or at the quote after it |
| Jwt.SubClaimOfClaims | FB_BackEnd/src/main/java/com/focusboard/util/JwtUtil.java:32-65 | Reading `sub` back from generated claims yields the username cut at its first quote |
| Jwt.ExtractAfterGenerate | FB_BackEnd/src/main/java/com/focusboard/util/JwtUtil.java:28-65 | The username extracted from a generated token is the username cut at its first quote, so it is the whole username when that has no quote |
| Jwt.ExpClaim | FB_BackEnd/src/main/java/com/focusboard/util/JwtUtil.java:89-99 | The expiry is `parseLong` of the text after the first `"exp":` up to the first comma, or with no comma the first `}` (`ExpSpan`), and there is none without such a span: no key, no terminator or an unparsable number give none |
| Jwt.NumberEndIndex | FB_BackEnd/src/main/java/com/focusboard/util/JwtUtil.java:95-97 | The comma search, falling back to the brace search, finds the one place where the number ends (the first comma, or with no comma the first `}`), and -1 when neither follows |
| Jwt.FirstExpKey | FB_BackEnd/src/main/java/com/focusboard/util/JwtUtil.java:89-92 | With a quote-free username, the first `"exp":` in the claims is the real `exp` key, not one inside the username or the `iat` number |
| Jwt.NumberThenBrace | FB_BackEnd/src/main/java/com/focusboard/util/JwtUtil.java:94-99 | After the key, the comma search fails and the closing-brace fallback delimits exactly the printed number |
| Jwt.ExpClaimOfClaims | FB_BackEnd/src/main/java/com/focusboard/util/JwtUtil.java:89-99 | With a quote-free username, the expiry read back from the claims is the one written |
| Jwt.IsTokenExpired | FB_BackEnd/src/main/java/com/focusboard/util/JwtUtil.java:82-104 | Fails closed: a wrong part count, a bad middle part, or a payload with no readable `exp` (`ExpUnreadable`: no key, no terminator, or an unparsable number) all count as expired. Otherwise a token is expired exactly when `now / 1000 > exp` |
| Jwt.ValidateToken | FB_BackEnd/src/main/java/com/focusboard/util/JwtUtil.java:71-80 | Valid exactly when the extracted username is present, equals the user's and the token is not expired; only tokens with a readable payload validate |
| Jwt.ExpiryOfGenerated | FB_BackEnd/src/main/java/com/focusboard/util/JwtUtil.java:29-100 | For a quote-free username, a generated token is expired at a later clock reading exactly when that reading's second passes `(now + expiration) / 1000` |
| Jwt.ValidateFromClaims | FB_BackEnd/src/main/java/com/focusboard/util/JwtUtil.java:71-80 | Once the `sub` claim is read, a token validates exactly when that claim is the user's name and the token is not expired |
| Jwt.ExpiredFromClaims | FB_BackEnd/src/main/java/com/focusboard/util/JwtUtil.java:82-104 | Once the `exp` claim is read, a token is expired exactly when the current second is past it |
| Jwt.GeneratedTokenValidates | FB_BackEnd/src/main/java/com/focusboard/util/JwtUtil.java:71-79 | A generated token validates for its own user exactly when the username has no quote and the expiry second has not passed |
| Jwt.FreshTokenValid | FB_BackEnd/src/main/java/com/focusboard/util/JwtUtil.java:29-35 | With a non-negative lifetime that does not overflow, a token validates at the instant it is issued |
| Jwt.WrappedExpiryIsExpired | FB_BackEnd/src/main/java/com/focusboard/util/JwtUtil.java:30 | A lifetime that overflows `now + expiration` makes the token invalid the moment it is issued |
| Jwt.ValidateIgnoresSignature | FB_BackEnd/src/main/java/com/focusboard/util/JwtUtil.java:71-104 | Validation does not depend on the header or the signature segment, only on the middle one |
| Jwt.PayloadOfParts | FB_BackEnd/src/main/java/com/focusboard/util/JwtUtil.java:51-54 | Whatever the dot-free header and non-empty signature, the payload read is the text encoded in the middle part |
| Jwt.ForgedTokenValidates | FB_BackEnd/src/main/java/com/focusboard/util/JwtUtil.java:49-104 | A token anyone can build without the secret, from any dot-free header and any made-up signature, validates for a quote-free user until the `exp` it chooses |
| Accounts.FindByEmail | FB_BackEnd/src/main/java/com/focusboard/service/UserService.java:58-59 | `findByEmail` finds a stored user with that email exactly when `existsByEmail` holds |
| Accounts.Save | FB_BackEnd/src/main/java/com/focusboard/service/UserService.java:87 | Saving gives the next id, keeps every stored user and appends one. A fresh email keeps the store consistent and becomes findable |
| Accounts.FindAfterSave | FB_BackEnd/src/main/java/com/focusboard/service/UserService.java:87 | After saving under a fresh email, that email finds the saved user and every other email finds what it found before |
| UserService.LoadUserByUsername | FB_BackEnd/src/main/java/com/focusboard/service/UserService.java:43-47 | Loading by email succeeds exactly for a stored email; otherwise the message is "User not found with email: " and the email |
| UserService.Login | FB_BackEnd/src/main/java/com/focusboard/service/UserService.java:49-70 | A refused authentication passes its message on. A principal with no stored record gives "User not found". Otherwise only an empty secret fails, and the response is the stored record's id, name, email and role with a token for the principal |
| UserService.Register | FB_BackEnd/src/main/java/com/focusboard/service/UserService.java:81-96 | Exactly one user is appended, with the next id, the encoded password and the default role, and it stays even when signing fails. Only an empty secret fails, and the response carries the saved user's id, name, email and role with a token for the email. A fresh email keeps the store consistent |
| UserService.Signup | FB_BackEnd/src/main/java/com/focusboard/service/UserService.java:72-97 | A taken email fails first with "Email is already taken!", then a mismatch with "Passwords do not match!", each leaving the store unchanged. Only a fresh email with matching passwords registers, and then the store changes. Consistency is preserved |
| UserService.SignupThenLogin | FB_BackEnd/src/main/java/com/focusboard/service/UserService.java:57-69 | A login after a sign-up returns the same account data as the sign-up; only the token differs |
| AuthController.Respond | FB_BackEnd/src/main/java/com/focusboard/controller/AuthController.java:26-31 | A service result becomes a 200 with exactly that body; a failure becomes a 400 whose message is "Error: " followed by the failure message |
| AuthController.LoginEndpoint | FB_BackEnd/src/main/java/com/focusboard/controller/AuthController.java:24-33 | Login answers 200 with the service's response exactly when the service succeeds, else 400 with the prefixed message; every input gets an answer |
| AuthController.SignupEndpoint | FB_BackEnd/src/main/java/com/focusboard/controller/AuthController.java:35-44 | Sign-up maps results the same way. The taken-email and mismatch cases answer their prefixed messages with the store unchanged; a 200 means the new user was appended |
| AccessPolicy.Call | FB_BackEnd/src/main/java/com/focusboard/controller/TestController.java:12-27 | Public is allowed for everyone, user for USER or ADMIN, admin for ADMIN only; an allowed call answers the endpoint's fixed text |
| AccessPolicy.AdminReachesAll | FB_BackEnd/src/main/java/com/focusboard/controller/TestController.java:17-27 | Whoever may call the admin endpoint may call every endpoint |
| AccessPolicy.MoreRolesMoreAccess | FB_BackEnd/src/main/java/com/focusboard/controller/TestController.java:17-27 | Granting more roles never takes an allowed answer away or changes it |
| AccessPolicy.TextIndependentOfCaller | FB_BackEnd/src/main/java/com/focusboard/controller/TestController.java:12-27 | Two callers who are both allowed get the same answer |
| AccessPolicy.AnonymousOnlyPublic | FB_BackEnd/src/main/java/com/focusboard/controller/TestController.java:12-27 | A caller with no roles reaches exactly the public endpoint |
| Journeys.Deliver | FrontEnd/src/components/AuthPage.jsx:105-107 | A 200 reaches the page as a success carrying the token and `{id,name,email,role}` of the response; a 400 arrives with its message |
| Journeys.Dispatch | FrontEnd/src/components/AuthPage.jsx:81-103 | A sign-in request never changes the user store; a sign-up whose email is already registered leaves the store unchanged and answers 400 "Error: Email is already taken!" |
| Journeys.StripUndoesPrefix | FrontEnd/src/components/AuthPage.jsx:130 | Removing the first "Error: " from "Error: " followed by a message gives the message back |
| Journeys.BadRequestShowsServiceMessage | FrontEnd/src/components/AuthPage.jsx:128-134 | A 400 from either endpoint shows the service's own message in the banner and leaves storage alone |
| Journeys.PageNeverSendsMismatch | FB_BackEnd/src/main/java/com/focusboard/service/UserService.java:77-79 | A sign-up the page sends never gets the "Passwords do not match!" answer, because the page checks the same thing first |
| Journeys.TakenEmailJourney | FB_BackEnd/src/main/java/com/focusboard/service/UserService.java:73-75 | Signing up from the page with a stored email keeps the store and the browser storage, and shows "Email is already taken!" |
| Journeys.SignUpAnswer | FB_BackEnd/src/main/java/com/focusboard/service/UserService.java:87-96 | An accepted sign-up answers 200 with a non-empty token, the next id, and the request's name and email with the default role |
| Journeys.SignUpDelivers | FB_BackEnd/src/main/java/com/focusboard/controller/AuthController.java:35-44 | A sign-up the page sends for a fresh email reaches the page as a success with a non-empty token, the next id, the form's name and email, and the default role |
| Journeys.SignUpJourney | FB_BackEnd/src/main/java/com/focusboard/service/UserService.java:72-97 | A sign-up from the page appends exactly the new user to the store, then the page shows its success text and arms navigation |
| Journeys.SignUpThenDashboard | FrontEnd/src/components/Dashboard.jsx:9-28 | After a sign-up the dashboard admits the visitor as the new user, and the stored token names them |
| Journeys.SignInJourney | FB_BackEnd/src/main/java/com/focusboard/service/UserService.java:49-70 | An accepted sign-in leaves the store alone. The page arms navigation, and the dashboard shows the stored user's record |
| Journeys.RefusedSignInShowsMessage | FB_BackEnd/src/main/java/com/focusboard/controller/AuthController.java:29-31 | A sign-in the authentication manager refuses shows its message and leaves storage alone |

Some members only compute, and the rows that use them state what they mean:

- `Jwt.Claims` (`JwtUtil.java:33-36`, the `String.format` payload) is covered by `Jwt.GeneratedPayload`, `Jwt.SubClaimOfClaims` and `Jwt.ExpClaimOfClaims`.
- `AuthForm.CachedUser` (`AuthPage.jsx:111-116`, the `{id, name, email, role}` object put under `user`) is covered by `AuthForm.FinishSubmit` and `Journeys.SuccessPassesGuard`.
- `UserService.ResponseFor` (`UserService.java:63-68`, the `AuthResponse` built from the stored record) is covered by `UserService.Login` and `UserService.SignupThenLogin`.
- `Browser.Truthy` (`Dashboard.jsx:14`, JavaScript truthiness of a stored string) is covered by `SessionGuard.Guard`.

## Left out

- Rendering, styling, the `alert` calls and the home page are left out. So are the route table (only its paths appear, as navigation targets) and the 1500 ms timer, which becomes a pending-navigation flag.
- `fetch` is an input outcome: ok with the response fields, not ok with an optional message, or a throw. A 2xx body that lacks fields stores `undefined` in the browser; this is not modelled, since the backend always sends every field.
- `JSON.stringify` and `JSON.parse` are a pair of functions. The guard's success lemmas assume they round-trip and that the empty string does not parse. A `user` entry that parses to something other than an object is not modelled.
- `localStorage` is a map from strings to strings; quota errors and other tabs are not modelled.
- React batching and an unmount during `fetch` are not modelled: each handler is one atomic step.
- HMAC-SHA256 is a parameter returning 32 bytes; its internals are not part of this model.
- The clock is a parameter: `System.currentTimeMillis()` is the `now` argument.
- The authentication manager, the password encoder and the default role of a new `User` entity are parameters. The `User` entity, the repository interface and the DTO classes are not part of this model.
- A user's `getUsername()` is taken to be the email, for the token subject at sign-up.
- Bean validation (`@Valid`) of the request bodies, CORS, the `/api` context path, the URL-level security configuration and the bearer filter are not modelled.
- `hasRole` is taken to mean membership of the caller's role set.
- Null request fields and null exception messages are not modelled. A Java `null` result is `None`.
- Email comparison in the store is exact. A database collation that ignores case is not modelled.
- Java strings may hold lone surrogates, which `getBytes` turns into `?`. Characters here are Unicode scalar values, so that case does not arise.
- Utf8.Decode: for malformed input, the number of U+FFFD characters may differ from Java's decoder. Only round trips of well-formed text are relied on.
- AuthForm.PressSubmit: the browser's `type="email"` check (the "valid e-mail address" grammar of the HTML standard) is the parameter `emailOk`, not a definition. `Step`, `Run` and the in-flight laws hold for every such check.
- AuthForm.EditField: for an e-mail input the browser strips newlines and surrounding ASCII white space from the value before the page reads it. `EditField` takes the value the page receives, so that clean-up happens before the model.
- JavaLong.Parse: `parseLong` also accepts non-ASCII decimal digits, which are not modelled. `%d` is modelled with ASCII digits, as under a locale that uses them.
