# CBC EduPlatform: payment status, sign-up form and auth session, in Dafny

This project models three small pieces of logic from the CBC EduPlatform web client. Everything else in the client is markup, calls to the hosted backend, or a wrapper around `fetch`.

- **Payment card** (module `PaymentCard`). The card computes a whole-day count until the due time by ceiling division by one day in milliseconds. From that count and the paid flag it picks one badge out of Paid, Overdue, Due Soon or Pending, in that order of priority. The same inputs decide whether the "N days overdue" notice, the "Pay with M-PESA" button and the "Payment Completed" banner are shown.
- **Sign-up form** (module `SignUpForm`). This covers the twelve-field form record, the handler that updates a single field, and password validation, which checks for a mismatch first and then a length under six. It also covers the submit handler, with the backend's answer to the account-creation request passed in as an input. That includes the fallback admission and employee numbers (`ADM`/`EMP` followed by the timestamp) and the choice of which profile row the role writes.
- **Auth session** (module `AuthContext`). The provider's state `(user, isLoading)` changes through refresh, start-up, login, logout and the auth-state-change listener. The current-identity answer, the users table seen by the lookup, and the sign-in and sign-out outcomes are inputs to these transitions. A history of steps (`Run`) is used to prove that a session is never fabricated, and that loading lasts until the first start-up or login completes.

Supporting modules:
- `Decimal` renders the integer from `Date.now()` as a template literal does, and parses it back.
- `Wrappers` holds `Option`, which stands in for `null`.

Every time input is a plain integer. "Now" and the due date are epoch milliseconds, and the sign-up timestamp is a `nat`.

Three behaviours of the code that are easy to misread:
- Logout does not clear the session unconditionally. `logout` awaits `signOut()` before it clears the user, so a rejected sign-out leaves the user in place (`Logout`).
- "Overdue" does not mean "due date before today". The day count is a ceiling, so a due time less than one full day in the past gives 0 days, which is "Due Soon". Overdue starts only once the due time is a full day past (`OverdueIffFullDayPast`).
- The overdue count shown is `|ceil((due − now)/day)|`, which equals `floor((now − due)/day)`. It is not `ceil((now − due)/day)` (`Render`).

## Model

| member | source | states |
|---|---|---|
| PaymentCard.CeilDiv | src/components/Payments/PaymentCard.tsx:33 | the quotient q is the ceiling: d·(q−1) < a ≤ d·q |
| PaymentCard.CeilDivUnique | src/components/Payments/PaymentCard.tsx:33 | only one integer satisfies the ceiling bounds for a one-day divisor, so they define the day count |
| PaymentCard.DaysUntilDue | src/components/Payments/PaymentCard.tsx:29-34 | the day count is the ceiling of (due − now) / 86,400,000 ms |
| PaymentCard.StatusOf | src/components/Payments/PaymentCard.tsx:37-58 | Paid iff paid. Otherwise Overdue iff days < 0, Due Soon iff 0 ≤ days ≤ 7, Pending iff days > 7. Exactly one status results |
| PaymentCard.Label | src/components/Payments/PaymentCard.tsx:58 | Paid reads "Paid", Overdue reads "Overdue", Due Soon reads "Due Soon" and Pending reads "Pending", and no text stands for two statuses |
| PaymentCard.NoticeText | src/components/Payments/PaymentCard.tsx:81 | the notice is the canonical decimal numeral of the day count (no leading zero) followed by " days overdue", and the count can be read back from it |
| PaymentCard.LabelsDistinct | src/components/Payments/PaymentCard.tsx:58 | the four badge texts are pairwise different, so the badge names exactly one status |
| PaymentCard.OverdueExcludesDueSoon | src/components/Payments/PaymentCard.tsx:38-39 | isOverdue and isDueSoon are never both true |
| PaymentCard.OverdueIffFullDayPast | src/components/Payments/PaymentCard.tsx:33-38 | overdue holds exactly when due − now ≤ −86,400,000 ms |
| PaymentCard.LessThanADayPastIsDueSoon | src/components/Payments/PaymentCard.tsx:33-39 | a due time less than a full day in the past gives 0 days and "Due Soon" when unpaid |
| PaymentCard.UnpaidStatusByDifference | src/components/Payments/PaymentCard.tsx:29-58 | for an unpaid plan, the status is read straight off the millisecond difference, with the bounds −1 day and 7 days |
| PaymentCard.Render | src/components/Payments/PaymentCard.tsx:78-100 | the overdue notice appears iff unpaid and a full day past, and shows floor((now − due)/day) ≥ 1. The pay button, carrying the plan, appears iff unpaid. The completed banner appears iff paid |
| PaymentCard.NineDaysOverdueExample | src/components/Payments/PaymentCard.tsx:78-81 | a plan due 2024-01-01 and viewed on 2024-01-10 at 10:00 reads "Overdue", 9 days, with the pay button |
| SignUpForm.FormExtensionality | src/components/Auth/SignUpForm.tsx:10-23 | a form is determined by the values of its twelve fields |
| SignUpForm.HandleInputChange | src/components/Auth/SignUpForm.tsx:29-34 | the named field takes the new value and every other field keeps its value |
| SignUpForm.InputChangeLaws | src/components/Auth/SignUpForm.tsx:29-34 | writing a field's current value is a no-op, and of two writes to one field the second wins |
| SignUpForm.InputChangesCommute | src/components/Auth/SignUpForm.tsx:29-34 | changes to two different fields commute |
| SignUpForm.Utf16Length | src/components/Auth/SignUpForm.tsx:41 | `length` counts UTF-16 code units: one character counts two exactly when it lies outside the BMP. The total is between |s| and 2·|s|, and exactly |s| for BMP-only text |
| SignUpForm.Utf16Additive | src/components/Auth/SignUpForm.tsx:41 | code units add up over concatenation, so with the one-character clause the count of every string is fixed |
| SignUpForm.AstralPasswordLength | src/components/Auth/SignUpForm.tsx:41-45 | three characters outside the BMP are six code units, so such a password passes the length check |
| SignUpForm.ValidateForm | src/components/Auth/SignUpForm.tsx:36-46 | the form is valid iff the passwords match and have length ≥ 6. A mismatch reports "Passwords do not match" even if the password is also short. A short matching password reports the length message |
| SignUpForm.ValidationBoundaries | src/components/Auth/SignUpForm.tsx:36-46 | six characters pass, five fail with the length message, and a short mismatch fails with the mismatch message |
| SignUpForm.NumberOrFallback | src/components/Auth/SignUpForm.tsx:105-113 | a non-empty supplied number is kept. An empty one becomes the prefix followed by the canonical numeral of the timestamp, which reads back as the timestamp. The result is never empty |
| SignUpForm.AdmissionNumberOf | src/components/Auth/SignUpForm.tsx:105 | a non-empty admission number is kept. An empty one becomes "ADM" followed by the canonical numeral of the timestamp, which reads back as the timestamp |
| SignUpForm.EmployeeNumberOf | src/components/Auth/SignUpForm.tsx:113 | a non-empty employee number is kept. An empty one becomes "EMP" followed by the canonical numeral of the timestamp, which reads back as the timestamp |
| SignUpForm.FallbackRoundTrip | src/components/Auth/SignUpForm.tsx:105 | a generated number gives back the timestamp it was made from |
| SignUpForm.NumbersNonEmpty | src/components/Auth/SignUpForm.tsx:105-113 | the admission and employee numbers written are never empty |
| SignUpForm.RoleInsert | src/components/Auth/SignUpForm.tsx:100-116 | "student" writes a students row with the admission number and grade. "teacher" writes a teachers row with the employee number and qualification. Any other role writes no role row |
| SignUpForm.HandleSubmit | src/components/Auth/SignUpForm.tsx:48-126 | an invalid form shows the validation message and leaves loading alone, with no backend call and no rows. A valid form ends with loading off. It goes back to login iff the backend is absent (demo mode) or sign-up returned a user. In demo mode and after any sign-up that reported no error, the error stays cleared. The users row and then the role row are written iff sign-up returned a user. Sign-up errors are shown, and a thrown error without a message shows the fallback text |
| SignUpForm.SubmitWritesEachTableOnce | src/components/Auth/SignUpForm.tsx:80-116 | a submission writes at most two rows, the users row first, and never two rows to one table |
| Decimal.Digits | src/components/Auth/SignUpForm.tsx:105 | the timestamp is rendered as a non-empty string of digits with no leading zero, and is "0" only for 0 |
| Decimal.ParseDigitsOfDigits | src/components/Auth/SignUpForm.tsx:105 | parsing the rendered timestamp gives back the timestamp |
| Decimal.CanonicalUnique | src/components/Auth/SignUpForm.tsx:105 | a digit string with no leading zero that reads as n is exactly the rendering of n |
| Decimal.DigitsInjective | src/components/Auth/SignUpForm.tsx:113 | distinct timestamps render as distinct digit strings |
| AuthContext.FromRow | src/contexts/AuthContext.tsx:43-50 | id, name, email and role copy across. institution_id becomes institutionId and profile_image becomes profileImage |
| AuthContext.FromRowRoundTrip | src/contexts/AuthContext.tsx:43-50 | the row-to-user mapping is a bijection |
| AuthContext.MatchingIndices | src/contexts/AuthContext.tsx:35-38 | the filter lists every row with the id, in increasing order, and nothing else |
| AuthContext.SelectSingle | src/contexts/AuthContext.tsx:35-41 | the lookup succeeds iff exactly one row has the id, and then returns that row |
| AuthContext.NoOnlyMatch | src/contexts/AuthContext.tsx:39-41 | when zero or several rows match, none is the unique match, so the lookup errs |
| AuthContext.Refresh | src/contexts/AuthContext.tsx:31-58 | no identity, a failing identity call, a failing lookup, no matching row or several matching rows all leave user null. A user that results has the authenticated id and comes from a row of the table. A unique row becomes the user. Loading is untouched |
| AuthContext.DuplicateRowsLeaveNoUser | src/contexts/AuthContext.tsx:39-56 | two rows carrying the authenticated id make the lookup fail, so refresh leaves user null |
| AuthContext.InitializeAuth | src/contexts/AuthContext.tsx:60-64 | start-up refreshes and then ends with loading off |
| AuthContext.Login | src/contexts/AuthContext.tsx:80-102 | returns true iff sign-in neither errs nor throws. Loading ends false on every path. The user changes only through a refresh, which runs iff sign-in returned a user |
| AuthContext.LoginSucceedsWithoutSession | src/contexts/AuthContext.tsx:91-96 | login can return true while the session stays null |
| AuthContext.Logout | src/contexts/AuthContext.tsx:104-107 | after sign-out returns, user is null. A rejected sign-out leaves the state unchanged |
| AuthContext.OnAuthStateChange | src/contexts/AuthContext.tsx:69-75 | SIGNED_IN with a session refreshes, SIGNED_OUT clears the user, and anything else changes nothing |
| AuthContext.StepUser | src/contexts/AuthContext.tsx:31-107 | each transition keeps the user, clears it, or installs one its own inputs vouch for |
| AuthContext.SessionIsVouched | src/contexts/AuthContext.tsx:28-107 | after any history starting from the initial state, a present user was read from the users table under an identity then authenticated with the same id |
| AuthContext.LoadingUntilFirstCompletion | src/contexts/AuthContext.tsx:28-102 | isLoading is true iff neither start-up nor any login has completed yet |
| AuthContext.StartupSettles | src/contexts/AuthContext.tsx:28-64 | from the initial state (null user, loading), start-up ends with loading off and the refreshed user |

## Left out

- The payment gateway client in `src/services/intasend.ts`. It only wraps `fetch` and throws on a non-OK response, so it is network I/O with no logic to model.
- The sample fixtures in `src/data/sampleData.ts`. They have no behaviour.
- The hosted backend itself: sign-in, sign-up, sign-out, the current-identity call, and the table inserts and selects. Their answers are inputs to the model (`CurrentIdentity`, `UsersLookup`, `SignInOutcome`, the sign-out flag, `SignUpOutcome`).
- Reading `due_date` with `new Date`, and `toLocaleDateString`. The due time is taken as epoch milliseconds.
- An unparseable `due_date`. In the code, `new Date` gives NaN, so the day count is NaN and both the overdue and due-soon flags are false. The badge then reads "Pending", the overdue notice is hidden and the pay button is shown (when unpaid). Since the due time is an integer here, the model cannot represent this case.
- The floating-point division before `Math.ceil`. It is modelled as exact integer ceiling division. The two agree for realistic date differences, but can diverge for differences near 2^53 ms.
- `Date.now()` and the wall clock. Both are parameters.
- `formatAmount`. It is locale-dependent currency formatting from `Intl.NumberFormat`.
- The badge colour classes, all JSX, styling, alerts and console logging.
- The users insert as written at src/components/Auth/SignUpForm.tsx:65-93. The object literal does not parse. `HandleSubmit` models its evident payload: id, email, name, role, phone and the fixed institution id.
- No input of the form writes `admissionNumber` or `employeeNumber`, so in the form as written both stay empty, and every students row gets `ADM` and the timestamp and every teachers row gets `EMP` and the timestamp. The model keeps the non-empty branch of `NumberOrFallback` because the code has it.
- The outcomes of the users and role-row inserts. They are logged or ignored and never change what the handler does. The model assumes these inserts do not throw.
- HandleInputChange: an input `name` outside the twelve fields would add a new key to the form object. Every input in the form names one of the twelve fields, so the model does not represent this.
- Login: the intermediate state while sign-in is pending (`isLoading` true) is not exposed. Only the final state and the returned boolean are modelled.
- Concurrency. Overlapping `login`/`logout` calls and listener callbacks that interleave with them are not modelled. Each step of `Run` completes before the next starts.
- The subscription lifecycle (unsubscribe on unmount) and `useAuth`'s check for a missing provider.
