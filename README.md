# Accounts, requests and routing of a frontend-only admin prototype

The repository is a browser application with no server. It keeps one
document of four collections (accounts, employees, departments and
requests) in `localStorage`. A logged-in user sits in `currentUser`, and a
fragment router shows one page at a time, guarded by login and by the
admin role. Form, `prompt` and `confirm` handlers register, log in,
verify, edit, reset and delete accounts, and add or delete employees,
departments and requests.

There are two versions of the script, and they disagree on several points.
Each has its own module:

- `Demo` (`script.js`): the collection is named `users` and emails are
  compared exactly. Department and request ids are numbers, the router
  guards fragments such as `#accounts`, and nothing prevents an admin from
  deleting the logged-in account.
- `Prototype` (`fullstack-prototype-yourlastname/script.js`): the
  collection is named `accounts` and emails are compared up to case.
  Registration and login normalise the typed email, the router guards
  routes such as `/accounts`, and an account cannot delete itself.

Both share these modules:

- `JsArray`: `find`/`findIndex` and `filter` on sequences.
- `JsString`: `trim`, `toLowerCase`, truthiness and the decimal rendering of
  a number.
- `Accounts`: the account record as a class. Handlers assign its fields in
  place, and `currentUser` is the same object as the matching entry of the
  collection.

Each handler is a method of a `Store` class. Its `ensures` give the new
state in terms of the old one, usually through a pure decision function
(`LoginDecision`, `LoginMatch`, `DeleteDecision`, `Route`, `ItemsOf`).
Lemmas about those functions state what the handlers promise: login
succeeds exactly when a verified account matches, each mutation keeps
emails unique, a permitted delete keeps the session's account, and what
the routing guards do and do not protect. Inputs that come from the page are
parameters: form fields, `prompt` answers (`None` for a cancelled prompt),
`confirm` answers, the stored document, `Date.now()` and the date text.

The two scripts differ on deleting the logged-in account.
`fullstack-prototype-yourlastname/script.js` line 125 refuses it, and
`Prototype.DeleteDecision` models that refusal. `script.js` lines 443-447
have no such check, and `Demo.Store.ConfirmDeleteAccount` has none either.
A request's status is only ever set to 'Pending', and in `script.js` also
to 'Approved'. So each module's `Status` has only the values its script
sets.

## Model

| member | source | states |
|---|---|---|
| JsArray.FindIndex | script.js:138 | `find`/`findIndex`: the index returned satisfies the predicate and every earlier element fails it; None exactly when no element satisfies it |
| JsArray.Filter | script.js:446 | `filter`: every kept element is from the input and satisfies the predicate, and every input element that satisfies it is kept |
| JsArray.FilterConcat | script.js:446 | filtering a concatenation is the concatenation of the filtered parts, so order is kept |
| JsArray.FilterKeepsAll | script.js:446 | when every element satisfies the predicate, `filter` returns the input unchanged |
| JsArray.FilterPartition | script.js:446 | the kept and the removed elements together are the input, as multisets |
| JsString.Trim | script.js:424 | `trim()` never lengthens its input; `TrimIsSlice` states which characters it keeps |
| JsString.TrimStart | script.js:424 | the result is a suffix of the input, only whitespace was removed, and it does not start with whitespace |
| JsString.TrimEnd | script.js:424 | the result is a prefix of the input, only whitespace was removed, and it does not end with whitespace |
| JsString.TrimIsSlice | fullstack-prototype-yourlastname/script.js:86 | `trim()` returns a slice of the input with only whitespace cut on either side (`IsTrimmed`), and the slice neither starts nor ends with whitespace |
| JsString.TrimIdempotent | fullstack-prototype-yourlastname/script.js:86 | trimming twice is the same as trimming once |
| JsString.ToLower | fullstack-prototype-yourlastname/script.js:40 | `toLowerCase()` keeps the length |
| JsString.ToLowerAt | fullstack-prototype-yourlastname/script.js:40 | every character of the result is the lower-cased character at the same position |
| JsString.ToLowerIdempotent | fullstack-prototype-yourlastname/script.js:40 | lower-casing twice is the same as lower-casing once |
| JsString.TrimToLower | fullstack-prototype-yourlastname/script.js:86 | lower-casing a trimmed string leaves it trimmed |
| JsString.DecimalString | fullstack-prototype-yourlastname/script.js:146 | `String(n)` is non-empty, all decimal digits, has no leading zero, and the digits denote n |
| Accounts.Account.constructor | script.js:216-223 | a new account object holds exactly the given field values |
| Accounts.Without | script.js:446 | `filter(u => u.email !== email)` on the objects: every kept object is from the input with another email, and every such object is kept |
| Accounts.WithoutSnapshot | script.js:446 | filtering the objects gives the records that filtering the records gives, in the same order |
| Accounts.WithoutDistinct | script.js:446 | filtering keeps the collection free of repeated objects |
| Accounts.SnapshotUpdate | script.js:369-373 | assigning fields of one object changes the collection's records at that index only |
| Accounts.Append | script.js:224 | `push` of a fresh object: the records gain exactly the new one at the end, and the objects stay distinct |
| Accounts.Materialize | script.js:15 | `JSON.parse` gives fresh, distinct objects whose records are the stored ones |
| Demo.EmptyHashRoutesHome | script.js:148 | an empty fragment routes exactly as `#home` does |
| Demo.Route | script.js:147-177 | as written, with an empty fragment read as `#home`: a protected or admin fragment without a session goes to `#login`; an admin fragment with a non-admin session goes to `#profile`; otherwise the element the fragment selects as a CSS selector is activated, `#home` when it selects none, and no page when the selector is invalid; the guards hold for the fragment text only |
| Demo.SelectorBypass | script.js:150-172 | as written: `#accounts.page` is in neither guard list, but it selects the accounts page element, which is activated with no session |
| Demo.GuardedRoute | script.js:150-172 | corrected: the guards test the element about to be activated; a protected page is activated only with a session and an admin page only with an admin session, whatever the fragment; an invalid selector shows no page |
| Demo.HashOfPage | script.js:150-151 | a fragment '#' + name is in a guard list exactly when name is one of that list's page ids |
| Demo.GuardedRouteAgrees | script.js:150-172 | the correction changes nothing for a fragment that selects the element its name is the id of |
| Demo.LoginDecision | script.js:243-255 | the first user with this exact email and password decides: None when there is none, otherwise verified or not |
| Demo.LoginSucceedsIff | script.js:243-258 | with unique emails, login succeeds exactly when some verified user has this email and password |
| Demo.Approve | script.js:120-128 | only the first request with this id changes, and it becomes Approved; later duplicates and other requests are unchanged; no request becomes Pending |
| Demo.UniqueEmailsAppend | script.js:210-224 | appending an account whose email no user has keeps emails unique |
| Demo.UniqueEmailsFilter | script.js:446 | filtering keeps emails unique |
| Demo.UniqueEmailsUpdate | script.js:369-373 | replacing a record with one that has the same email keeps emails unique |
| Demo.Store.constructor | script.js:3-9 | the document starts empty, with no session and no dialog target; the stored token and pending email are what `localStorage` still holds from an earlier page |
| Demo.Store.LoadFromStorage | script.js:12-34 | a stored document replaces all four collections; without one, only users and departments are seeded with the defaults; text that does not parse leaves the document as it was (`JSON.parse` throws, which ends the startup listener) |
| Demo.Store.CheckSession | script.js:135-145 | a stored token logs in the first user with that email; otherwise the session and the token are cleared |
| Demo.Store.Logout | script.js:130-133 | the session and the token are cleared |
| Demo.Store.HandleRouting | script.js:147-177 | navigation is `Route` applied to the live session and to what `querySelector` gives |
| Demo.Store.Register | script.js:202-231 | refused exactly when some user has this email; otherwise exactly one unverified user is appended and its email awaits verification; emails stay unique |
| Demo.Store.Login | script.js:238-261 | follows `LoginDecision`: a verified match becomes the session with its email as token; an unverified match only records the pending email |
| Demo.Store.ConfirmEmailVerification | script.js:268-300 | the first user with the pending email becomes verified and the pending email is dropped; no other record changes |
| Demo.Store.PrepareAddAccount | script.js:335-339 | the account dialog is set to add |
| Demo.Store.PrepareEditAccount | script.js:341-354 | the dialog targets the email only when some user has it |
| Demo.Store.HandleAccountSubmit | script.js:356-395 | editing overwrites names, role and flag (and the password only when one is typed) of the first user with the target email, never its email; adding is refused exactly on an existing email and otherwise appends with password '123456' when none is typed; emails stay unique |
| Demo.Store.SubmitEdit | script.js:366-376 | the editing branch, as above |
| Demo.Store.SubmitAdd | script.js:377-395 | the adding branch, as above |
| Demo.Store.PrepareResetPassword | script.js:408-412 | the reset dialog targets this email |
| Demo.Store.ConfirmResetPassword | script.js:414-436 | without a target user nothing changes; a password whose trimmed length is under 6 is refused; otherwise only that user's password changes, stored untrimmed |
| Demo.Store.PrepareDeleteAccount | script.js:438-441 | the delete dialog targets this email |
| Demo.Store.ConfirmDeleteAccount | script.js:443-454 | every user with the target email is removed, the rest keep their order and identity, and the session is not touched |
| Demo.Store.SubmitRequest | script.js:475-507 | zero rows, or no session, changes nothing; otherwise exactly one Pending request owned by the session's email is appended |
| Demo.Store.ApproveRequest | script.js:120-128 | the requests become `Approve` of the old ones |
| Demo.Store.DeleteRequest | script.js:509-515 | once confirmed, exactly the requests with another id remain, in order |
| Demo.Store.PrepareEmployeeModal | script.js:521-524 | the employee dialog is set to add |
| Demo.Store.PrepareEditEmployee | script.js:539-564 | the dialog targets the id only when some employee has it |
| Demo.Store.HandleEmployeeSubmit | script.js:566-592 | editing replaces the first employee with the target id and nothing else; adding is refused exactly on an existing id and otherwise appends |
| Demo.Store.PrepareDeleteEmployee | script.js:625-631 | the delete dialog targets this id |
| Demo.Store.ConfirmDeleteEmployee | script.js:633-644 | with a target, exactly the employees with another id remain |
| Demo.Store.DeleteEmployee | script.js:646-652 | once confirmed, exactly the employees with another id remain |
| Demo.Store.EditDepartment | script.js:673-682 | a non-empty answer renames the first department with the id; nothing else changes |
| Demo.Store.DeleteDepartment | script.js:684-689 | once confirmed, exactly the departments with another id remain |
| Prototype.FindAccountByEmail | fullstack-prototype-yourlastname/script.js:40 | the first account whose email equals the given one after lower-casing both; None exactly when there is none |
| Prototype.FindAccountIgnoresCase | fullstack-prototype-yourlastname/script.js:40 | looking up an email and looking up its lower-cased form find the same account |
| Prototype.FoundIsOnlyMatch | fullstack-prototype-yourlastname/script.js:40 | with emails unique up to case, the account found is the only one that matches |
| Prototype.UniqueEmailsAppend | fullstack-prototype-yourlastname/script.js:88-90 | appending an account whose email is not found keeps emails unique up to case |
| Prototype.UniqueEmailsUpdate | fullstack-prototype-yourlastname/script.js:100 | replacing a record with one that has the same email keeps emails unique |
| Prototype.UniqueEmailsFilter | fullstack-prototype-yourlastname/script.js:125 | deleting by filter keeps emails unique up to case |
| Prototype.IndexOf | fullstack-prototype-yourlastname/script.js:45-46 | the first position of the character, with every earlier one different; None when it does not occur |
| Prototype.RemoveFirst | fullstack-prototype-yourlastname/script.js:45 | `replace` with a one-character pattern removes exactly the first occurrence, keeping everything before and after it, and changes nothing when the character does not occur |
| Prototype.BeforeFirst | fullstack-prototype-yourlastname/script.js:46 | `split(c)[0]` is the prefix up to the first `c`, or the whole string when there is none |
| Prototype.RouteOf | fullstack-prototype-yourlastname/script.js:45-46 | the route has no query, and an empty fragment routes to "/" |
| Prototype.RouteOfPath | fullstack-prototype-yourlastname/script.js:45-46 | "#" + path routes to path, with or without a query after it |
| Prototype.PageId | fullstack-prototype-yourlastname/script.js:56 | the page id is 'home-page' for "/" and otherwise ends in '-page'; `PageIdOfSlash` and `PageIdWithoutSlash` give it exactly |
| Prototype.PageIdOfSlash | fullstack-prototype-yourlastname/script.js:56 | the page of "/" + name is name + '-page' |
| Prototype.PageIdWithoutSlash | fullstack-prototype-yourlastname/script.js:56 | the page of a route without '/' is that route + '-page' |
| Prototype.Route | fullstack-prototype-yourlastname/script.js:44-58 | as written: redirect to `#/login` exactly for a guarded route without a session, to `#/` exactly for an admin route with a non-admin session, and to no other fragment; a route no guard stops always shows the page `PageId` gives it |
| Prototype.GuardBypass | fullstack-prototype-yourlastname/script.js:50-56 | as written: a fragment without the leading slash skips both guards yet shows the page of the slashed route |
| Prototype.AccountsPageBypass | fullstack-prototype-yourlastname/script.js:50-56 | as written: `#accounts` shows the admin-only accounts page to a visitor with no session |
| Prototype.PageRoute | fullstack-prototype-yourlastname/script.js:56 | the route whose page is the one shown; routes starting with '/' are their own page route |
| Prototype.GuardedRoute | fullstack-prototype-yourlastname/script.js:50-56 | corrected: the guards test the route of the page about to be shown; redirects go only to `#/login` or `#/` |
| Prototype.SamePageSameRoute | fullstack-prototype-yourlastname/script.js:56 | a page route that shows the page of a guarded route is that route |
| Prototype.GuardedRouteProtects | fullstack-prototype-yourlastname/script.js:53-54 | corrected: a guarded page is shown only with a session, and an admin page only with an admin session, whatever the fragment |
| Prototype.GuardedRouteAgrees | fullstack-prototype-yourlastname/script.js:53-56 | the correction changes nothing for routes starting with '/' |
| Prototype.Quantity | fullstack-prototype-yourlastname/script.js:144 | the quantity is never 0: a non-zero number is kept, and 0 or NaN become 1 |
| Prototype.ItemsOf | fullstack-prototype-yourlastname/script.js:144 | at most one item per answer, and when answers remain the next name is blank or cancelled |
| Prototype.ItemsOfMeaning | fullstack-prototype-yourlastname/script.js:144 | each item is the name and quantity of the answer at its position, and that name was filled in |
| Prototype.ReadItems | fullstack-prototype-yourlastname/script.js:143-144 | the loop collects exactly `ItemsOf` of the answers |
| Prototype.NormalizedEmail | fullstack-prototype-yourlastname/script.js:86 | the email as read is the trimmed email lower-cased character by character, and lower-casing it again changes nothing |
| Prototype.ReadRegisterForm | fullstack-prototype-yourlastname/script.js:86 | each name is the typed one with exactly its surrounding whitespace cut away; the email is the trimmed email lower-cased character by character; the password is kept as typed |
| Prototype.ReadRegisterFormIdempotent | fullstack-prototype-yourlastname/script.js:86 | reading a form that has already been read changes nothing |
| Prototype.LoginMatch | fullstack-prototype-yourlastname/script.js:92-93 | success gives an account with the email up to case, the same password, and verified; failure exactly when the account found is missing, has another password or is unverified |
| Prototype.LoginSucceedsIff | fullstack-prototype-yourlastname/script.js:92-94 | with emails unique up to case, login succeeds exactly when some verified account has this email up to case and this password |
| Prototype.LoginIgnoresCase | fullstack-prototype-yourlastname/script.js:92 | lower-casing the typed email does not change the login outcome |
| Prototype.DeleteDecision | fullstack-prototype-yourlastname/script.js:125 | aborted exactly when no account is found; refused exactly when the found account has the session's email; deletion only when confirmed |
| Prototype.DeleteKeepsSession | fullstack-prototype-yourlastname/script.js:125 | with emails unique up to case, a permitted delete keeps the session's account |
| Prototype.Store.constructor | fullstack-prototype-yourlastname/script.js:3-4 | the document starts empty with no session; storage keeps its token and pending email |
| Prototype.Store.SeedDefault | fullstack-prototype-yourlastname/script.js:15-25 | exactly the default admin, departments d1 and d2, and no employees or requests |
| Prototype.Store.LoadFromStorage | fullstack-prototype-yourlastname/script.js:6-13 | a stored document with accounts is used as it is; anything else reseeds the defaults |
| Prototype.Store.InitAuthFromStorage | fullstack-prototype-yourlastname/script.js:69-72 | a truthy token logs in the account found for it; otherwise nothing changes |
| Prototype.Store.Register | fullstack-prototype-yourlastname/script.js:86-90 | a password under 6 characters is refused first, then an email that is found; otherwise exactly one unverified 'user' account is appended and awaits verification |
| Prototype.Store.Login | fullstack-prototype-yourlastname/script.js:92-94 | follows `LoginMatch`: on success that account object becomes the session and its email the token; otherwise nothing changes |
| Prototype.Store.SimulateVerify | fullstack-prototype-yourlastname/script.js:97-101 | with a pending email and an account found for it, only that account becomes verified and the pending email is dropped |
| Prototype.Store.Logout | fullstack-prototype-yourlastname/script.js:103 | the token and the session are cleared |
| Prototype.Store.EditAccount | fullstack-prototype-yourlastname/script.js:122-123 | each non-empty name answer replaces that name of the account found; nothing else changes |
| Prototype.Store.ResetPassword | fullstack-prototype-yourlastname/script.js:124 | a missing, empty or under-6 answer is refused; otherwise only the found account's password changes |
| Prototype.Store.DeleteAccount | fullstack-prototype-yourlastname/script.js:125 | follows `DeleteDecision`; when deleting, exactly the accounts with another exact email remain, in order and as the same objects |
| Prototype.Store.AddAccount | fullstack-prototype-yourlastname/script.js:129-131 | a blank first name or email ends it, then a found email, then a password under 6 is refused; otherwise the account is appended as typed, with role 'user' for a blank role |
| Prototype.Store.NewRequest | fullstack-prototype-yourlastname/script.js:140-148 | no session, a blank type or no items changes nothing; otherwise one Pending request is appended, with id 'r' + now, the collected items and the session's email |

## Left out

- Rendering, DOM classes, toasts, alerts, modals and navbar text are not modelled. Neither are `setAuthState`'s call to `handleRouting` or the assignments to `location.hash` that follow a handler, because they only change what is displayed.
- `saveToStorage` is not modelled: JSON serialisation and the write to `localStorage`. Storage is read through parameters. The loaded document is a `Stored` value (missing, unparseable or parsed), and the token and pending email are Store fields.
- Event wiring and the reading of form fields are not modelled. Field values, `prompt` answers and `confirm` answers are parameters.
- Demo.Route: CSS selector matching is not modelled. What `querySelector` gives for each selector text is a parameter. The `#home` element is taken to exist, as the page's markup provides it.
- `Date.now()` and the date strings are parameters.
- `renderRequests` and `renderMyRequests` are not modelled. They filter requests by the session's email only to display them.
- JsString.ToLower: only the ASCII capitals A-Z are mapped. Unicode case mapping is not modelled.
- String lengths count code points, not UTF-16 code units.
- Prototype.Quantity: the quantity prompt's answer arrives as the number `Number()` gives, or None for NaN. The full string-to-number conversion, including fractions, is not modelled.
- Prototype.Store.Register takes the form after `ReadRegisterForm`. Trimming and lower-casing are stated on that function, not repeated in the method.
- Prototype.Store.Login takes the email as the handler reads it (`NormalizedEmail`). `LoginIgnoresCase` states that lower-casing it does not change the outcome.
- Prototype.Store.Register, AddAccount, EditAccount, ResetPassword, SimulateVerify and DeleteAccount do not state in their own `ensures` that emails stay unique. `UniqueEmailsAppend`, `UniqueEmailsUpdate` and `UniqueEmailsFilter` state it for the records those methods produce.
- Prototype.Store.EditAccount, Prototype.Store.ResetPassword, Prototype.DeleteDecision, Demo.Store.SubmitRequest and Demo.Store.EditDepartment: when the handler would throw a TypeError (a missing account, department or session), the model reports the abort and changes nothing.
- Demo.Store.LoadFromStorage: for stored text that does not parse, `JSON.parse` throws out of the `DOMContentLoaded` listener (script.js:192-197), so `checkSession` and `handleRouting` never run and none of the listeners (hashchange, register, login and the rest) is installed. The model only says that the document is unchanged; it does not model the page that is left without handlers.
- Employees, departments and requests are values that are replaced at their index, not objects: nothing else holds a reference to them.
- The Prototype's department and employee lists are displayed only, so they are not modelled beyond loading and seeding.

## Findings

| source | as written | input that shows it | evidently intended | confidence | as-written member | corrected member |
|---|---|---|---|---|---|---|
| script.js:150-172 | the guards test the fragment text, but the page activated is whatever element that text selects as a CSS selector | the fragment `#accounts.page` with no session: it is in neither guard list, and `querySelector` selects the accounts page element | a protected or admin page is activated only with the session it requires | high (not executed) | Demo.SelectorBypass | Demo.GuardedRoute |
| fullstack-prototype-yourlastname/script.js:50-56 | the login and admin guards test the route string, but the page id drops the first '/' whether or not it was there | the fragment `#accounts` with no session: route "accounts" is in neither guard list, and the page shown is `accounts-page` | a guarded page is shown only with the session it requires | high (not executed) | Prototype.AccountsPageBypass | Prototype.GuardedRouteProtects |
