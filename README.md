# DzVisionAI front-end: session, services and list pages in Dafny

This project models the client-side logic of the DzVisionAI web front-end, a Next.js
application. The backend does the real work. The client logic modelled here is:

- the request-time route guard;
- the two in-memory stores (the signed-in user and the notification list);
- the session service, which keeps the bearer token in a cookie, reads it back, and attaches it
  to every request through a global interceptor;
- the blacklist and user services, which turn backend answers into records and fall back to
  `[]`, `null` or `false` when anything goes wrong;
- the filtering and pagination of the users and blacklist pages;
- the open/closed bookkeeping of the notification stack.

A backend call is a value `Response = Ok(data) | Failed`, where `data` is a JSON value (`Js.Json`).
JavaScript's truthiness, `||`, property access (`Member`), `String()`, `split`, `trim`,
`includes`, `filter` and `slice` are written out in module `Js`.

The browser's cookie jar is modelled in module `CookieJar`:

- It is an ordered list of name/value pairs. `document.cookie` reads as `n=v; n=v`.
- Writing a cookie keeps only the text before the first `;` as its value, trimmed of spaces and
  tabs, as in section 5.2 of RFC 6265.
- Overwriting a cookie keeps its position, as in section 5.3 of RFC 6265.

Over such a jar the model proves the following:

- `getCookie` reads exactly the stored value.
- The blacklist service's regular-expression lookup reads the same value for `token`.
- The interceptor's `split('=')[1]` extraction gives the value cut at its first `=`.
- Whenever the interceptor finds a non-empty token, its header is the one sent, even where a
  call passes its own `Authorization` header.

The code behaves as follows, which a reader might not expect:

- The guard never looks at the `role` cookie. Only paths under `/dashboard` are protected, so
  `/users` and `/black-lists` pass without a token.
- The sign-in area is `/` plus the literal prefix `/(auth)`. Nothing else is in it.
- `login` emits no notification.
- A login whose response carries a truthy token but no user throws on reading the user's role,
  after the token cookie has been written. The throw leaves the token cookie set and the user
  unchanged (`Auth.LoginThrowsWithTokenStored`).
- `logout` deletes only the `token` cookie.
- No update operation diffs against the original record. The update bodies are passed through
  unchanged.

## Model

| member | source | states |
|---|---|---|
| Middleware.Guard | src/middleware.ts:5-26 | Redirect to `/dashboard` exactly when the path is in the sign-in area and the token is non-empty. Redirect to `/` exactly when the path is under `/dashboard` and there is no non-empty token. Every other request passes. |
| Middleware.AreasDisjoint | src/middleware.ts:10-18 | No path is in both the sign-in area and the dashboard area. |
| Middleware.OtherPathsPass | src/middleware.ts:25 | A path outside both areas passes, whatever the token. |
| Middleware.UsersAndBlacklistsPass | src/middleware.ts:10-25 | `/users` and `/black-lists` pass with or without a token; there is no role check. |
| Middleware.NoRedirectLoop | src/middleware.ts:10-23 | Following a redirect with the same token reaches a page that passes. |
| Store.UserStore.constructor | src/app/lib/store.ts:17 | The user store starts with no user. |
| Store.UserStore.SetUser | src/app/lib/store.ts:18 | The stored user becomes exactly the given one. |
| Store.UserStore.ClearUser | src/app/lib/store.ts:19 | The stored user becomes null. |
| Store.NotificationStore.constructor | src/app/lib/store.ts:38 | The notification list starts empty. |
| Store.NotificationStore.AddNotification | src/app/lib/store.ts:39-45 | The list becomes the old list plus one entry at the end, with the given type and message and the given id; earlier entries are unchanged. |
| Store.NotificationStore.RemoveNotification | src/app/lib/store.ts:46-49 | The list becomes `Without(old list, id)`. |
| Store.NotificationStore.ClearNotifications | src/app/lib/store.ts:50 | The list becomes empty. |
| Store.Without | src/app/lib/store.ts:48 | No entry with the id remains. Every other entry stays, as many times as it occurs, in its original relative order. |
| Store.WithoutAbsent | src/app/lib/store.ts:46-49 | Removing an id no entry has leaves the list unchanged. |
| Store.WithoutIdempotent | src/app/lib/store.ts:46-49 | Removing the same id twice is removing it once. |
| Store.AddThenRemove | src/app/lib/store.ts:39-49 | Adding an entry with a fresh id, then removing that id, restores the list. |
| Store.WithoutCommutes | src/app/lib/store.ts:46-49 | Removing two ids gives the same list in either order. |
| CookieJar.StoredValue | src/app/services/auth.ts:27 | The value a cookie write stores never contains `;`: the attributes after the first `;` are not part of it. |
| CookieJar.StoredValuePlain | src/app/services/auth.ts:27 | A value without `;` and without surrounding spaces or tabs is stored unchanged. |
| CookieJar.SetIn | src/app/services/auth.ts:23-28 | After a write, the name reads back the stored value, and a jar of valid cookies stays valid. |
| CookieJar.SetInKeepsOthers | src/app/services/auth.ts:23-28 | A write leaves every other name reading as before. |
| CookieJar.DeleteIn | src/app/services/auth.ts:41-43 | After expiring a cookie, no cookie has that name. Every other name reads as before. |
| CookieJar.SplitHeader | src/app/services/auth.ts:32 | Splitting `document.cookie` on `;` gives one fragment per cookie, in jar order. |
| CookieJar.NameKeyMatch | src/app/services/auth.ts:31-36 | A cookie's text starts with `name=` exactly when the cookie is called `name`; `tokenX` does not match `token`. |
| Auth.FirstFragmentValue | src/app/services/auth.ts:33-38 | None exactly when no fragment, once its leading spaces are stripped, starts with the key. |
| Auth.FirstFragmentValueIsFirst | src/app/services/auth.ts:33-36 | A value found is the text after the key in a fragment that matches, and no earlier fragment matches. |
| Auth.CookieValueNoSemicolon | src/app/services/auth.ts:30-39 | A value `getCookie` returns never contains `;`. |
| Auth.SpacedLookup | src/app/services/auth.ts:33-37 | Over the fragments after the first, the scan finds the first cookie of the name. |
| Auth.GetCookieReadsJar | src/app/services/auth.ts:30-39 | Over a browser jar, `getCookie(name)` is exactly the value of the first cookie of that name, or null. |
| Auth.LongerNameDoesNotMatch | src/app/services/auth.ts:31-36 | `getCookie('token')` on `tokenX=abc` is null. |
| Auth.LaterTokenMatches | src/app/services/auth.ts:33-36 | On `tokenX=abc; token=a=b`, `getCookie('token')` is the later cookie's whole value `a=b`. |
| Auth.AuthService.constructor | src/app/services/auth.ts:114 | The service starts with no user, over the given jar. |
| Auth.AuthService.SetCookie | src/app/services/auth.ts:23-28 | The jar becomes the old jar with the name set to the stored form of the value. |
| Auth.AuthService.DeleteCookie | src/app/services/auth.ts:41-43 | The jar becomes the old jar with that name expired. |
| Auth.AuthService.GetCookie | src/app/services/auth.ts:30-39 | The loop over fragments, with its space-stripping inner loop, returns `CookieValue(document.cookie, name)`. |
| Auth.StripLeadingSpaces | src/app/services/auth.ts:35 | The inner loop drops exactly the spaces at the front of a fragment. |
| Auth.AuthService.GetToken | src/app/services/auth.ts:110-112 | Returns what `getCookie('token')` reads. |
| Auth.AuthService.SetUser | src/app/services/auth.ts:116-118 | The private user becomes the given one. |
| Auth.AuthService.GetUser | src/app/services/auth.ts:120-122 | Returns the private user. |
| Auth.TokenFragment | src/app/services/auth.ts:130 | `find`: None exactly when no fragment trims to a start of `token=`. Otherwise it returns the first fragment of the list that does. |
| Auth.InterceptorAuthorization | src/app/services/auth.ts:130-133 | A header exists exactly when the extracted token is non-empty, and it is `Bearer ` plus that token. |
| Auth.InterceptorTokenShape | src/app/services/auth.ts:130 | The interceptor's token contains neither `=` nor `;`. |
| Auth.InterceptorReadsJar | src/app/services/auth.ts:130 | Over a browser jar, the interceptor's token is the `token` cookie's value cut at its first `=`. |
| Auth.InterceptorAgreesWithGetCookie | src/app/services/auth.ts:130-133 | For a non-empty token without `=`, `getCookie` and the interceptor read the same token, and the header sent is `Bearer ` plus that token. |
| Auth.InterceptorWins | src/app/services/auth.ts:131-133 | Whenever the interceptor finds a non-empty token, its header replaces any header the call passed. |
| Auth.InterceptorCutsToken | src/app/services/auth.ts:130-132 | For a token whose text before its first `=` is non-empty, the header sent carries only that text. |
| Auth.InterceptorEmptyCutFallsBack | src/app/services/auth.ts:128-134 | For a token that starts with `=`, the interceptor sets no header, so the header the call passed is the one sent. |
| Auth.RoleMarker | src/app/services/auth.ts:54-57 | The role marker is always `admin` or `user`. |
| Auth.RoleNamesAreUsers | src/app/services/auth.ts:54-57 | Roles `1` and `'1'` give `admin`. `'admin'`, `0` and `2` give `user`. |
| Auth.LogoutEffect | src/app/services/auth.ts:65-69 | After logout, the token reads as absent and the user is null. Every other cookie, `role` included, reads as before. |
| Auth.FailedLoginChangesNothing | src/app/services/auth.ts:45-49 | A rejected login call throws and leaves jar and user unchanged. |
| Auth.LoginReturnsData | src/app/services/auth.ts:62 | When `login` does not throw, it returns the response data unchanged. |
| Auth.LoginWithoutToken | src/app/services/auth.ts:50-62 | Without a truthy token, `login` returns the data and stores nothing. |
| Auth.LoginThrowsWithTokenStored | src/app/services/auth.ts:50-55 | A truthy token with a nullish user makes `login` throw, with the token cookie already stored and the user unchanged. |
| Auth.LoginStoresSession | src/app/services/auth.ts:50-61 | A login with a token stores the token, the role marker and the user, and leaves every other cookie as it was. |
| Auth.LoginThenGuard | src/app/services/auth.ts:52 | After a login that stored a non-empty token, the guard sends `/` to `/dashboard`. |
| Auth.LogoutThenGuard | src/app/services/auth.ts:65-67 | After logout, the guard sends every dashboard path to `/`. |
| Auth.CurrentUserWithoutToken | src/app/services/auth.ts:73-75 | Without a non-empty token cookie, `getCurrentUser` returns null, sends nothing and changes nothing. |
| Auth.CurrentUserWithToken | src/app/services/auth.ts:71-88 | With a token, it sends `Bearer ` plus the interceptor's token. On success it stores and returns the fetched user. On failure it logs out and returns null. |
| Auth.SentTokenWhole | src/app/services/auth.ts:77-81 | For a token without `=`, the request carries the whole cookie value. |
| Auth.ValidateResetToken | src/app/services/auth.ts:94-101 | True exactly when the call succeeds. It never throws. |
| Auth.AuthService.Login | src/app/services/auth.ts:45-63 | The outcome, the new jar and the new user are those `LoginEffect` describes. |
| Auth.AuthService.Logout | src/app/services/auth.ts:65-69 | The new jar and user are those `LogoutEffect` describes. |
| Auth.AuthService.GetCurrentUser | src/app/services/auth.ts:71-88 | The result, the header sent and the new state are those `CurrentUserEffect` describes. |
| Auth.AuthService.FetchCurrentUser | src/app/services/auth.ts:77-87 | The request carries the header the interceptor and the explicit `Bearer` token settle on. A rejected request logs out and gives null. An answered one stores the user, leaves the cookies as they were and gives the data. |
| BlacklistService.SeparatedAt | src/app/services/blacklist.ts:6 | None exactly when `; token=` occurs nowhere. Otherwise it gives the first position where it occurs. |
| BlacklistService.RegexToken | src/app/services/blacklist.ts:6 | There is a match exactly when the cookie starts with `token=` or contains `; token=`. The capture never contains `;`. At the start, the capture is the text up to the first `;`. Otherwise the capture is the text after the leftmost `; token=`, up to the next `;`. |
| BlacklistService.RegexNeedsSeparator | src/app/services/blacklist.ts:6 | `a=token=x` and `a=1;token=x` (no space) give no match. |
| BlacklistService.RegexFindsSeparated | src/app/services/blacklist.ts:6 | `a=1; token=x; b=2` gives `x`. |
| BlacklistService.RegexReadsJar | src/app/services/blacklist.ts:5-8 | Over a browser jar, the regex reads exactly the `token` cookie's value. |
| BlacklistService.RegexAgreesWithGetCookie | src/app/services/blacklist.ts:5-8 | Over a browser jar, the regex and `getCookie('token')` give the same answer. |
| BlacklistService.TokenFromCookie | src/app/services/blacklist.ts:5-8 | No token exactly when the regex fails. Otherwise it is the decoded capture, or a URI error, raised inside each operation's `try`. |
| BlacklistService.RequestAuthorization | src/app/services/blacklist.ts:41 | An explicit header exists exactly when the token is non-empty, and it is `Bearer ` plus the token. |
| BlacklistService.HeaderAgreesWithInterceptor | src/app/services/blacklist.ts:40-42 | For a plain token, the explicit header and the interceptor's header agree, and that header is sent. |
| BlacklistService.CapitalizedStatus | src/app/services/blacklist.ts:50 | The result is always a non-empty string. A non-empty string status keeps its length and its tail and has its first character upper-cased. Anything else becomes `'Active'`. |
| BlacklistService.CapitalizedStatusIdempotent | src/app/services/blacklist.ts:50 | Capitalising twice is capitalising once. |
| BlacklistService.CapitalizedStatusKeeps | src/app/services/blacklist.ts:50 | An already capitalised status is kept. |
| BlacklistService.PlainStatus | src/app/services/blacklist.ts:71 | `status \|\| 'Active'`: always truthy; a truthy status is kept. |
| BlacklistService.Record | src/app/services/blacklist.ts:65-72 | Id, plate, adder, date and reason are copied from the entry; the status is the one given. |
| BlacklistService.GetBlacklists | src/app/services/blacklist.ts:37-56 | `[]` when the token does not decode, the call fails, the body is nullish, `data.data` is not an array or an element cannot be read. Otherwise one record per element, in order. |
| BlacklistService.GetBlacklistsCopies | src/app/services/blacklist.ts:43-51 | Record `i` comes from element `i`: plate and reason are copied, and the status is capitalised. |
| BlacklistService.EntryEnvelope | src/app/services/blacklist.ts:64 | `data.blacklist \|\| data`: never nullish; the unwrapped record when `blacklist` is truthy. |
| BlacklistService.CreatedEnvelope | src/app/services/blacklist.ts:85 | `data.data \|\| data.blacklist \|\| data`, tried in that order, and never nullish. |
| BlacklistService.StoredEntry | src/app/services/blacklist.ts:58-77 | `getBlacklist`, and `updateBlacklist` at lines 100-119: null exactly when the token does not decode, the call fails or the body is nullish. Otherwise the unwrapped record with a truthy status. |
| BlacklistService.CreateBlacklist | src/app/services/blacklist.ts:79-98 | Null exactly when the token does not decode, the call fails or the body is nullish. Otherwise the unwrapped record with a capitalised status. |
| BlacklistService.EnvelopesDiffer | src/app/services/blacklist.ts:85 | A record wrapped in `data` is unwrapped by create, but not by get or update. |
| BlacklistService.DeleteBlacklist | src/app/services/blacklist.ts:121-132 | True exactly when the token decodes and the call succeeds. |
| UserService.RoleLabel | src/app/services/user.ts:48 | Code `1` gives `Admin` and code `2` gives `User`, compared strictly. Anything else gives `String(role)`. |
| UserService.OtherCodesPrintDigits | src/app/services/user.ts:48 | Any other integer code prints as its decimal digits, starting with a digit or `-`. |
| UserService.UserCodeIsZero | src/app/services/user.ts:7-10 | The enum's `USER = 0` is labelled `0`, not `User`. |
| UserService.RoleLabelInjective | src/app/services/user.ts:48 | Two integer codes with the same label are the same code. |
| UserService.MapUser | src/app/services/user.ts:44-50 | `name` comes from `username`. Id and e-mail are copied, the role is labelled, and the status is `Active`. |
| UserService.GetUsers | src/app/services/user.ts:38-55 | `[]` when the call fails, the body is nullish, `users` is not an array or an element cannot be read. Otherwise one mapped user per element, in order. |
| UserService.GetUsersAllActive | src/app/services/user.ts:49 | Every listed user has status `Active`. |
| UserService.GetUser | src/app/services/user.ts:57-73 | Null exactly when the call fails or the body is falsy. Otherwise the mapped body. |
| UserService.BuildPayload | src/app/services/user.ts:78-90 | The payload has exactly `username`, `email`, `password` and `role` copied from the input, plus `status` exactly when it is truthy. |
| UserService.PayloadDetermined | src/app/services/user.ts:78-90 | The payload description admits one payload per input. |
| UserService.WireFields | src/app/services/user.ts:91 | The body sent leaves out the `undefined` fields and keeps the others unchanged. |
| UserService.OptionalFieldsDropped | src/app/services/user.ts:84-91 | A user created without role and status sends neither field. |
| UserService.CreateUser | src/app/services/user.ts:75-97 | A nullish input sends nothing and returns null. Otherwise it sends the payload and returns the body, or null on failure. |
| UserService.UpdateUser | src/app/services/user.ts:99-107 | The body on success, and null on failure. |
| UserService.DeleteUser | src/app/services/user.ts:109-117 | True exactly when the call succeeds. |
| Pagination.TotalPages | src/app/users/page.tsx:38-39 | `Math.ceil(n / 5)`: zero exactly for no entries, and otherwise the least `t` with `5(t-1) < n <= 5t`. |
| Pagination.TotalPagesUnique | src/app/users/page.tsx:39 | That property determines the page count. |
| Pagination.PageOf | src/app/users/page.tsx:40 | A page never holds more than 5 entries. A page from 1 on is empty exactly when it lies past the last page. Every page but the last is full. Entry `i` of page `p` is list entry `5(p-1)+i`. |
| Pagination.PageIsStretch | src/app/users/page.tsx:40 | A page is the list's stretch from `5(p-1)`, cut at the list's end. |
| Pagination.FirstPagesPrefix | src/app/users/page.tsx:40 | Pages 1 to `k` together are the list's first `5k` entries. |
| Pagination.PagesCoverList | src/app/users/page.tsx:38-40 | Pages 1 to `totalPages` together are exactly the list. |
| Pagination.EntryOnPage | src/app/users/page.tsx:38-40 | Entry `i` appears on page `i/5+1`, at place `i%5`. |
| Pagination.StepsStayInRange | src/app/users/page.tsx:133-147 | Next is enabled exactly before the last page, or past the last page of a non-empty list. From a page in range, neither button leads out of range. |
| Pagination.PageLabel | src/app/users/page.tsx:140 | `totalPages \|\| 1`: at least 1, and the page count whenever there are pages. |
| Pagination.TableBody | src/app/users/page.tsx:107-126 | The "none found" message exactly when the page is empty. Otherwise the page's rows. |
| UsersPage.FilteredUsers | src/app/users/page.tsx:31-35 | The result is a subsequence of the users. A user is in it exactly when its role and status pass their filters and the lower-cased search occurs in its lower-cased name or e-mail. Each user that passes keeps all its copies, and no other user survives. |
| UsersPage.NoFilterKeepsAll | src/app/users/page.tsx:31-35 | `All`/`All` with an empty search keeps every user. |
| UsersPage.SearchIgnoresCase | src/app/users/page.tsx:34 | Searching for the lower-cased text gives the same list. |
| UsersPage.FilterTwice | src/app/users/page.tsx:31-35 | Filtering the filtered list again changes nothing. |
| UsersPage.FirstView | src/app/users/page.tsx:8-13 | The four seed users are all shown, on one page. |
| UsersPage.UsersView.constructor | src/app/users/page.tsx:20-24 | Empty search, both filters `All`, page 1, the seed users. |
| UsersPage.UsersView.Body | src/app/users/page.tsx:107-126 | "No users found." exactly when the page lies past the last. Otherwise 1 to 5 rows, the page's users. |
| UsersPage.UsersView.Label | src/app/users/page.tsx:140 | Shows the page and `totalPages \|\| 1`. |
| UsersPage.UsersView.SetSearch | src/app/users/page.tsx:73 | The search changes; the filters and the page stay as they are. |
| UsersPage.UsersView.SetRoleFilter | src/app/users/page.tsx:80 | The role filter changes; the rest, the page included, stays. |
| UsersPage.UsersView.SetStatusFilter | src/app/users/page.tsx:87 | The status filter changes; the rest, the page included, stays. |
| UsersPage.UsersView.ClickPrev | src/app/users/page.tsx:133-139 | The page goes down by one unless it is 1, so it never drops below 1. |
| UsersPage.UsersView.ClickNext | src/app/users/page.tsx:141-147 | The page goes up by one unless it is the last page or there are no pages. |
| BlacklistPage.FilteredEntries | src/app/black-lists/page.tsx:41-47 | The result is a subsequence of the entries. An entry is in it exactly when its status passes and the lower-cased search occurs in the plate, the reason or the adder's name. Each entry that passes keeps all its copies, and no other entry survives. |
| BlacklistPage.PresenceTestsRedundant | src/app/black-lists/page.tsx:43-45 | For text fields, the `reason &&` and `username &&` tests change no answer. |
| BlacklistPage.NoFilterKeepsAll | src/app/black-lists/page.tsx:41-47 | `All` with an empty search keeps every entry. |
| BlacklistPage.SearchByAdder | src/app/black-lists/page.tsx:45 | Searching `OFFICER` finds exactly the entry added by `officer1`. |
| BlacklistPage.Cell | src/app/black-lists/page.tsx:123 | `x \|\| '-'`: never empty. It shows non-empty text as it is and empty text as `-`. |
| BlacklistPage.RowCells | src/app/black-lists/page.tsx:120-125 | Plate, adder and date are shown as they are. Reason and status are never blank, and are shown as they are when non-empty. |
| BlacklistPage.BadgeIsGreen | src/app/black-lists/page.tsx:125 | The badge is green exactly for `Active`. |
| BlacklistPage.BlacklistView.constructor | src/app/black-lists/page.tsx:31-34 | Empty search, filter `All`, page 1, the seed entries. |
| BlacklistPage.BlacklistView.Body | src/app/black-lists/page.tsx:113-133 | "No blacklist entries found." exactly when the page lies past the last. Otherwise 1 to 5 rows, each the cells of the corresponding visible entry. |
| BlacklistPage.BlacklistView.Label | src/app/black-lists/page.tsx:147 | Shows the page and `totalPages \|\| 1`. |
| BlacklistPage.BlacklistView.SetSearch | src/app/black-lists/page.tsx:85 | The search changes; the filter and the page stay as they are. |
| BlacklistPage.BlacklistView.SetStatusFilter | src/app/black-lists/page.tsx:92 | The filter changes; the search and the page stay as they are. |
| BlacklistPage.BlacklistView.ClickPrev | src/app/black-lists/page.tsx:140-146 | The page goes down by one unless it is 1. |
| BlacklistPage.BlacklistView.ClickNext | src/app/black-lists/page.tsx:148-154 | The page goes up by one unless it is the last page or there are no pages. |
| NotificationView.TypeIcon | src/components/notification.tsx:26-53 | `warning`, `error` and `success` each get their own icon, each exactly for its type. Every other type gets the default icon. |
| NotificationView.InfoAndEmptyShareDefault | src/components/notification.tsx:46-51 | `info` and the empty type both get the default icon. |
| NotificationView.StoreTypesIcons | src/components/notification.tsx:27-51 | Of the store's four types, only `info` gets the default icon; the other three get distinct icons. |
| NotificationView.Merged | src/components/notification.tsx:90-96 | The keys are the old keys plus every listed id. An old key keeps its flag, and every new key is open. |
| NotificationView.MergeNothingNew | src/components/notification.tsx:91-95 | With no new id, the map is unchanged. |
| NotificationView.MergeIdempotent | src/components/notification.tsx:90-96 | Merging the same list twice is merging it once. |
| NotificationView.MergeNeverReopens | src/components/notification.tsx:93 | A closed card stays closed after a merge. |
| NotificationView.MergedShowsNew | src/components/notification.tsx:92-93 | A listed id that was not in the map is open after the merge. |
| NotificationView.NotificationStack.constructor | src/components/notification.tsx:86 | The open map starts empty. |
| NotificationView.NotificationStack.MergeOpen | src/components/notification.tsx:88-97 | The copy-and-assign loop leaves the map equal to `Merged(old map, notifications)`. |
| NotificationView.NotificationStack.SetOpen | src/components/notification.tsx:120-121 | Only that id's flag changes, to the given value. |
| NotificationView.NotificationStack.IsOpen | src/components/notification.tsx:119 | Open exactly when the id is in the map with a true flag; a missing id reads as closed. |
| NotificationView.NotificationStack.Render | src/components/notification.tsx:112-130 | Nothing for an empty list. Otherwise one card per notification, in order, with its id, the icon for its type, its message and its open flag. |

## Left out

- CookieJar.ValidName admits the empty name, which a browser writes as the bare value rather than
  `=value`. The model renders such a cookie as `=value`; the session code only ever writes the
  names `token` and `role`, so no modelled path creates one.
- HTTP transport (axios, URLs, request bodies, status codes) is not modelled. Each call is an abstract
  `Ok(data) | Failed` input, and a failed call and a thrown TypeError land in the same fallback.
- Cookie attributes, expiry dates and `Date` are not modelled. An expired cookie is removed from the jar.
- `decodeURIComponent` is a function parameter that may fail; percent-decoding itself is not modelled.
- Navigation (`window.location.href`, `router.push`) and `console` logging are not modelled. They have
  no effect on the modelled state.
- The notification timers (auto-dismiss after 3 s, removal after the 300 ms fade) are not modelled,
  because they depend on time. `setOpen(false)` is modelled without the removal it schedules.
- Notification ids come from `Math.random`. They are a parameter of `AddNotification`, and the model
  claims nothing about their uniqueness.
- `toLowerCase` and `toUpperCase` are modelled for ASCII letters only. So are `charAt(0).toUpperCase()`
  in the status capitalisation and the search.
- The middleware's `config.matcher` is not modelled, because routing configuration belongs to the framework.
- `forgotPassword` and `resetPassword` are not modelled, because each is a single POST with no client state.
- The other resource services and all presentation components are not modelled. They make
  single calls or render static markup.
- The list pages' modal and form state are not modelled, because they have no effect on the lists.
- React rendering and effect scheduling are not modelled. The stack's merge runs when called.
- Floating-point numbers are not modelled: a JSON number is an integer. Built-in properties of primitives,
  such as `"abc".length`, read as `undefined`.
- The request bodies of `createBlacklist`/`updateBlacklist`/`updateUser` are passed through and
  not modelled.
- Requests of the user service carry only the interceptor's header. `Auth.InterceptorAuthorization` states that header.
- BlacklistPage.BlacklistRow: an absent `reason` or adder name is the empty text. The model does not
  distinguish `undefined` from `''`, which the page's tests treat alike.
- Auth.AuthService.GetUser: states only that it returns the private field. The accessor has no
  other promise.
