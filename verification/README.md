# Narayane Sena membership and referral ledger in Dafny

This project models the membership and referral ledger of Narayane Sena.
The ledger exists twice in the repository: once as an Express/TypeScript
server with a React client, and once as a WordPress theme in PHP. In both,
members register, optionally under another member's referral code. They buy a
membership for 5000 rupees, or 2000 with the coupon `SAVE3K`. When the
membership is confirmed (server) or approved by an administrator
(WordPress), the member who referred them earns 2000. Dashboards and the
admin pages show sums and counts over the earnings and memberships.

The database is an immutable store value. The server's store is
`Schema.Store`; the theme's is `WpSchema.WpStore`, holding users with their
meta, memberships, earnings and QR codes. Each request handler is a pure
function from a store to `Ok` with the new store, or `Err` with the error the
handler answers with. An error leaves the store as it was, because every
handler stops at its first error. Read paths are folds over sequences
(`Folds`): `SUM`, `COUNT`, `ORDER BY ... DESC` (a stable insertion sort),
`LIMIT/OFFSET`, and "newest row satisfying p".

Ids are handed out by a counter (`nextId`), and the clock is a parameter
(`now`). Random or hashed referral codes are parameters too (`randomText`,
`md5Hex`). Statuses on the server are an enum with an `Other(name)` case,
because the admin status override accepts any text. In the theme they are
plain strings.

Modules, in dependency order:

- `Wrappers`: `Option` and `Result`.
- `Text`: ASCII case mapping, substring search (`includes`), and PHP `empty()`.
- `Folds`: the generic table operations and their lemmas.
- `Schema`: the server's records, error kinds, constants and table constraints (`Valid`).
- `Storage`: the server's `DbStorage` methods.
- `Pricing`: coupon resolution on the server, in PHP and in the purchase page.
- `Auth`: session guards, registration and the admin bootstrap.
- `MembershipRoutes`, `EarningsRoutes`, `AdminRoutes`: the Express handlers.
- `AdminTable`: the admin members table in the browser.
- `WpSchema`, `WpQueries`, `WpHandlers`: the theme's meta helpers, read queries and AJAX handlers.

## Behaviour worth knowing

- Confirmation pays on every call. `POST /api/membership/confirm`
  (server/routes.ts:52-82) sets the member's membership to "active" whatever
  its status, and pays the referrer again each time. It does not check for a
  referrer who is the member themself. `ns_ajax_approve_membership`
  (wordpress-theme/narayane-sena/inc/ajax-handlers.php:110-171) likewise never
  checks the row's status or earlier payouts. The theme's own admin page
  offers Approve only on pending rows
  (wordpress-theme/narayane-sena/templates/admin-dashboard.php:68-84). The
  guarded behaviour is modelled separately as `MembershipRoutes.ConfirmOnce`
  and `WpHandlers.WpApproveOnce` (see Findings).
- Earnings windows have only a lower bound. The daily and weekly queries
  (server/storage.ts:155-187) select `earnedAt >= now - d` with no upper
  bound, so an earning dated after `now` is counted.
- Purchase guard. The server refuses a purchase when any membership exists.
  The theme refuses only when the member's meta says "active", so a pending
  or rejected member can file another request.
- Rejection in the theme. A rejection rewrites only the membership row, not
  the member's meta. A member approved and later rejected still counts as
  holding an active membership (`WpHandlers.RejectAfterApproveKeepsAccess`).

## Model

| member | source | states |
|---|---|---|
| Schema.ParseStatus | shared/schema.ts:27 | Reading a stored status text back gives a canonical status whose text is exactly that text. |
| Schema.ParseStatusName | shared/schema.ts:27 | Parsing the name of a canonical status gives that status back (round trip). |
| Schema.StatusNameInjective | shared/schema.ts:27 | Two canonical statuses have the same stored text exactly when they are equal. |
| Storage.GetUser | server/storage.ts:55-61 | Found users are in the table with the requested id. Nothing is found exactly when no user has that id. |
| Storage.GetUserExact | server/storage.ts:55-61 | With unique ids, looking up a user's id returns that user. |
| Storage.GetUserByUsername | server/storage.ts:63-69 | Finds a user with the given username. Nothing is found exactly when no user has it. |
| Storage.GetUserByReferralCode | server/storage.ts:71-77 | Finds a user holding the code. Nothing is found exactly when no user holds it. |
| Storage.ReferralCodeLookupExact | server/storage.ts:71-77 | With unique codes, the lookup returns the one holder of the code. |
| Storage.GetMembership | server/storage.ts:104-110 | Finds one of the user's memberships. Nothing is found exactly when the user has none. |
| Storage.GetAllUsers | server/storage.ts:99-102 | A permutation of the users, newest first. |
| Storage.GetAllMemberships | server/storage.ts:134-137 | A permutation of the memberships, newest first. |
| Storage.CreateUser | server/storage.ts:79-85 | The insert fails exactly when it would break a users constraint: duplicate username, duplicate or overlong code, or overlong referrer code. Otherwise one user is appended with the next id. |
| Storage.CreateUserKeepsValid | shared/schema.ts:7-21 | A successful user insert keeps every table constraint. |
| Storage.NewUserKeepsUsersValid | shared/schema.ts:9-19 | Appending a user with a fresh id, a new username and a new code that fits keeps the users constraints. |
| Storage.IsUserAppend | shared/schema.ts:26 | Appending users never breaks a foreign key to an existing user. |
| Storage.CreateMembership | server/storage.ts:112-120 | Fails exactly when the owner is not a user or the status text is longer than the 20 characters its column holds (shared/schema.ts:27). Otherwise one row with the given fields is appended with the next id. |
| Storage.CreateMembershipKeepsValid | shared/schema.ts:24-32 | A membership insert with a canonical status of at most 20 characters keeps every constraint. |
| Storage.CreateEarning | server/storage.ts:147-153 | Fails exactly when the referrer or the referred member is not a user. Otherwise one earning is appended. |
| Storage.CreateEarningKeepsValid | shared/schema.ts:35-41 | An earning insert keeps every constraint. |
| Storage.UpdateMembershipStatus | server/storage.ts:122-132 | Rows with the id get the new status. All other rows and tables are unchanged. The returned row is none exactly when the id is absent. |
| Storage.UpdateMembershipStatusKeepsValid | shared/schema.ts:27 | A status update with a canonical status of at most 20 characters keeps every constraint. |
| Storage.GetMembershipAfterStatusUpdate | server/storage.ts:104-132 | A status update keeps whether a user has a membership. The row found afterwards is the row found before, with only its status possibly changed. The database promises this only while the user has one membership, which the purchase guard keeps (see Left out). |
| Storage.UpdateUserApproval | server/storage.ts:87-97 | Only the user with the id changes, and only its approval flag. The result is none exactly when no user has the id. |
| Storage.GetUserEarnings | server/storage.ts:139-145 | Exactly the user's earnings, as many as their count, newest first. |
| Storage.TotalEarnings | server/storage.ts:189-196 | The lifetime total is 0 for a user without earnings. |
| Storage.EarningsSince | server/storage.ts:155-187 | A window total is 0 when the user has no earning dated at or after the window's lower bound. |
| Storage.DailyEarnings | server/storage.ts:155-170 | The daily total is 0 when the user has no earning dated at or after one day before `now`. |
| Storage.WeeklyEarnings | server/storage.ts:172-187 | The weekly total is 0 when the user has no earning dated at or after seven days before `now`. |
| Storage.TotalEarningsAppend | server/storage.ts:189-196 | A new earning adds its amount to its owner's total, and nothing to anyone else's. |
| Storage.EarningsSinceAppend | server/storage.ts:155-187 | A new earning adds its amount to a window total when it is the owner's and falls in the window. |
| Storage.WindowsNested | server/storage.ts:155-196 | With non-negative amounts: daily <= weekly <= lifetime, for any `now`. |
| Storage.GetAdminSetting | server/storage.ts:199-205 | Finds a setting with the key. Nothing is found exactly when none has it. |
| Storage.UpdatedSettingFound | server/storage.ts:213-219 | Updating an existing key keeps keys unique, and the key then reads the new value. |
| Storage.InsertedSettingFound | server/storage.ts:221-227 | Inserting an absent key keeps keys unique, and the key then reads the inserted row. |
| Storage.SetAdminSetting | server/storage.ts:207-229 | After the upsert exactly one setting has the key, with the new value. Settings for other keys are neither lost nor added. |
| Pricing.ServerQuote | server/routes.ts:28-34 | The price is 2000 or 5000. It is 2000 exactly when a code is given that lower-cases to "save3k". A coupon is recorded exactly when the price is 2000, and it is the non-empty code as typed. |
| Pricing.PhpPrice | wordpress-theme/narayane-sena/functions.php:224-233 | The price is always 2000 or 5000. |
| Pricing.PhpDiscountIff | wordpress-theme/narayane-sena/functions.php:224-233 | The theme charges 2000 exactly for the codes that spell "SAVE3K" in any mix of letter case, and 5000 for every other code. |
| Pricing.PhpReferralAmount | wordpress-theme/narayane-sena/functions.php:238-240 | The referral payout is the constant 2000. |
| Pricing.PricesAgree | wordpress-theme/narayane-sena/functions.php:224-233 | For every code, the server's lower-case test and the theme's upper-case test give the same price. Both give 5000 for no code. |
| Pricing.InitialForm | client/src/components/MembershipPurchase.tsx:11-13 | The page opens with an empty code, no coupon applied and price 5000. |
| Pricing.EditCoupon | client/src/components/MembershipPurchase.tsx:11 | Typing changes only the code text. |
| Pricing.ApplyCoupon | client/src/components/MembershipPurchase.tsx:16-31 | A code lower-casing to "save3k" sets price 2000 and the applied flag. Any other code leaves the form as it was. |
| Pricing.FormStaysConsistent | client/src/components/MembershipPurchase.tsx:11-31 | Every reachable form has either the flag set and price 2000, or the flag clear and price 5000. |
| Pricing.ApplyCouponIdempotent | client/src/components/MembershipPurchase.tsx:16-20 | Applying twice is the same as applying once. |
| Pricing.PreviewMatchesServer | client/src/components/MembershipPurchase.tsx:16-31 | The price the page previews for a code is the price the server charges for it. |
| Auth.AdminGuardImpliesUserGuard | server/auth.ts:171-184 | Every request the admin guard admits, the user guard admits. |
| Auth.GeneratedReferralCode | server/auth.ts:94 | The code has no lower-case letters and at most 12 characters. It has exactly 12 when the random text is long enough. |
| Auth.ReferredByOf | server/auth.ts:104 | The stored referrer code is the code given when it is present and non-empty, and none otherwise. |
| Auth.Register | server/auth.ts:75-129 | MissingFields exactly when one of username, password, email or phone is missing or empty. UsernameExists exactly when they are all present and the name is taken. StorageFailure exactly when the request is complete, the name is free, and the generated code is already held or the referrer code is longer than 12 characters. On success the new user is appended with the given fields, not admin, not approved, with the generated code and the raw referrer code. |
| Auth.RegisterKeepsValid | server/auth.ts:75-129 | A successful registration keeps every constraint. A referrer code longer than 12 characters makes registration fail. |
| Auth.InitializeAdmin | server/auth.ts:187-215 | With a user named "admin" the store is unchanged. Otherwise one approved admin user "admin" with code "ADMIN" is appended, or the store is unchanged if the insert fails. The bootstrap touches only the users table and the id counter. |
| Auth.InitializeAdminIdempotent | server/auth.ts:189-205 | Running the bootstrap twice is the same as running it once. |
| Auth.InitializeAdminYieldsOneAdmin | server/auth.ts:187-215 | On a valid store where "ADMIN" is free, the result is valid and has exactly one user named "admin". |
| Auth.UniqueNameCountsOnce | shared/schema.ts:9 | With unique usernames, a present name is counted exactly once. |
| MembershipRoutes.Purchase | server/routes.ts:16-50 | Unauthorized without a session. MembershipExists when the member has any membership. Otherwise one "pending" row is added with original price 5000 and the quoted price and coupon. |
| MembershipRoutes.PurchaseKeepsValid | server/routes.ts:37-43 | A successful purchase keeps every constraint. |
| MembershipRoutes.PurchaseThenLookup | server/routes.ts:21-25 | After a purchase the member's lookup finds the new row. A second purchase is refused with MembershipExists. |
| MembershipRoutes.ReferrerOf | server/routes.ts:66-68 | The referrer is a user whose code is the member's non-empty referrer code. |
| MembershipRoutes.ReferrerResolvesIff | server/routes.ts:66-68 | With unique ids and codes, a referrer is found exactly when the member's referrer code is non-empty and held by someone. It is that user. |
| MembershipRoutes.Confirm | server/routes.ts:52-82 | Unauthorized without a session, MembershipNotFound without a membership. Otherwise the membership becomes "active" whatever its status. Exactly one earning of 2000 for (referrer, member) is appended exactly when the referrer code resolves; otherwise earnings are unchanged. |
| MembershipRoutes.ConfirmKeepsValid | server/routes.ts:52-82 | A successful confirmation keeps every constraint. |
| MembershipRoutes.ConfirmCreditsReferrer | server/routes.ts:66-75 | A paying confirmation raises the referrer's lifetime, daily and weekly totals by exactly 2000 at that instant. |
| MembershipRoutes.MyMembership | server/routes.ts:84-93 | Unauthorized without a session. Otherwise the member's membership, or none exactly when they have none. |
| MembershipRoutes.ConfirmThenActive | server/routes.ts:52-93 | After a confirmation, the member's membership reads "active". With one membership per user, as the purchase guard keeps, this is the row that was confirmed. |
| MembershipRoutes.ConfirmTwicePaysTwice | server/routes.ts:52-82 | As written, a second confirmation by a referred member succeeds and pays the referrer again. Two earnings then name the same referred member. |
| MembershipRoutes.ConfirmOnce | server/routes.ts:52-82 | Corrected confirmation: InvalidTransition exactly when the membership is not "pending". On success the member's membership becomes "active"; other memberships, users and settings are unchanged. It pays only a resolved referrer other than the member, and only if nobody was paid for the member yet; the id counter advances exactly when it pays. |
| MembershipRoutes.ConfirmOnceKeepsOnePayout | server/routes.ts:66-75 | The corrected confirmation keeps at most one earning per referred member. |
| MembershipRoutes.ConfirmOnceRefusesRepeat | server/routes.ts:52-82 | After a corrected confirmation, a second one fails with InvalidTransition. |
| MembershipRoutes.ConfirmOnceAgreesOnFirst | server/routes.ts:52-82 | The corrected and the written confirmation agree on a first confirmation of a pending membership by an unpaid, non-self-referred member. |
| EarningsRoutes.MyEarnings | server/routes.ts:139-148 | Unauthorized exactly without a session. Otherwise exactly the member's earnings, newest first. |
| EarningsRoutes.MyEarningsStats | server/routes.ts:150-163 | Unauthorized exactly without a session. The total is the sum of the member's earnings, daily <= weekly <= total for non-negative amounts, and all three are 0 for a member without earnings. |
| EarningsRoutes.ListingMatchesCount | server/routes.ts:139-148 | The listing has as many rows as the member has earnings. |
| AdminRoutes.StatusLabel | server/routes.ts:186 | The status column is never empty. It is "no-membership" exactly when there is no membership or its text is empty or "no-membership"; otherwise it is the membership's status text. |
| AdminRoutes.UserRow | server/routes.ts:172-189 | A row copies the user's fields. Its referrals are the count of the user's earnings and its earnings their sum. |
| AdminRoutes.AdminUsers | server/routes.ts:166-198 | Forbidden exactly for non-admins. Otherwise one row per user, newest first. Every user's row is present and every row is some user's. |
| AdminRoutes.RowsCoverUsers | server/routes.ts:171-191 | Each listed user has its row in the listing. |
| AdminRoutes.SetApproval | server/routes.ts:200-220 | Forbidden for non-admins. Otherwise only the user with the id changes, to the requested approval. |
| AdminRoutes.SetApprovalLastWins | server/routes.ts:200-220 | Approving and then rejecting, or the reverse, is the same as only the last call. |
| AdminRoutes.SetApprovalKeepsValid | server/routes.ts:200-220 | Approval changes keep every constraint. |
| AdminRoutes.OverrideMembershipStatus | server/routes.ts:222-233 | Forbidden for non-admins. A status text longer than 20 characters fails when a row has the id. Otherwise rows with the id take the given text as their status. |
| AdminRoutes.OverrideKeepsValid | server/routes.ts:222-233 | A successful override keeps every constraint. |
| AdminRoutes.AdminStats | server/routes.ts:308-331 | Forbidden for non-admins. totalUsers is the number of users, and activeMembers the number of memberships whose text is "active". |
| AdminRoutes.SumOfTotalsSelects | server/routes.ts:315-320 | Adding up per-user totals is summing the earnings owned by any of those users. |
| AdminRoutes.PlatformEarningsIsLedgerTotal | server/routes.ts:315-320 | On a valid store, platformEarnings is the sum of the whole earnings ledger. |
| AdminRoutes.ActiveTextIsActive | server/routes.ts:314 | On canonical statuses, the text "active" identifies the Active status. |
| AdminTable.SearchRows | client/src/components/AdminUsersTable.tsx:34-38 | The shown rows are a subsequence of the listing. A row is shown exactly when the lower-cased query occurs in its lower-cased username, email or full name. |
| AdminTable.EmptySearchShowsAll | client/src/components/AdminUsersTable.tsx:34-38 | An empty query shows every row, since every row has a username. |
| AdminTable.SearchIgnoresCase | client/src/components/AdminUsersTable.tsx:34-38 | Upper-casing or lower-casing the query changes nothing. |
| AdminTable.LongerQueryNarrows | client/src/components/AdminUsersTable.tsx:34-38 | A row shown for a query is shown for every substring of that query. |
| AdminTable.StatusVariant | client/src/components/AdminUsersTable.tsx:74-85 | "active" gives default and "expired" gives destructive. Every other text gives secondary. |
| AdminTable.ListedVariant | client/src/components/AdminUsersTable.tsx:74-85 | In the listing, a member is drawn "default" exactly when their membership is Active. A member without one is drawn "secondary". |
| WpSchema.MetaValue | wordpress-theme/narayane-sena/inc/template-functions.php:16-18 | An unset meta key reads as the empty string. |
| WpSchema.UserMeta | wordpress-theme/narayane-sena/functions.php:245-254 | An unknown user's meta reads as empty. A non-empty value is that user's stored meta. |
| WpSchema.UserMetaExact | wordpress-theme/narayane-sena/functions.php:245-254 | With unique ids, a user's meta is read from that user. |
| WpSchema.RegistrationCode | wordpress-theme/narayane-sena/functions.php:129 | The code has at most 8 characters and no lower-case letters. It has exactly 8 for a full digest, and upper-case hex digits for a hex digest. |
| WpSchema.RegistrationMeta | wordpress-theme/narayane-sena/functions.php:127-133 | A new user gets the drawn code, status "pending" and membership "inactive". Every other key is untouched. |
| WpSchema.LoginRedirect | wordpress-theme/narayane-sena/functions.php:139-148 | A failed login keeps the target. Otherwise the admin dashboard exactly when the user is an administrator or has a non-empty `ns_is_admin`, and the user dashboard otherwise. |
| WpQueries.PaidTotal | wordpress-theme/narayane-sena/inc/template-functions.php:23-33 | 0 when the member has no paid earnings. |
| WpQueries.PendingTotal | wordpress-theme/narayane-sena/inc/template-functions.php:38-48 | 0 when the member has no pending earnings. |
| WpQueries.ReferralCount | wordpress-theme/narayane-sena/inc/template-functions.php:53-63 | Counts the member's earnings of every status. It is 0 exactly when they have none. |
| WpQueries.EarningsSplitByStatus | wordpress-theme/narayane-sena/inc/template-functions.php:23-48 | While a member's earnings are all pending or paid, paid + pending equals everything they earned. |
| WpQueries.EarningsHistory | wordpress-theme/narayane-sena/inc/template-functions.php:68-82 | min(limit, count) of the member's earnings, each at most as often as it occurs, newest first. Every earning of the member left out is no newer than any row returned. All of them when the limit allows. |
| WpQueries.LatestMembership | wordpress-theme/narayane-sena/inc/template-functions.php:139-147 | None exactly when the member has no request. Otherwise one of their requests with the latest creation time. |
| WpQueries.ActiveQR | wordpress-theme/narayane-sena/inc/template-functions.php:87-94 | None exactly when no QR code is active. Otherwise an active code uploaded no earlier than any other active one. |
| WpQueries.MembershipBadge | wordpress-theme/narayane-sena/inc/template-functions.php:106-115 | Unknown statuses fall back to the Inactive badge. Only "active" gets the success tone. |
| WpQueries.MembershipBadgeInjective | wordpress-theme/narayane-sena/inc/template-functions.php:106-115 | The four statuses the theme writes get four different badges. |
| WpQueries.EarningsBadge | wordpress-theme/narayane-sena/inc/template-functions.php:120-127 | Every status except "paid" shows the Pending badge. |
| WpQueries.UserPage | wordpress-theme/narayane-sena/inc/admin-functions.php:16-27 | At most per-page users, all from the table, most recently registered first. |
| WpQueries.UserOnItsPage | wordpress-theme/narayane-sena/inc/admin-functions.php:16-27 | With offset (page - 1) * per-page, the user of rank j is on page j / per-page + 1, at position j % per-page. |
| WpQueries.EveryUserListed | wordpress-theme/narayane-sena/inc/admin-functions.php:16-27 | Paging through the user list reaches every user. |
| WpQueries.PendingMemberships | wordpress-theme/narayane-sena/inc/admin-functions.php:40-51 | Exactly the "pending" rows, newest first. |
| WpQueries.AllMemberships | wordpress-theme/narayane-sena/inc/admin-functions.php:56-71 | A truthy status gives exactly that status's rows. No status, "" or "0" gives a permutation of all rows. Newest first. |
| WpQueries.PendingEarnings | wordpress-theme/narayane-sena/inc/admin-functions.php:76-90 | Exactly the "pending" earnings, newest first. |
| WpQueries.AllEarnings | wordpress-theme/narayane-sena/inc/admin-functions.php:95-108 | A permutation of all earnings, newest first. |
| WpQueries.WpPlatformStats | wordpress-theme/narayane-sena/inc/admin-functions.php:113-152 | totalUsers is the number of users. The active and pending counts match the admin listings and together fit in the table. Revenue and earnings sums are 0 when nothing is selected. |
| WpHandlers.WpRegister | wordpress-theme/narayane-sena/inc/ajax-handlers.php:16-54 | Errors, in order: an empty username, email or password; a taken username; a taken email. Otherwise one subscriber is appended with the typed fields, the raw referrer code and the registration meta. |
| WpHandlers.WpRegisterKeepsValid | wordpress-theme/narayane-sena/inc/ajax-handlers.php:42-51 | A registration keeps ids unique. |
| WpHandlers.NewMemberState | wordpress-theme/narayane-sena/inc/ajax-handlers.php:42-51 | A new member is not approved, may purchase, and keeps the unvalidated referrer code they typed. Their login lands on the member dashboard. |
| WpHandlers.WpPurchase | wordpress-theme/narayane-sena/inc/ajax-handlers.php:60-104 | Must be logged in. Refused exactly when the meta says "active". Otherwise accepted exactly when a screenshot was uploaded, adding one "pending" row priced by the coupon. |
| WpHandlers.PurchaseGuardMatchesPage | wordpress-theme/narayane-sena/inc/template-functions.php:132-134 | With a screenshot, the handler accepts a request exactly when the page offers the purchase. |
| WpHandlers.WpPurchaseKeepsValid | wordpress-theme/narayane-sena/inc/ajax-handlers.php:94-101 | A purchase keeps ids unique. |
| WpHandlers.RepeatPurchaseAccepted | wordpress-theme/narayane-sena/inc/ajax-handlers.php:71-73 | While a request waits, a second one is accepted, and the member has two more pending rows. |
| WpHandlers.WpCreateAdmin | wordpress-theme/narayane-sena/functions.php:105-117 | With neither a user "admin" nor a user holding the admin e-mail, one administrator "admin" flagged `ns_is_admin` is appended with the registration code. Otherwise nothing changes. A login "admin" exists afterwards exactly when it existed before or the e-mail was free. |
| WpHandlers.WpCreateAdminOnce | wordpress-theme/narayane-sena/functions.php:105-117 | Activating twice changes nothing more than activating once. The store stays valid, and a newly created admin's login lands on the admin dashboard. |
| WpHandlers.MembershipById | wordpress-theme/narayane-sena/inc/ajax-handlers.php:123-126 | Finds a row with the id. Nothing is found exactly when no row has it. |
| WpHandlers.WpReferrerOf | wordpress-theme/narayane-sena/inc/ajax-handlers.php:147-154 | None exactly when the member's referrer code is empty or held by nobody. Otherwise a holder of that code. |
| WpHandlers.WpApprove | wordpress-theme/narayane-sena/inc/ajax-handlers.php:110-171 | Unauthorized exactly for non-admins, and not-found exactly for an unknown id. Otherwise rows with the id become "active" with the approval time, and the owner's meta becomes active and approved. One pending earning of 2000 for the referrer is appended exactly when one is found with a truthy id. There is no repeat guard. |
| WpHandlers.WpApproveKeepsValid | wordpress-theme/narayane-sena/inc/ajax-handlers.php:133-166 | An approval keeps ids unique. |
| WpHandlers.WpApproveActivates | wordpress-theme/narayane-sena/inc/ajax-handlers.php:143-144 | After an approval the owner is approved, has an active membership, and is no longer offered a purchase. |
| WpHandlers.WpApproveMovesPendingToActive | wordpress-theme/narayane-sena/inc/admin-functions.php:123-136 | Approving a pending row moves one count from pending to active and adds its fee to the revenue. |
| WpHandlers.WpApproveCreditsReferrer | wordpress-theme/narayane-sena/inc/ajax-handlers.php:147-168 | A paying approval raises the referrer's pending total by 2000 and their referral count by 1, and leaves their paid total. A non-paying approval changes no member's totals. |
| WpHandlers.WpApproveTwicePaysTwice | wordpress-theme/narayane-sena/inc/ajax-handlers.php:110-171 | As written, approving the same request twice succeeds twice and records two earnings for one referred member. |
| WpHandlers.WpApproveOnce | wordpress-theme/narayane-sena/inc/ajax-handlers.php:110-171 | Corrected approval: refused exactly when the row is not "pending". It pays only when no earning names the member yet. |
| WpHandlers.WpApproveOnceKeepsOnePayout | wordpress-theme/narayane-sena/inc/ajax-handlers.php:147-168 | The corrected approval keeps at most one earning per referred member. |
| WpHandlers.WpApproveOnceRefusesRepeat | wordpress-theme/narayane-sena/inc/ajax-handlers.php:110-171 | After a corrected approval, approving the same request again is refused. |
| WpHandlers.WpApproveOnceAgreesOnFirst | wordpress-theme/narayane-sena/inc/ajax-handlers.php:110-171 | On a first approval of a pending request for an unpaid member, the corrected and the written approval agree. |
| WpHandlers.WpReject | wordpress-theme/narayane-sena/inc/ajax-handlers.php:177-196 | Unauthorized exactly for non-admins. Otherwise rows with the id become "rejected" and nothing else changes, even when no row matches. |
| WpHandlers.WpRejectIdempotent | wordpress-theme/narayane-sena/inc/ajax-handlers.php:189-193 | Rejecting twice is rejecting once. |
| WpHandlers.RejectAfterApproveKeepsAccess | wordpress-theme/narayane-sena/inc/ajax-handlers.php:177-196 | A rejection after an approval marks the row "rejected". The owner still reads as holding an active membership and is not offered a new purchase. |
| WpHandlers.WpMarkPaid | wordpress-theme/narayane-sena/inc/ajax-handlers.php:202-224 | Unauthorized exactly for non-admins. Otherwise rows with the id become "paid" with the payment time, and nothing else changes. |
| WpHandlers.WpMarkPaidMovesAmount | wordpress-theme/narayane-sena/inc/ajax-handlers.php:214-221 | Paying a pending earning moves its amount from its owner's pending total to their paid total, and does the same on the platform figures. Referral counts and other members' totals are unchanged. |

## Left out

- HTTP plumbing is not modelled: Express wiring, sessions, password hashing, and WordPress nonces and capability checks. A session is its user id and admin flag, and the capability check is a boolean.
- Uploads are an opaque outcome (`WpHandlers.Upload`), and the server's upload routes are left out. These cover multer, the profile picture and QR images, and `wp_handle_upload`.
- The profile update route (server/routes.ts:96-113) is left out: its fields carry no ledger invariant.
- QR-code management routes (server/routes.ts:236-306) are left out. Their storage methods are not part of this model.
- Random and hashed referral codes are parameters, so collisions are possible. The server's insert then fails on the unique code, which the model keeps. The theme's codes are not unique in the table, and the referrer lookup takes the first holder.
- Ids come from one counter instead of UUIDs or per-table `AUTO_INCREMENT`. Only uniqueness is used.
- The clock is a parameter. `setDate(getDate() - 1)` is taken as exactly 86400000 ms, so daylight-saving shifts are not modelled.
- Case mapping is ASCII only. JavaScript's and PHP's Unicode case rules for other letters are left out.
- Pricing.PricesAgree: holds for ASCII case mapping only. "SAVE3" followed by the Kelvin sign U+212A lower-cases to "save3k" in JavaScript, so the server discounts it, while PHP's `strtoupper` leaves it unchanged and the theme charges 5000.
- AdminTable.SearchIgnoresCase: holds for ASCII case mapping only. JavaScript upper-cases "ß" to "SS", so the query's case can change what is shown.
- AdminTable.LongerQueryNarrows: holds for ASCII case mapping only. JavaScript lower-cases a final sigma by context ("ΑΣ" to "ας", but "Σ" alone to "σ"), so a row shown for a longer query can be hidden for a part of it.
- MySQL's case-insensitive collation is left out. `username_exists`, `email_exists` and the `ns_referral_code` lookup compare text exactly.
- `sanitize_text_field`, `sanitize_user` and `sanitize_email` are taken as the identity.
- `wp_create_user` failures other than a duplicate login or e-mail are left out. So is the theme's ignored `$wpdb->insert` result.
- WpHandlers.WpCreateAdmin: when the admin e-mail is already taken, the activation ends in a fatal error (`set_role` on no user, functions.php:111-113). It is modelled as creating nothing, and the tables created just before are outside the model.
- Amounts are integers. `floatval`, `number_format`, `toLocaleString` and the display columns of SQL joins are left out.
- Concurrency is left out: `Promise.all` and the check-then-insert races. Handlers run one at a time.
- Ties in `ORDER BY ... DESC` are ordered by table position. The database may return tied rows in any order.
- Storage.GetMembership: `getMembership` (server/storage.ts:104-110) has no `ORDER BY`, and the model returns the user's first row in table position. The database may return any of the user's rows, and an update can move a row. This is harmless while each user has at most one membership, which the purchase guard (server/routes.ts:22-25) keeps when handlers run one at a time. The same holds for `Storage.GetMembershipAfterStatusUpdate` and `MembershipRoutes.ConfirmThenActive`.
- A coupon in the request body that is not a string is left out. The model's coupon is text or absent.
- WpQueries.UserPage: a page number or page size below 1 gives `None` instead of what WordPress does with a negative offset. The theme only calls it with its defaults.
- WpQueries.EarningsHistory: the limit is a natural number, and the default is 10. No template calls the function; the member dashboard runs its own `LIMIT 10` query (wordpress-theme/narayane-sena/templates/user-dashboard.php:128-131), which is not modelled separately. Earnings with equal `created_at` may be cut differently from the database's order.
- AdminRoutes.OverrideMembershipStatus: a request without a status is reported as StorageFailure. The ORM would instead try an update with nothing to set.
- MembershipRoutes.Confirm: the earning insert cannot fail once the referrer is found, and its error branch is kept only to mirror the handler.
- WpHandlers.WpApproveOnce: does not refuse a self-referral, unlike `MembershipRoutes.ConfirmOnce`. In the theme a member's own code is drawn only after the referrer code has been typed.
- The page templates, React pages and mock-data components are rendering code and are left out.

## Findings

| source | as written | input that shows it | evidently intended | confidence | as-written member | corrected member |
|---|---|---|---|---|---|---|
| server/routes.ts:52-82 | Confirm sets "active" and pays the referrer on every call, without checking the membership's status or earlier payouts. | A referred member with a pending membership calls `POST /api/membership/confirm` twice. | A membership is confirmed once, out of "pending", and each referred member earns their referrer one payout. | not executed | MembershipRoutes.ConfirmTwicePaysTwice | MembershipRoutes.ConfirmOnce, MembershipRoutes.ConfirmOnceKeepsOnePayout |
| wordpress-theme/narayane-sena/inc/ajax-handlers.php:110-171 | Approve activates the row and pays the referrer on every call, without checking the row's status or earlier payouts. | An administrator approves the same pending request of a referred member twice. | Only a pending request can be approved, and each referred member earns their referrer one payout. | not executed | WpHandlers.WpApproveTwicePaysTwice | WpHandlers.WpApproveOnce, WpHandlers.WpApproveOnceKeepsOnePayout |
