# expense-server core, modelled in Dafny

A model of the request handlers of the expense-server backend: an Express/Mongoose service
for sharing expenses within groups, with credit packs and subscriptions bought through a
payment gateway. The model covers:

- **Expenses** (`expense_controller.dfy`, `expense_model.dfy`): adding an expense with an EQUAL,
  PERCENTAGE or EXACT split, the paginated listing of a group's expenses, and settling one
  debtor's share.
- **Groups** (`group_controller.dfy`, `group_model.dfy`): creating a group, listing, details,
  adding members by email, updating metadata, removing (or leaving), deleting, and changing a
  member's role. Every mutation is gated on the requester's role in that group.
- **Accounts** (`auth_controller.dfy`, `user_dao.dfy`, `user_model.dfy`): the username rules,
  registration, login, the username availability check, Google sign-in and completing a Google
  sign-up. Also the user directory's lookups and `create` with its duplicate-key error codes.
- **Payments** (`payments_controller.dfy`, `payment_constants.dfy`): the credit-pack price tables,
  orders, verifying a paid order, subscriptions (create, verify, cancel) and the gateway webhook.
- **The permission gate** (`authorize_middleware.dfy`).
- Shared pieces:
  - `results.dfy`: the error reply `Failure(status, message)` and the `Result`/`Option` types.
  - `money.dfy`: sums and rounding.
  - `paging.dfy`: the `page`/`limit` query defaults and `Math.ceil` page counts.

Modelling conventions:

- Every handler is a pure function from the stored collections and the request to
  either an error reply or the new collections and the answer. The error reply carries the
  handler's exact HTTP status and message. Exceptions the handler's `catch` turns into a 500 are
  modelled as that 500 reply.
- Groups and expenses are maps from id to document. Users are a sequence, because `findOne`
  answers the first match in collection order. Mongoose's `required`, `enum`, `lowercase`,
  `minLength`/`maxLength` and `match` validators run on save. The unique indexes of the user
  collection are checked on save, and a violation maps to the DAO's error codes.
- Money is integer paise. `Number(x.toFixed(2))` is rounding half away from zero of the exact
  quotient, to the paisa (`Money.RoundDiv`).
- JavaScript truthiness is explicit: an empty string is a missing field, and an amount of 0 is
  a missing amount. A request field that may be absent, a string or some other value is a
  `Field`.
- Password hashing and comparison, token verification, HMAC signature checks and the gateway's
  replies are inputs: a hash string, a comparison function, a `signatureValid` flag, or the
  gateway's entity.
- The group directory functions the controllers call (`getGroupById`, `create`, `addMember`,
  `removeMember`, `updateMemberRole`, `delete`, `getGroupsByUserId`) are not defined in
  src/dao/groupDao.js as it stands. The model gives them their evident meaning as map operations:
  - `addMember` adds the user with the default role when absent.
  - `removeMember` drops every entry of the user.
  - `updateMemberRole` sets the role on every entry of the user.

## Model

| member | source | states |
|---|---|---|
| Money.RoundDiv | src/controllers/expenseController.js:72 | the result is the nearest integer to the quotient: within half a unit; halves round away from zero |
| Money.RoundDivUnique | src/controllers/expenseController.js:53 | the rounded share is the only integer within half a unit of the quotient, rounding halves away from zero |
| Money.SumOfCopies | src/controllers/expenseController.js:49-55 | n equal shares add up to n times the share |
| Paging.CeilDiv | src/controllers/expenseController.js:125 | `Math.ceil(total / limit)`: the least page count whose pages hold all items, also for a negative limit |
| Paging.Window | src/controllers/groupController.js:33-37 | missing or zero `page`/`limit` fall back to 1 and the handler's default; the page count covers the total |
| ExpenseModel.ParseSplitType | src/model/expense.js:16-21 | exactly EQUAL, PERCENTAGE and EXACT are accepted, each naming its own split type |
| ExpenseModel.SplitTypeNameRoundTrip | src/model/expense.js:16-21 | parsing the name of a split type gives that type back |
| GroupModel.ParseRole | src/controllers/groupController.js:256-263 | exactly the four role spellings are accepted, each naming its own role |
| GroupModel.NewGroup | src/model/group.js:9-21 | a new group has no members, currency INR and nothing spent |
| GroupModel.FindMember | src/controllers/groupController.js:90-92 | `members.find`: some entry exactly when the user has one, and it is the first |
| UserModel.NewUser | src/model/users.js:20-27 | a new account has 0 credits and no subscription |
| UserModel.Lower | src/dao/userDao.js:10 | ASCII lowercasing: keeps the length, maps each ASCII capital to its lower case and leaves every other character as it is |
| UserModel.MatchesClassPlusMeaning | src/model/users.js:11-14 | the pattern `^[a-z0-9_]+$` (optionally case-blind) accepts exactly non-empty strings of class characters |
| UserModel.SchemaUsernameIsLower | src/model/users.js:4-15 | a username the schema accepts is already lowercase |
| UserModel.LowerIdempotent | src/dao/userDao.js:19-22 | lowercasing twice is lowercasing once |
| UserDao.FindByEmail | src/dao/userDao.js:4-7 | finds an account with that email exactly when one is stored |
| UserDao.FindByUsername | src/dao/userDao.js:9-11 | finds an account whose username is the lowercased query exactly when one is stored |
| UserDao.CheckUsernameAvailable | src/dao/userDao.js:13-16 | available exactly when no stored username equals the lowercased query |
| UserDao.FindByUsernameIgnoresCase | src/dao/userDao.js:9-11 | with unique usernames, any spelling of a stored username finds that account |
| UserDao.Save | src/model/users.js:3-29 | a document is stored iff it passes the schema and clashes with no `_id`, username or email; saving keeps the indexes unique |
| UserDao.ErrorCode | src/dao/userDao.js:26-39 | a duplicate username is USERNAME_TAKEN, any other duplicate USER_EXIST, anything else INTERNAL_SERVER_ERROR |
| UserDao.Create | src/dao/userDao.js:18-41 | stores the document with its username lowercased, appended; fails iff the save fails; keeps the indexes unique |
| UserDao.CreateDuplicateCodes | src/dao/userDao.js:26-33 | a taken username yields USERNAME_TAKEN; a free username with a taken email yields USER_EXIST |
| AuthController.IsValidUsernameMeaning | src/controllers/authController.js:23-27 | only strings of 3 to 20 characters pass, and such a string passes iff each character is a letter, digit or underscore |
| AuthController.ValidUsernameFitsSchema | src/controllers/authController.js:23-27 | a username the controller accepts meets the schema's rules once lowercased |
| AuthController.Register | src/controllers/authController.js:69-133 | the required, format and availability checks in order with their messages; on success the stored account has the lowercased username, the given name, email and hash, and the indexes stay unique |
| AuthController.RegisterOutcome | src/controllers/authController.js:97-131 | past the three checks, registration succeeds iff the email and id are free, and otherwise fails only with the email message |
| AuthController.Login | src/controllers/authController.js:30-67 | validation errors, unknown email, Google-only account and wrong password are refused; the right password for a stored account logs exactly that account in |
| AuthController.LoginHidesWhichCredentialFailed | src/controllers/authController.js:40-52 | an unknown email and a wrong password get the same reply |
| AuthController.CheckUsername | src/controllers/authController.js:135-163 | a missing or malformed username is refused; a valid one always gets an answer, true iff no account holds the lowercased name |
| AuthController.GoogleSso | src/controllers/authController.js:206-256 | without a token 401; a token the verifier rejects gives 500 "Google Auth Failed"; a verified token's email logs exactly the stored account in, and an unknown one asks for a username; success iff the token verifies |
| AuthController.CompleteGoogleSignup | src/controllers/authController.js:258-342 | missing data, bad Google data, malformed and taken usernames are refused with their messages; the Google fields come from the request body unverified, and a body naming a stored email logs that account in; a sign-up appends a password-less account with the lowercased username |
| AuthController.CompleteGoogleSignupOutcome | src/controllers/authController.js:299-340 | a new email with a valid free username signs up iff the id is fresh, keeping the indexes unique; otherwise only the duplicate-email reply |
| AuthController.CheckUsernamePredictsRegister | src/controllers/authController.js:135-163 | a name reported taken is refused by registration as taken, and a name reported free never is |
| AuthController.GoogleSignupThenSsoLogsIn | src/controllers/authController.js:206-342 | a verified token of an unknown email is asked for a username, signing up with a free valid one stores the account, and the same Google sign-in then logs it in |
| AuthController.CompleteGoogleSignupTrustsClientPayload | src/controllers/authController.js:260-296 | an attacker whose own token verifies posts the victim's email as `googleData` and is logged in as the victim's password account; the verified variant does not log the victim in |
| AuthController.CompleteVerifiedGoogleSignup | src/controllers/authController.js:206-219 | the sign-up completion with the ID token verified as in `googleSso`: 401 without a token, 500 for a rejected token, otherwise the handler on the verified payload |
| AuthController.VerifiedSignupLogsInOnlyTokenHolder | src/controllers/authController.js:216-234 | once the token is verified, any success reaches only the account of the token's own email, and a login is the one Google sign-in with the same token gives |
| PaymentConstants.PriceTablesAreInverse | src/constants/paymentConstants.js:1-11 | the packs are 10, 50 and 100 credits at positive prices, and the two tables invert each other |
| PaymentConstants.PriceIncreasesWithCredits | src/constants/paymentConstants.js:1-5 | a bigger pack costs strictly more |
| PaymentConstants.PlansAreDistinct | src/constants/paymentConstants.js:13-16 | exactly the monthly and yearly plans exist and they differ |
| PaymentsController.CreateOrder | src/controllers/paymentsController.js:12-33 | an order exists iff the pack is priced; it is in INR at a positive amount the reverse table maps back to the pack |
| PaymentsController.VerifyOrder | src/controllers/paymentsController.js:35-73 | bad signature 400, unknown user 404, non-numeric `credits` 500; succeeds iff none of these, and then only the requester's credits change, by the sent `credits` |
| PaymentsController.VerifyOrderReplayAddsTwice | src/controllers/paymentsController.js:59-64 | replaying a verified payment adds the credits a second time |
| PaymentsController.VerifyOrderTrustsClientCredits | src/controllers/paymentsController.js:53-63 | paying for the 10-credit pack while sending `credits: 100` grants 100 credits |
| PaymentsController.VerifyPricedOrder | src/constants/paymentConstants.js:7-11 | corrected: the credits granted are those the reverse table assigns to the paid amount |
| PaymentsController.PricedOrderGrantsPurchasedPack | src/controllers/paymentsController.js:12-63 | paying the order created for a pack grants exactly that pack's credits |
| PaymentsController.CreateSubscription | src/controllers/paymentsController.js:74-98 | only MONTHLY and YEARLY are accepted, with their plan id; a yearly plan bills 2 cycles, a monthly one 26 |
| PaymentsController.VerifySubscription | src/controllers/paymentsController.js:100-150 | bad signature 400, unknown user 500; succeeds iff the signature is valid and the user exists, and then only the requester's subscription changes, to an active one on the given plan |
| PaymentsController.VerifiedSubscriptionCanBeCancelled | src/controllers/paymentsController.js:100-176 | a verified subscription can be cancelled, keeping its id, plan and dates |
| PaymentsController.CancelSubscription | src/controllers/paymentsController.js:153-176 | unknown user 500, no subscription id 400; succeeds iff the account holds a subscription id, and then only its status changes, to cancelled |
| PaymentsController.Webhook | src/controllers/paymentsController.js:179-230 | a bad signature is 400; a charge activates and extends the matching subscription, a cancel or halt cancels it, other events change nothing |
| PaymentsController.CancelledSubscriptionIsRenewedByCharge | src/controllers/paymentsController.js:153-230 | with no other account holding the subscription, one cancelled by its user is active again after the next charge event |
| AuthorizeMiddleware.Authorize | src/middlewares/authorizeMiddleware.js:4-25 | no principal is 401; otherwise the request passes iff the role's list holds the permission, and is 403 otherwise |
| AuthorizeMiddleware.AuthorizeMonotone | src/middlewares/authorizeMiddleware.js:16-21 | granting more permissions never turns away a request that passed |
| ExpenseController.ComputeSplits | src/controllers/expenseController.js:37-99 | percentages must total 100 and exact amounts the total, with their messages; only the payer's share is settled; one share per listed user, in order |
| ExpenseController.EqualSplitDrift | src/controllers/expenseController.js:44-55 | the handler's EQUAL shares are all the same nearest-paisa quotient, and miss the total by at most half a paisa per share |
| ExpenseController.ExactSplitsSumToAmount | src/controllers/expenseController.js:77-98 | accepted EXACT shares add up to the expense amount |
| ExpenseController.PercentageSplitDrift | src/controllers/expenseController.js:56-76 | each PERCENTAGE share records its percentage and is within half a paisa of its part; the shares miss the total by at most half a paisa per share |
| ExpenseController.SplitExamples | src/controllers/expenseController.js:44-98 | 40/35/25 of 200.00 is 80.00/70.00/50.00; 40/35/24 is refused; 100.00 among three is 33.33 each |
| ExpenseController.AddExpense | src/controllers/expenseController.js:5-116 | the required, group, membership and viewer checks in order; past the lookup a 403 comes exactly from the matrix's add-expense gate; an admitted request succeeds iff its splits compute and the document passes the schema, storing the requester as payer with the default category |
| ExpenseController.FindSplit | src/controllers/expenseController.js:157-159 | `findIndex`: the first share of the debtor, or none when there is none |
| ExpenseController.SettleExpense | src/controllers/expenseController.js:138-178 | not found 404, non-payer 403, absent debtor 500 or 404; succeeds iff the payer names a debtor with a share, and then only that debtor's first share becomes settled |
| ExpenseController.SettleIdempotent | src/controllers/expenseController.js:157-169 | settling the same share twice is settling it once |
| ExpenseController.SettleNeverReopens | src/controllers/expenseController.js:167-168 | a settled share stays settled |
| ExpenseController.GetGroupExpenses | src/controllers/expenseController.js:118-136 | a non-zero `page`/`limit` query is used as given, a missing or zero one falls back to 1 and 10; the page count is `Math.ceil(total / limit)` |
| GroupController.InlineGatesFollowMatrix | src/controllers/groupController.js:89-97 | each group handler's inline role test grants exactly what the permission matrix grants for its action |
| GroupController.Create | src/controllers/groupController.js:6-28 | created iff the name and creator are present and the id is fresh, otherwise 500; the only member is the creator, as admin |
| GroupController.CreatorHoldsEveryRight | src/controllers/groupController.js:11-17 | the creator of a new group passes every gate of it |
| GroupController.GetGroupDetails | src/controllers/groupController.js:60-72 | the stored group, or 404 when there is none |
| GroupController.AddMember | src/controllers/groupController.js:109 | the user is a member afterwards; a member already present changes nothing; a newcomer gets exactly one entry, at the end, with the default role |
| GroupController.EmailsArePartitioned | src/controllers/groupController.js:106-115 | each email lands in exactly one of the added and not-found lists, by whether an account has it |
| GroupController.JoinAll | src/controllers/groupController.js:106-115 | the email loop: the two lists are the registered and unregistered emails in order; every registered account has joined; only their entries are appended, each once, with the default role |
| GroupController.AddMembers | src/controllers/groupController.js:74-125 | missing list 400, no group 404, non-admin/manager 403, and succeeds otherwise; the reply lists the registered and unregistered emails in order, and every registered account is a member afterwards; no account gets a second entry; every entry added belongs to a listed registered account and has the default role; no other group and no stored total changes |
| GroupController.Update | src/controllers/groupController.js:127-164 | missing id 400, no group 404, non-admin/manager 403; an allowed update of a stored group succeeds; only name, description and thumbnail change, and only to non-empty values |
| GroupController.UpdateIdempotent | src/controllers/groupController.js:153-157 | repeating an accepted update changes nothing more |
| GroupController.WithoutUser | src/controllers/groupController.js:204-207 | the target has no entry left; every other entry is kept |
| GroupController.RemoveMember | src/controllers/groupController.js:166-217 | the checks in order; allowed iff leaving oneself or admin/manager; the target is no member afterwards, everyone else stays and no entry is added |
| GroupController.RemoveUndoesAdd | src/controllers/groupController.js:109 | removing a member just added restores the member list |
| GroupController.DeleteGroup | src/controllers/groupController.js:219-244 | allowed iff the requester is an admin; exactly that group disappears |
| GroupController.DeleteUndoesCreate | src/controllers/groupController.js:219-244 | the creator may delete a group just created, which restores the store |
| GroupController.SetMemberRole | src/controllers/groupController.js:289-293 | every entry of the target takes the new role; every other entry and every other user's role is unchanged |
| GroupController.UpdateMemberRole | src/controllers/groupController.js:246-303 | the checks in order, the role name before any lookup; succeeds iff an admin changes another user's role to a valid one; the requester stays admin |
| GroupController.FindMemberAfterSetRole | src/controllers/groupController.js:271-273 | after a role change the lookup finds the same entry, with the new role only for the target |
| GroupController.MutationsKeepStoredTotals | src/model/group.js:21 | create, update, remove, delete and role change leave the stored `totalSpent` of every remaining group as it was (adding members states it in its own contract) |
| GroupController.GetMyGroups | src/controllers/groupController.js:30-58 | same groups in the same order, each with its computed spending and nothing else changed; a non-zero `page`/`limit` query is used as given, a missing or zero one falls back to 1 and 9; the page count is `Math.ceil(total / limit)` |

## Left out

- Password hashing, JWT issuing and cookies, HMAC signature checks and every gateway call:
  their outcomes are inputs. Google token verification is a function parameter that answers
  the payload of a genuine token or nothing. Gateway failures (the 500
  replies of the `catch` blocks around gateway calls) are not modelled.
- Database failures (a lost connection or a timeout inside a handler's `try`) are not modelled:
  the collections always answer. A rejected Google token is the only failure that reaches the
  `catch` block's 500 in `AuthController.GoogleSso`.
- Binary floating point: `amount` and percentages are integers (paise and whole percent), so
  amounts such as 0.1 + 0.2 behave exactly.
- Dates: `date`, `joinedAt`, `createdAt` and `timestamps` are not modelled. Subscription start
  and end dates are integers supplied by the caller; the webhook's end date is the gateway's
  `current_end` times 1000.
- `isUserLoggedIn` and `logout` (token and cookie handling only), the RBAC controller, routes,
  request validators and `server.js`: outside the modelled core.
- The listing queries (`getGroupsByUserId`, `getExpensesByGroup`) and `getGroupStats`: the
  page of documents, the count and the per-group spending are inputs.
- ExpenseController.ComputeSplits: the EQUAL branch compares each user id with the requester's
  id as plain equality. The source compares `userId.toString()` with `payerId` by `===`, whose
  outcome depends on the type the session middleware gives `_id`. That middleware is not part of
  this model.
- ExpenseController.AddExpense: the split users are not checked against the group's members
  (src/controllers/expenseController.js:40-97), so the model does not promise that every share
  belongs to a member.
- UserModel.Lower: lowercases ASCII only, while `toLowerCase()` folds all of Unicode (where
  some characters change length, such as U+0130). The handlers accept only ASCII usernames,
  so this affects only lookups made with non-ASCII queries.
- AuthController.Login: the validators' 400 reply carries their error list, not a message; the model states only the status.
- JavaScript's object-key coercion (`CREDIT_TO_PAISA_MAPPING["10"]`, inherited keys such as
  `constructor`) is not modelled: keys are integers or strings compared exactly.
- UserDao.Save: the order in which MongoDB reports several unique-index clashes at once is
  assumed to be `_id`, then username, then email.

## Findings

| source | as written | input that shows it | evidently intended | confidence | as-written member | corrected member |
|---|---|---|---|---|---|---|
| src/controllers/paymentsController.js:53-63 | a verified payment adds the `credits` field of the request body to the balance; the reverse price table `PAISA_TO_CREDIT_MAPPING` is never used | create an order for 10 credits (100 paise), pay it, then send `credits: 100` with the valid signature: the balance grows by 100 | grant the credits the paid order's amount buys, via the reverse price table | medium, not executed | PaymentsController.VerifyOrderTrustsClientCredits | PaymentsController.PricedOrderGrantsPurchasedPack |
| src/controllers/authController.js:260-296 | `completeGoogleSignup` reads `googleId`, `name` and `email` from the request body, verifies no token, and logs in whichever account holds that email | POST `{username: "mallory", googleData: {googleId: "forged-id", name: "Mallory", email: <victim's email>}}`: the reply sets the victim's session cookie, even for a password account never linked to Google | take the Google fields from a verified ID token, as `googleSso` does, so only the token's own email can be logged in | high, not executed | AuthController.CompleteGoogleSignupTrustsClientPayload | AuthController.VerifiedSignupLogsInOnlyTokenHolder |
