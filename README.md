# Sweet Shop, modelled in Dafny

The Sweet Shop is a small web shop for sweets. An Express/Mongoose server keeps
an inventory of sweets and a set of user accounts. A React client has a shopper
dashboard (browse, search, sort, cart, checkout) and an administrator dashboard
(add, edit, restock and delete sweets).

This project models the parts of both sides that carry decisions:

- the sweet record and its stock methods (`isInStock`, `purchase`, `restock`);
- the sweets router as a store class whose handlers check their inputs in the
  source's order and then change the store;
- the `authenticateToken` / `requireAdmin` middleware;
- the authentication service (`register`, `login`, tokens) and its controller's
  mapping to status codes;
- the client helpers: the cart, checkout classification, cookie reading, search
  parameters, the sort menu, the category list, and the admin forms.

Modelling conventions:

- Prices are integer cents. A number in a request is a whole count of
  hundredths (`Inventory.Num`).
- `createdAt` and `updatedAt` are ticks of a logical clock that advances on
  every write. This is what makes "newest first" statable.
- Parameters with stated axioms stand in for library code:
  - jsonwebtoken is `Access.Jwt` with the round-trip axiom `Access.Sound`;
  - bcrypt is `AuthService.Hasher` with `AuthService.SoundHasher`;
  - express-validator's `isEmail`, `parseFloat`, price formatting and
    `localeCompare` are parameters without axioms.
- Exceptions the database may raise are an explicit `AuthService.Fault`
  argument. In the HTTP layer they are `AuthController.ServiceCall.Raised`.

Modules, one file each:

| file | module | source |
|---|---|---|
| common.dfy | Common | JavaScript string built-ins used by the code: `trim`, `split`, `join`, case-insensitive search, `parseInt`, number-to-text |
| sweet_model.dfy | SweetModel | server/src/models/Sweet.ts |
| access.dfy | Access | server/src/middleware/auth.ts |
| inventory.dfy | Inventory | server/src/controllers/SweetController.ts |
| auth_service.dfy | AuthService | server/src/services/AuthService.ts |
| auth_controller.dfy | AuthController | server/src/controllers/AuthController.ts |
| dashboard.dfy | Dashboard | helpers both dashboard pages define identically |
| user_dashboard.dfy | UserDashboard | client/src/pages/userDashboard.tsx |
| admin_dashboard.dfy | AdminDashboard | client/src/pages/adminDashboard.tsx |

Mutable state follows the source:

- `SweetModel.SweetDocument`, `Inventory.Store` and `AuthService.UserStore`
  are classes whose methods update their fields.
- The cookie loop is a method with a `while` loop (`Dashboard.FindCookie`).
- The `URLSearchParams` appends are a method (`Dashboard.BuildSearchParams`).
- The cart updaters, comparators and form builders, which are pure in the
  source, are functions.

## Model

| member | source | states |
|---|---|---|
| SweetModel.ParseCategory | server/src/models/Sweet.ts:11-15 | exactly the five enum names are accepted, each as its own category; any other text is refused |
| SweetModel.SweetDocument.Load | server/src/controllers/SweetController.ts:248 | a loaded document holds exactly the stored record |
| SweetModel.SweetDocument.IsInStock | server/src/models/Sweet.ts:42-44 | in stock exactly when the quantity is positive |
| SweetModel.SweetDocument.Purchase | server/src/models/Sweet.ts:47-63 | succeeds exactly when the request does not exceed the stock (n ≤ 0 included); on failure gives "Insufficient stock. Available: q, Requested: n" and leaves the record unchanged; on success lowers the quantity by exactly n and changes nothing but it and the update stamp, which moves only when n ≠ 0 (an unchanged document is saved without a new stamp) |
| SweetModel.SweetDocument.Restock | server/src/models/Sweet.ts:66-69 | saves exactly when the new quantity is at least 0, the schema's minimum; a saved restock raises the quantity by exactly n and touches no other field but the update stamp, which moves only when n ≠ 0; a rejected save leaves the record as it was |
| SweetModel.PurchaseAll | server/src/models/Sweet.ts:50-57 | buying exactly the stock succeeds and leaves quantity 0, out of stock (the stock test is a strict `<`) |
| SweetModel.PurchaseThenRestock | server/src/models/Sweet.ts:47-69 | from a stock of at least 0, purchase(n) then restock(n) always saves and gives back the original quantity, for any n; after a successful purchase only the stamp differs, and only when n ≠ 0 |
| SweetModel.SchemaTrimIsStable | server/src/models/Sweet.ts:4-34 | the schema's trim leaves the text of a record meeting the schema (non-empty trimmed name, trimmed optional text) as it is |
| SweetModel.PurchaseKeepsStockNonNegative | server/src/models/Sweet.ts:47-57 | from a non-negative stock the stock stays non-negative; purchase itself accepts n ≤ 0 |
| Access.BearerToken | server/src/middleware/auth.ts:12-13 | the token is the second space-separated word of the header, never empty |
| Access.BearerTokenIsSecondWord | server/src/middleware/auth.ts:12-13 | for a header of two or more space-free words, the token is exactly the second word, and there is none when that word is empty |
| Access.Authenticate | server/src/middleware/auth.ts:11-46 | every refusal is a 401 |
| Access.RefusalReasons | server/src/middleware/auth.ts:15-46 | "Access token is required" exactly when the header carries no token; "Invalid or expired token" exactly when the token fails verification or the user lookup throws; "Invalid token" exactly when the token verifies and its user is gone |
| Access.RequireAdmin | server/src/middleware/auth.ts:49-60 | proceeds exactly for an identity with role "admin", otherwise 403 "Admin access required" |
| Access.Chain | server/src/middleware/auth.ts:49-60 | requireAdmin runs only after authentication proceeded; an admin route proceeds exactly for an authenticated admin |
| Access.OneWordHeaderIsRefused | server/src/middleware/auth.ts:13-20 | a header without a space gets 401 "Access token is required" |
| Access.BearerWordIsToken | server/src/middleware/auth.ts:13 | whatever the scheme word, the word after the space is the token |
| Access.ProceedsExactlyWhenVerified | server/src/middleware/auth.ts:15-40 | next is reached exactly when a token is present, verifies, and its user exists; the identity is the token's user id, the stored email, and the token's role when it has one, else the stored role |
| Access.SignedTokenIsAdmitted | server/src/middleware/auth.ts:23-40 | a token the server signed is admitted as its user while that user exists |
| Access.RemovedUserIsRefused | server/src/middleware/auth.ts:26-32 | a signed token whose user is gone gets 401 "Invalid token" |
| Inventory.Refusal | server/src/controllers/SweetController.ts:32 | a route's middleware lets the request through exactly when it authenticates and, on admin routes, is an admin |
| Inventory.CreateErrors | server/src/controllers/SweetController.ts:11-16 | no error exactly when the name is non-empty, the category is in the enum, the price is a number ≥ 0 and the quantity an integer ≥ 0 |
| Inventory.QuantityErrors | server/src/controllers/SweetController.ts:23-29 | no error exactly when the quantity is an integer ≥ 1 |
| Inventory.SearchErrors | server/src/controllers/SweetController.ts:18-21 | no error exactly when each supplied price bound is a number ≥ 0 |
| Inventory.ObjectIdIgnoresCase | server/src/controllers/SweetController.ts:147 | whether an id has the ObjectId form does not depend on its letter case |
| Inventory.Matches | server/src/controllers/SweetController.ts:104-122 | the empty filter keeps every sweet; a price range whose minimum exceeds its maximum keeps none |
| Inventory.FilterOf | server/src/controllers/SweetController.ts:104-122 | name and category constrain only when non-empty; each supplied price bound is kept |
| Inventory.InsertNewest | server/src/controllers/SweetController.ts:124 | inserting keeps a list newest first and adds exactly one element |
| Inventory.NewSweet | server/src/controllers/SweetController.ts:43-52 | the created record has the new id and the current stamp, and meets the schema when the name is not blank |
| Inventory.Strip | server/src/controllers/SweetController.ts:157-160 | the four deleted keys are gone and every other key of the body is kept |
| Inventory.Apply | server/src/controllers/SweetController.ts:162-166 | an update keeps the id and createdAt, stamps updatedAt, and preserves the schema |
| Inventory.Store.Select | server/src/controllers/SweetController.ts:124 | the result is exactly the stored sweets matching the filter, newest first |
| Inventory.Store.List | server/src/controllers/SweetController.ts:69-86 | authenticated users get every sweet, newest first, with count equal to the list length |
| Inventory.Store.Search | server/src/controllers/SweetController.ts:89-139 | 401 before 400; on a valid query, exactly the sweets meeting every supplied filter, newest first, with their count |
| Inventory.Store.Create | server/src/controllers/SweetController.ts:32-66 | role gate, then the body rules (400), then the schema (500 on a blank name); success adds exactly the new record; any failure leaves the store unchanged |
| Inventory.Store.Update | server/src/controllers/SweetController.ts:142-187 | role gate, id format (400), schema validators (500), existence (404); success replaces exactly that record with the stripped body applied, so id and createdAt never change |
| Inventory.Store.Delete | server/src/controllers/SweetController.ts:190-222 | role gate, id format (400), existence (404); success removes exactly that id |
| Inventory.Store.Purchase | server/src/controllers/SweetController.ts:225-287 | quantity rule (400), id format (400), existence (404), stock (400 "Insufficient stock"); success lowers exactly that sweet's stock by the request; failure changes nothing |
| Inventory.Store.Restock | server/src/controllers/SweetController.ts:290-337 | admin only; quantity rule, id format, existence; success sets exactly that sweet's stock to `RestockedIntended`, the stock plus the requested amount |
| Inventory.Amount | server/src/controllers/SweetController.ts:27-29 | a numeric body value stands for a whole number exactly when it is an integer, and then for its units; it passes the restock rule exactly when isInt with min 1 accepts it |
| Inventory.RestockedIntended | server/src/models/Sweet.ts:66-69 | the restocked stock exceeds the old one by exactly the requested amount, whether it was sent as a number or a string |
| Inventory.RestockAgreesOnNumbers | server/src/models/Sweet.ts:66-69 | for a numeric quantity, `+=` as written and the intended sum agree, and equal stock plus the units |
| Inventory.IntTextOfIntToString | server/src/controllers/SweetController.ts:27-29 | the integer reading of a string gives back every integer's decimal text |
| Inventory.DigitStringRestockConcatenates | server/src/models/Sweet.ts:67 | a digit-string quantity is appended to the stock's text: the stock becomes stock·10^k + value, which is the intended sum exactly when the stock is 0 |
| Inventory.SignedStringRestockFails | server/src/models/Sweet.ts:67-68 | a "+digits" quantity passes the rule but its concatenation is not a number, so the save is refused |
| Inventory.RestockStringCounterexample | server/src/models/Sweet.ts:67 | stock 10 restocked with "5" becomes 105 instead of 15; with "+5" the save fails instead of giving 15 |
| Inventory.NameSearchFindsInfix | server/src/controllers/SweetController.ts:105-108 | a name search matches every sweet whose name contains the pattern |
| Inventory.SearchIgnoresPatternCase | server/src/controllers/SweetController.ts:107-111 | a pattern and its lower-case form select the same sweets |
| Inventory.PriceBoundsInclusive | server/src/controllers/SweetController.ts:114-121 | with both bounds, a sweet is kept exactly when min ≤ price ≤ max |
| Inventory.EmptyQueryKeepsAll | server/src/controllers/SweetController.ts:104-122 | absent or empty filters are valid and constrain nothing |
| Inventory.NonAdminCannotDelete | server/src/controllers/SweetController.ts:190 | an authenticated non-admin gets 403 and the store is unchanged |
| Inventory.CreatedSweetIsListedFirst | server/src/controllers/SweetController.ts:32-86 | a sweet just created by an admin heads the next listing |
| AuthService.PublicHidesPassword | server/src/services/AuthService.ts:32-38 | the returned user carries nothing of the password: users differing only in their hash look the same, and users that look the same differ at most in it |
| AuthService.NewUser | server/src/services/AuthService.ts:26-27 | the new user's role is "user" or "admin", "user" when none is given; its stored hash differs from the password and the password matches it |
| AuthService.RoleOf | server/src/services/AuthService.ts:25-27 | the stored role is the given one, or "user" when none is given |
| AuthService.GenerateToken | server/src/services/AuthService.ts:97-102 | a token the sound scheme verifies to the user id and role |
| AuthService.VerifyToken | server/src/services/AuthService.ts:104-111 | the decoded claims, or the error "Invalid token" exactly when verification fails |
| AuthService.Succeeded | server/src/services/AuthService.ts:74-88 | success carries the public user and a token carrying its id and role |
| AuthService.Login | server/src/services/AuthService.ts:53-95 | succeeds exactly when the email is stored and the password matches; every failure has no user and no token, with "Invalid credentials" or, on an exception, "Login failed" |
| AuthService.UserStore.Register | server/src/services/AuthService.ts:14-51 | a taken email gives "User with this email already exists"; an exception gives "Registration failed"; success adds exactly one user, with the password hashed (never stored as given) and the role defaulted; failure changes nothing |
| AuthService.LoginRefusalsIdentical | server/src/services/AuthService.ts:56-71 | an unknown email and a wrong password give the identical failure |
| AuthService.LoginWithRegisteredPassword | server/src/services/AuthService.ts:65-88 | the registered password logs in, yielding a token carrying the user's id and role; another password logs in exactly when it agrees with the registered one on the first 72 characters (so, up to 72 characters, only the registered one does), and is otherwise refused with "Invalid credentials" |
| AuthService.VerifyGeneratedToken | server/src/services/AuthService.ts:97-111 | verifyToken reads back what generateToken signed |
| AuthService.LoginTokenIsAdmitted | server/src/services/AuthService.ts:74-87 | the middleware admits a login token as that user with its role |
| AuthService.RegisterThenLogin | server/src/services/AuthService.ts:14-88 | registering then logging in with the same credentials succeeds as the same user |
| AuthService.RegisterTwice | server/src/services/AuthService.ts:17-23 | a second registration of the same email is refused and leaves the first user in place |
| AuthController.RegisterErrors | server/src/controllers/AuthController.ts:9-13 | no error exactly when the email is valid, the password has at least 6 characters and the name is non-empty |
| AuthController.LoginErrors | server/src/controllers/AuthController.ts:15-18 | no error exactly when the email is valid and the password non-empty |
| AuthController.RegisterReply | server/src/controllers/AuthController.ts:21-48 | 400 on validation errors; 201 exactly on success; 409 exactly on a failure mentioning "already exists"; 500 exactly on an exception |
| AuthController.LoginReply | server/src/controllers/AuthController.ts:50-77 | 400 on validation errors; 200 exactly on success; 401 exactly on a service failure; 500 exactly on an exception |
| AuthController.PostRegister | server/src/controllers/AuthController.ts:21-41 | the service is not called on invalid input; on a valid body, 201 exactly when the email is free, the role accepted and no exception occurs, with the new user's public view and token; 409 exactly for a taken email; 400 with "Registration failed" for every other failure; the body's role is passed unchanged |
| AuthController.PostLogin | server/src/controllers/AuthController.ts:50-70 | the status is 200, 400 or 401; 400 on invalid input; on valid input 200 exactly when the service logs the user in and 401 exactly when it refuses, with the service's result as the body; a 200 carries a token and a 401 none |
| AuthController.DuplicateEmailIsConflict | server/src/controllers/AuthController.ts:36-38 | the duplicate-email refusal maps to 409 |
| AuthController.RegistrationFailureIsBadRequest | server/src/controllers/AuthController.ts:36-38 | "Registration failed" does not mention an existing account, so it maps to 400 |
| AuthController.FailureStatus | server/src/controllers/AuthController.ts:36-38 | any register failure maps to 409 exactly when its message contains "already exists", otherwise to 400 |
| AuthController.RegisterTakenEmail | server/src/controllers/AuthController.ts:21-41 | registering a taken email answers 409 and changes nothing |
| Dashboard.FindCookie | client/src/pages/userDashboard.tsx:49-58 | the value of the first entry, after trimming and splitting on '=', whose name matches; none exactly when no entry has the name |
| Dashboard.TokenFromCookies | client/src/pages/adminDashboard.tsx:73-82 | the token is the matching entry's value; no token when the entry is missing (null) or has no '=' (undefined) |
| Dashboard.JarLookup | client/src/pages/userDashboard.tsx:49-58 | on the cookie string a browser writes ("a=1; b=2"), the lookup finds the first cookie with the name and its exact value |
| Dashboard.ValueStopsAtEquals | client/src/pages/userDashboard.tsx:52 | the value read stops at the next '=' |
| Dashboard.SearchParams | client/src/pages/userDashboard.tsx:207-210 | the name is sent trimmed only if not blank, the category only if non-empty, each price bound only when defined and ≥ 0 |
| Dashboard.BuildSearchParams | client/src/pages/adminDashboard.tsx:115-118 | the appends produce exactly those parameters |
| Dashboard.SentQueryIsAccepted | client/src/pages/userDashboard.tsx:207-210 | the server's search rules accept whatever query the page sends, and filter on exactly the sent fields |
| Dashboard.Compare | client/src/pages/adminDashboard.tsx:131-144 | the comparator is the difference of the menu entry's sort keys |
| Dashboard.Insert | client/src/pages/userDashboard.tsx:224-237 | inserting into a list ordered by a key keeps it ordered, and gives a permutation of the list plus the element |
| Dashboard.InsertWithKey | client/src/pages/userDashboard.tsx:224-237 | inserting an element puts it ahead of the elements with its own key and leaves every key's elements in their order |
| Dashboard.Sort | client/src/pages/userDashboard.tsx:224-237 | the result is ordered by the selected menu entry's sort key, the key the comparator subtracts, and is a permutation of the input |
| Dashboard.SortIsStable | client/src/pages/userDashboard.tsx:224-237 | the sort is stable, as `Array.prototype.sort` is: for every key value, the elements with that key come out in the order they went in |
| Dashboard.SortOrders | client/src/pages/adminDashboard.tsx:459-472 | "name" ascending by name, "price-low" ascending price, "price-high" descending price, "quantity" descending stock |
| Dashboard.UnknownKeyKeepsOrder | client/src/pages/adminDashboard.tsx:131-144 | an unknown menu key keeps the order |
| Dashboard.Categories | client/src/pages/userDashboard.tsx:281-285 | exactly the present, non-empty categories of the sweets |
| Dashboard.Dedup | client/src/pages/adminDashboard.tsx:187-191 | no duplicates, the same values, in order of first occurrence |
| Dashboard.UniqueCategories | client/src/pages/adminDashboard.tsx:187-191 | the filter menu lists each present, non-empty category once, in order of first occurrence, and nothing else |
| UserDashboard.Find | client/src/pages/userDashboard.tsx:120-122 | the first line with the id, none exactly when the sweet is not in the cart |
| UserDashboard.AddToCart | client/src/pages/userDashboard.tsx:88-101 | a new sweet is appended with quantity 1; a sweet in the cart has its quantity raised by one, capped at its stock, other lines unchanged |
| UserDashboard.RemoveFromCart | client/src/pages/userDashboard.tsx:104-117 | a line with more than one is decremented, other lines unchanged; otherwise the sweet is dropped |
| UserDashboard.Bump | client/src/pages/userDashboard.tsx:90-96 | every line keeps its sweet; only the matching line's quantity changes, to min(q + 1, stock) |
| UserDashboard.Decrement | client/src/pages/userDashboard.tsx:108-112 | every line keeps its sweet; only the matching line's quantity goes down by one |
| UserDashboard.Without | client/src/pages/userDashboard.tsx:114 | exactly the lines with other ids remain |
| UserDashboard.TotalItems | client/src/pages/userDashboard.tsx:131-133 | the item count is at least the number of lines when every line wants at least one |
| UserDashboard.CartTotal | client/src/pages/userDashboard.tsx:126-128 | the total is never negative when no price or quantity is |
| UserDashboard.CartQuantity | client/src/pages/userDashboard.tsx:120-123 | 0 for a sweet not in the cart, else its line's quantity |
| UserDashboard.AddThenRemoveFresh | client/src/pages/userDashboard.tsx:88-117 | adding a sweet not in the cart and removing it restores the cart |
| UserDashboard.AddKeepsIdsUnique | client/src/pages/userDashboard.tsx:88-101 | adding keeps one line per sweet |
| UserDashboard.RemoveKeepsIdsUnique | client/src/pages/userDashboard.tsx:104-117 | removing keeps one line per sweet |
| UserDashboard.QuantityAfterAdd | client/src/pages/userDashboard.tsx:88-123 | after an add, the shown quantity is the old one plus one, capped at the stock, or 1 for a new sweet |
| UserDashboard.AddFreshTotals | client/src/pages/userDashboard.tsx:126-133 | adding a new sweet adds one item and its price to the totals |
| UserDashboard.TotalAfterRemove | client/src/pages/userDashboard.tsx:104-133 | a remove lowers the item count by one, or by the whole line when it held one or none |
| UserDashboard.PurchaseRequests | client/src/pages/userDashboard.tsx:149-161 | one purchase request per line, in cart order, for the line's quantity |
| UserDashboard.AllFulfilled | client/src/pages/userDashboard.tsx:163-166 | the fulfilled count equals the number of results exactly when all were fulfilled |
| UserDashboard.Checkout | client/src/pages/userDashboard.tsx:136-185 | EmptyCart exactly for an empty cart; NoToken exactly for a non-empty cart without a token; with a token, AllPurchased exactly when every purchase succeeded, NonePurchased exactly when none did, and SomePurchased otherwise, carrying the fulfilled count and the rest as failed; the cart is cleared exactly when every purchase succeeded, otherwise kept |
| UserDashboard.UserName | client/src/pages/userDashboard.tsx:61-70 | the URI-decoded userName cookie, "User" when there is none |
| AdminDashboard.AdminName | client/src/pages/adminDashboard.tsx:85-94 | the raw userName cookie value, not decoded, "Admin" when there is none |
| AdminDashboard.OptionalText | client/src/pages/adminDashboard.tsx:229-231 | the trimmed text, left out exactly when it is blank |
| AdminDashboard.SweetRequest | client/src/pages/adminDashboard.tsx:213-232 | nothing is sent without a token, otherwise the normalised body |
| AdminDashboard.SweetDataAcceptedIff | client/src/pages/adminDashboard.tsx:225-232 | the server's create rules accept the body exactly when the name is not blank, the category is known, the price parses to at least 0 and the quantity text starts with a whole number of at least 0 |
| AdminDashboard.PrefillRoundTrip | client/src/pages/adminDashboard.tsx:414-425 | saving an untouched edit form sends back the sweet's own fields, "" fields being left out |
| AdminDashboard.BlankFormRefused | client/src/pages/adminDashboard.tsx:403-412 | the reset form is refused by the server's create rules |
| AdminDashboard.RestockRequest | client/src/pages/adminDashboard.tsx:352-370 | no request without a token; refused when the text parses to ≤ 0; text that does not parse is sent and is the only sent case the server's rule rejects |
| AdminDashboard.RestockPreview | client/src/pages/adminDashboard.tsx:1043 | the current stock when the field is empty; otherwise stock plus parseInt of the text, including for 0 or a negative number that the form then refuses to send; NaN when the text does not parse |
| AdminDashboard.PreviewIsRestockedStock | client/src/pages/adminDashboard.tsx:1043 | when the server accepts a restock, the preview showed the stock it then stores |

## Left out

- Rendering is not modelled: JSX, `useState`/`useEffect` wiring, modals, `alert`, `confirm`, navigation and logout.
- client/src/pages/login.tsx and client/src/pages/register.tsx are not modelled. Their logic is HTTP calls, cookie writes and navigation.
- The admin page's delete handler is not modelled. It is a confirmation dialog and a request, and the request is `Inventory.Store.Delete`.
- HTTP and persistence are not modelled: axios, Express routing, Mongoose queries, `connectDB`. The store's map and the handlers' replies stand in for them.
- Ids the database assigns are parameters (`newId`).
- jsonwebtoken, its secret and expiry, are abstract: `verify` returning None covers a wrong signature and an expired token alike.
- bcrypt is abstract. The User model file is not part of this model. Its role enum ("user" or "admin") and its "user" default are taken from the tests; `AuthService.RoleAccepted` encodes them.
- express-validator's `isEmail` is a parameter, and so is `parseFloat`. Number formatting for prices and search bounds is a parameter too; `Dashboard.SentQueryIsAccepted` and `AdminDashboard.PrefillRoundTrip` require it to parse back.
- Floating point is not modelled. Prices and request numbers have at most two decimals (cents, hundredths), so `toFixed(2)` and rounding are out.
- `localeCompare` is an abstract rank on names. Names of equal rank compare equal.
- MongoDB `$regex` is modelled as a case-insensitive substring match. Regex metacharacters are not covered, and case folding is ASCII only.
- `ObjectId.isValid` is modelled as 24 hexadecimal characters. Its acceptance of any 12-character string is left out.
- Concurrency is not modelled: the read-check-save race of purchase, and the parallel `Promise.allSettled` checkout. `UserDashboard.Checkout` takes the settled results as input.
- The controllers' `catch` paths are modelled where a named failure reaches them (schema validation, a lookup that throws). Other unexpected exceptions (a database outage) appear only as `AuthController.ServiceCall.Raised` and the `AuthService.Fault` argument.
- The checkout's own `catch` branch is not modelled, nor the refresh after checkout.
- `decodeURIComponent` is a parameter of `UserDashboard.UserName`, so the exception it throws on malformed text is not modelled.
- The sort is not modelled in place. `Array.prototype.sort` on the fetched list is modelled on values, as a stable insertion sort (`Dashboard.Sort`), so aliasing of the sorted array is not captured.
- The update body is modelled as `Inventory.Patch`. The client's `sweetData` is modelled as the create body (`Inventory.CreateBody`), and its conversion to a patch is not modelled.
- Access.Authenticate: its own contract states only that every refusal is a 401; which refusal is given when is stated by `Access.RefusalReasons`, and when it proceeds by `Access.ProceedsExactlyWhenVerified`.
- Inventory.Store.Update: the body's quantity is an integer (`Inventory.Patch.quantity`). The update route runs no isInt rule, so a fractional quantity such as 2.5 is stored by the source; the model cannot express it.
- Inventory.Store.Restock: the body's quantity is a number. A quantity sent as a JSON string is modelled apart, in `Inventory.RestockedAsWritten` (see Findings); the store uses the intended sum.
- AuthService.SoundHasher: bcrypt reads the first 72 bytes of a password; the model counts characters, which is the same for ASCII passwords only.
- Common.ParseInt: `parseInt` without a radix reads a "0x" prefix as hexadecimal; this is not modelled. The pages parse only the text of `type="number"` inputs (client/src/pages/adminDashboard.tsx:816, 1030), which never holds such a prefix.

## Findings

| source | as written | input that shows it | evidently intended | confidence | as-written member | corrected member |
|---|---|---|---|---|---|---|
| server/src/models/Sweet.ts:67 with server/src/controllers/SweetController.ts:27-29 | the restock rule isInt({ min: 1 }) accepts a JSON string such as "5" or "+5", and `this.quantity += quantityToAdd` then concatenates it to the stock's text | stock 10, body {"quantity": "5"}: the stock becomes 105 with a 200; body {"quantity": "+5"}: "10+5" fails the cast and the route answers 500 | the stock grows by the requested amount, 15 in both cases | not executed | Inventory.RestockedAsWritten (Inventory.DigitStringRestockConcatenates, Inventory.SignedStringRestockFails, Inventory.RestockStringCounterexample) | Inventory.RestockedIntended (Inventory.RestockAgreesOnNumbers; used by Inventory.Store.Restock) |
