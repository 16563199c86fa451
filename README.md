# Vial ledger of a clinic inventory tracker, in Dafny

This project models the core of a multi-tenant inventory tracker for
injectable products. The core is the **vial ledger**. It is an
account-scoped table of vial records together with two append-only logs:
usage rows and audit rows.

- **Usage recording** runs its checks in a fixed order: the schema, then
  the vial's existence in the caller's account, then ACTIVE status, then
  enough remaining, then the provider's ownership. On success it makes one
  all-or-nothing update. It appends a usage row, sets
  `remaining := max(0, remaining - used)`, turns the vial DEPLETED (with a
  depletion date) exactly when nothing is left, and appends one
  `USAGE_LOGGED` audit row.
- **Batch intake** validates the entries and checks that every product and
  location belongs to the account. It then creates one ACTIVE vial per
  unit, in entry order, each with `initial = remaining =` the product's
  nominal fill. Last it appends one `VIAL_RECEIVED` audit row.
- **The inventory listing** builds a filter from the request parameters
  and orders the result by expiry, newest first among equal expiries. It
  also returns a per-product summary of ACTIVE vials.
- **The sidebar** highlights at most one navigation entry for the current
  path (none for a path such as `/dashboard/reports`) and shows the user's
  initials.

Layout, one module per source file plus two shared ones:

- `ledger_types.dfy` (`LedgerTypes`): the records and the ledger invariant `WellFormed`.
- `text.dfy` (`Text`): string helpers.
- `usage_rules.dfy` (`UsageRules`): the checks and the depletion arithmetic of usage recording.
- `intake_rules.dfy` (`IntakeRules`): the intake schema, the ownership checks and the vials a batch creates.
- `ledger.dfy` (`VialLedger`): the `Ledger` class. Its fields are the tables; its methods `RecordUsage` and `ReceiveIntake` are the two POST handlers.
- `inventory_query.dfy` (`InventoryQuery`): the listing handler.
- `sidebar.dfy` (`Sidebar`): the navigation matcher and the initials.

Modelling choices:

- Quantities are exact reals.
- Timestamps are integers in milliseconds.
- The account and the acting user are explicit parameters.
- The clock (`now`) and the date parser (`dateOf`) are parameters.
- Vial ids are serial numbers that the ledger hands out, increasing along the table. Every other id is a string.
- Where a handler tests an optional field (`||`, `if`, `filter(Boolean)`), an empty string counts as absent, as JavaScript truthiness does. Where it copies the field untested (the usage audit metadata's `providerId` and `patientRef`, src/app/api/usage/route.ts:174-175), an empty string is kept.

Facts about the handlers that the model keeps as the code has them:

- Usage recording validates the quantity (`>= 0.1`, src/app/api/usage/route.ts:11 and :74) before it looks up the vial (:77) and before the status check (:92).
- A vial becomes DEPLETED when `remaining - used <= 0`, and its stored remaining is clamped at 0 (src/app/api/usage/route.ts:146-155).
- Intake never reads a product's `active` flag (src/app/api/inventory/intake/route.ts:31-36).
- Product ids are the store's primary key, so the ledger invariant requires the catalog's ids to be distinct.

## Model

| member | source | states |
|---|---|---|
| `LedgerTypes.OrNull` | src/app/api/usage/route.ts:133-137 | `x \|\| null`: the field is kept exactly when it is present and non-empty |
| `LedgerTypes.HttpStatus` | src/app/api/usage/route.ts:85-122 | not-found errors (vial, provider) answer 404; every other rejection answers 400 |
| `LedgerTypes.ProductById` | src/app/api/usage/route.ts:82 | the product row returned has the asked id and comes from the catalog; none is returned only when no row has that id |
| `UsageRules.FindVial` | src/app/api/usage/route.ts:77-83 | returns the first vial with that id in the caller's account; returns none only when the account has no such vial |
| `UsageRules.CheckUsage` | src/app/api/usage/route.ts:74-123 | the check order: a quantity below 0.1 is a validation error before any lookup; then not found; then not active, whatever remains; then insufficient (naming the remaining amount and the lower-cased unit) exactly when used > remaining, so using exactly the remainder passes; then provider not found for a present provider outside the account; success exactly when all pass |
| `UsageRules.ApplyUsage` | src/app/api/usage/route.ts:145-157 | only remaining, status and depletion date change; remaining is never negative; DEPLETED iff used >= remaining, then remaining 0 and stamped now; otherwise ACTIVE with remaining − used; from a well-formed ACTIVE vial and a sufficient positive use, the result is well-formed and strictly smaller |
| `VialLedger.Ledger.constructor` | src/app/api/products/route.ts:12 | an empty ledger over a catalog with distinct ids whose nominal fills are all at least 1 satisfies the ledger invariant |
| `VialLedger.Ledger.RecordUsage` | src/app/api/usage/route.ts:66-183 | keeps the ledger invariant; a rejected request returns the first failing check and changes no table; a success replaces only the target vial by its `ApplyUsage` image, appends exactly one usage row and one USAGE_LOGGED audit row whose entity is the vial and whose metadata remaining equals the new remaining |
| `IntakeRules.EntryIssue` | src/app/api/inventory/intake/route.ts:7-13 | an entry passes exactly when product id, lot number and expiry are non-empty and quantity is at least 1 |
| `IntakeRules.FirstEntryIssue` | src/app/api/inventory/intake/route.ts:15-16 | no message exactly when every entry passes; a message is the issue of the first entry that has one, every entry before it passing (zod's first issue) |
| `IntakeRules.ValidateIntake` | src/app/api/inventory/intake/route.ts:15-27 | a batch passes exactly when it is non-empty and every entry passes; every rejection is a validation error; an empty batch gets "At least one vial is required"; a non-empty batch gets the message of its first failing entry |
| `IntakeRules.OwnedIffFoundInAccount` | src/app/api/inventory/intake/route.ts:31-36 | with distinct product ids, the model's ownership test holds exactly when the account-filtered search finds a row with that id |
| `IntakeRules.AllOwnedIffFoundInAccount` | src/app/api/inventory/intake/route.ts:30-43 | a batch passes the product check exactly when every product id it names has a row in the account |
| `IntakeRules.CreatedShape` | src/app/api/inventory/intake/route.ts:70-89 | a batch creates exactly the sum of its quantities in vials, numbered consecutively, each ACTIVE, undepleted, in the caller's account, with initial = remaining = its product's nominal fill |
| `IntakeRules.CreatedInEntryOrder` | src/app/api/inventory/intake/route.ts:70-89 | unit u of entry k is the vial at position (units of entries before k) + u, and copies that entry's product, lot, expiry and location (absent when empty) |
| `IntakeRules.TotalCopiesPrefix` | src/app/api/inventory/intake/route.ts:70-74 | the units of the entries up to and including k never exceed the batch's total |
| `IntakeRules.NewVialWellFormed` | src/app/api/inventory/intake/route.ts:82-84 | with a nominal fill of at least 1, a new vial keeps the ledger invariant with 0 < remaining = initial |
| `IntakeRules.InitProductsExist` | src/app/api/inventory/intake/route.ts:71 | if every entry's product resolves, so does every entry of a prefix |
| `IntakeRules.Summaries` | src/app/api/inventory/intake/route.ts:103-107 | the audit metadata's entries mirror the input entries one for one, in order |
| `VialLedger.Ledger.ReceiveIntake` | src/app/api/inventory/intake/route.ts:19-122 | keeps the ledger invariant; a schema failure, an unowned product (some named id has no catalog row in the account) or an unowned non-empty location (checked in that order) rejects the whole batch with no writes; an accepted batch appends exactly the `Created` vials after the existing ones and changes none of them; it then appends one VIAL_RECEIVED audit row with vialsCreated = the total, and the first created vial as entity |
| `VialLedger.Ledger.AppendBatch` | src/app/api/inventory/intake/route.ts:67-89 | the nested creation loops append exactly `Created(entries)`, one row per unit in entry order, with consecutive ids |
| `VialLedger.Ledger.NewRowsKeepInvariant` | src/app/api/inventory/intake/route.ts:75-85 | appending fresh intake rows with ids from the next id on keeps the ledger invariant and the increasing ids |
| `VialLedger.PositiveTotal` | src/app/api/inventory/intake/route.ts:11-16 | an accepted batch creates at least one vial, so the audit row always names a first vial |
| `InventoryQuery.BuildWhere` | src/app/api/inventory/route.ts:21-47 | the built filter keeps exactly the vials of the account that satisfy each given parameter: status, product and location by equality only when given; the search text as a case-insensitive substring of the lot; an expiring window `now < expiry <= now + d days` that forces ACTIVE over any status parameter |
| `InventoryQuery.Filter` | src/app/api/inventory/route.ts:49-53 | keeps each vial the filter accepts as often as the table holds it, and nothing else |
| `InventoryQuery.HeadPrecedesInserted` | src/app/api/inventory/route.ts:55-58 | when a vial sorts after the head of an ordered list, the head sorts before every row of the tail with the vial inserted |
| `InventoryQuery.Insert` | src/app/api/inventory/route.ts:55-58 | inserting into a list in listing order keeps it in order and adds exactly that vial |
| `InventoryQuery.SortListing` | src/app/api/inventory/route.ts:55-58 | the result is a permutation of the input ordered by expiry ascending, then creation time descending |
| `InventoryQuery.FindAfterAdd` | src/app/api/inventory/route.ts:62-70 | counting a vial into the buckets changes only its product's bucket, by one vial and its remaining quantity |
| `InventoryQuery.GroupsAgree` | src/app/api/inventory/route.ts:62-70 | the grouping has a bucket for a product exactly when the account has ACTIVE vials of it, holding their count and summed remaining |
| `InventoryQuery.GroupsAgreeEverywhere` | src/app/api/inventory/route.ts:80-87 | the agreement of the grouping holds for every product id at once |
| `InventoryQuery.ActiveProducts` | src/app/api/inventory/route.ts:73-78 | exactly the account's products flagged active |
| `InventoryQuery.ActiveProductsFilter` | src/app/api/inventory/route.ts:73-78 | keeps each of the account's products flagged active as often as the catalog holds it, and nothing else |
| `InventoryQuery.ActiveProductsUnique` | src/app/api/inventory/route.ts:73-80 | over a catalog with distinct ids, the summary's products have distinct ids |
| `InventoryQuery.Summary` | src/app/api/inventory/route.ts:80-87 | one row per active product of the account, each product id at most once when catalog ids are distinct; activeVials = the count of its ACTIVE vials and totalUnits = their summed remaining (both 0 when none); it takes no listing parameter, so the filters do not affect it |
| `InventoryQuery.ActiveUnitsBounds` | src/app/api/inventory/route.ts:84-85 | a product with no ACTIVE vials shows 0 units; over well-formed vials the units are never negative |
| `InventoryQuery.ListInventory` | src/app/api/inventory/route.ts:6-89 | returns each vial of the table that matches the request exactly as often as the table holds it, and no other; every row is in the caller's account; rows are in listing order; the summary is the account's summary |
| `Text.Lower` | src/app/api/inventory/route.ts:37-39 | same length, each ASCII capital mapped to lower case |
| `Text.Upper` | src/components/layout/Sidebar.tsx:129 | same length, each ASCII small letter mapped to upper case |
| `Text.Split` | src/components/layout/Sidebar.tsx:129 | `split` always yields at least one piece |
| `Text.SplitPiecesAvoidSeparator` | src/components/layout/Sidebar.tsx:129 | no piece of `split` contains the separator |
| `Text.JoinSplit` | src/components/layout/Sidebar.tsx:129 | joining the pieces with the separator gives back the string |
| `Text.SplitJoin` | src/components/layout/Sidebar.tsx:129 | splitting a join of separator-free pieces gives back the pieces |
| `Sidebar.TeamworkActivatesTeam` | src/components/layout/Sidebar.tsx:74 | matching is plain string prefix: `/dashboard/teamwork` highlights Team and not the dashboard entry |
| `Sidebar.PrefixesNest` | src/components/layout/Sidebar.tsx:74 | two prefixes of one path: the shorter is a prefix of the longer |
| `Sidebar.DifferAt` | src/components/layout/Sidebar.tsx:27-63 | strings that differ at a shared index are not prefixes of each other |
| `Sidebar.HrefsPrefixFree` | src/components/layout/Sidebar.tsx:27-63 | no non-dashboard href is a prefix of another |
| `Sidebar.AtMostOneActive` | src/components/layout/Sidebar.tsx:70-75 | for any pathname, at most one navigation entry is active: `/dashboard` only on the exact path, the others by prefix |
| `Sidebar.FirstLettersOfNonEmpty` | src/components/layout/Sidebar.tsx:129 | `map(n => n[0]).join("")` gives one character per non-empty word, its first Unicode character, in order |
| `Sidebar.InitialsPerWord` | src/components/layout/Sidebar.tsx:129 | the initials hold one upper-cased first Unicode character per non-empty space-separated word, in order |
| `Sidebar.OneWordInitials` | src/components/layout/Sidebar.tsx:129 | a one-word name gives its first Unicode character, upper-cased |
| `Sidebar.EmptyWordsIgnored` | src/components/layout/Sidebar.tsx:129 | empty words from repeated spaces contribute nothing |

## Left out

- Concurrency of usage recording: the code reads the vial before its transaction starts (src/app/api/usage/route.ts:77 and :126), so two concurrent requests can overdraw a vial. The model runs each request as one atomic step, so it does not capture this gap.
- Floating point: the code converts the stored decimal with `Number(...)` and subtracts in binary floating point. The model uses exact reals, so rounding drift is not modelled.
- Intake quantities that are not integers: the schema has no integer check, so the per-unit loop would run ⌈q⌉ times. The model's quantity is an integer.
- The usage schema's non-empty `vialId` check: vial ids are numeric serials here, so the check cannot fail.
- Sessions: the 401 answer to a request without a session is not modelled. The account and the user are parameters.
- Failures of the store, and the 500 answers to them, are not modelled. This includes an unparsable expiry date or `expiring` value.
- The audit rows' free-text `description` is not modelled, because it needs number formatting. The structured metadata is modelled.
- `IntakeRules.AllProductsOwned`: the code compares the number of rows found with the number of distinct ids. The model does not count rows. It states that every named id has a row in the account (`AllOwnedIffFoundInAccount`), which decides the same thing when ids are distinct.
- `Sidebar.FirstLettersOfNonEmpty`: words are sequences of Unicode characters here, so for a word starting outside the Basic Multilingual Plane the model takes the whole character, where JavaScript's `n[0]` takes the first half of a surrogate pair.
- `Sidebar.InitialsPerWord`: words are sequences of Unicode characters here, so for a word starting outside the Basic Multilingual Plane the model's initial is the whole character, where JavaScript's `n[0]` gives a lone high surrogate that `toUpperCase` leaves as it is.
- `Sidebar.OneWordInitials`: words are sequences of Unicode characters here, so for a name starting outside the Basic Multilingual Plane the model gives the whole character, where the source shows half a surrogate pair. Splitting on the space and matching the ASCII hrefs are not affected, because neither involves a surrogate.
- `Text.Lower`, `Text.Upper`: they map ASCII letters only, one character to one. The store's case-insensitive match and JavaScript's `toUpperCase` also fold other letters, and `toUpperCase` can turn one letter into two (ß → SS), so the name "ßara" shows "SS" where the model shows "ß".
- `InventoryQuery.Summary`: the products query has no `orderBy` (src/app/api/inventory/route.ts:73-78), so the store may return the summary rows in any order. The model lists them in catalog order.
- Vials with equal expiry and equal creation time: the store leaves their relative order unspecified. The model's sort fixes one such order.
- Status changes (dispose, quarantine, mark expired), the usage log listing, the catalog handlers (products, locations, providers), signup, authentication and label printing are not part of this model.
