# Data-cleaning engine and analytical queries: a Dafny model

This project models two parts of a small MongoDB-backed data pipeline:

- **The normalization engine** (`src/data_cleaning.py`). It repairs the
  `users` and `transactions` collections in three passes, run in a fixed order:
  1. The user pass tries to set a normalized e-mail, phone and gender on
     every user, and the fallbacks `Unknown`/`User` on missing or empty names.
     An update the unique e-mail index refuses is skipped, and that user stays
     as it was.
  2. The transaction pass bulk-deletes transactions whose amount cannot be
     repaired. It then gives every survivor a valid status, and replaces a
     present timestamp that does not parse with the repair time; an absent
     timestamp stays absent.
  3. The integrity pass deletes every transaction whose `user_id` names no
     user.
- **The query set** (`src/aggregations.py`). These are four read-only
  aggregation pipelines:
  - total spent per user, largest first;
  - users with three or more transactions;
  - count and mean amount per status;
  - users without transactions.

The model has five modules:

- `Values` (`values.dfy`) defines document values. A value is `Str`, `Num`
  (an unbounded integer), `Float` (a real with its Python `str()` text),
  `Null`, or `Other`, which stands for any other BSON value and carries its
  Python `str()`. A document is a `map<string, Value>`.
  This module also models Python's `str()`, `lower()` and `upper()` on ASCII.
- `Seqs` (`seqs.dfy`) defines order-preserving selection. This is the shape of
  `delete_many` (what survives it) and of `$match`.
- `Normalizers` (`normalizers.dfy`) holds the three field normalizers, written
  as pure functions. The e-mail regular expression is a hand-written predicate.
  This module also builds the per-document `$set` updates for users and for
  transactions.
- `Cleaning` (`cleaning.dfy`) holds the store. `Store` is a class whose `users`
  and `transactions` sequences the passes update in place. Each pass is a
  method with a loop, proved against a specification function of the
  collections it starts from. The lemmas about those functions state what the
  passes guarantee. The unique index on `users.email` is part of the store
  invariant, and it is what makes a user update fail: an update whose new
  e-mail key belongs to another user is refused whole and not counted.
- `Aggregations` (`aggregations.dfy`) writes each query as a function of the
  two collections, built from group, match, lookup, project and sort.
  Functions cannot change state, so none of the queries can modify either
  collection.

The clock and the date parser are parameters of the model:

- `now: string` is the `isoformat()` text of the repair time.
- `parses: string -> bool` tells whether `strptime` accepts a string in the
  format `%Y-%m-%dT%H:%M:%S.%f`.

Behaviour of the code worth knowing:

- **Surviving amounts.** The bulk delete removes only amounts that are numbers
  (integer or float) at most 0, missing, or null. A string amount survives the
  transaction pass, so a remaining amount need not be a positive number.
  `CleanTx` states exactly what does hold, and `CleanAllTotalsNonNegative`
  that no user's total spent is negative afterwards.
- **Empty names.** The name fallback also replaces an empty string, not only a
  missing or non-string name.
- **Synthesized e-mails.** The address built from the raw names is not checked
  against the pattern. When a user's stored e-mail fails the pattern and the
  first name holds a space, or is a list, the address computed for the update
  fails the pattern too (`SynthesizedEmailMayFail`). A valid stored e-mail is
  kept as it is, and the update can still be refused by the unique index.
  `SynthesizedEmailMatches` states when the built address does match.
- **Timestamps.** A repaired timestamp is the repair time's text. Nothing says
  that this text itself parses, so the model only proves "parses, or equals
  `now`".
- **Phone local part.** The phone normalizer's local part is nine digits
  whenever the raw input holds no `+` (`PhoneWithoutPlus`). A `+` after the
  prefix survives: `+213+1` becomes `+2130000000+1` (`InnerPlusExample`). With
  a leading `+`, a `+213` number keeps the nine characters after its prefix
  (`PhoneWithPlus`). Any other number keeps the last nine characters after its
  `+`, zero-padded when shorter, so a country code is dropped only when at
  least nine characters follow it: `+15551234` becomes `+213015551234`
  (`ForeignShortExample`).

## Model

| member | source | states |
|---|---|---|
| Values.UpperEqualIffEqualsIgnoringCase | src/data_cleaning.py:48-52 | comparing upper-cased strings is exactly comparing them ignoring ASCII case, in both directions |
| Normalizers.CleanEmail | src/data_cleaning.py:10-18 | a string address matching the pattern comes back unchanged; an absent, non-string or malformed one is replaced by `first.last@example.com` built from the raw names |
| Normalizers.CleanEmailFixedPoint | src/data_cleaning.py:13-18 | normalizing a user whose e-mail is already the normalizer's output (names unchanged) gives the same address |
| Normalizers.SynthesizedEmail | src/data_cleaning.py:15-17 | the replacement address always ends with `@example.com` after a non-empty local part |
| Normalizers.SynthesizedEmailMatches | src/data_cleaning.py:15-17 | when both raw names consist of letters, digits and `._%+-`, the synthesized address itself matches the pattern |
| Normalizers.SynthesizedEmailMayFail | src/data_cleaning.py:15-17 | when the stored e-mail is invalid and the raw first name renders with a character the pattern refuses (other than `@`), the normalizer's output fails the pattern too |
| Normalizers.IsAddress | src/data_cleaning.py:16 | the pattern's body: a non-empty run of `[a-zA-Z0-9._%+-]`, `@`, then a domain; its consequences are the rows `AddressShape` and `AddressChars` |
| Normalizers.MatchesEmailPattern | src/data_cleaning.py:16 | `re.match` of the anchored pattern, with `$` also before one final newline; `PatternMatchShape` states what it accepts |
| Normalizers.AddressShape | src/data_cleaning.py:16 | a string the pattern accepts without a final newline is at least six characters, starts with a local-part character and ends with a letter |
| Normalizers.PatternMatchShape | src/data_cleaning.py:16 | `re.match` with `$` accepts an address or an address followed by one newline, and the last character tells which |
| Normalizers.AddressChars | src/data_cleaning.py:16 | every character of an accepted address is one of `[a-zA-Z0-9._%+-]` or `@` |
| Normalizers.NonStringEmailExample | src/data_cleaning.py:13-15 | an e-mail of `123` with names Jean Dupont becomes `jean.dupont@example.com` |
| Normalizers.EmailUsesRawNamesExample | src/data_cleaning.py:66-74 | a user without a first name gets `.dupont@example.com` (raw name, not the fallback) and first name `Unknown` |
| Normalizers.KeepPhoneChars | src/data_cleaning.py:28 | the stripped text holds only digits and `+` and is no longer than the input |
| Normalizers.KeepPhoneCharsCounts | src/data_cleaning.py:28 | stripping keeps each digit and `+` as many times as the input holds it, and no other character |
| Normalizers.KeepPhoneCharsAppend | src/data_cleaning.py:28 | stripping a concatenation is concatenating the stripped parts, so the kept characters stay in input order |
| Normalizers.KeepPhoneCharsKeepsClean | src/data_cleaning.py:28 | stripping text made only of digits and `+` leaves it as it is |
| Normalizers.WithCountryPrefix | src/data_cleaning.py:29-34 | after the re-prefixing step the text starts with `+213`, and is still digits and `+` only |
| Normalizers.WithCountryPrefixValue | src/data_cleaning.py:29-34 | text already starting with `+213` is kept; otherwise `+213` is followed by the last nine characters (all when fewer) of the text with one leading `+` dropped |
| Normalizers.FitToThirteen | src/data_cleaning.py:35-38 | after cutting or padding, the text is exactly 13 characters, starts with `+213`, and is still digits and `+` only |
| Normalizers.FitToThirteenValue | src/data_cleaning.py:35-38 | a text of 13 or more characters keeps its first 13; a shorter one ends with its part after `+213`, with zeros between the prefix and it |
| Normalizers.CleanPhone | src/data_cleaning.py:23-42 | the result always has length 13, starts with `+213` and holds only digits and `+`; a non-string input gives `+213000000000` |
| Normalizers.CleanPhoneIdempotent | src/data_cleaning.py:28-39 | normalizing the normalizer's own output returns it unchanged |
| Normalizers.PhoneLocalPart | src/data_cleaning.py:28-38 | for input without `+`, the output is `+213` then the last nine digits, or all the digits left-padded with zeros to nine |
| Normalizers.PhoneWithoutPlus | src/data_cleaning.py:28-38 | for input without `+`, positions 4 to 12 are digits, and they are the last nine digits of the input or the zero-padded digits |
| Normalizers.PhoneWithPlus | src/data_cleaning.py:28-38 | when the stripped input starts with `+`: a `+213` number keeps the first nine characters after its prefix; any other is `+213` then the last nine characters after the `+`; both padded with leading zeros to nine |
| Normalizers.SpacedPhoneExample | src/data_cleaning.py:28-38 | `06 12 34 56 78` becomes `+213612345678` |
| Normalizers.SpacedInternationalExample | src/data_cleaning.py:28-38 | `+213 555 12 34 56` becomes `+213555123456` |
| Normalizers.ForeignShortExample | src/data_cleaning.py:28-38 | `+15551234` becomes `+213015551234`: a short number under another country code keeps the code's digits |
| Normalizers.EmptyPhoneExample | src/data_cleaning.py:34-38 | the empty string becomes `+213000000000` |
| Normalizers.InnerPlusExample | src/data_cleaning.py:28-38 | `+213+1` keeps its inner `+`: `+2130000000+1` |
| Normalizers.CleanGender | src/data_cleaning.py:44-56 | the result is `Male`, `Female` or `Unknown`; `Male` exactly for `m`/`male` in any case, `Female` exactly for `f`/`female` in any case; everything else, non-strings included, is `Unknown` |
| Normalizers.CleanGenderIdempotent | src/data_cleaning.py:44-53 | normalizing the normalizer's own output returns it unchanged |
| Normalizers.NeedsNameFallback | src/data_cleaning.py:71-74 | a name is replaced when it is absent, not a string, or empty; its effect is stated by `UserUpdateFields` and `RepairUserSets` |
| Normalizers.UserUpdate | src/data_cleaning.py:65-74 | the user `$set` document; `UserUpdateFields` states its keys and values |
| Normalizers.RepairUser | src/data_cleaning.py:76-79 | the user after its `$set` is applied; `RepairUserSets` and `RepairedUserCanonical` state the result |
| Normalizers.UserUpdateFields | src/data_cleaning.py:65-74 | the user `$set` always holds e-mail, phone and gender with the normalizer outputs, and holds `first_name`/`last_name` exactly when that name is missing, not a string or empty |
| Normalizers.RepairUserSets | src/data_cleaning.py:65-79 | an updated user has its old fields plus the five update fields; e-mail, phone and gender are the normalizer outputs; names are replaced by `Unknown`/`User` only when they need it; every other field is unchanged |
| Normalizers.RepairedUserCanonical | src/data_cleaning.py:65-79 | an updated user has a string e-mail, non-empty string names, a 13-character `+213` phone and a known gender |
| Normalizers.CleanEmailAfterRepair | src/data_cleaning.py:13-18 | the e-mail normalizer gives the same address on an updated user when that address was valid or the names were kept |
| Normalizers.RepairUserIdempotent | src/data_cleaning.py:63-79 | updating an updated user again changes nothing, when its first update left a valid address or needed no name fallback |
| Normalizers.RepairedUserUpdate | src/data_cleaning.py:65-74 | the update computed for an already updated user writes back e-mail, phone and gender unchanged and no name |
| Normalizers.TxUpdate | src/data_cleaning.py:105-117 | the transaction `$set` is empty exactly when the timestamp (if present) parses and the status is valid |
| Normalizers.RepairTx | src/data_cleaning.py:117-121 | the transaction after its `$set` is applied; `RepairTxSets` and `NoUpdateNoChange` state the result |
| Normalizers.NoUpdateNoChange | src/data_cleaning.py:117-121 | an empty `$set` leaves the transaction as it is |
| Normalizers.HasUnrepairableAmount | src/data_cleaning.py:95-101 | a transaction is deleted exactly when its amount is missing, null, or an integer or float at most 0 |
| Normalizers.RepairTxSets | src/data_cleaning.py:107-115 | after the update the status is valid; a valid status is untouched and an invalid one becomes `PENDING`; a present timestamp that does not parse becomes `now`; an absent one stays absent; every other field is unchanged |
| Cleaning.UniqueEmails | src/init_connection.py:51 | the unique index on `users.email`: no two users share an e-mail key (absent reads as null); kept by `UsersPassKeepsUniqueEmails` |
| Cleaning.StoreInvariant | src/init_connection.py:51 | `_id`s present and unique in both collections, and e-mails unique; kept by `CleanedUsersKeepInvariant` and `TransactionPassKeepsInvariant` |
| Cleaning.TryRepairUser | src/data_cleaning.py:76-86 | one `update_one`: applied and counted unless another user already holds the new e-mail key; `TryRepairCounts` states the outcome |
| Cleaning.UsersPassPrefix | src/data_cleaning.py:63-86 | after visiting k users the collection has the same size and at most k successes were counted |
| Cleaning.CleanedUsers | src/data_cleaning.py:58-88 | the user pass neither adds nor removes users |
| Cleaning.UsersPassShape | src/data_cleaning.py:63-86 | each user ends either untouched or exactly updated, and users not yet visited are untouched |
| Cleaning.UsersPassFrozen | src/data_cleaning.py:63-79 | a user already visited is not changed again later in the pass |
| Cleaning.UsersPassKeepsUniqueEmails | src/data_cleaning.py:76-86 | the pass never lets two users share an e-mail index key |
| Cleaning.RepairUserKeepsId | src/data_cleaning.py:65-79 | the user update never touches `_id` |
| Cleaning.UsersPassKeepsIds | src/data_cleaning.py:76-79 | every user keeps its `_id` through the pass |
| Cleaning.CleanUserNeverCollides | src/data_cleaning.py:76-79 | an update that keeps a user's e-mail key is never refused by the unique index |
| Cleaning.RefusedUserWasNotClean | src/data_cleaning.py:76-86 | an update the index refuses would have changed the user |
| Cleaning.TryRepairCounts | src/data_cleaning.py:76-86 | one step of the pass counts exactly when it leaves the user in its updated form, and keeps e-mails unique |
| Cleaning.UsersPassCountInvariant | src/data_cleaning.py:63-86 | after k steps, users from k on are untouched, e-mails are unique, and the count is the number of visited users holding their updated form |
| Cleaning.UsersPassCount | src/data_cleaning.py:76-88 | the reported count equals the number of users that now hold their updated form |
| Cleaning.UsersPassRepairsKeptEmails | src/data_cleaning.py:76-86 | a user whose update keeps its e-mail key is always updated |
| Cleaning.CleanedUsersRepairValidEmails | src/data_cleaning.py:63-80 | a user whose stored address is what the e-mail normalizer returns receives its full update |
| Cleaning.CleanedUsersKeepInvariant | src/data_cleaning.py:58-88 | the user pass keeps `_id`s present and unique and e-mails unique |
| Cleaning.CleanedUsersKeepIdSet | src/data_cleaning.py:63-79 | the set of user `_id`s is the same before and after the user pass |
| Cleaning.DeletesExactlyUnrepairable | src/data_cleaning.py:95-101 | the bulk delete keeps exactly the transactions whose amount is not a number at most 0, missing, or null; what it keeps and what it removes together make up the collection |
| Cleaning.FilterKeepsIds | src/data_cleaning.py:95-101 | a bulk delete keeps `_id`s present and unique |
| Cleaning.RepairedTxs | src/data_cleaning.py:103-121 | every surviving transaction, in order, is replaced by its updated form and none is added |
| Cleaning.CountNeedingWriteStep | src/data_cleaning.py:117-121 | one more visited transaction adds one write exactly when its `$set` is non-empty |
| Cleaning.RepairedTxsKeepIds | src/data_cleaning.py:117-121 | the per-document updates keep `_id`s present and unique |
| Cleaning.TransactionPassOutcome | src/data_cleaning.py:95-122 | after the transaction pass every transaction has a repairable amount, a valid status, and an absent, parsing or fresh timestamp, and each comes from a transaction of the input |
| Cleaning.TransactionPassKeepsInvariant | src/data_cleaning.py:90-131 | the transaction pass keeps what the store guarantees |
| Cleaning.TransactionPassRerun | src/data_cleaning.py:95-122 | a second transaction pass deletes nothing, keeps every status, and keeps every timestamp that parses |
| Cleaning.Referenced | src/data_cleaning.py:135-138 | what survives the integrity delete is no larger than the collection, and every survivor's `user_id` is one of the given `_id`s |
| Cleaning.ReferencedExactly | src/data_cleaning.py:133-138 | the integrity delete keeps a transaction exactly when some user's `_id` equals its `user_id` (an absent `user_id` reads as null) |
| Cleaning.ReferencedIdempotent | src/data_cleaning.py:135-138 | a second integrity delete over the same users deletes nothing |
| Cleaning.RepairTransaction | src/data_cleaning.py:104-121 | for one document, a write is issued exactly when its `$set` is non-empty, and without a write the document is unchanged |
| Cleaning.Store.constructor | src/data_cleaning.py:6-8 | the store opens on collections with unique `_id`s and the unique e-mail index created at src/init_connection.py line 51 |
| Cleaning.Store.CleanUsers | src/data_cleaning.py:58-88 | the method leaves the users and the count that the user-pass function gives, and keeps transactions and the store invariant |
| Cleaning.Store.VisitUsers | src/data_cleaning.py:63-86 | the loop leaves exactly the users and count of the user-pass function for the given per-user update, and keeps transactions |
| Cleaning.Store.DeleteUnrepairable | src/data_cleaning.py:95-101 | after the bulk delete, the transactions are exactly the repairable ones, in order, and users are unchanged |
| Cleaning.Store.CleanTransactions | src/data_cleaning.py:90-131 | the transactions become the updated survivors of the bulk delete; the count is the number visited; writes is the number of non-empty `$set`s |
| Cleaning.Store.ValidateRelationships | src/data_cleaning.py:133-139 | the transactions become exactly those naming an existing user; users are unchanged; the deleted count is the size difference |
| Cleaning.Store.CleanAll | src/data_cleaning.py:141-146 | the engine's result is the user pass, then the transaction pass, then the integrity delete against the updated users |
| Cleaning.CleanAllOutcome | src/data_cleaning.py:141-146 | afterwards there are as many users as before, each untouched or exactly updated, with unique e-mails; every transaction is clean and names an existing user |
| Cleaning.TransactionsRerunQuiet | src/data_cleaning.py:95-138 | transactions that are already repairable, valid and referenced survive a second transaction pass and integrity delete, with their statuses |
| Cleaning.CleanAllTotalsNonNegative | src/data_cleaning.py:141-146 | after the engine has run, no row of the total-spent query (src/aggregations.py lines 10-33) has a negative total |
| Cleaning.CleanAllRerun | src/data_cleaning.py:141-146 | running the engine a second time, at any later time, deletes no transaction and rewrites no status |
| Aggregations.Members | src/aggregations.py:12-13 | the group of key `v` holds exactly the documents whose key field reads `v` |
| Aggregations.Count | src/aggregations.py:38-42 | a group's size is at most the collection's and is positive exactly when some document has that key |
| Aggregations.CountSnoc | src/aggregations.py:38-42 | one more document adds one to its own group's size only |
| Aggregations.GroupKeys | src/aggregations.py:12-13 | the group keys are distinct and are exactly the values the key field takes (absent reads as null) |
| Aggregations.GroupKeyIffCount | src/aggregations.py:12-13 | a value is a group key exactly when its group is not empty |
| Aggregations.SumAmounts | src/aggregations.py:14 | the `$sum` of amounts (integers and floats; anything else adds 0) is non-negative when every amount counted is |
| Aggregations.AvgAmount | src/aggregations.py:72 | the `$avg` is null exactly when the group has no numeric amount |
| Aggregations.JoinedField | src/aggregations.py:17-28 | the joined name is absent exactly when no user with that `_id` has the field, and otherwise comes from such a user |
| Aggregations.JoinedFieldOfOwner | src/aggregations.py:17-28 | with unique user `_id`s, the joined name is the owning user's own field, absent exactly when it lacks one |
| Aggregations.JoinedFieldOfNobody | src/aggregations.py:17-28 | when no user has the group's `_id`, the joined names are absent |
| Aggregations.SpentRowFor | src/aggregations.py:12-31 | the row for one `user_id` group; `SpentRowMeaning` states its contents |
| Aggregations.SpentRowMeaning | src/aggregations.py:12-31 | a row is for its `user_id`; a joined name is absent exactly when no user with that `_id` has it; the total is not negative when none of the group's amounts is |
| Aggregations.InsertByTotal | src/aggregations.py:32 | inserting a row adds exactly that row |
| Aggregations.InsertKeepsSorted | src/aggregations.py:32 | inserting into rows in non-increasing order of total keeps that order |
| Aggregations.InsertKeepsDistinctIds | src/aggregations.py:32 | inserting a row for a new user keeps one row per user |
| Aggregations.SortByTotal | src/aggregations.py:32 | the sort is a permutation of its input |
| Aggregations.SortIsSorted | src/aggregations.py:32 | the sorted rows are in non-increasing order of total |
| Aggregations.SortKeepsDistinctIds | src/aggregations.py:32 | sorting keeps one row per user |
| Aggregations.SortKeepsRows | src/aggregations.py:32 | the sorted rows are the same rows, so they cover the same users |
| Aggregations.SpentRows | src/aggregations.py:10-31 | one row per user, each with that user's `$sum` and joined names, and a row exactly for each `user_id` that has transactions |
| Aggregations.TotalSpentByUser | src/aggregations.py:10-33 | the query's rows are in non-increasing order of total, one per user, and are exactly the grouped rows rearranged |
| Aggregations.TotalsNonNegative | src/aggregations.py:10-33 | when no amount is a negative number, no row has a negative total |
| Aggregations.TotalSpentByUserRows | src/aggregations.py:10-33 | each row holds its user's total and joined names, and a row exists exactly for each `user_id` with transactions |
| Aggregations.TotalSpentExample | src/aggregations.py:10-33 | A (100 + 50) and B (30) give A with 150 before B with 30, with their names |
| Aggregations.CountRowFor | src/aggregations.py:39-62 | the row for one `user_id` group; `CountRowMeaning` states its contents |
| Aggregations.CountRowMeaning | src/aggregations.py:39-62 | a row is for its `user_id`; its count is at most the number of transactions and positive exactly when some transaction names it; joined names are absent exactly when no such user has them |
| Aggregations.UsersWithMultipleTransactions | src/aggregations.py:37-64 | every row counts three or more transactions, so there are at most a third as many rows as transactions |
| Aggregations.HeavyKeysBound | src/aggregations.py:38-48 | each group that passes the `$match` holds three or more transactions, and three times their number is at most the number of transactions |
| Aggregations.HeavyGroupsCount | src/aggregations.py:38-48 | the groups kept hold at least three documents each and no more documents than all groups together |
| Aggregations.UsersWithMultipleTransactionsRows | src/aggregations.py:37-64 | a `user_id` has a row exactly when it has three or more transactions (three is in, two is out); the row carries that count and the joined names; no `user_id` has two rows |
| Aggregations.StatusRowFor | src/aggregations.py:69-72 | the row for one `status` group; `StatusRowMeaning` states its contents |
| Aggregations.StatusRowMeaning | src/aggregations.py:69-72 | a status row counts the transactions of its status, is positive exactly when one has it, and has a null mean exactly when none of them has a numeric amount |
| Aggregations.TransactionStatusPatterns | src/aggregations.py:67-75 | one row per distinct status, each with that status's count and mean amount, and a row exactly for each status value that occurs |
| Aggregations.CountSumSnoc | src/aggregations.py:69-71 | one more document adds one to the group sizes of distinct keys exactly when its key is among them |
| Aggregations.GroupsCoverDocuments | src/aggregations.py:69-71 | the sizes of all groups add up to the number of documents |
| Aggregations.TotalCountOfRows | src/aggregations.py:67-75 | the `count` column of the rows built for given keys adds up to those groups' sizes |
| Aggregations.StatusCountsCoverTransactions | src/aggregations.py:67-75 | the `count` column adds up to the number of transactions |
| Aggregations.StatusPatternsExample | src/aggregations.py:67-75 | three SUCCESS transactions of 10, 20 and 30 give one row with count 3 and mean 20 |
| Aggregations.ProjectNames | src/aggregations.py:92-97 | the projection keeps the user's `_id`, and each name exactly when the user has it, with its value |
| Aggregations.Unreferenced | src/aggregations.py:80-90 | the users kept are exactly those whose `$lookup` of transactions is empty |
| Aggregations.UsersWithoutTransactions | src/aggregations.py:78-98 | there are no more rows than users, and no row's `_id` is the `user_id` of any transaction |
| Aggregations.UsersWithoutTransactionsRows | src/aggregations.py:78-98 | each row is the `_id`/name projection of a user no transaction references, and a user has a row exactly when no transaction's `user_id` equals its `_id` |
| Aggregations.UsersWithoutTransactionsOnce | src/aggregations.py:78-98 | with unique user `_id`s, no user has two rows |

## Left out

- Connecting to MongoDB, closing the connection, the `finally` at src/data_cleaning.py:150-151, and all progress and summary `print`s are left out: they are I/O.
- `clean_all` returning `True`/`False`: the model raises no exceptions other than the unique-index refusal, so `CleanAll` returns nothing.
- The exception branches at src/data_cleaning.py:19-21, 40-42 and 54-56 are left out, because no modelled input reaches them.
- Per-document failures in the passes other than a unique-index refusal (a lost connection, say) are left out. They are failures of the store, not of the code.
- `strptime` is the parameter `parses`. Calendar and format rules are not modelled.
- `datetime.now()` is the single parameter `now` for the whole pass, while the code reads the clock once per document. In the model, all timestamps repaired in one pass are therefore equal; the code does not promise this.
- Floating-point amounts are exact reals: `$sum` and `$avg` do no rounding. A `Float` carries the text Python's `str()` gives for it as given, not computed from the value.
- An integer and a float of the same value (`1` and `1.0`) are different `$group` keys, do not match in `$lookup` or `$nin`, and are different keys of the unique e-mail index (`Cleaning.EmailKey`, `Cleaning.UniqueEmails`), while MongoDB treats them as equal.
- Aggregations.AvgAmount: the mean is an exact real with no floating-point rounding, and its value is stated only by the concrete example.
- `str()`, `lower()`, `upper()` and `\d` cover ASCII only. Unicode behaviour is not modelled.
- MongoDB leaves `$group` output order unspecified. The model emits groups in order of first appearance. For equal totals in `$sort`, the model keeps input order.
- Array-valued fields, MongoDB type bracketing beyond "number at most 0", and the `$lookup` of an array key are not modelled.
- The model visits users and transactions in collection order, once each. Cursor behaviour under concurrent writers is not modelled.
- `src/init_connection.py` is not part of this model. Only its unique e-mail index, as part of the store invariant, is kept. `src/main.py` and `src/check_database.py` are not part of this model either: they orchestrate, time and print.
