# Roster store model

This project models the domain layer of `db.py`, the SQLite store behind a Discord roster bot. The store holds:

- **classes**: a unique name and an `order_index` that sets display order;
- **members**: a global roll number and a per-class join order;
- **social handles**: one per member and platform;
- **family edges**: each member has at most one "big"; its "littles" are the members whose edge points at it;
- **skipped numbers**: roll numbers the allocator must step over.

The database is one immutable value, `Schema.Store`:

- The `classes` and `members` tables are sequences in rowid order. The `AUTOINCREMENT` counters are kept beside them.
- `member_socials` is a map keyed by (member id, platform).
- `family` is a map from member id to an optional big id.
- `skipped_numbers` is a set.

Every operation of `db.py` is a pure function from a store to a new store, to a `Result` carrying an error, or to a query answer. `Schema.Valid` collects what the table constraints and the operations keep true:

- unique class names and ids;
- rowid order with rising roll numbers;
- rising join orders within a class;
- unique nicknames within a class, case-sensitive;
- ids below their counters;
- every social handle and family edge points at a live member.

`Traces.RunValid` shows that every sequence of calls keeps it.

Module layout:

- **Generic helpers.** `Text` (the `strip()` and `LOWER` helpers), `Seqs` (table scans), `Sorting` (`ORDER BY`) and `Ordered` (ascending listing of a set).
- **Schema and operations.** `Schema` (tables and id helpers), `Allocator` (`_next_roll_number`), `Cascade` (the deletes shared by `remove_member` and `remove_class`), `Classes`, `Members`, `Socials`, `Family`, `Skipped`, `Search` (`get_member_card_by`) and `Roster` (`get_roster`, `get_class_roster`).
- **Call sequences.** `Traces`.

Where SQL leaves the result row open, the model takes the first in rowid order. This covers `_member_id_by_nick` when several members share a nickname ignoring case, and the `LIMIT 1` in `get_member_card_by`. That is the order of a plain table scan. Contracts say "a matching row, and the first one"; the choice is stated, not hidden.

Two behaviours of the code are worth knowing, and the model keeps both.

- **Roll numbers are not reserved for life.** `_next_roll_number` (db.py:88-103) counts up from the largest roll number among the members still present. So when the newest member's number is the one the allocator would give without that member (for instance, the skipped set has not changed since the member was added), removing the member hands its number to the next member. `Members.RemovingNewestFreesItsRoll` proves it. If a number below it was skipped then and un-skipped since, the next member gets that lower number instead.
- **Blank names are accepted.** `add_class` and `add_member` trim names but do not reject a name that is empty after trimming, so the model accepts it too.

## Model

| member | source | states |
|---|---|---|
| Text.Strip | db.py:150-152 | the result is the input with a run of whitespace removed from each end, and it neither starts nor ends with whitespace; `add_class` applies the same `strip()` at db.py:110 |
| Text.StripIdempotent | db.py:150-152 | stripping a stripped string changes nothing |
| Text.Lower | db.py:84 | same length as the input, each character folded on its own, ASCII letters to lower case and everything else kept |
| Text.LowerIdempotent | db.py:84 | lower-casing twice is lower-casing once |
| Schema.EmptyValid | db.py:23-72 | the freshly created database satisfies every table invariant |
| Schema.ClassIdByName | db.py:76-79 | nothing exactly when no class has that exact name; otherwise the id of a class with that name |
| Schema.NickIndex | db.py:82-85 | nothing exactly when no nickname matches ignoring case; otherwise a matching row with no match before it |
| Schema.MemberIdByNick | db.py:82-85 | nothing exactly when no member matches ignoring case; otherwise the id of a live member whose nickname matches |
| Schema.LookupReadsMembersOnly | db.py:82-85 | the nickname lookup depends on the members table alone |
| Schema.MemberById | db.py:271 | nothing exactly when the id is not a live member; otherwise the member row with that id |
| Schema.ClassIdentified | db.py:28-30 | in the `classes` table two rows with the same id or the same name are the same row |
| Schema.MemberIdsDistinct | db.py:38 | no two rows of the `members` table share an id |
| Schema.MemberIdentified | db.py:38 | so two member rows with the same id are the same row |
| Schema.ClassById | db.py:250-254 | nothing exactly when no class has the id; otherwise the class row with that id |
| Seqs.FilterNoDuplicates | db.py:202-203 | a scan that keeps some rows of a table without repeats keeps them without repeats; `Roster.ClassRows` uses it for the rows `LEFT JOIN members m ON m.class_id = c.id` picks for one class |
| Seqs.MaxWhere | db.py:91 | SQL `MAX`: NULL exactly when no row qualifies; otherwise at least every qualifying value and equal to one of them |
| Allocator.LastRoll | db.py:91-93 | at least every roll number in use, equal to one of them, and 1 when there are no members |
| Allocator.FirstUnskipped | db.py:98-101 | the first number at or above the start that is not skipped, with every number passed over skipped |
| Allocator.NextRoll | db.py:88-103 | above the last roll number, not skipped, every number in between skipped, and above every roll number in use |
| Allocator.NextRollUnique | db.py:88-103 | these conditions single out one number, so the allocator's answer is determined |
| Allocator.NextRollNumber | db.py:88-103 | the loop over the skipped set computes exactly that number |
| Allocator.NextRollReads | db.py:91-101 | two stores with the same set of roll numbers in use and the same skipped set get the same next roll number, whichever rows carry those numbers |
| Allocator.RollsEmpty | db.py:91-93 | a table has rows exactly when it has roll numbers, so `MAX` is NULL exactly for an empty table |
| Allocator.LastRollReads | db.py:91-93 | `MAX(roll_number)` over two tables with the same set of roll numbers agrees |
| Allocator.FirstRollIsTwo | db.py:91-101 | with no members the first number handed out is 2 unless 2 is skipped, else the first unskipped number from 2 |
| Allocator.SkipBelowLastHasNoEffect | db.py:98-101 | skipping or un-skipping a number no greater than the last roll number does not change the next allocation |
| Cascade.Purge | db.py:179-182 | removes exactly the listed members, their handles, and every edge with one of them as little or big; nothing else changes |
| Cascade.PurgeMemberIds | db.py:179-182 | the live member ids afterwards are the old ones minus the removed ones |
| Cascade.PurgeNothing | db.py:179-182 | removing no member changes nothing |
| Cascade.PurgeValid | db.py:179-182 | the cascade keeps the store valid: no handle or edge is left dangling |
| Cascade.PurgeOne | db.py:179-182 | removing one member drops exactly its row, its handles, and the edges where it is little or big |
| Classes.AddClass | db.py:107-110 | fails with a duplicate-name error exactly when the trimmed name is taken; otherwise appends one class with the trimmed name and the next id, changing nothing else |
| Classes.AddClassThenLookup | db.py:107-110 | after adding, looking the trimmed name up finds the new class's id |
| Classes.AddClassValid | db.py:107-110 | adding a class keeps the store valid |
| Classes.ClassAppendValid | db.py:107-110 | appending a class row with the next id and an unused name keeps the store valid |
| Classes.RemoveClass | db.py:113-135 | no-op for an absent name; otherwise removes the class, exactly its members, their handles, and every edge touching them on either side; other classes and members stay |
| Classes.RemoveClassMemberIds | db.py:113-135 | every member outside the removed class survives |
| Classes.RemoveClassIds | db.py:134-135 | the class ids afterwards are the old ones minus those of the classes with that name |
| Classes.RemoveClassPurges | db.py:115-132 | the handles and edges left are exactly those the member cascade leaves |
| Classes.RemoveClassValid | db.py:113-135 | removing a class keeps the store valid |
| Classes.ListClasses | db.py:138-140 | a permutation of the class rows with `order_index` never decreasing |
| Members.NextJoinOrder | db.py:155-157 | above every join order in the class, one past the largest of them, and 1 for an empty class |
| Members.NextJoinOrderUnique | db.py:155-157 | these conditions single out one number |
| Members.AddMember | db.py:144-165 | class-not-found exactly when the class is absent; duplicate-nickname exactly when the trimmed nickname is taken in that class; otherwise exactly one row is appended with trimmed names, `first + " " + last`, the default honorific, the next join order and the next roll number; older rows and other tables are unchanged |
| Members.AddMemberUsesAllocator | db.py:155-158 | the new row's roll number is the allocator's answer and its join order is the class's next one |
| Members.NewMemberFits | db.py:155-165 | in a valid store the new row belongs to an existing class, its roll number is at least 2 and above every roll number in use, and its join order is at least 1 and above every join order in its class |
| Members.AppendValid | db.py:160-165 | appending a row that fits after every existing row keeps the store valid |
| Members.AddMemberValid | db.py:144-165 | adding a member keeps the store valid |
| Members.RemoveMember | db.py:174-182 | no-op when no nickname matches ignoring case; otherwise removes the matched member, its handles, and every edge where it is little or big; nothing else changes |
| Members.RemoveMemberValid | db.py:174-182 | removing a member keeps the store valid |
| Members.RemoveMemberOrphansLittles | db.py:181 | a former little of the removed member has no edge left |
| Members.RemoveNewestRow | db.py:174-182 | removing the newest row leaves the older rows exactly as they were, and the skipped set too |
| Members.RemoveNewestNextRoll | db.py:88-103 | after removing the newest row the allocator answers as it did before that row existed |
| Members.RemovingNewestFreesItsRoll | db.py:88-103 | when the newest member's roll number is what the allocator gives for the table without that member (as when the skipped set has not changed since it was added), removing that member makes the next member get the same roll number again |
| Socials.SetSocial | db.py:288-297 | member-not-found exactly when the lookup fails; otherwise the handle for (member, lower-cased platform) is inserted or overwritten, other handles and tables unchanged |
| Socials.RemoveSocial | db.py:300-305 | no-op for an unknown member; otherwise deletes only the (member, lower-cased platform) handle |
| Socials.SocialsOf | db.py:263-265 | the member's handles keyed by platform: exactly the stored pairs for that member |
| Socials.SetSocialOverwrites | db.py:292-297 | setting twice for platforms equal ignoring case is setting once, with the second handle |
| Socials.SetSocialReadBack | db.py:288-297 | the member's handles afterwards map the lower-cased platform to the new handle |
| Socials.RemoveUndoesSet | db.py:300-305 | removing a handle right after setting it leaves what removing alone would |
| Socials.SetSocialValid | db.py:288-297 | setting a handle keeps the store valid |
| Socials.RemoveSocialValid | db.py:300-305 | removing a handle keeps the store valid |
| Family.SetBig | db.py:309-325 | member-not-found exactly when the member is missing; big-not-found exactly when a non-empty big nickname matches nobody; otherwise the member's single edge is upserted, cleared for None or empty, other edges unchanged |
| Family.BigOf | db.py:268-275 | a nickname exactly when the member has an edge to a live big, and it is that big's nickname |
| Family.GetBig | db.py:328-338 | nothing for a nickname that matches nobody; otherwise a nickname exactly when the looked-up member's edge names a live big, and it is that big's nickname |
| Family.LittlesOf | db.py:346-350 | one entry per member whose edge points at the member: each nickname occurs as often as littles carrying it, so two littles both called "x" give "x" twice |
| Family.NicksCounted | db.py:346-350 | the nickname column of the little rows holds each nickname once per little row carrying it |
| Family.NicksAppend | db.py:346-350 | the nickname column of two row sequences laid end to end is the two columns laid end to end |
| Family.GetLittles | db.py:341-350 | empty for a nickname that matches nobody; otherwise one entry per little of the looked-up member, with the multiplicities above |
| Family.NicksOfMembers | db.py:341-350 | the nicknames of the filtered rows are those of the rows satisfying the filter |
| Family.GetBigAfterSetBig | db.py:328-338 | after setting a big, `get_big` returns a nickname equal to the given one ignoring case |
| Family.GetBigAfterClear | db.py:328-338 | after clearing, `get_big` returns nothing |
| Family.LittlesAfterSetBig | db.py:341-350 | after setting a big, the member is among the big's littles |
| Family.SetBigOverwrites | db.py:321-325 | setting the big twice is setting it once, to the second value |
| Family.OverwriteWithKnownBig | db.py:321-325 | the overwrite when the second big resolves or is cleared |
| Family.SetBigAfterUpdate | db.py:321-325 | the upsert ignores the member's previous edge |
| Family.OverwriteWithUnknownBig | db.py:316-319 | an unknown second big fails as it would on the original store |
| Family.SetBigStores | db.py:321-325 | when both lookups succeed, the call stores exactly that one edge |
| Family.SetBigValid | db.py:309-325 | setting a big keeps the store valid |
| Family.EdgeValid | db.py:321-325 | upserting an edge between live members keeps the store valid |
| Skipped.AddSkipped | db.py:352-355 | the number becomes skipped, no other number changes status, nothing else changes |
| Skipped.RemoveSkipped | db.py:357-360 | the number is no longer skipped, no other number changes status, nothing else changes |
| Skipped.AddSkippedIdempotent | db.py:354 | adding a skipped number twice is adding it once |
| Skipped.RemoveUndoesAdd | db.py:357-360 | removing a number just added restores the store when it was not skipped before |
| Skipped.GetSkippedNumbers | db.py:362-365 | strictly ascending and containing exactly the skipped numbers |
| Skipped.SkippedListingUnique | db.py:362-365 | any strictly ascending list of exactly the skipped numbers is that listing |
| Skipped.SkippingNextMovesPast | db.py:98-101 | skipping the number due next moves the allocator to the first unskipped number above it |
| Skipped.SkippedNeverAllocated | db.py:99-101 | a skipped number is never the next roll number |
| Skipped.AddSkippedValid | db.py:352-360 | changing the skipped set keeps the store valid |
| Ordered.Ascending | db.py:364 | the elements of a set, strictly ascending, each exactly once |
| Ordered.AscendingUnique | db.py:364 | two strictly ascending sequences with the same elements are equal |
| Search.GetMemberCardBy | db.py:232-284 | nothing exactly when no criterion is supplied or no member of an existing class matches; otherwise the card of the first match, with its class name, handles, big and littles |
| Search.SearchIsDisjunction | db.py:236-247 | a query finds a member exactly when one of its criteria alone would (OR, not AND) |
| Search.MoreCriteriaFindMore | db.py:236-247 | adding criteria never loses a result |
| Search.NickSearchAgreesWithLookup | db.py:244-245 | in a valid store, search by a non-empty nickname finds a member exactly when `_member_id_by_nick` does; that both then pick the same member follows from the first-in-rowid choice listed under "Left out" |
| Search.BlankNickSearchFindsNothing | db.py:244-248 | search by a blank nickname finds nothing, because the empty value is not a criterion |
| Search.NickSearchFindsSoleMatch | db.py:244-256 | when one member alone has the nickname ignoring case, search by that nickname returns that member's card, whatever order the rows are read in |
| Roster.ClassRows | db.py:202-203 | one class's rows in the left join: each pairs the class with one of its own members, exactly one memberless row and nothing else when it has none, and no row twice when the member rows are distinct |
| Roster.ClassRowsComplete | db.py:202-203 | each member of the class has its row, and an empty class has its memberless row |
| Roster.LeftJoin | db.py:202-203 | each joined row pairs a class with one of its members, or stands for a class with none, and for distinct class and member rows no row occurs twice |
| Roster.AppendDistinctClasses | db.py:202-203 | rows of the first class never repeat rows of later, different classes |
| Roster.LeftJoinDistinct | db.py:202-203 | in a valid store the left join yields every row once |
| Roster.LeftJoinComplete | db.py:202-203 | every (class, member) pair and every empty class appears |
| Roster.ProjectRow | db.py:194-203 | the class name, then the member's five columns, or NULL in all five for a memberless row |
| Roster.Project | db.py:194-203 | one row per joined row, holding its selected columns, with all five member columns NULL for a memberless row |
| Roster.AsWrittenOrder | db.py:186-206 | the joined rows, sorted by `order_index` then join order (NULL first) |
| Roster.TiedClassesInterleave | db.py:204 | with two classes of equal `order_index`, every order the query may return splits a class |
| Roster.Crossed | db.py:204 | in any order sorted by the as-written key, two classes whose first rows both sort before the other's second rows cannot both stay together |
| Roster.GetRosterAsWrittenSplitsClasses | db.py:204 | the as-written roster of a valid store is not grouped by class |
| Roster.GroupedOrder | db.py:186-206 | the joined rows sorted with the class id breaking ties between equal `order_index` values |
| Roster.GetRosterGrouped | db.py:186-206 | in a valid store every class's rows in the corrected roster are consecutive |
| Roster.ClassMembers | db.py:209-228 | a permutation of the members of the named class, sorted by join order |
| Roster.ClassMembersContents | db.py:209-228 | exactly the members of the named class, join order never decreasing |
| Roster.JoinOrdersAscend | db.py:226 | rows sorted by the join-order key have join orders that never decrease |
| Roster.GetClassRoster | db.py:209-228 | one row of selected columns per sorted class member |
| Roster.ClassRosterIsTableOrder | db.py:209-228 | in a valid store the class roster is the table scan of its members, with join orders strictly increasing |
| Sorting.Sort | db.py:204 | a permutation of the input, sorted by the key |
| Sorting.Insert | db.py:204 | inserting into a sorted sequence keeps it sorted and adds exactly the one row |
| Sorting.SortStrict | db.py:226 | rows whose keys strictly increase are left in place |
| Traces.StepValid | db.py:23-72 | every call keeps the store valid |
| Traces.RunValid | db.py:23-72 | every sequence of calls keeps the store valid |
| Traces.StepKeepsMembers | db.py:144-165 | a call that deletes no member keeps the old rows as a prefix and adds at most one row |
| Traces.RunKeepsMembers | db.py:144-165 | without deletions the earlier rows stay the first rows of the table |
| Traces.RollsIncreaseOverRun | db.py:88-103 | over a run without deletions, new roll numbers exceed every earlier one, and all roll numbers strictly increase in table order |
| Traces.SkipThenAdd | db.py:98-101 | when the number two above the last roll number is not skipped, skipping the number just above it makes the next member get that number two above |
| Traces.NextAfterSkip | db.py:97-101 | skipping the number due next, when the one after is free, makes the allocator hand out that one |

## Left out

- The Discord front-end (`bot.py`), connection handling (`_conn`, `DB_PATH`), `commit`, and the SQL text of `init_db`. The tables become the `Store` datatype, and `init_db` becomes `Schema.Empty`.
- Concurrency. `_next_roll_number` reads on its own connection before the insert; every call is modelled as atomic.
- Creation of the `skipped_numbers` table. It is created only inside `add_member`, after the allocator has already read it. The model treats the skipped set as always present and initially empty.
- Text.Lower: folds ASCII letters only, which is what SQLite's `LOWER` does. Python's `platform.lower()` in `set_social` and `remove_social` also folds non-ASCII letters; the model uses the ASCII fold there too.
- Text.Strip: covers the whitespace characters of Python's `str.isspace` as a fixed list of code points.
- Schema.MemberIdByNick: SQL does not fix which matching row comes first. The model takes the first in rowid order; SQLite returns some matching row.
- Search.GetMemberCardBy: the same first-in-rowid-order choice applies to the `LIMIT 1` row. `int(fields["number"])` is modelled with the number already an integer, so its `ValueError` is not modelled. The order of the littles on the card is the table order.
- Family.LittlesOf: the littles come in table order, an order SQL does not promise; only the multiplicity of each nickname is stated.
- Search.NickSearchAgreesWithLookup: when several members share the nickname ignoring case, "the same member" rests on both queries reading rows in rowid order. SQL fixes neither `_member_id_by_nick`'s row nor the `LIMIT 1` row of the join. `Search.NickSearchFindsSoleMatch` states the tie-free case without that choice.
- Search.NickSearchAgreesWithLookup: only for a non-empty nickname. `add_member` stores a nickname that is blank after trimming, and `_member_id_by_nick("")` finds such a member, but `get_member_card_by` skips an empty `nick` and returns None; `Search.BlankNickSearchFindsNothing` states that side.
- Classes.ListClasses: classes with equal `order_index` come out in some order; only sortedness and "same rows" are stated, which is all SQL promises.
- The `UNIQUE` constraint on `roll_number` is not an error path of `Members.AddMember`. Its contract proves the new number exceeds every number in use, so the constraint cannot fire.
- Foreign-key enforcement. SQLite leaves it off by default, so it is not modelled; `Schema.Valid` shows the operations never leave a dangling reference anyway.
- Integer width. SQLite integers are 64-bit; roll numbers, join orders and order indexes are unbounded here.
- Roster.GetRosterAsWritten and Roster.GetRosterByClass only project the sorted rows. Their properties are stated on `Roster.AsWrittenOrder`, `Roster.GroupedOrder`, `Roster.TiedClassesInterleave` and `Roster.GetRosterGrouped`.

## Findings

| source | as written | input that shows it | evidently intended | confidence | as-written member | corrected member |
|---|---|---|---|---|---|---|
| db.py:204 | `get_roster` orders by `c.order_index, m.join_order` only, so classes sharing an `order_index` have their rows interleaved by join order. The docstring promises rows "grouped by class", and `bot.py` starts a new section whenever the class name changes (bot.py:98-101), so one class is shown twice. | classes A and B, both with `order_index` 0, each with members of join order 1 and 2: every order the query may return puts the two join-order-1 rows before both join-order-2 rows | each class's rows consecutive, e.g. `ORDER BY c.order_index, c.id, m.join_order` | medium, not executed | Roster.TiedClassesInterleave | Roster.GetRosterGrouped |
