# A verified model of pensar

`pensar` is a C++ utility library with a contact-management database on top. This project models the
parts of it whose behaviour is hard to see from one body and proves what they promise.

- **Edit distance** (EditDistance, Triangles, Nearest): the three rotating rows, the full table they
  are a window of, and edit scripts, whose minimal cost the table holds. The laws of the distance
  follow from transforming scripts. The swap makes it the restricted distance, for which the triangle inequality
  fails; `TriangleThrough` says through which sequences it holds, and `TriangleOverAlphabet` over which
  alphabets.
- **Commands** (CommandTrees, CommandLayouts, CommandRuns, Commands, BinaryBuffers): trees of commands
  as heap objects with the loops of the source, specified by functions on tree values; the wire format
  with its type dispatch, fixed byte by byte by offset; run and undo over arbitrary actions and states.
- **Contact database** (AuditedTables, DependentTables, ForeignKeys, ContactDb, ContactInvariants,
  ContactEffects, OrgDaos, OrgHierarchy, Sessions, AuditedSessions): each DAO call with its triggers
  and foreign-key actions is a step of a state machine, whose effect on the rows is stated column by
  column. Cascading deletions follow one foreign key after another, over
  two levels. The invariant over all runs covers the audit logs, the search vectors and the
  constraints. The recursive hierarchy query is proved on top of it, and so is the session pool,
  joined with the tables in one machine.
- **Sorted list** (SortedSequences, SortedLists), **object pool** (PoolFactories), **byte order**
  (Bytes, ByteOrders), **strings** (Strings, Replacement), **e-mail** (Emails) and the **statistical
  mode** (Modes). Arithmetic, Sequences and Wrappers are shared.

Classes follow the classes of the source, and their methods are proved against functions on values;
the properties are lemmas about those functions. The narrow-character build is modelled, in which a
character is one unit of a string.

Where the code and its documentation differ, the model follows the code:

- The comment on `CompositeCommand` promises a rollback when a command fails. There is none: an
  increment before a failing command stays (`IncrementStays`). `RollsBackExactly` and
  `RollBackIsPairwise` say for which leaves the state is nevertheless unchanged,
  `FailedRunIsNotRolledBack` which effects stay, and `FailedRerunUndoesAll` that after an earlier
  completed run undo then takes back too much.
- `CompositeCommand::_undo` walks front to back. For leaves whose undo inverts their run, that is
  right for all trees of them if and only if it is right for each pair (`UndoRestoresExactly`);
  `FrontToBackUndoCanMiss` is an input for which it is not.
- The library registers only `NullCommand`, so a composite inside a composite is not read back unless
  the client registers its class (`NestedCompositeNotRestored`).
- `split` is documented to trim its elements. It does not when the separator does not occur
  (`SplitHonoursFlags` says exactly when the flags hold, `SplitIgnoresFlags` shows texts).
- The e-mail types allow local parts of 64 and domains of 255 characters, but storage and printing
  lose one place each (`AddressRoundTrip` gives the exact bounds).
- `PoolFactory::get` makes a copy of the pointer that is never deleted, so an object released by its
  client never becomes available again (`HandedStaysTaken`).

The schema says nothing about the order in which the foreign keys of deleted rows are followed and
reach the referring rows, so the moves are a parameter of the step and every order is covered.
Triggers of one table fire in the order of their names: the foreign keys of a deleted row act before
its audit trigger.

## Model

| member | source | states |
|---|---|---|
| EditDistance.ComputeDistance | cpp/src/distance.hpp:21-58 | The loop over three rotating rows returns the table entry of the whole inputs, and that is the cost of a cheapest edit script: some script has this cost and none is cheaper. `icu_distance` is the same loop over code points |
| EditDistance.FillRow | cpp/src/distance.hpp:37-50 | The inner loop fills the next row of the full table from the two rows above it |
| EditDistance.FillCell | cpp/src/distance.hpp:40-49 | One cell, with its look two rows back, is the table entry when its neighbours are |
| EditDistance.DistanceIsCheapest | cpp/src/distance.hpp:60-102 | Every table, with or without swaps, holds the minimal cost over all scripts of keeps, substitutions, inserts, deletes and adjacent swaps |
| EditDistance.CheapestIsUnique | cpp/src/distance.hpp:21-58 | Minimal script cost determines the distance |
| EditDistance.DistanceSymmetric | cpp/src/distance.hpp:21-58 | The distance is symmetric |
| EditDistance.DistanceReversed | cpp/src/distance.hpp:21-58 | Reversing both sequences does not change the distance |
| EditDistance.DistanceCommonPrefix | cpp/src/distance.hpp:21-58 | A common prefix of any length can be stripped |
| EditDistance.DistanceCommonSuffix | cpp/src/distance.hpp:21-58 | A common suffix of any length can be stripped |
| EditDistance.DistanceBetweenLengths | cpp/src/distance.hpp:21-58 | The distance is at least the length difference and at most the longer length |
| EditDistance.DistanceZero | cpp/src/distance.hpp:21-58 | The distance is zero exactly on equal sequences |
| EditDistance.LevenshteinBetween | cpp/src/distance.hpp:42-49 | The distance without the swap rule lies between the distance and twice the distance |
| EditDistance.LevenshteinTriangle | cpp/src/distance.hpp:42-44 | Without the swap rule the triangle inequality holds for all sequences, by composing scripts |
| EditDistance.TriangleWithoutSwaps | cpp/src/distance.hpp:21-58 | The triangle inequality holds where neither way needs a swap, and up to a factor of two for all sequences |
| EditDistance.TriangleThrough | cpp/src/distance.hpp:46-49 | Over at least three elements, the triangle inequality holds on every way through a sequence if and only if all its elements are equal |
| Triangles.NearEdit | cpp/src/distance.hpp:21-58 | Over two elements, one edit anywhere in the target changes the distance by at most one |
| Triangles.TriangleOverTwo | cpp/src/distance.hpp:21-58 | For all sequences over two elements the triangle inequality holds |
| Triangles.TriangleOverAlphabet | cpp/src/distance.hpp:21-58 | The triangle inequality holds for all sequences over an alphabet if and only if the alphabet has at most two elements |
| EditDistance.DetourThrough | cpp/src/distance.hpp:46-49 | Through any two different neighbours leads a detour of cost two between sequences at distance three |
| EditDistance.TriangleInequalityFails | cpp/src/distance.hpp:46-49 | CA, AC and ABC have distances 1, 1 and 3: a swapped pair is not edited again |
| Nearest.ReferenceComesFirst | cpp/src/distance.hpp:106-117 | A list sorted by distance from a reference begins with the reference if and only if it holds it |
| Nearest.UniqueKeepsAllTexts | cpp/src/distance.hpp:106-117 | A list unique by distance holds every text it was given if and only if no two different ones are equally far from the reference |
| Nearest.UniqueDropsOtherTexts | cpp/src/distance.hpp:106-117 | Two texts at distance one of which the list keeps only the first |
| Nearest.SortedByDistance | cpp/src/distance.hpp:106-117 | A list is sorted by the comparator if and only if no text is farther from the reference than a later one |
| Nearest.NarrowedWraps | cpp/src/distance.hpp:127-135 | The narrowed distance is the one signed 32-bit number that differs from the distance by a multiple of two to the 32 |
| Nearest.MinDistance | cpp/src/distance.hpp:120-139 | Returns the first text whose distance, narrowed to a 32-bit integer, is smallest, and throws only for an empty container |
| Nearest.SmallestIsNearest | cpp/src/distance.hpp:127-135 | With texts below two to the 31 characters that is the first of the nearest texts, and the text itself when it is there |
| BinaryBuffers.BinaryBuffer.Write | cpp/src/binary_buffer.hpp:71-84 | Appends the bytes to the data; bytes beyond the write position are kept or replaced as the storage demands |
| BinaryBuffers.BinaryBuffer.Read | cpp/src/binary_buffer.hpp:159-171 | Takes the next bytes off the front, or changes nothing when there are too few |
| BinaryBuffers.BinaryBuffer.Clear | cpp/src/binary_buffer.hpp:61-64 | Empties the data but keeps the storage |
| CommandTrees.FullNameOfBytes | cpp/src/class_info.hpp:40-66 | The name the registry sees in written class information is the class's full name |
| CommandLayouts.EncodingIsLayout | cpp/src/class_info.hpp:12-66 | The bytes of a command are exactly these, by offset: namespace and name in 100 bytes each, filled with zeros, then public, protected and private version in two bytes each, least significant first; object information and the id in eight bytes; command information and the mark; for a composite the number of children in eight bytes and the children one after the other |
| CommandLayouts.ReadBaseByOffset | cpp/src/object.hpp:191-204 | For any bytes whatever: where the two pieces of class information are looked for, which fields are taken over, and which bytes are left |
| CommandLayouts.CountBeyondArray | cpp/src/command.hpp:416-420 | A child count above ten is an overrun |
| CommandLayouts.LibraryClasses | cpp/src/command.hpp:295 | The names and versions of the library classes as they stand in the bytes |
| CommandTrees.RoundTrip | cpp/src/command.hpp:395-437 | For a tree of any depth and any bytes after it, reading what it wrote into a new command rebuilds the same tree and consumes exactly its bytes if and only if every class below the root is registered under its name |
| CommandTrees.RoundTripOver | cpp/src/command.hpp:395-437 | Reading what a registered tree wrote into any command of its class, whatever that held before, makes it the same tree |
| CommandTrees.UnknownClassStops | cpp/src/command.hpp:427-432 | The first child of an unknown class stops the reading: the children before it are rebuilt, the slots from there on are empty, and all behind its class information stays unread |
| CommandTrees.ReadFromChildren | cpp/src/command.hpp:419-436 | The slot-by-slot loop refines the recursive reading: each slot holds the child read for it or, if there is none, what it held before |
| CommandTrees.ReadOverFresh | cpp/src/command.hpp:411-437 | Reading into a new command is the recursive reading |
| CommandTrees.ReadEncodedBase | cpp/src/command.hpp:136-158 | The nested object and command parts are read back whatever the reading command held before |
| CommandTrees.NestedCompositeNotRestored | cpp/src/command.hpp:237-241 | With the shipped registry a composite inside a composite is not rebuilt, whatever ids are drawn |
| Commands.CommandObject.constructor | cpp/src/command.hpp:101 | A new command has the given id, or the drawn one for the null id, the unknown mark, index zero and ten empty slots if it is a composite |
| Commands.CommandObject.Add | cpp/src/command.hpp:268-275 | Stores the command behind the others, or throws and changes nothing when ten are there |
| Commands.CommandObject.Run | cpp/src/command.hpp:166-170 | The object graph does exactly what the run of its tree does: state, exception and marks; the mark is set when and only when nothing was thrown |
| Commands.CommandObject.RunChildren | cpp/src/command.hpp:343-349 | Children run front to back and stop at the first exception; later children are untouched |
| Commands.CommandObject.Undo | cpp/src/command.hpp:172-178 | Undoes what the undo of the tree undoes and changes no command; without the mark it does nothing |
| Commands.CommandObject.WriteBase | cpp/src/object.hpp:183-189 | Writes object information, id, command information and mark at their offsets |
| Commands.CommandObject.Write | cpp/src/command.hpp:395-409 | Appends exactly the encoding of the tree, laid out from the old write position on as CommandAt says |
| Commands.CommandObject.ReadBase | cpp/src/object.hpp:191-204 | Reads id and mark behind matching class information, and leaves them as they are otherwise |
| Commands.CommandObject.Read | cpp/src/command.hpp:411-437 | Into a command in any state: builds the tree the reading gives, keeps the slots it does not reach, and leaves the buffer where it ends; a child count beyond the array is reported |
| Commands.CommandObject.ReadChildren | cpp/src/command.hpp:419-436 | The loop refines the recursive reading: an unknown class stops it and leaves the remaining slots empty |
| Commands.CommandObject.Create | cpp/src/command.hpp:196-202 | A registered class gives a new command of that class with the id drawn, any other name gives null |
| Commands.Stream | cpp/src/test/command_test.cpp:274-287 | Writing a command to a buffer and reading it into any command of its class gives an object graph of the same tree, for every registered tree |
| CommandRuns.RunIsLeaves | cpp/src/command.hpp:343-349 | Running a tree of any nesting is running its leaves in order; after a completed run every command is marked, after an exception the root keeps its mark |
| CommandRuns.RunAllStops | cpp/src/command.hpp:343-349 | When a child throws, the children before it are marked all through and those after it are as they were |
| CommandRuns.UndoIsLeaves | cpp/src/command.hpp:350-356 | Undoing a fully marked tree is undoing its leaves front to back |
| CommandRuns.UndoIsMarkedLeaves | cpp/src/command.hpp:172-178 | Undoing any tree takes back, front to back, exactly the leaves that are marked themselves and by every composite above them |
| CommandRuns.UndoMovesForward | cpp/src/command.hpp:350-356 | An undo that commutes with each later run can be moved in front of all of them |
| CommandRuns.UndoRestores | cpp/src/command.hpp:166-178 | One undo after a completed run restores the state for any nesting, when leaves are invertible and each undo commutes with the later runs |
| CommandRuns.UndoableIsPairwise | cpp/src/command.hpp:350-356 | For leaves whose undo inverts their run, each undo commutes with the later runs if and only if each pair of leaves is restored |
| CommandRuns.UndoRestoresExactly | cpp/src/command.hpp:166-178 | For such leaves, front-to-back undo restores every tree made of some of them in their order if and only if it restores each pair |
| CommandRuns.FailedRunIsNotRolledBack | cpp/src/command.hpp:343-349 | After a failure the state is the runs of the leaves before the failing one plus what that leaf did; the root keeps its mark, and undoing a root not marked before does nothing |
| CommandRuns.FailedRerunUndoesAll | cpp/src/command.hpp:166-178 | A tree marked by an earlier run stays marked when its rerun fails, and undo then takes back every leaf, those not rerun included |
| CommandRuns.RollsBackExactly | cpp/src/command.hpp:251-252 | For leaves that change nothing when they throw, the promised rollback happens from every state if and only if no leaf throws in a state that the completed leaves before it have changed |
| CommandRuns.RollBackIsPairwise | cpp/src/command.hpp:251-252 | For such leaves, every tree made of some of them in their order rolls back if and only if none throws where an earlier one has just changed the state |
| CommandRuns.FirstLeafRollsBack | cpp/src/command.hpp:343-349 | A tree in which only the first leaf can throw always rolls back |
| CommandRuns.IncrementStays | cpp/src/command.hpp:251-252 | An increment before a failing leaf stays, and undoing the composite does not take it back |
| CommandRuns.FrontToBackUndoCanMiss | cpp/src/command.hpp:350-356 | Doubling then incrementing is not undone front to back, though both leaves are invertible |
| AuditedTables.RowStatementsFaithful | contact/db/contact_ddl.sql:92-124 | Each row statement with its trigger keeps the log one that rebuilds the table, and no key to come is in use |
| AuditedTables.EveryEntryFits | contact/db/contact_ddl.sql:104-114 | The old data of every entry is the row the earlier entries give |
| AuditedTables.UpdateRowsEffect | contact/db/contact_ddl.sql:294 | A statement over several rows changes exactly those rows, in any order, and keeps the log faithful |
| AuditedTables.UpdateRowsLog | contact/db/contact_ddl.sql:104-114 | It logs each of them once, in its order, with the row before and after |
| AuditedTables.DeleteRowsFaithful | contact/db/contact_ddl.sql:415-416 | A cascade over several rows keeps the log faithful |
| AuditedTables.DeleteRowsLog | contact/db/contact_ddl.sql:104-114 | It logs each of them once, in its order, with the row as it was |
| DependentTables.InsertOwned | contact/db/contact_ddl.sql:413-428 | Inserting a phone, role, relation, assignment or rule keeps every foreign key, CHECK and UNIQUE constraint |
| ForeignKeys.FollowingReaches | contact/db/contact_ddl.sql:413-601 | Following the foreign keys of a deleted person, unit or role one after the other, in any order and with the rows of each in any order, ends by having deleted exactly the rows that belong to it at both levels, each once |
| ForeignKeys.TakeKeeps | contact/db/contact_ddl.sql:413-601 | Each foreign-key action deletes only rows that should go, and every row that should go and is left is still to be reached |
| ForeignKeys.MovesAreBounded | contact/db/contact_ddl.sql:521-601 | Whatever the order, there are at most as many actions as the deletion starts and two for every role |
| ForeignKeys.Follow | contact/db/contact_ddl.sql:413-601 | The loop that takes any action left, on the tables as they are then, terminates with none left |
| ForeignKeys.TakeAction | contact/db/contact_ddl.sql:569-570 | Deletes the rows that refer to the key and starts the actions of the roles among them |
| ForeignKeys.DeleteEach | contact/db/contact_ddl.sql:415-416 | Whatever the order, the table loses exactly the given rows and nothing else, one logged deletion each |
| DependentTables.ShrunkOwned | contact/db/contact_ddl.sql:521-601 | Without the rows that belong to what is gone, no reference to a row that is gone is left |
| DependentTables.DeleteAllFaithful | contact/db/contact_ddl.sql:521-608 | Deletions in the five tables keep every log one that rebuilds its table |
| DependentTables.DeleteAllAppends | contact/db/contact_ddl.sql:98-102 | Every log entry they add names the audit user |
| ContactInvariants.StepKeepsInvariant | contact/db/contact_ddl.sql:268-608 | Every step keeps: each log rebuilds its table, each search vector of a person or a unit is the one its row and names give, references, owners, viewers, types and unique columns hold |
| ContactInvariants.EveryRunKeepsInvariant | contact/db/contact_ddl.sql:92-159 | The invariant holds in every state that any run of calls reaches from the empty database |
| ContactInvariants.RemoveUnitEffect | contact/db/contact_ddl.sql:292-316 | Deleting a unit, with its foreign keys followed in any order, detaches its children, deletes its names and exactly the rows that belong to it, and nothing else |
| ContactInvariants.StepAppends | contact/db/contact_ddl.sql:98-102 | A step only appends to the logs, and every new entry, cascades included, names the audit user |
| ContactEffects.EveryVectorIsCurrent | contact/db/contact_ddl.sql:327-371 | In every state reached from the empty database, column by column: the vector of a unit shows its name in the default locale, or none, and the tax id and keywords of its row; that of a person shows the columns of its row |
| ContactEffects.InSyncByColumn | contact/db/contact_ddl.sql:352-360 | The same for the invariant: it holds of the stored vectors if and only if each column is so |
| ContactEffects.InsertUnitEffect | contact/db/contact_ddl.sql:292-302 | A unit with one of the five types whose parent is null, there, or itself gets the next key, the columns given, empty texts as null, and one log entry; any other only draws the key |
| ContactEffects.UpdateUnitEffect | contact/data/org_dao.hpp:141-186 | The same for an update, which changes the one row or nothing |
| ContactEffects.InsertLocalizedEffect | contact/db/contact_ddl.sql:368-384 | Exactly the name of this unit and locale is added; in the default locale it becomes the name in the vector, in another the row stays as it is |
| ContactEffects.InsertPersonEffect | contact/data/person_dao.hpp:46-76 | A person whose tax id is empty or new gets the next key, the columns given, empty texts as null, and one log entry; any other only draws the key |
| ContactEffects.UpdatePersonEffect | contact/data/person_dao.hpp:118-151 | The same for an update, for which the own tax id is not taken |
| ContactEffects.InsertDependentEffect | contact/db/contact_ddl.sql:413-602 | A phone, role, relation, assignment or rule is inserted if and only if its owners are there, a phone has just one, and no equal relation or assignment is there; nothing else changes |
| ContactEffects.RemoveDependentEffect | contact/db/contact_ddl.sql:104-114 | The one row goes, with one log entry |
| ContactEffects.RemoveUnitByColumn | contact/db/contact_ddl.sql:292-601 | What is left after the deletion of a unit, row by row: other units, without a parent if it was their parent, names of other units, and every dependent row that refers neither to it nor to one of its roles |
| ContactEffects.RemovePersonEffect | contact/db/contact_ddl.sql:413-601 | The same for a person: gone are its row, phones, relations, assignments and rules, and the rules for it as viewer |
| ContactEffects.RemoveRoleEffect | contact/db/contact_ddl.sql:567-601 | The same for a role: gone are its row and its assignments and rules |
| OrgDaos.OrgDao.Insert | contact/data/org_dao.hpp:56-90 | The insert step: a key exactly for a type among the five and a parent that is null, there, or the unit itself; the new row has the columns given, with empty texts as null, every other row is as it was, and one entry is logged |
| OrgDaos.OrgDao.InsertLocalized | contact/data/org_dao.hpp:92-110 | The naming step: a key exactly for an existing unit and a locale not yet named; exactly this name is added, a name in the default locale becomes the one in the vector, another leaves the vector alone |
| OrgDaos.OrgDao.Update | contact/data/org_dao.hpp:141-186 | The update step: the one row gets the columns given; false for an unknown unit and an exception for a refused row change nothing |
| OrgDaos.OrgDao.Remove | contact/data/org_dao.hpp:189-200 | The delete step, following the foreign keys in some order; true exactly when the unit was there, and then what is left is what UnitGone says row by row |
| OrgDaos.OrgDao.DetachChildren | contact/db/contact_ddl.sql:294 | Sets the parent of exactly the deleted unit's children to null, one logged update each |
| OrgHierarchy.Hierarchy | contact/db/contact_ddl.sql:843-858 | On every unit table, cycles included, the recursion ends after at most as many rounds as there are units and lists each unit at most once: exactly those whose whole ancestor chain to a root is named, with a duplicate-free path as long as the depth |
| OrgHierarchy.OrgHierarchy | contact/db/contact_ddl.sql:838-860 | For the database's units: a row is listed if and only if its path leads down from a unit without a parent over units that all have a name in a locale of the code, its name is such a name, and its other columns are the unit's; and every such path is listed |
| OrgHierarchy.ChainIsUnique | contact/db/contact_ddl.sql:850-856 | A unit has at most one chain to a root |
| OrgHierarchy.ChainIsDistinct | contact/db/contact_ddl.sql:850-856 | A chain to a root repeats no unit and is no longer than the table |
| OrgHierarchy.RoundLevel | contact/db/contact_ddl.sql:850-856 | One round of the recursion takes the chains of one length to exactly the chains one longer |
| OrgHierarchy.SelfParentIsReachable | contact/data/org_dao.hpp:163-182 | Two DAO calls make a unit its own parent |
| OrgHierarchy.CycleIsNotListed | contact/db/contact_ddl.sql:838-860 | No unit on a parent cycle is on any chain |
| Sessions.QuoteLiteral | contact/data/db_connection.hpp:81-91 | The literal is read back as the text, whatever it contains, and ends where it should |
| Sessions.QuotedRoundTrip | contact/data/db_connection.hpp:81-91 | The same for the function that specifies it, before any continuation |
| Sessions.EventKeepsInvariant | contact/data/db_connection.hpp:41-69 | Every event of every session keeps: one holder per connection, idle connections unset, and each held connection carries what its session's phase says |
| Sessions.RunsKeepInvariant | contact/data/db_connection.hpp:41-69 | The invariant holds after every interleaving |
| Sessions.EveryInterleaving | contact/db/contact_ddl.sql:98-102 | From a new pool, every audit row names the user its session was opened for, or the login user when that name was empty; two sessions never share a connection |
| AuditedSessions.EveryCallNamesItsSession | contact/db/contact_ddl.sql:92-124 | In every state so reached, every entry a DAO call adds to any log, by cascades too, names the user its session was opened for, or the login user when that name was empty |
| AuditedSessions.CallsAreNamed | contact/data/db_connection.hpp:41-69 | In the order in which the calls are made, each of them one step, the k-th is made under the name its session was opened for, or the login user when that was empty |
| SortedSequences.FindsFirst | cpp/src/sorted_list.hpp:142-155 | Searching gives the first equivalent element, and the end only when there is none |
| SortedSequences.AddSorted | cpp/src/sorted_list.hpp:123-139 | Insertion keeps the order under any strict weak order |
| SortedSequences.AddAllIsTheStableSort | cpp/src/sorted_list.hpp:123-139 | Adding x1..xn gives exactly the stable sort of xn..x1, because insertion goes before all equivalents |
| SortedSequences.AddAllUniqueKeepsFirst | cpp/src/sorted_list.hpp:128-131 | A unique list keeps, of each class of equivalents, exactly the one that came first |
| SortedSequences.UniqueKeepsAll | cpp/src/sorted_list.hpp:128-131 | Unique mode loses no element if and only if no two different ones are equivalent |
| SortedSequences.OperationEffect | cpp/src/sorted_list.hpp:123-180 | Each operation changes the multiset of elements by exactly the reported element |
| SortedSequences.RunKeeps | cpp/src/sorted_list.hpp:117-180 | Every run keeps the list sorted, and one that stays in unique mode keeps it free of equivalents |
| SortedLists.SortedList.FromRange | cpp/src/sorted_list.hpp:73-81 | Builds the list by adding the elements one by one |
| SortedLists.SortedList.LowerBound | cpp/src/sorted_list.hpp:127 | The halving search finds the first element not before the value |
| SortedLists.SortedList.Add | cpp/src/sorted_list.hpp:123-139 | Inserts in front of the first element not before the value; refuses exactly in unique mode when an equivalent is there, and then changes nothing |
| SortedLists.SortedList.Find | cpp/src/sorted_list.hpp:142-155 | The first equivalent, or the end when there is none |
| SortedLists.SortedList.Contains | cpp/src/sorted_list.hpp:210-213 | True if and only if an equivalent is there |
| SortedLists.SortedList.Remove | cpp/src/sorted_list.hpp:157-173 | Removes the first equivalent and no other element, and reports whether there was one |
| SortedLists.SortedList.RemoveAt | cpp/src/sorted_list.hpp:176-180 | Removes one index; out of range throws and changes nothing |
| SortedLists.SortedList.SetUnique | cpp/src/sorted_list.hpp:117 | Changes the mode and no element |
| SortedLists.SortedList.Clear | cpp/src/sorted_list.hpp:222 | Empties the list |
| PoolFactories.OperationKeepsInvariant | cpp/src/factory.hpp:54-117 | Every get, client copy, client release, reset and change of the refill size keeps: the counter is the number of entries with a use count below 2, and nothing was handed out twice |
| PoolFactories.RunsKeepInvariant | cpp/src/factory.hpp:54-117 | The same after every interleaving |
| PoolFactories.PoolSize | cpp/src/factory.hpp:85-102 | With a fixed refill size r the pool has initial + r * ceil(max(0, k - initial) / r) entries after k gets, of which k are taken, whatever clients do in between |
| PoolFactories.PoolSizeAfterReset | cpp/src/factory.hpp:111-117 | The same formula after a reset at any time |
| PoolFactories.GetHandsOutFirst | cpp/src/factory.hpp:85-98 | With an object available, the first one with a single reference gets two more, and no other entry changes |
| PoolFactories.GetHandsOutNew | cpp/src/factory.hpp:99-102 | With none available, refill-size new objects come behind the old ones, and the first of them is handed out |
| PoolFactories.ShareAndRelease | cpp/src/factory.hpp:90-96 | A client that copies or drops a pointer changes the count of its object by one and of no other |
| PoolFactories.GetNeverReturns | cpp/src/factory.hpp:99-101 | With nothing available and refill size zero the recursion comes back to the same state |
| PoolFactories.HandedStaysTaken | cpp/src/factory.hpp:95-96 | After any run, what was handed out before it is still recorded as handed out and unavailable, whatever its clients did |
| PoolFactories.PoolFactory.constructor | cpp/src/factory.hpp:74-79 | A new pool holds the initial objects, referred to by nobody else and no two the same, and has both sizes as given |
| PoolFactories.PoolFactory.FillPool | cpp/src/factory.hpp:54-62 | Fills an empty pool with new objects and sets the counter to their number |
| PoolFactories.PoolFactory.Add | cpp/src/factory.hpp:63-71 | Appends new objects and raises the counter by their number |
| PoolFactories.PoolFactory.Get | cpp/src/factory.hpp:85-102 | Hands out the first available object after a refill if need be, one never handed out before, and terminates exactly when an object or a positive refill is there; the counter is zero when it refills |
| PoolFactories.PoolFactory.Reset | cpp/src/factory.hpp:111-117 | As many objects as the first size says, all available and none of them made before; the second is the refill size; what was handed out stays handed out |
| PoolFactories.PoolFactory.SetRefillSize | cpp/src/factory.hpp:109 | The refill size is the value, and nothing else changes |
| ByteOrders.Convert | cpp/src/byte_order.hpp:62-78 | Reverses every full block in place when there is more than one byte and just the endian differs, does nothing otherwise, and reports data shorter than one block, where the source swaps bytes outside it |
| ByteOrders.ReverseBlock | cpp/src/byte_order.hpp:70-74 | The swaps of the inner loop reverse one block and touch nothing else |
| ByteOrders.ConvertedTwice | cpp/src/byte_order.hpp:62-78 | The conversion is its own inverse |
| ByteOrders.ConvertedBlock | cpp/src/byte_order.hpp:68-75 | Each full block is reversed where it stands |
| ByteOrders.ConvertedTail | cpp/src/byte_order.hpp:67-68 | The bytes after the last full block are untouched |
| ByteOrders.ConvertedValues | cpp/src/byte_order.hpp:62-78 | Each full block's little-endian value before is its big-endian value after |
| ByteOrders.DecodeEncode | cpp/src/wire_int.hpp:83-97 | Decoding undoes encoding for every word; a swapped word has its value in big-endian bytes, and without a swap it is the value itself |
| ByteOrders.EncodeAgreesWithConvert | cpp/src/wire_int.hpp:83-89 | The bytes of a swapped integer are what the conversion makes of its plain bytes |
| ByteOrders.UnpackPacked | cpp/src/macos/io_util_macos.hpp:180-205 | Packing bytes into words and unpacking gives the bytes back when the word size divides the length |
| ByteOrders.PackUnpacked | cpp/src/macos/io_util_macos.hpp:180-205 | Unpacking words and packing gives the words back |
| ByteOrders.PackedWord | cpp/src/macos/io_util_macos.hpp:198-204 | Word number n is the little-endian value of the bytes at n times the word size |
| Bytes.ByteOfValue | cpp/src/macos/io_util_macos.hpp:198-204 | Byte number k of a word counts for 256 to the k-th |
| ByteOrders.StringToBinary | cpp/src/macos/io_util_macos.hpp:194-205 | Gives words that unpack to the text, with one terminating zero when one byte is missing from the last word; when more are missing it is reported as reading outside the text |
| ByteOrders.PackWords | cpp/src/macos/io_util_macos.hpp:198-204 | The loops compute the words of whole-word input |
| ByteOrders.BinaryToString | cpp/src/macos/io_util_macos.hpp:181-191 | The loops emit each word's bytes, the low byte first |
| Strings.TrimmedOff | cpp/src/s.hpp:60-89 | Trimming takes off only spaces, and all of them at both ends |
| Strings.SpacesAre | cpp/src/s.hpp:60-78 | What is trimmed is the space and the characters from tab to carriage return |
| Strings.Split | cpp/src/s.hpp:100-128 | The loop appends to the container the trimmed and filtered fields, or the text as it is when the separator does not occur |
| Strings.SplitJoins | cpp/src/s.hpp:100-128 | Without trimming and with empties kept the fields hold no separator and join to the input |
| Strings.SplitKeepsEmpties | cpp/src/s.hpp:109-128 | With empties kept there is one element for each field, trimmed if asked for, blank ones too |
| Strings.SplitDropsEmpties | cpp/src/s.hpp:109-128 | Without them it is that list less its empty elements |
| Strings.FieldsOfJoin | cpp/src/s.hpp:100-128 | No other list of separator-free fields joins to the same text |
| Strings.SplitHonoursFlags | cpp/src/s.hpp:106-108 | The flags are honoured if and only if the separator occurs or they would not change the text |
| Strings.SplitIgnoresFlags | cpp/src/s.hpp:106-108 | A text that is not trimmed and an empty one that is not dropped |
| Replacement.ReplaceSubstr | cpp/src/s.hpp:381-393 | The loop leaves no occurrence, reports whether there was one, and leaves a text without one alone |
| Replacement.OneTurn | cpp/src/s.hpp:387-391 | One turn puts the replacement where the first occurrence stood and keeps all before and after it |
| Replacement.OneCharacterReplaced | cpp/src/s.hpp:387-391 | For a pattern of one character that the replacement does not hold, the loop ends with each of them replaced and every other character kept |
| Replacement.EndsExactly | cpp/src/s.hpp:387-391 | For a replacement no longer than the pattern, or a pattern of at most one character, the loop terminates if and only if the replacement does not contain the pattern or the text does not |
| Replacement.LighterEnds | cpp/src/s.hpp:387-391 | For any weights of the characters, a replacement lighter than the pattern always terminates |
| Replacement.SameLengthEnds | cpp/src/s.hpp:387-391 | Another replacement of the same length always terminates: each turn moves the text one way in lexicographic order |
| Replacement.ShorterEnds | cpp/src/s.hpp:387-391 | Replacement by something shorter than the pattern always terminates |
| Replacement.ContainingNeverEnds | cpp/src/s.hpp:387-391 | Replacement by something that contains the pattern never terminates once the pattern occurs |
| Replacement.RemoveDoubleSpaces | cpp/src/s.hpp:527-533 | Terminates and collapses each run of spaces to one, all else kept in order |
| Replacement.CollapsedHasNoDouble | cpp/src/s.hpp:526-533 | A collapsed text has no two spaces in a row |
| Replacement.CollapsedKeepsTheRest | cpp/src/s.hpp:526-533 | Collapsing keeps every other character in order, and the first character |
| Modes.Mode | cpp/src/sysinfo.hpp:111-136 | Returns a sample of maximal multiplicity, the smallest such |
| Modes.IsModeUnique | cpp/src/sysinfo.hpp:111-136 | That determines the result |
| Modes.ScanIsBest | cpp/src/sysinfo.hpp:113-131 | On ascending samples the three counters hold the mode of the values before the current run, its multiplicity, and the length of the run |
| Emails.IsValidLocalPart | contact/e-mail.hpp:23-47 | Accepts exactly the dot-separated atoms of at most 64 characters |
| Emails.IsLabel | contact/e-mail.hpp:60-74 | Accepts exactly labels of 1 to 63 letters, digits and inner hyphens |
| Emails.IsTopLabel | contact/e-mail.hpp:82-87 | Accepts exactly two or more letters |
| Emails.IsValidDomain | contact/e-mail.hpp:51-89 | Accepts exactly two or more labels of at most 255 characters in all, the last one all letters |
| Emails.IsValidEmailAddress | contact/e-mail.hpp:92-101 | Accepts exactly a valid local part and a valid domain around the only @ |
| Emails.LastField | contact/e-mail.hpp:80-81 | What stands behind the last dot is the last label |
| Emails.CString.Copy | cpp/src/cs.hpp:180-202 | Stores the text and fills with NUL, or fails and changes nothing when there is no room for the terminator |
| Emails.Concatenation | cpp/src/cs.hpp:478-489 | Joins a text and a stored one; throws exactly when the right operand's capacity cannot hold the result and a terminator |
| Emails.Accepts | contact/e-mail.hpp:118-134 | The null record or two valid parts |
| Emails.Email.FromAddress | contact/e-mail.hpp:144-156 | Splits at the first @, stores both parts and checks them; fails exactly when a part is too long, there is no @, or a part is not valid |
| Emails.Email.Str | contact/e-mail.hpp:164-167 | The text of the record, or the exception when it is too long |
| Emails.AddressRoundTrip | contact/e-mail.hpp:144-167 | A valid address is stored if and only if its parts have at most 63 and 254 characters, and is then printed back if and only if it has at most 254 characters |
| Emails.ConstructedExactly | contact/e-mail.hpp:118-156 | A text without NUL makes a record if and only if its parts have at most 63 and 254 characters and it is a valid address or, up to case and accents, null@null |
| Emails.CharacterCodes | contact/e-mail.hpp:23-87 | The characters of local parts and labels by their codes |
| Emails.LengthLimits | contact/e-mail.hpp:23-87 | n letters are a local part up to 64, a label up to 63 and a top label from 2 on |
| Emails.DomainLimit | contact/e-mail.hpp:51-53 | Five labels in 255 characters are a domain and in 256 they are not |
| Emails.PrintedIsValid | contact/e-mail.hpp:118-167 | Whatever a record other than null was made from, its text is a valid address that makes the same record, and is the original text if and only if that held no NUL |
| Emails.LongestLocalIsRefused | contact/e-mail.hpp:105-107 | A valid address with a local part of 64 characters cannot be stored |
| Emails.LongAddressIsNotPrinted | cpp/src/cs.hpp:478-484 | A valid address that is stored and cannot be printed |

## Left out

- Files, paths, logging, `load` and `save`: operating-system I/O.
- ICU: code points are an arbitrary sequence, and case and accent folding is an arbitrary function of a character.
- The wide-character build, in which characters are narrowed in places.
- The multi-result `min_distance`, which never reads its container, and `min_distance_map_key`, the same loop as `min_distance`.
- EditDistance.TriangleWithoutSwaps: for one triple of sequences the condition is sufficient only; TriangleThrough is exact for all ways through one sequence and TriangleOverAlphabet for all sequences over an alphabet.
- The values the id generator draws: any ids may be drawn, and no property depends on which.
- Commands.CommandObject.Read: after a child count beyond the array, where the source writes out of bounds, says nothing about the object.
- `clone`, `equals` (which ignores the child count), ownership and deletion of commands.
- Leaf classes that do not write their own class information first, and a registered class with an empty namespace and an empty name, which an exhausted buffer would select.
- Reading after `BinaryBuffer::clear` sees the old storage; the model shows it but no command property uses it.
- Column length limits, timestamps in the logs, and the columns that no constraint or trigger in the model reads.
- E-mails, addresses, social profiles and websites: owned by a person or a unit and cascaded exactly like phones. The localized names of roles, which go with their role and are not audited.
- The refresh trigger fired by cascaded name deletions: the unit is gone, so it updates no row.
- Re-pointing a localized name or changing the default locale: no DAO does it.
- Materialized views, search ranking, the audit search functions, grants, and the DAOs that only read.
- `to_tsvector`: a search vector is kept as the three texts it is computed from.
- Failing `SET` and `RESET` statements, and fairness of the wait for a connection. A DAO call is one atomic step: the isolation of concurrent statements is the server's.
- `at`, `operator[]` and the mutable iterators of `SortedList`, through which a caller can break the order; exceptions of the comparator and of memory.
- The `Factory` wrapper, which calls the base class's `get`, and what `initialize` does to a pooled object.
- ByteOrders.Convert: says nothing about data shorter than one block, of which the source swaps bytes outside.
- Replacement.ReplaceSubstr: asks that the loop terminates, which is exactly when the call returns. EndsExactly decides that for replacements no longer than the pattern and for patterns of one character; for longer replacements LighterEnds and ContainingNeverEnds go one way each.
- Modes.Sort: orders the samples by insertion where the source calls the library sort; every ascending arrangement of the samples is the same.
- Modes.Mode: asks for a sample, as the source reads the first one; sampling and timing are not modelled.
- The stream operators of `Email`, which do not validate, and its qualifier.
- The negative-number printing, `Double` arithmetic and `standard_deviation`.
