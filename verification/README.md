# ListApp core in Dafny

ListApp is a small Android list manager. The user keeps named lists (`UserList`), each holding text items (`Item`). Everything lives in a Room database with two tables, `list_table` and `item_table`. This project models the part of the app that holds logic:

- the DAO (`ListDao`) over the two tables;
- the two view models (`AppViewModel`, `HomeViewModel`), as pure transitions over the pair (database, UI state);
- the route parser `ListScreen.fromRoute`;
- the `Parcelable` encoding of `UserList`.

Each view-model coroutine is one atomic step. An exception that escapes a step (a `!!` on null, `get(0)` on an empty list, a failed `require`, an SQLite error) becomes an `Err` result.

Modules, one per file:

- `Lang` (`lang.dfy`): `Option`/`Result`, the exception kinds, 64-bit `Long` bounds, and the Kotlin library calls the code relies on: `isBlank` (with Kotlin's whitespace set), `indexOf`, `getOrNull`, `MutableList.remove`, `substringBefore`.
- `Table` (`table.dfy`): a table kept in ascending primary-key order, as SQLite keeps a rowid table. It provides lookup, filtering, `INSERT OR REPLACE`, and `UPDATE` by key.
- `Entities` (`entities.dfy`): `UserList`, `Item` and `ListWithItems`. Datatype equality is structural, like data-class equality.
- `Dao` (`dao.dfy`): the store holds both tables and their AUTOINCREMENT counters. Every DAO query is given its SQL meaning, plus scenario lemmas for the DAO unit tests.
- `Parceling` (`parceling.dfy`): a parcel is a sequence of typed slots with a data position. It covers `writeToParcel`, the parcel constructor, and `CREATOR`.
- `HomeViewModel` (`home_view_model.dfy`) and `AppViewModel` (`app_view_model.dfy`): the view-model state machines. `AppViewModel` also holds the two defects described under "## Findings", each with its corrected version.
- `ListScreen` (`list_screen.dfy`): the screen enum and `fromRoute`.

Database semantics the model relies on:

- Rows come back in primary-key order.
- `autoGenerate = true` gives an AUTOINCREMENT key. An id of 0 asks for a fresh id: the counter plus one. SQLITE_FULL is raised once the counter is at the largest 64-bit value.
- An explicit id is kept as given, and the counter becomes the larger of itself and that id. A generated id is therefore never one any row had before, even after a delete. An explicit id can still name a deleted row's id again.
- `@Insert(REPLACE)` overwrites a row with the same id.
- `@Insert` (ABORT) fails on an existing id.
- `@Update` and `@Delete` match on the primary key alone. A missing key is a no-op.
- No foreign key ties `item_table.list_id` to `list_table.id`.

## Model

| member | source | states |
|---|---|---|
| Entities.NewList | app/src/main/java/com/example/listapp/data/UserList.kt:9-17 | A list built from just a name has the default id 0, which asks the database for a fresh id. |
| Dao.Fresh | app/src/androidTest/java/com/example/listapp/data/RoomUnitTest.kt:37-46 | A new database is valid and has no lists and no items. |
| Dao.InsertList | app/src/main/java/com/example/listapp/data/ListDao.kt:11-12 | Fails, and the error is SQLITE_FULL, exactly when id 0 is asked for and the counter is exhausted. An explicit id is then found by `selectList`. It replaces the row with that id, and the table grows only when the id was new. The counter becomes the larger of itself and the explicit id. Id 0 appends a row with counter + 1, an id no row had. The item table is untouched and the store stays valid. |
| Dao.AppendGreatest | app/src/main/java/com/example/listapp/data/ListDao.kt:11-12 | A row whose key is above every key is absent from the table, and `INSERT OR REPLACE` appends it at the end. |
| Dao.InsertAbove | app/src/main/java/com/example/listapp/data/ListDao.kt:11-12 | A list inserted under an explicit id above every stored id goes after all the other lists. |
| Dao.UpdateList | app/src/main/java/com/example/listapp/data/ListDao.kt:15-16 | The row with the list's id takes the new values and every other row stays. A missing id changes nothing. Sizes, items and counters are kept. |
| Dao.SelectList | app/src/main/java/com/example/listapp/data/ListDao.kt:19-20 | A row comes back exactly when some row has the key, and it is a stored row with that id. |
| Dao.SelectAllLists | app/src/main/java/com/example/listapp/data/ListDao.kt:23-24 | Every list row comes back exactly once, strictly ascending by id. |
| Dao.SelectNewList | app/src/main/java/com/example/listapp/data/ListDao.kt:27-28 | Null exactly when the table is empty. Otherwise a stored row whose id is at least every other id. |
| Dao.NewListIsNewest | app/src/main/java/com/example/listapp/data/ListDao.kt:27-28 | After a list is inserted with id 0, `selectNewList` returns that new row, and its id is above every earlier id. |
| Dao.DeleteList | app/src/main/java/com/example/listapp/data/ListDao.kt:31-32 | Exactly the row with the list's id goes, whatever its name. The table shrinks by one when the row existed. The item table is untouched, so there is no cascade. |
| Dao.DeleteAllLists | app/src/main/java/com/example/listapp/data/ListDao.kt:35-36 | No list remains. Items and counters are kept. |
| Dao.IdsNeverReused | app/src/main/java/com/example/listapp/data/ListDao.kt:35-36 | After every list is deleted, the next generated id is still above every id the table held, and no old row comes back. |
| Dao.InsertItem | app/src/main/java/com/example/listapp/data/ListDao.kt:40-41 | Fails exactly when id 0 meets an exhausted counter (SQLITE_FULL), or when an explicit id already exists (a constraint error). Id 0 appends a row with counter + 1. An explicit id adds that row, and the counter becomes the larger of itself and that id. Lists are untouched and the store stays valid. |
| Dao.UpdateItem | app/src/main/java/com/example/listapp/data/ListDao.kt:44-45 | The item with that id takes the new list id and text, and the others stay. A missing id changes nothing. |
| Dao.DeleteItem | app/src/main/java/com/example/listapp/data/ListDao.kt:48-49 | Exactly the item with that id goes. Lists are untouched. |
| Dao.DeleteAllItems | app/src/main/java/com/example/listapp/data/ListDao.kt:52-53 | No item remains. Lists and counters are kept. |
| Dao.DeleteItems | app/src/main/java/com/example/listapp/data/ListDao.kt:56-57 | Exactly the items of that list go, so the list has no items afterwards. Every other item stays, in id order. |
| Dao.ItemsOf | app/src/main/java/com/example/listapp/data/ListWithItems.kt:7-14 | The relation side: exactly the items whose `list_id` is the key, ascending by id. |
| Dao.GetListWithItems | app/src/main/java/com/example/listapp/data/ListDao.kt:61-64 | At most one result, present exactly when the list exists. It holds that list and exactly its items, ascending by id. |
| Dao.InsertionOrder | app/src/androidTest/java/com/example/listapp/data/RoomUnitTest.kt:83-97 | Texts inserted one after another into a list read back, through its items, as the old texts followed by the new ones in insertion order. |
| Dao.ThreeLists | app/src/androidTest/java/com/example/listapp/data/RoomUnitTest.kt:57-68 | Three lists inserted with ascending ids come back from `selectAllLists` in id order. |
| Dao.ThreeListsFind | app/src/androidTest/java/com/example/listapp/data/RoomUnitTest.kt:73-77 | The second of those lists is found by its id. |
| Dao.ThreeListsDeleteOne | app/src/androidTest/java/com/example/listapp/data/RoomUnitTest.kt:102-113 | Deleting the middle list leaves the other two in id order. |
| Dao.ThreeListsDeleteWithItems | app/src/androidTest/java/com/example/listapp/data/RoomUnitTest.kt:118-137 | After its items are deleted, a list has no items. Deleting it then leaves the other two in id order. |
| Dao.ThreeListsDeleteAll | app/src/androidTest/java/com/example/listapp/data/RoomUnitTest.kt:142-150 | Deleting all lists leaves none. |
| Parceling.WriteToParcel | app/src/main/java/com/example/listapp/data/UserList.kt:24-27 | Writes the id as a long slot, then the name as a string slot, at the data position. The position advances by two and earlier slots are kept. |
| Parceling.RoundTrip | app/src/main/java/com/example/listapp/data/UserList.kt:18-36 | Reading with `createFromParcel` from where `writeToParcel` started yields an equal `UserList`, a null name included, and leaves the position just after it. |
| Parceling.RoundTripEach | app/src/main/java/com/example/listapp/data/UserList.kt:18-36 | A run of lists written one after another reads back in the same order. |
| Parceling.NewArray | app/src/main/java/com/example/listapp/data/UserList.kt:38-40 | For a size of 0 or more, an array of that length with every entry null. A negative size throws. |
| Parceling.DescribeContents | app/src/main/java/com/example/listapp/data/UserList.kt:29-31 | The content flags are 0: no file descriptor is flattened. |
| HomeViewModel.InitialIsIdle | app/src/main/java/com/example/listapp/home/HomeViewModel.kt:29-46 | A new view model has an empty name, no navigation request, no list id and no snackbar. Finishing its empty name creates nothing. |
| HomeViewModel.OnNameClicked | app/src/main/java/com/example/listapp/home/HomeViewModel.kt:59-64 | Navigation is requested with the clicked list's id. The name and the snackbar are kept. |
| HomeViewModel.OnSaveName | app/src/main/java/com/example/listapp/home/HomeViewModel.kt:73-79 | `newName` becomes the given name. Nothing else changes. |
| HomeViewModel.SaveNameIdempotent | app/src/main/java/com/example/listapp/home/HomeViewModel.kt:73-79 | Saving the same name twice is the same as saving it once. |
| HomeViewModel.InsertNewList | app/src/main/java/com/example/listapp/home/HomeViewModel.kt:93-100 | Fails, with SQLITE_FULL, only when the id counter is exhausted. Otherwise the new list id is that of a stored row with the largest id, and for id 0 that row is the new one. |
| HomeViewModel.OnNameDone | app/src/main/java/com/example/listapp/home/HomeViewModel.kt:66-71 | A blank name changes nothing. Otherwise exactly one list with that name is appended, the name becomes "", and the new list's id is handed on. The list counter goes up by one and the item counter is kept. No other UI field changes. A failure is SQLITE_FULL. |
| HomeViewModel.DeleteList | app/src/main/java/com/example/listapp/home/HomeViewModel.kt:116-122 | The list's items go first, then the list, so no item of it is left behind. Every other list and item stays. |
| HomeViewModel.OnRemoveAllLists | app/src/main/java/com/example/listapp/home/HomeViewModel.kt:127-133 | Both tables end empty. The counters are kept. |
| Lang.RemoveFirst | app/src/main/java/com/example/listapp/viewmodel/AppViewModel.kt:277-283 | Removes the first equal element and keeps the order of the rest. An absent element changes nothing. The multiset loses exactly one copy. |
| Lang.IndexOf | app/src/main/java/com/example/listapp/viewmodel/AppViewModel.kt:242-244 | -1 exactly when the element is absent. Otherwise the position of its first occurrence. |
| Lang.SubstringBefore | app/src/main/java/com/example/listapp/ListScreen.kt:25 | The longest prefix without the delimiter. It stops at the first delimiter, or takes the whole string when there is none. |
| AppViewModel.InitialIsIdle | app/src/main/java/com/example/listapp/viewmodel/AppViewModel.kt:21-42 | A new view model has empty, duplicate-free selections, no typed name and no managed list. Reading the edit item dereferences the null feed. Finishing its empty name creates nothing. |
| AppViewModel.Toggle | app/src/main/java/com/example/listapp/viewmodel/AppViewModel.kt:264-283 | An absent element is appended at the end and a present one loses its first occurrence, the rest keeping their order. Either way the selection's multiset gains or loses exactly that one element. |
| AppViewModel.ToggleFlips | app/src/main/java/com/example/listapp/viewmodel/AppViewModel.kt:291-305 | On a selection without duplicates, a click flips the clicked element's membership, leaves every other membership alone, and creates no duplicate. |
| AppViewModel.OnElemClicked | app/src/main/java/com/example/listapp/viewmodel/AppViewModel.kt:291-305 | A list click touches only `deleteLists`, an item click only `deleteItems`, and anything else nothing. Each keeps its selection free of duplicates and flips exactly the clicked element. |
| AppViewModel.ClickTwice | app/src/main/java/com/example/listapp/viewmodel/AppViewModel.kt:291-305 | Two clicks on the same element restore every membership. When the element was not selected, the selection comes back exactly. |
| AppViewModel.OnCancelDelete | app/src/main/java/com/example/listapp/viewmodel/AppViewModel.kt:251-257 | "Lists" empties only the list selection. Any other argument empties only the item selection. |
| AppViewModel.OnBack | app/src/main/java/com/example/listapp/viewmodel/AppViewModel.kt:139-142 | The managed list is forgotten and the item selection emptied. The list selection is kept. |
| AppViewModel.OnSaveName | app/src/main/java/com/example/listapp/viewmodel/AppViewModel.kt:173-177 | The typed name becomes the given name. Nothing else changes. |
| AppViewModel.CreateList | app/src/main/java/com/example/listapp/viewmodel/AppViewModel.kt:56-64 | Fails, with SQLITE_FULL, only on an exhausted counter. Otherwise one list with the name is appended under a fresh id and becomes the managed list. The list counter goes up by one and the item counter is kept. |
| AppViewModel.OnNameDone | app/src/main/java/com/example/listapp/viewmodel/AppViewModel.kt:150-155 | A blank name changes nothing. Otherwise exactly one list with that name is appended and managed, and the typed name becomes "". The list counter goes up by one and the item counter is kept. No other UI field changes. A failure is SQLITE_FULL. |
| AppViewModel.OnUpdateName | app/src/main/java/com/example/listapp/viewmodel/AppViewModel.kt:162-166 | With no managed list it throws a null dereference. Otherwise the managed list and its row take the new name, blank or not. Every other list stays and the typed name becomes "". No other UI field changes. Both AUTOINCREMENT counters are kept. |
| AppViewModel.OnRemoveList | app/src/main/java/com/example/listapp/viewmodel/AppViewModel.kt:81-92 | The list row always goes. Its items go first only when the feed value is non-null. An empty value throws. A null value leaves the item table untouched. |
| AppViewModel.RemoveAllData | app/src/main/java/com/example/listapp/viewmodel/AppViewModel.kt:97-102 | Both tables end empty. The counters are kept. |
| AppViewModel.RemoveEach | app/src/main/java/com/example/listapp/viewmodel/AppViewModel.kt:114-116 | Removing the selected lists one by one fails exactly when one of their feed values is empty. Otherwise exactly the lists whose id is selected go. An item goes exactly when some selected list with its id had a non-null items value. |
| AppViewModel.OnDeleteLists | app/src/main/java/com/example/listapp/viewmodel/AppViewModel.kt:110-118 | A null `allLists` value throws. Equal counts empty both tables. Other counts remove exactly the selected ids, and exactly the items of those selected lists whose items value was non-null. Either way no selected list remains and the UI state is kept. Both AUTOINCREMENT counters are kept. |
| AppViewModel.OnNavigateToManage | app/src/main/java/com/example/listapp/viewmodel/AppViewModel.kt:125-134 | With no managed list, the list is looked up by id. Either way a new items feed for that list is requested, still without a value. |
| AppViewModel.OnItemsEmitted | app/src/main/java/com/example/listapp/viewmodel/AppViewModel.kt:22 | The feed's value becomes the current `getListWithItems` result for its key. Nothing else changes. |
| AppViewModel.OnAddItem | app/src/main/java/com/example/listapp/viewmodel/AppViewModel.kt:184-189 | With no managed list it throws. Otherwise the text, blank or not, is appended as a new item of the managed list under a fresh id. The item counter goes up by one and the list counter is kept. A failure on a managed list is SQLITE_FULL. |
| AppViewModel.OnDeleteItem | app/src/main/java/com/example/listapp/viewmodel/AppViewModel.kt:196-200 | Exactly the item with that id goes. Lists are untouched. Both AUTOINCREMENT counters are kept. |
| AppViewModel.OnDeleteItems | app/src/main/java/com/example/listapp/viewmodel/AppViewModel.kt:207-213 | Exactly the items whose id is selected go. Lists and the selection are kept. Both AUTOINCREMENT counters are kept. |
| AppViewModel.CurrentEditItem | app/src/main/java/com/example/listapp/viewmodel/AppViewModel.kt:41-42 | No feed throws, and an empty value throws. A null value gives null. Otherwise `getOrNull` of the first result's items at the edit position: the item there, or null when the position is outside them. |
| AppViewModel.OnEditItemSelected | app/src/main/java/com/example/listapp/viewmodel/AppViewModel.kt:242-244 | Succeeds exactly when the feed has a non-empty value, and changes only the edit position. The current edit item is then the selected item when present, and null (position -1) otherwise. |
| AppViewModel.ReselectDiscardsEdit | app/src/main/java/com/example/listapp/viewmodel/AppViewModel.kt:39-42 | Selecting a second item leaves the same state as selecting only that item. The first selection leaves no trace. |
| AppViewModel.OnEditItemDone | app/src/main/java/com/example/listapp/viewmodel/AppViewModel.kt:233-235 | The edit position becomes -1, so there is no current edit item. |
| AppViewModel.OnUpdateItem | app/src/main/java/com/example/listapp/viewmodel/AppViewModel.kt:220-230 | Succeeds exactly when there is a current edit item with the same id. Otherwise it fails, with an illegal-argument error when the current item could be read. On success the row is overwritten and the edit ends. Both AUTOINCREMENT counters are kept. |
| AppViewModel.RemoveListLeavesOrphans | app/src/main/java/com/example/listapp/viewmodel/AppViewModel.kt:84-87 | With the feed value null, removing list 1 leaves its item "Milk" behind with no list. |
| AppViewModel.OnRemoveListFixed | app/src/main/java/com/example/listapp/viewmodel/AppViewModel.kt:81-92 | The list and exactly its items go, so no item of it remains. Both AUTOINCREMENT counters are kept. |
| AppViewModel.DeleteListsByCount | app/src/main/java/com/example/listapp/viewmodel/AppViewModel.kt:111 | A selection of one shown list and one stale list matches the shown count, so a list that was never selected is deleted. |
| AppViewModel.RemoveEachFixed | app/src/main/java/com/example/listapp/viewmodel/AppViewModel.kt:114-116 | Exactly the selected lists and exactly their items go. Both AUTOINCREMENT counters are kept. |
| AppViewModel.OnDeleteListsFixed | app/src/main/java/com/example/listapp/viewmodel/AppViewModel.kt:110-118 | A null `allLists` value fails with a null dereference. With the shown lists current, exactly the selected lists go and no item of them remains. Every item of an unselected, existing list survives. Both AUTOINCREMENT counters are kept. |
| AppViewModel.OneByOneMatchesRemoveAll | app/src/main/java/com/example/listapp/viewmodel/AppViewModel.kt:110-118 | With every list selected and no orphaned items, corrected removal one by one empties both tables, as removing everything does. |
| ListScreen.FromRoute | app/src/main/java/com/example/listapp/ListScreen.kt:24-30 | A null route is Home. Otherwise it fails with an illegal argument exactly when the text before the first '/' is neither "Home" nor "Manage". A recognised screen's name is that text. |
| ListScreen.NameThenAnything | app/src/main/java/com/example/listapp/ListScreen.kt:25-27 | A screen name followed by '/' and anything, slashes included, parses as that screen. |
| ListScreen.BareName | app/src/main/java/com/example/listapp/ListScreen.kt:25-27 | A bare screen name with no '/' parses as that screen. |
| ListScreen.RouteShapes | app/src/main/java/com/example/listapp/ListScreen.kt:24-30 | A route parses as a screen exactly when it is that screen's name alone or followed by '/'. |
| ListScreen.EmptyRouteRejected | app/src/main/java/com/example/listapp/ListScreen.kt:29 | The empty route fails with an illegal argument. |

## Left out

- The Compose UI and its helpers: screens, components, menus, app bars, the loading screen, and `swipeToDismiss`. They are rendering and floating-point gesture animation, with no state logic of their own.
- Coroutine dispatch, races and threads. Each `launch` is one atomic step, so the insert-then-`selectNewList` race and the main-thread database access noted in `HomeViewModel.insertNewList` are not modelled.
- LiveData and `observeAsState` reactivity. `AppViewModel.OnItemsEmitted` stands in for an observer receiving the items feed. `onRemoveList` takes the feed's value as an input. `onDeleteLists` takes the current `allLists` value as an input.
- The `ListDatabase` singleton, Room's code generation, `ListRepository` (one-line forwarding to the DAO, modelled as the DAO calls themselves), `ListMainActivity`, `ListApplication`, the view-model factories, and the unwired `com.example.ibuyapp` package.
- `onRemove` in `HomeViewModel`: it only launches `deleteList`, which is modelled.
- Parceling.ReadLong: reads typed slots, not bytes. Reading a slot of the other kind is reported as a bad parcel, where a real `Parcel` would reinterpret the bytes.
- AppViewModel.OnUpdateName: the in-place `listName` mutation of the managed list object is modelled as replacing it with a renamed copy. Sharing of that object with the UI is not modelled.
- AppViewModel.OnUpdateName: the step is modelled as one atomic result. With no managed list, the `Err` discards the typed-name reset that the source performs before the failing coroutine runs.
- AppViewModel.RemoveEach: the source launches one coroutine per selected list. The model stops at the first failing one, since an escaping exception ends the app.
- Dao.UpdateList: a missing id is a no-op, as Room's `@Update` is. No not-found error is raised.
- Dao.DeleteList: no foreign key or cascade exists in the entities, so deleting a list never raises a constraint error and never removes items.
- AppViewModel.OnDeleteLists: the selection is not cleared afterwards, because the source does not clear it.
- AppViewModel.OnAddItem: there is no blank-text check, because the source has none.
- Dao.SelectList: Room returns null for a missing row even though the Kotlin signature is non-null. The model returns `None`, and `AppViewModel.OnNavigateToManage` stores it as "no managed list".

## Findings

| source | as written | input that shows it | evidently intended | confidence | as-written member | corrected member |
|---|---|---|---|---|---|---|
| app/src/main/java/com/example/listapp/viewmodel/AppViewModel.kt:84-87 | Items are deleted only if a freshly requested LiveData has a non-null value. A new, unobserved LiveData has a null value, so the items are never deleted. | A store with list 1 "Groceries" and item 1 "Milk" of list 1: after `onRemoveList(list 1)` the item remains with no list | Delete the list's items, then the list, as `HomeViewModel.deleteList` does | not executed; high | AppViewModel.RemoveListLeavesOrphans | AppViewModel.OnRemoveListFixed |
| app/src/main/java/com/example/listapp/viewmodel/AppViewModel.kt:111 | "Delete everything" is chosen by comparing the selection's size with the number of shown lists. | Lists 1 and 2 shown, with the selection holding list 1 and a stale, already removed list 3: both lists are deleted, although list 2 was never selected | Delete everything only when every shown list is selected; otherwise delete exactly the selected lists with their items | not executed; medium | AppViewModel.DeleteListsByCount | AppViewModel.OnDeleteListsFixed |
