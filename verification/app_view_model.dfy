/**
  The view model shared by the home and manage screens: the two selection
  lists, the typed name, the list being managed, the edit position and the
  items feed, over the DAO store. Every coroutine it launches is one atomic
  step; an exception escaping a step is an `Err`.
 */
module AppViewModel {
  import opened Lang
  import opened Entities
  import opened Dao
  import HomeViewModel

  /** `allItems`: null until the manage screen is entered, then the
      relation query for list `key`, whose value stays null until an
      observer has received the first result. */
  datatype ItemsFeed = NoFeed | Feed(key: Long, value: Option<seq<ListWithItems>>)

  datatype UiState = UiState(
    deleteLists: seq<UserList>,
    deleteItems: seq<Item>,
    currentName: string,
    currList: Option<UserList>,
    currentEditPosition: int,
    allItems: ItemsFeed)

  datatype App = App(db: Store, ui: UiState)

  /** What `onElemClicked` was handed: a list, an item, or anything else. */
  datatype Elem = ListElem(list: UserList) | ItemElem(item: Item) | OtherElem

  /** The state a new view model starts in. */
  function Initial(): (ui: UiState) {
    UiState([], [], "", None, -1, NoFeed)
  }

  /** Nothing is pending in a new view model: both selections are empty and
      duplicate-free, no name is typed and no list is managed, reading the
      edit item dereferences the still-null feed, and finishing the (blank)
      name creates nothing. */
  lemma InitialIsIdle(db: Store)
    requires Valid(db)
    ensures |Initial().deleteLists| == 0 && |Initial().deleteItems| == 0
    ensures Distinct(Initial().deleteLists) && Distinct(Initial().deleteItems)
    ensures Initial().currentName == "" && Initial().currList == None
    ensures CurrentEditItem(Initial()) == Err(NullPointer)
    ensures OnNameDone(App(db, Initial())) == Ok(App(db, Initial()))
  {
  }

  /** No element occurs twice. */
  predicate Distinct<T(==)>(s: seq<T>) {
    forall y :: y in s ==> multiset(s)[y] == 1
  }

  /** Some selected list has id `id`. */
  predicate Selected(lists: seq<UserList>, id: int) {
    exists m :: m in lists && m.id == id
  }

  // ---------------------------------------------------------------------
  // Selection

  /** `add`/`removeDeletingElem` behind a click: drop the first equal
      element when present (`contains` and `remove` use data-class
      equality), append it otherwise. */
  function Toggle<T(==)>(sel: seq<T>, x: T): (r: seq<T>)
    ensures multiset(r) == if x in sel then multiset(sel) - multiset{x} else multiset(sel) + multiset{x}
    ensures x !in sel ==> |r| == |sel| + 1 && r[..|sel|] == sel && r[|sel|] == x
    ensures x in sel ==>
      && |r| == |sel| - 1
      && r[..IndexOf(sel, x)] == sel[..IndexOf(sel, x)]
      && r[IndexOf(sel, x)..] == sel[IndexOf(sel, x) + 1..]
  {
    if x in sel then RemoveFirst(sel, x) else sel + [x]
  }

  /** A click on a distinct selection flips exactly the clicked element's
      membership and keeps the selection distinct. */
  lemma ToggleFlips<T(!new)>(sel: seq<T>, x: T)
    ensures Distinct(sel) ==> Distinct(Toggle(sel, x))
    ensures Distinct(sel) ==> (x in Toggle(sel, x) <==> x !in sel)
    ensures Distinct(sel) ==> forall y :: y != x ==> (y in Toggle(sel, x) <==> y in sel)
  {
    var r := Toggle(sel, x);
    assert forall y :: y in r <==> multiset(r)[y] > 0;
    assert forall y :: y in sel <==> multiset(sel)[y] > 0;
    if x in sel {
      assert multiset(r) == multiset(sel) - multiset{x};
    } else {
      assert multiset(r) == multiset(sel) + multiset{x};
    }
  }

  /** Taking back the element just appended restores the selection. */
  lemma RemoveAppended<T>(sel: seq<T>, x: T)
    requires x !in sel
    ensures RemoveFirst(sel + [x], x) == sel
  {
    var r := RemoveFirst(sel + [x], x);
    assert IndexOf(sel + [x], x) == |sel|;
    assert (sel + [x])[..|sel|] == sel;
  }

  /** `onElemClicked`: a list click toggles the list in `deleteLists`, an
      item click toggles the item in `deleteItems`; the other selection and
      everything else are left alone, and anything else is ignored. */
  function OnElemClicked(ui: UiState, elem: Elem): (r: UiState)
    ensures !elem.ListElem? ==> r.deleteLists == ui.deleteLists
    ensures !elem.ItemElem? ==> r.deleteItems == ui.deleteItems
    ensures elem.OtherElem? ==> r == ui
    ensures elem.ListElem? && Distinct(ui.deleteLists) ==>
      && Distinct(r.deleteLists)
      && (elem.list in r.deleteLists <==> elem.list !in ui.deleteLists)
      && forall l :: l != elem.list ==> (l in r.deleteLists <==> l in ui.deleteLists)
    ensures elem.ItemElem? && Distinct(ui.deleteItems) ==>
      && Distinct(r.deleteItems)
      && (elem.item in r.deleteItems <==> elem.item !in ui.deleteItems)
      && forall x :: x != elem.item ==> (x in r.deleteItems <==> x in ui.deleteItems)
    ensures r == ui.(deleteLists := r.deleteLists, deleteItems := r.deleteItems)
  {
    match elem
    case ListElem(l) =>
      ToggleFlips(ui.deleteLists, l);
      ui.(deleteLists := Toggle(ui.deleteLists, l))
    case ItemElem(x) =>
      ToggleFlips(ui.deleteItems, x);
      ui.(deleteItems := Toggle(ui.deleteItems, x))
    case OtherElem => ui
  }

  /** Clicking the same element twice restores every membership, and when
      the element was not selected it restores the selection exactly. */
  lemma ClickTwice(ui: UiState, elem: Elem)
    requires Distinct(ui.deleteLists) && Distinct(ui.deleteItems)
    ensures var r := OnElemClicked(OnElemClicked(ui, elem), elem);
      && (forall l :: l in r.deleteLists <==> l in ui.deleteLists)
      && (forall x :: x in r.deleteItems <==> x in ui.deleteItems)
      && r.currentName == ui.currentName && r.currList == ui.currList
      && r.currentEditPosition == ui.currentEditPosition && r.allItems == ui.allItems
    ensures elem.ListElem? && elem.list !in ui.deleteLists ==>
      OnElemClicked(OnElemClicked(ui, elem), elem) == ui
    ensures elem.ItemElem? && elem.item !in ui.deleteItems ==>
      OnElemClicked(OnElemClicked(ui, elem), elem) == ui
  {
    match elem
    case ListElem(l) =>
      ToggleFlips(ui.deleteLists, l);
      ToggleFlips(Toggle(ui.deleteLists, l), l);
      if l !in ui.deleteLists { RemoveAppended(ui.deleteLists, l); }
    case ItemElem(x) =>
      ToggleFlips(ui.deleteItems, x);
      ToggleFlips(Toggle(ui.deleteItems, x), x);
      if x !in ui.deleteItems { RemoveAppended(ui.deleteItems, x); }
    case OtherElem =>
  }

  /** `onCancelDelete`: "Lists" empties only `deleteLists`; any other
      argument empties only `deleteItems`. */
  function OnCancelDelete(ui: UiState, kind: string): (r: UiState)
    ensures kind == "Lists" ==> |r.deleteLists| == 0 && r.deleteItems == ui.deleteItems
    ensures kind != "Lists" ==> |r.deleteItems| == 0 && r.deleteLists == ui.deleteLists
    ensures r == ui.(deleteLists := r.deleteLists, deleteItems := r.deleteItems)
  {
    if kind == "Lists" then ui.(deleteLists := []) else ui.(deleteItems := [])
  }

  /** `onBack`: forget the managed list and the item selection; the list
      selection, the edit position and the feed stay. */
  function OnBack(ui: UiState): (r: UiState)
    ensures r.currList == None && |r.deleteItems| == 0
    ensures r == ui.(currList := None, deleteItems := [])
  {
    ui.(currList := None, deleteItems := [])
  }

  // ---------------------------------------------------------------------
  // Names

  /** `onSaveName`: keep the typed name. */
  function OnSaveName(ui: UiState, name: string): (r: UiState)
    ensures r.currentName == name
    ensures r == ui.(currentName := name)
  {
    if ui.currentName != name then ui.(currentName := name) else ui
  }

  /** `createList`: insert a new list, then make the row with the largest
      id the managed list. */
  function CreateList(app: App, name: string): (r: Result<App>)
    requires Valid(app.db)
    ensures r.Err? <==> app.db.listSeq == MAX_LONG
    ensures r.Err? ==> r.error == SqliteFull
    ensures r.Ok? ==> Valid(r.value.db)
    ensures r.Ok? ==> r.value.db.listSeq == app.db.listSeq + 1 && r.value.db.itemSeq == app.db.itemSeq
    ensures r.Ok? ==>
      && r.value.db.items == app.db.items
      && r.value.db.lists == app.db.lists + [UserList(r.value.db.listSeq, Some(name))]
      && r.value.ui == app.ui.(currList := Some(UserList(r.value.db.listSeq, Some(name))))
  {
    match InsertList(app.db, NewList(name))
    case Err(e) => Err(e)
    case Ok(db) =>
      NewListIsNewest(app.db, name);
      Ok(App(db, app.ui.(currList := SelectNewList(db))))
  }

  /** `onNameDone`: a blank name does nothing; otherwise exactly one list
      with that name is created, becomes the managed list, and the name is
      reset. */
  function OnNameDone(app: App): (r: Result<App>)
    requires Valid(app.db)
    ensures IsBlank(app.ui.currentName) ==> r == Ok(app)
    ensures !IsBlank(app.ui.currentName) ==> (r.Err? <==> app.db.listSeq == MAX_LONG)
    ensures r.Err? ==> r.error == SqliteFull
    ensures !IsBlank(app.ui.currentName) && r.Ok? ==>
      r.value.db.listSeq == app.db.listSeq + 1 && r.value.db.itemSeq == app.db.itemSeq
    ensures !IsBlank(app.ui.currentName) && r.Ok? ==>
      && r.value.ui.currentName == ""
      && r.value.db.items == app.db.items
      && |r.value.db.lists| == |app.db.lists| + 1
      && r.value.db.lists == app.db.lists + [UserList(r.value.db.listSeq, Some(app.ui.currentName))]
      && r.value.ui.currList == Some(UserList(r.value.db.listSeq, Some(app.ui.currentName)))
    ensures r.Ok? ==> r.value.ui == app.ui.(currentName := r.value.ui.currentName, currList := r.value.ui.currList)
  {
    if IsBlank(app.ui.currentName) then Ok(app)
    else
      match CreateList(app, app.ui.currentName)
      case Err(e) => Err(e)
      case Ok(a) => Ok(a.(ui := a.ui.(currentName := "")))
  }

  /** `onUpdateName` (with `updateList`): rename the managed list in memory
      and in the table, with no blank check; no managed list is a null
      dereference. */
  function OnUpdateName(app: App, name: string): (r: Result<App>)
    requires Valid(app.db)
    ensures app.ui.currList.None? <==> r.Err?
    ensures r.Err? ==> r.error == NullPointer
    ensures r.Ok? ==> Valid(r.value.db)
    ensures r.Ok? ==> r.value.db.listSeq == app.db.listSeq && r.value.db.itemSeq == app.db.itemSeq
    ensures r.Ok? ==>
      && r.value.ui.currentName == ""
      && r.value.ui.currList == Some(UserList(app.ui.currList.value.id, Some(name)))
      && r.value.db.items == app.db.items
      && |r.value.db.lists| == |app.db.lists|
    ensures r.Ok? && HasList(app.db, app.ui.currList.value.id) ==>
      SelectList(r.value.db, app.ui.currList.value.id) == Some(UserList(app.ui.currList.value.id, Some(name)))
    ensures r.Ok? ==> forall l :: l in app.db.lists && l.id != app.ui.currList.value.id ==> l in r.value.db.lists
    ensures r.Ok? ==> r.value.ui == app.ui.(currentName := "", currList := r.value.ui.currList)
  {
    var ui := OnSaveName(app.ui, name);
    match ui.currList
    case None => Err(NullPointer)
    case Some(c) =>
      var renamed := c.(listName := Some(ui.currentName));
      Ok(App(UpdateList(app.db, renamed), ui.(currList := Some(renamed), currentName := "")))
  }

  // ---------------------------------------------------------------------
  // Deleting lists

  /** `onRemoveList`, as written: the items are deleted only when the value
      of a freshly requested items feed is non-null, and reading its first
      entry fails on an empty value; the list row is always deleted. */
  function OnRemoveList(db: Store, list: UserList, itemsValue: Option<seq<ListWithItems>>): (r: Result<Store>)
    requires Valid(db)
    ensures r.Err? <==> itemsValue == Some([])
    ensures r.Err? ==> r.error == IndexOutOfBounds
    ensures r.Ok? ==> Valid(r.value) && r.value.listSeq == db.listSeq && r.value.itemSeq == db.itemSeq
    ensures r.Ok? ==> !HasList(r.value, list.id)
    ensures r.Ok? ==> forall l :: l in r.value.lists <==> l in db.lists && l.id != list.id
    ensures itemsValue.None? ==> r.Ok? && r.value.items == db.items
    ensures r.Ok? && itemsValue.Some? ==> forall x :: x in r.value.items <==> x in db.items && x.listId != list.id
  {
    match itemsValue
    case None => Ok(Dao.DeleteList(db, list))
    case Some(rows) =>
      if |rows| == 0 then Err(IndexOutOfBounds)
      else Ok(Dao.DeleteList(DeleteItems(db, list.id), list))
  }

  /** `removeAllData`: every item, then every list. */
  function RemoveAllData(db: Store): (r: Store)
    requires Valid(db)
    ensures Valid(r) && |r.lists| == 0 && |r.items| == 0
    ensures r.listSeq == db.listSeq && r.itemSeq == db.itemSeq
  {
    HomeViewModel.OnRemoveAllLists(db)
  }

  /** A list in `lists` with id `listId` found a non-null items snapshot,
      so its items go when it is removed. */
  predicate ItemsDropped(lists: seq<UserList>, itemsValue: UserList -> Option<seq<ListWithItems>>, listId: Long)
  {
    exists m :: m in lists && m.id == listId && itemsValue(m).Some?
  }

  /** `onRemoveList` for each list in turn, stopping at the first failure. */
  function RemoveEach(db: Store, lists: seq<UserList>, itemsValue: UserList -> Option<seq<ListWithItems>>): (r: Result<Store>)
    requires Valid(db)
    ensures r.Err? <==> exists m :: m in lists && itemsValue(m) == Some([])
    ensures r.Ok? ==> Valid(r.value) && r.value.listSeq == db.listSeq && r.value.itemSeq == db.itemSeq
    ensures r.Ok? ==> forall l :: l in r.value.lists <==> l in db.lists && !Selected(lists, l.id)
    ensures r.Ok? ==> forall x :: x in r.value.items <==> x in db.items && !ItemsDropped(lists, itemsValue, x.listId)
    decreases |lists|
  {
    if |lists| == 0 then Ok(db)
    else
      assert forall m :: m in lists <==> m == lists[0] || m in lists[1..];
      match OnRemoveList(db, lists[0], itemsValue(lists[0]))
      case Err(e) => Err(e)
      case Ok(db1) =>
        var r := RemoveEach(db1, lists[1..], itemsValue);
        assert forall id :: Selected(lists, id) <==> id == lists[0].id || Selected(lists[1..], id);
        assert forall id :: ItemsDropped(lists, itemsValue, id) <==>
          (id == lists[0].id && itemsValue(lists[0]).Some?) || ItemsDropped(lists[1..], itemsValue, id);
        r
  }

  /** `onDeleteLists`, as written: when the selection has as many entries
      as the current value of `allLists`, everything is removed; otherwise
      each selected list goes through `onRemoveList`. A null `allLists`
      value is a null dereference. The selection itself is not cleared.
      Either way no selected list is left in the table. */
  function OnDeleteLists(app: App, allListsValue: Option<seq<UserList>>, itemsValue: UserList -> Option<seq<ListWithItems>>): (r: Result<App>)
    requires Valid(app.db)
    ensures allListsValue.None? ==> r == Err(NullPointer)
    ensures allListsValue.Some? && |app.ui.deleteLists| == |allListsValue.value| ==>
      r.Ok? && |r.value.db.lists| == 0 && |r.value.db.items| == 0
    ensures allListsValue.Some? && |app.ui.deleteLists| != |allListsValue.value| ==>
      && (r.Ok? <==> forall m :: m in app.ui.deleteLists ==> itemsValue(m) != Some([]))
      && (r.Ok? ==> forall l :: l in r.value.db.lists <==> l in app.db.lists && !Selected(app.ui.deleteLists, l.id))
      && (r.Ok? ==> forall x :: x in r.value.db.items <==> x in app.db.items && !ItemsDropped(app.ui.deleteLists, itemsValue, x.listId))
    ensures r.Ok? ==> Valid(r.value.db) && r.value.ui == app.ui
    ensures r.Ok? ==> r.value.db.listSeq == app.db.listSeq && r.value.db.itemSeq == app.db.itemSeq
    ensures r.Ok? ==> forall l :: l in app.ui.deleteLists ==> !HasList(r.value.db, l.id)
  {
    match allListsValue
    case None => Err(NullPointer)
    case Some(shown) =>
      if |app.ui.deleteLists| == |shown| then Ok(App(RemoveAllData(app.db), app.ui))
      else
        match RemoveEach(app.db, app.ui.deleteLists, itemsValue)
        case Err(e) => Err(e)
        case Ok(db) =>
          assert forall l :: l in app.ui.deleteLists ==> !HasList(db, l.id) by {
            forall l | l in app.ui.deleteLists ensures !HasList(db, l.id) {
              assert Selected(app.ui.deleteLists, l.id);
              forall k | 0 <= k < |db.lists| ensures db.lists[k].id != l.id {
                assert db.lists[k] in db.lists;
              }
            }
          }
          Ok(App(db, app.ui))
  }

  // ---------------------------------------------------------------------
  // The managed list and its items

  /** `onNavigateToManage`: with no managed list yet, load it by id (null
      when it is gone); either way request the items feed for `list`. */
  function OnNavigateToManage(app: App, list: UserList): (r: App)
    ensures r.db == app.db
    ensures r.ui.allItems == Feed(list.id, None)
    ensures app.ui.currList.None? ==> r.ui.currList == SelectList(app.db, list.id)
    ensures app.ui.currList.Some? ==> r.ui.currList == app.ui.currList
    ensures r.ui == app.ui.(currList := r.ui.currList, allItems := r.ui.allItems)
  {
    if app.ui.currList.None? then
      App(app.db, app.ui.(currList := SelectList(app.db, list.id), allItems := Feed(list.id, None)))
    else
      App(app.db, app.ui.(allItems := Feed(list.id, None)))
  }

  /** The items feed delivering its current query result to an observer. */
  function OnItemsEmitted(app: App): (r: App)
    requires Valid(app.db)
    ensures r.db == app.db
    ensures app.ui.allItems.Feed? ==> r.ui.allItems == Feed(app.ui.allItems.key, Some(GetListWithItems(app.db, app.ui.allItems.key)))
    ensures app.ui.allItems.NoFeed? ==> r == app
    ensures r.ui == app.ui.(allItems := r.ui.allItems)
  {
    match app.ui.allItems
    case NoFeed => app
    case Feed(key, _) => App(app.db, app.ui.(allItems := Feed(key, Some(GetListWithItems(app.db, key)))))
  }

  /** `onAddItem`: insert the text as a new item of the managed list, with
      no blank check; no managed list is a null dereference. */
  function OnAddItem(app: App, itemStr: string): (r: Result<App>)
    requires Valid(app.db)
    ensures app.ui.currList.None? ==> r == Err(NullPointer)
    ensures app.ui.currList.Some? ==> (r.Err? <==> app.db.itemSeq == MAX_LONG)
    ensures app.ui.currList.Some? && r.Err? ==> r.error == SqliteFull
    ensures r.Ok? ==> r.value.db.listSeq == app.db.listSeq && r.value.db.itemSeq == app.db.itemSeq + 1
    ensures r.Ok? ==> Valid(r.value.db) && r.value.ui == app.ui && r.value.db.lists == app.db.lists
    ensures r.Ok? ==> r.value.db.items == app.db.items + [Item(r.value.db.itemSeq, app.ui.currList.value.id, itemStr)]
  {
    match app.ui.currList
    case None => Err(NullPointer)
    case Some(c) =>
      match InsertItem(app.db, Item(0, c.id, itemStr))
      case Err(e) => Err(e)
      case Ok(db) => Ok(App(db, app.ui))
  }

  /** `onDeleteItem`. */
  function OnDeleteItem(db: Store, item: Item): (r: Store)
    requires Valid(db)
    ensures Valid(r) && r.lists == db.lists
    ensures r.listSeq == db.listSeq && r.itemSeq == db.itemSeq
    ensures forall x :: x in r.items <==> x in db.items && x.itemId != item.itemId
  {
    DeleteItem(db, item)
  }

  /** Some selected item has id `id`. */
  predicate ItemSelected(items: seq<Item>, id: int) {
    exists m :: m in items && m.itemId == id
  }

  /** `onDeleteItems`: delete each selected item by id; the selection is
      not cleared. */
  function OnDeleteItems(app: App): (r: App)
    requires Valid(app.db)
    ensures Valid(r.db) && r.db.lists == app.db.lists && r.ui == app.ui
    ensures r.db.listSeq == app.db.listSeq && r.db.itemSeq == app.db.itemSeq
    ensures forall x :: x in r.db.items <==> x in app.db.items && !ItemSelected(app.ui.deleteItems, x.itemId)
  {
    App(DeleteEachItem(app.db, app.ui.deleteItems), app.ui)
  }

  function DeleteEachItem(db: Store, items: seq<Item>): (r: Store)
    requires Valid(db)
    ensures Valid(r) && r.lists == db.lists
    ensures r.listSeq == db.listSeq && r.itemSeq == db.itemSeq
    ensures forall x :: x in r.items <==> x in db.items && !ItemSelected(items, x.itemId)
    decreases |items|
  {
    if |items| == 0 then db
    else
      assert forall m :: m in items <==> m == items[0] || m in items[1..];
      assert forall id :: ItemSelected(items, id) <==> id == items[0].itemId || ItemSelected(items[1..], id);
      DeleteEachItem(DeleteItem(db, items[0]), items[1..])
  }

  // ---------------------------------------------------------------------
  // Editing one item

  /** `currentEditItem`: the item at the edit position in the first entry
      of the feed's value; null when the value is null or the position is
      outside the items. A null feed or an empty value throws. */
  function CurrentEditItem(ui: UiState): (r: Result<Option<Item>>)
    ensures ui.allItems.NoFeed? <==> r == Err(NullPointer)
    ensures ui.allItems.Feed? && ui.allItems.value == Some([]) <==> r == Err(IndexOutOfBounds)
    ensures ui.allItems.Feed? && ui.allItems.value.None? ==> r == Ok(None)
    ensures r.Ok? && r.value.Some? ==>
      && ui.allItems.Feed? && ui.allItems.value.Some? && |ui.allItems.value.value| > 0
      && 0 <= ui.currentEditPosition < |ui.allItems.value.value[0].items|
      && r.value.value == ui.allItems.value.value[0].items[ui.currentEditPosition]
    ensures ui.currentEditPosition < 0 ==> r.Err? || r == Ok(None)
    ensures ui.allItems.Feed? && ui.allItems.value.Some? && |ui.allItems.value.value| > 0 ==>
      r == Ok(GetOrNull(ui.allItems.value.value[0].items, ui.currentEditPosition))
  {
    match ui.allItems
    case NoFeed => Err(NullPointer)
    case Feed(_, value) =>
      match value
      case None => Ok(None)
      case Some(rows) =>
        if |rows| == 0 then Err(IndexOutOfBounds)
        else Ok(GetOrNull(rows[0].items, ui.currentEditPosition))
  }

  /** `onEditItemSelected`: the edit position becomes the index of the first
      item equal to `item`, or -1 when there is none; nothing is saved. A
      null feed or value, or an empty value, throws. */
  function OnEditItemSelected(ui: UiState, item: Item): (r: Result<UiState>)
    ensures r.Ok? <==> ui.allItems.Feed? && ui.allItems.value.Some? && |ui.allItems.value.value| > 0
    ensures r.Ok? ==> r.value == ui.(currentEditPosition := r.value.currentEditPosition)
    ensures r.Ok? ==>
      CurrentEditItem(r.value) == Ok(if item in ui.allItems.value.value[0].items then Some(item) else None)
    ensures r.Ok? && item !in ui.allItems.value.value[0].items ==> r.value.currentEditPosition == -1
  {
    match ui.allItems
    case NoFeed => Err(NullPointer)
    case Feed(_, value) =>
      match value
      case None => Err(NullPointer)
      case Some(rows) =>
        if |rows| == 0 then Err(IndexOutOfBounds)
        else Ok(ui.(currentEditPosition := IndexOf(rows[0].items, item)))
  }

  /** Selecting another item while one is being edited simply moves the
      pointer: the first selection leaves no trace. */
  lemma ReselectDiscardsEdit(ui: UiState, a: Item, b: Item)
    requires OnEditItemSelected(ui, a).Ok?
    ensures OnEditItemSelected(OnEditItemSelected(ui, a).value, b) == OnEditItemSelected(ui, b)
  {
  }

  /** `onEditItemDone`: the edit position is reset, so there is no current
      edit item. */
  function OnEditItemDone(ui: UiState): (r: UiState)
    ensures r.currentEditPosition == -1
    ensures r == ui.(currentEditPosition := -1)
    ensures CurrentEditItem(r).Err? || CurrentEditItem(r) == Ok(None)
  {
    ui.(currentEditPosition := -1)
  }

  /** `onUpdateItem`: only the item currently being edited may be updated;
      a null current item or a different id fails the `require` checks.
      On success the row is overwritten and the edit ends. */
  function OnUpdateItem(app: App, item: Item): (r: Result<App>)
    requires Valid(app.db)
    ensures r.Ok? <==>
      && CurrentEditItem(app.ui).Ok?
      && CurrentEditItem(app.ui).value.Some?
      && CurrentEditItem(app.ui).value.value.itemId == item.itemId
    ensures CurrentEditItem(app.ui).Ok? && r.Err? ==> r.error == IllegalArgument
    ensures r.Ok? ==> Valid(r.value.db) && r.value.db.lists == app.db.lists
    ensures r.Ok? ==> r.value.db.listSeq == app.db.listSeq && r.value.db.itemSeq == app.db.itemSeq
    ensures r.Ok? ==> r.value.ui == app.ui.(currentEditPosition := -1)
    ensures r.Ok? ==> forall x :: x in r.value.db.items <==>
      (x == item && HasItem(app.db, item.itemId)) || (x in app.db.items && x.itemId != item.itemId)
  {
    match CurrentEditItem(app.ui)
    case Err(e) => Err(e)
    case Ok(current) =>
      match current
      case None => Err(IllegalArgument)
      case Some(c) =>
        if c.itemId != item.itemId then Err(IllegalArgument)
        else Ok(App(UpdateItem(app.db, item), OnEditItemDone(app.ui)))
  }

  // ---------------------------------------------------------------------
  // The two deletion defects and their corrections

  /** As written, removing a list while the items feed value is null (as
      it is for a feed nobody observes yet) leaves its items behind with no
      list to belong to. */
  lemma RemoveListLeavesOrphans()
    ensures var list := UserList(1, Some("Groceries"));
      var db := Store([list], [Item(1, 1, "Milk")], 1, 1);
      && Valid(db)
      && OnRemoveList(db, list, None) == Ok(Store([], [Item(1, 1, "Milk")], 1, 1))
      && !HasList(OnRemoveList(db, list, None).value, 1)
      && ItemsOf(OnRemoveList(db, list, None).value, 1) == [Item(1, 1, "Milk")]
  {
    var list := UserList(1, Some("Groceries"));
    var db := Store([list], [Item(1, 1, "Milk")], 1, 1);
    var r := Dao.DeleteList(db, list);
    Table.SameRows(r.lists, [], ListKey);
    assert Table.Filter([Item(1, 1, "Milk")], OfList(1)) == [Item(1, 1, "Milk")];
  }

  /** `onRemoveList` as intended: the list's items, then the list, with no
      feed involved. No item of the list survives. */
  function OnRemoveListFixed(db: Store, list: UserList): (r: Store)
    requires Valid(db)
    ensures Valid(r) && !HasList(r, list.id) && ItemsOf(r, list.id) == []
    ensures r.listSeq == db.listSeq && r.itemSeq == db.itemSeq
    ensures forall l :: l in r.lists <==> l in db.lists && l.id != list.id
    ensures forall x :: x in r.items <==> x in db.items && x.listId != list.id
  {
    HomeViewModel.DeleteList(db, list)
  }

  /** As written, a selection holding a list that is already gone (removed
      by a swipe, say) can match the number of shown lists, and then every
      list is removed, including one that was never selected. */
  lemma DeleteListsByCount()
    ensures var a := UserList(1, Some("a"));
      var b := UserList(2, Some("b"));
      var stale := UserList(3, Some("c"));
      var app := App(Store([a, b], [], 3, 0), Initial().(deleteLists := [a, stale]));
      && Valid(app.db)
      && !Selected(app.ui.deleteLists, b.id)
      && OnDeleteLists(app, Some([a, b]), _ => None).Ok?
      && !HasList(OnDeleteLists(app, Some([a, b]), _ => None).value.db, b.id)
  {
  }

  /** `RemoveEach` with the corrected per-list removal. */
  function RemoveEachFixed(db: Store, lists: seq<UserList>): (r: Store)
    requires Valid(db)
    ensures Valid(r) && r.listSeq == db.listSeq && r.itemSeq == db.itemSeq
    ensures forall l :: l in r.lists <==> l in db.lists && !Selected(lists, l.id)
    ensures forall x :: x in r.items <==> x in db.items && !Selected(lists, x.listId)
    decreases |lists|
  {
    if |lists| == 0 then db
    else
      assert forall m :: m in lists <==> m == lists[0] || m in lists[1..];
      assert forall id :: Selected(lists, id) <==> id == lists[0].id || Selected(lists[1..], id);
      RemoveEachFixed(OnRemoveListFixed(db, lists[0]), lists[1..])
  }

  /** `onDeleteLists` as intended: everything is removed only when every
      shown list is selected; otherwise each selected list is removed with
      its items. With the shown lists current, exactly the selected lists
      and their items go. */
  function OnDeleteListsFixed(app: App, allListsValue: Option<seq<UserList>>): (r: Result<App>)
    requires Valid(app.db)
    ensures allListsValue.None? <==> r.Err?
    ensures r.Err? ==> r.error == NullPointer
    ensures r.Ok? ==> Valid(r.value.db) && r.value.ui == app.ui
    ensures r.Ok? ==> r.value.db.listSeq == app.db.listSeq && r.value.db.itemSeq == app.db.itemSeq
    ensures r.Ok? && allListsValue == Some(app.db.lists) ==>
      && (forall l :: l in r.value.db.lists <==> l in app.db.lists && !Selected(app.ui.deleteLists, l.id))
      && (forall x :: x in r.value.db.items ==> x in app.db.items && !Selected(app.ui.deleteLists, x.listId))
      && (forall x :: x in app.db.items && HasList(app.db, x.listId) && !Selected(app.ui.deleteLists, x.listId) ==>
            x in r.value.db.items)
  {
    match allListsValue
    case None => Err(NullPointer)
    case Some(shown) =>
      if forall l :: l in shown ==> l in app.ui.deleteLists then
        var db := RemoveAllData(app.db);
        assert shown == app.db.lists ==> forall l :: l in app.db.lists ==> Selected(app.ui.deleteLists, l.id);
        Ok(App(db, app.ui))
      else Ok(App(RemoveEachFixed(app.db, app.ui.deleteLists), app.ui))
  }

  /** With every list selected and no orphaned items, removing the lists
      one by one (corrected) ends where removing everything at once does:
      both tables empty. */
  lemma OneByOneMatchesRemoveAll(db: Store, lists: seq<UserList>)
    requires Valid(db)
    requires forall l :: l in db.lists ==> l in lists
    requires forall x :: x in db.items ==> HasList(db, x.listId)
    ensures RemoveEachFixed(db, lists).lists == RemoveAllData(db).lists == []
    ensures RemoveEachFixed(db, lists).items == RemoveAllData(db).items == []
  {
    var r := RemoveEachFixed(db, lists);
    forall l | l in db.lists ensures Selected(lists, l.id) {
      assert l in lists;
    }
    forall x | x in db.items ensures Selected(lists, x.listId) {
      var k :| 0 <= k < |db.lists| && db.lists[k].id == x.listId;
      assert db.lists[k] in lists;
    }
    Table.SameRows(r.lists, [], ListKey);
    Table.SameRows(r.items, [], ItemKey);
  }
}
