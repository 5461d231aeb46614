/**
  The home screen's view model: the name being typed, the navigation flag,
  the id handed to the manage screen and the snackbar flag, over the DAO
  store. Every coroutine it launches is one atomic step here.
 */
module HomeViewModel {
  import opened Lang
  import opened Entities
  import opened Dao

  datatype HomeState = HomeState(
    currentName: string,
    navigateToManageList: bool,
    newListId: Option<Long>,
    showSnackbar: bool)

  datatype Home = Home(db: Store, ui: HomeState)

  /** The state a new view model starts in. */
  function Initial(): (ui: HomeState) {
    HomeState("", false, None, false)
  }

  /** The `newName` getter. */
  function NewName(ui: HomeState): (name: string) { ui.currentName }

  /** Nothing is pending in a new view model: no name, no navigation, no id,
      no snackbar, and finishing the (blank) name creates nothing. */
  lemma InitialIsIdle(db: Store)
    requires Valid(db)
    ensures NewName(Initial()) == ""
    ensures !Initial().navigateToManageList && Initial().newListId == None && !Initial().showSnackbar
    ensures OnNameDone(Home(db, Initial())) == Ok(Home(db, Initial()))
  {
  }

  /** `onNameClicked`: ask for navigation to the clicked list. */
  function OnNameClicked(ui: HomeState, list: UserList): (r: HomeState)
    ensures r.navigateToManageList && r.newListId == Some(list.id)
    ensures r.currentName == ui.currentName && r.showSnackbar == ui.showSnackbar
  {
    ui.(navigateToManageList := true, newListId := Some(list.id))
  }

  /** `onSaveName`: keep the typed name (assigned only when it differs,
      which comes to the same). */
  function OnSaveName(ui: HomeState, name: string): (r: HomeState)
    ensures NewName(r) == name
    ensures r.navigateToManageList == ui.navigateToManageList
    ensures r.newListId == ui.newListId && r.showSnackbar == ui.showSnackbar
  {
    if ui.currentName != name then ui.(currentName := name) else ui
  }

  /** Saving the same name again changes nothing. */
  lemma SaveNameIdempotent(ui: HomeState, name: string)
    ensures OnSaveName(OnSaveName(ui, name), name) == OnSaveName(ui, name)
  {
  }

  /** `insertNewList`: insert the list, then read back the row with the
      largest id and hand its id on. */
  function InsertNewList(home: Home, list: UserList): (r: Result<Home>)
    requires Valid(home.db)
    ensures r.Err? <==> list.id == 0 && home.db.listSeq == MAX_LONG
    ensures r.Err? ==> r.error == SqliteFull
    ensures r.Ok? ==> Valid(r.value.db) && r.value.db == InsertList(home.db, list).value
    ensures r.Ok? ==> r.value.ui == home.ui.(newListId := r.value.ui.newListId)
    ensures r.Ok? ==> r.value.ui.newListId.Some?
    ensures r.Ok? ==> HasList(r.value.db, r.value.ui.newListId.value)
    ensures r.Ok? ==> forall l :: l in r.value.db.lists ==> l.id <= r.value.ui.newListId.value
    ensures r.Ok? && list.id == 0 ==> SelectList(r.value.db, r.value.ui.newListId.value) == Some(UserList(r.value.db.listSeq, list.listName))
  {
    match InsertList(home.db, list)
    case Err(e) => Err(e)
    case Ok(db) =>
      match SelectNewList(db)
      case None => Err(NullPointer)
      case Some(newest) =>
        assert newest in db.lists;
        assert list.id == 0 ==> newest == db.lists[|db.lists| - 1];
        Ok(Home(db, home.ui.(newListId := Some(newest.id))))
  }

  /** `onNameDone`: a blank name does nothing; otherwise exactly one list
      with that name is created and the name is reset. */
  function OnNameDone(home: Home): (r: Result<Home>)
    requires Valid(home.db)
    ensures IsBlank(home.ui.currentName) ==> r == Ok(home)
    ensures !IsBlank(home.ui.currentName) ==> (r.Err? <==> home.db.listSeq == MAX_LONG)
    ensures r.Err? ==> r.error == SqliteFull
    ensures !IsBlank(home.ui.currentName) && r.Ok? ==>
      r.value.db.listSeq == home.db.listSeq + 1 && r.value.db.itemSeq == home.db.itemSeq
    ensures !IsBlank(home.ui.currentName) && r.Ok? ==>
      && r.value.ui.currentName == ""
      && r.value.db.items == home.db.items
      && r.value.db.lists == home.db.lists + [UserList(r.value.db.listSeq, Some(home.ui.currentName))]
      && r.value.ui.newListId == Some(r.value.db.listSeq)
    ensures !IsBlank(home.ui.currentName) && r.Ok? ==> r.value.ui == home.ui.(currentName := "", newListId := r.value.ui.newListId)
  {
    if IsBlank(home.ui.currentName) then Ok(home)
    else
      match InsertNewList(home, NewList(home.ui.currentName))
      case Err(e) => Err(e)
      case Ok(h) =>
        assert h.db.lists[|h.db.lists| - 1].id == h.db.listSeq;
        Ok(h.(ui := h.ui.(currentName := "")))
  }

  /** `deleteList` (run by `onRemove`): the list's items first, then the
      list. No item of the list is left behind, and nothing else changes. */
  function DeleteList(db: Store, list: UserList): (r: Store)
    requires Valid(db)
    ensures Valid(r)
    ensures r.listSeq == db.listSeq && r.itemSeq == db.itemSeq
    ensures !HasList(r, list.id) && ItemsOf(r, list.id) == []
    ensures forall l :: l in r.lists <==> l in db.lists && l.id != list.id
    ensures forall x :: x in r.items <==> x in db.items && x.listId != list.id
  {
    var noItems := DeleteItems(db, list.id);
    Dao.DeleteList(noItems, list)
  }

  /** `onRemoveAllLists`: every item, then every list. */
  function OnRemoveAllLists(db: Store): (r: Store)
    requires Valid(db)
    ensures Valid(r)
    ensures |r.lists| == 0 && |r.items| == 0
    ensures r.listSeq == db.listSeq && r.itemSeq == db.itemSeq
  {
    DeleteAllLists(DeleteAllItems(db))
  }
}
