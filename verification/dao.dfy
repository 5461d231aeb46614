/**
  The Room DAO over the two tables `list_table` and `item_table`, as an
  immutable store value. Each table is kept in primary-key order, and each
  has an AUTOINCREMENT counter: the largest id it has ever held (SQLite's
  `sqlite_sequence`). A row inserted with id 0 gets counter + 1 (Room binds
  an id of 0 as NULL); a row inserted with any other id keeps it and raises
  the counter to at least that id.
 */
module Dao {
  import opened Lang
  import opened Entities
  import Table

  datatype Store = Store(lists: seq<UserList>, items: seq<Item>, listSeq: Long, itemSeq: Long)

  /** What every reachable store satisfies: rows in strictly ascending key
      order and no key above its table's counter. */
  predicate Valid(s: Store) {
    && Table.Ascending(s.lists, ListKey)
    && Table.Ascending(s.items, ItemKey)
    && 0 <= s.listSeq && 0 <= s.itemSeq
    && Table.KeysAtMost(s.lists, s.listSeq, ListKey)
    && Table.KeysAtMost(s.items, s.itemSeq, ItemKey)
  }

  /** A freshly created database. */
  function Fresh(): (s: Store)
    ensures Valid(s) && |s.lists| == 0 && |s.items| == 0
  {
    Store([], [], 0, 0)
  }

  /** Some list row has id `key`. */
  predicate HasList(s: Store, key: int) {
    Table.HasKey(s.lists, key, ListKey)
  }

  /** Some item row has id `key`. */
  predicate HasItem(s: Store, key: int) {
    Table.HasKey(s.items, key, ItemKey)
  }

  /** The id a new row gets: the requested one, or counter + 1 when 0 was
      requested; an exhausted counter is SQLITE_FULL. */
  function AssignId(counter: Long, requested: Long): (r: Result<Long>)
    requires 0 <= counter
    ensures r.Err? <==> requested == 0 && counter == MAX_LONG
    ensures r.Err? ==> r.error == SqliteFull
    ensures r.Ok? && requested != 0 ==> r.value == requested
    ensures r.Ok? && requested == 0 ==> r.value == counter + 1
  {
    if requested != 0 then Ok(requested)
    else if counter == MAX_LONG then Err(SqliteFull)
    else Ok(counter + 1)
  }

  /** `insertList` (`@Insert(onConflict = REPLACE)`): the row is stored under
      its id, or a fresh one when its id is 0; a row already holding that id
      is overwritten. The item table is untouched. */
  function InsertList(s: Store, list: UserList): (r: Result<Store>)
    requires Valid(s)
    ensures r.Err? <==> list.id == 0 && s.listSeq == MAX_LONG
    ensures r.Err? ==> r.error == SqliteFull
    ensures r.Ok? ==> Valid(r.value)
    ensures r.Ok? ==> r.value.items == s.items && r.value.itemSeq == s.itemSeq
    ensures r.Ok? ==> s.listSeq <= r.value.listSeq
    ensures list.id != 0 ==> r.Ok? && r.value.listSeq == if list.id > s.listSeq then list.id else s.listSeq
    ensures list.id != 0 ==> r.Ok? && SelectList(r.value, list.id) == Some(list)
    ensures list.id != 0 ==> r.Ok? && |r.value.lists| == if HasList(s, list.id) then |s.lists| else |s.lists| + 1
    ensures list.id != 0 ==> r.Ok? && forall l :: l in r.value.lists <==> l == list || (l in s.lists && l.id != list.id)
    ensures list.id == 0 && r.Ok? ==>
      && r.value.listSeq == s.listSeq + 1
      && !HasList(s, r.value.listSeq)
      && r.value.lists == s.lists + [UserList(r.value.listSeq, list.listName)]
  {
    match AssignId(s.listSeq, list.id)
    case Err(e) => Err(e)
    case Ok(id) =>
      var row := UserList(id, list.listName);
      var lists := Table.Upsert(s.lists, row, ListKey);
      var counter: Long := if id > s.listSeq then id else s.listSeq;
      if list.id == 0 then
        AppendGreatest(s.lists, row, ListKey);
        Ok(Store(lists, s.items, counter, s.itemSeq))
      else
        var r := Store(lists, s.items, counter, s.itemSeq);
        assert r.lists == Table.Upsert(s.lists, row, ListKey);
        KeysAtMostUpsert(s.lists, row, s.listSeq, counter, ListKey);
        Ok(r)
  }

  /** A row whose key is above every key goes to the end. */
  lemma {:induction false} AppendGreatest<T(!new)>(rows: seq<T>, row: T, key: T -> int)
    requires Table.Ascending(rows, key)
    requires forall i :: 0 <= i < |rows| ==> key(rows[i]) < key(row)
    ensures !Table.HasKey(rows, key(row), key)
    ensures Table.Upsert(rows, row, key) == rows + [row]
  {
    if |rows| > 0 {
      Table.UpsertPastHead(rows, row, key);
      assert forall i :: 0 <= i < |rows[1..]| ==> key(rows[1..][i]) < key(row) by {
        forall i | 0 <= i < |rows[1..]| ensures key(rows[1..][i]) < key(row) {
          assert rows[1..][i] == rows[i + 1];
        }
      }
      AppendGreatest(rows[1..], row, key);
      ConsSnoc(rows, row);
    }
  }

  /** Upserting a row whose key is at most the new counter keeps every key
      at most the new counter. */
  lemma KeysAtMostUpsert<T(!new)>(rows: seq<T>, row: T, old_bound: int, bound: int, key: T -> int)
    requires Table.Ascending(rows, key)
    requires Table.KeysAtMost(rows, old_bound, key)
    requires old_bound <= bound && key(row) <= bound
    ensures Table.KeysAtMost(Table.Upsert(rows, row, key), bound, key)
  {
    var r := Table.Upsert(rows, row, key);
    forall i | 0 <= i < |r| ensures key(r[i]) <= bound {
      assert r[i] in r;
      if r[i] != row {
        var m :| 0 <= m < |rows| && rows[m] == r[i];
      }
    }
  }

  /** `updateList` (`@Update`): the row with `list.id` takes `list`'s
      values; with no such row nothing changes. */
  function UpdateList(s: Store, list: UserList): (r: Store)
    requires Valid(s)
    ensures Valid(r)
    ensures r.items == s.items && r.listSeq == s.listSeq && r.itemSeq == s.itemSeq
    ensures |r.lists| == |s.lists|
    ensures HasList(s, list.id) ==> SelectList(r, list.id) == Some(list)
    ensures !HasList(s, list.id) ==> r == s
    ensures forall l :: l in r.lists <==> (l == list && HasList(s, list.id)) || (l in s.lists && l.id != list.id)
  {
    var lists := Table.Replace(s.lists, list, ListKey);
    Table.ReplaceContents(s.lists, list, ListKey);
    assert !HasList(s, list.id) ==> lists == s.lists;
    assert Table.KeysAtMost(lists, s.listSeq, ListKey);
    Store(lists, s.items, s.listSeq, s.itemSeq)
  }

  /** `selectList(key)`: the row with id `key`; Room hands back null when
      there is none. */
  function SelectList(s: Store, key: int): (r: Option<UserList>)
    ensures r.Some? <==> HasList(s, key)
    ensures r.Some? ==> r.value in s.lists && r.value.id == key
  {
    Table.Find(s.lists, key, ListKey)
  }

  /** `selectAllLists()` (`ORDER BY id`): every list row, ascending by id. */
  function SelectAllLists(s: Store): (r: seq<UserList>)
    requires Valid(s)
    ensures |r| == |s.lists|
    ensures forall l :: l in r <==> l in s.lists
    ensures forall i, j :: 0 <= i < j < |r| ==> r[i].id < r[j].id
  {
    s.lists
  }

  /** `selectNewList()` (`ORDER BY id DESC LIMIT 1`): the row with the
      largest id; null on an empty table. */
  function SelectNewList(s: Store): (r: Option<UserList>)
    requires Valid(s)
    ensures r.None? <==> |s.lists| == 0
    ensures r.Some? ==> r.value in s.lists
    ensures r.Some? ==> forall l :: l in s.lists ==> l.id <= r.value.id
  {
    if |s.lists| == 0 then None else Some(s.lists[|s.lists| - 1])
  }

  /** `deleteList` (`@Delete`): removes the row whose id is `list.id`,
      whatever its name; items are not touched (no cascade). */
  function DeleteList(s: Store, list: UserList): (r: Store)
    requires Valid(s)
    ensures Valid(r)
    ensures r.items == s.items && r.listSeq == s.listSeq && r.itemSeq == s.itemSeq
    ensures forall l :: l in r.lists <==> l in s.lists && l.id != list.id
    ensures !HasList(r, list.id)
    ensures |r.lists| == if HasList(s, list.id) then |s.lists| - 1 else |s.lists|
  {
    var lists := Table.Filter(s.lists, (l: UserList) => l.id != list.id);
    Table.FilterAscending(s.lists, (l: UserList) => l.id != list.id, ListKey);
    Table.FilterKeysAtMost(s.lists, (l: UserList) => l.id != list.id, s.listSeq, ListKey);
    var r := Store(lists, s.items, s.listSeq, s.itemSeq);
    assert !HasList(r, list.id) by {
      forall k | 0 <= k < |lists| ensures lists[k].id != list.id {
        assert lists[k] in lists;
      }
    }
    if HasList(s, list.id) then
      var i :| 0 <= i < |s.lists| && s.lists[i].id == list.id;
      RemoveOneKey(s.lists, i, lists);
      r
    else
      assert forall l :: l in s.lists ==> l.id != list.id;
      Table.SameRows(s.lists, lists, ListKey);
      r
  }

  /** Dropping exactly the row at `i` from an ascending table leaves one
      row fewer. */
  lemma RemoveOneKey(rows: seq<UserList>, i: int, r: seq<UserList>)
    requires Table.Ascending(rows, ListKey) && Table.Ascending(r, ListKey)
    requires 0 <= i < |rows|
    requires forall l :: l in r <==> l in rows && l.id != rows[i].id
    ensures |r| == |rows| - 1
  {
    var rest := rows[..i] + rows[i + 1..];
    Table.DropAt(rows, i, ListKey);
    Table.SameRows(rest, r, ListKey);
  }

  /** `deleteAllLists()` (`DELETE FROM list_table`): no list row remains;
      the counter keeps its value, so ids are not handed out again. */
  function DeleteAllLists(s: Store): (r: Store)
    requires Valid(s)
    ensures Valid(r)
    ensures |r.lists| == 0
    ensures r.items == s.items && r.listSeq == s.listSeq && r.itemSeq == s.itemSeq
  {
    Store([], s.items, s.listSeq, s.itemSeq)
  }

  /** `insertItem` (`@Insert`, conflict strategy ABORT): a row inserted
      with id 0 gets a fresh id and lands after every other row; an explicit
      id already in the table is a constraint failure. */
  function InsertItem(s: Store, item: Item): (r: Result<Store>)
    requires Valid(s)
    ensures r.Err? <==> (item.itemId == 0 && s.itemSeq == MAX_LONG) || (item.itemId != 0 && HasItem(s, item.itemId))
    ensures r.Err? && item.itemId != 0 ==> r.error == SqliteConstraint
    ensures r.Err? && item.itemId == 0 ==> r.error == SqliteFull
    ensures r.Ok? ==> Valid(r.value)
    ensures r.Ok? ==> r.value.lists == s.lists && r.value.listSeq == s.listSeq
    ensures r.Ok? ==> s.itemSeq <= r.value.itemSeq && |r.value.items| == |s.items| + 1
    ensures r.Ok? && item.itemId != 0 ==> forall x :: x in r.value.items <==> x == item || x in s.items
    ensures r.Ok? && item.itemId != 0 ==> r.value.itemSeq == if item.itemId > s.itemSeq then item.itemId else s.itemSeq
    ensures r.Ok? && item.itemId == 0 ==>
      && r.value.itemSeq == s.itemSeq + 1
      && r.value.items == s.items + [Item(r.value.itemSeq, item.listId, item.itemStr)]
  {
    if item.itemId != 0 && HasItem(s, item.itemId) then Err(SqliteConstraint)
    else match AssignId(s.itemSeq, item.itemId)
      case Err(e) => Err(e)
      case Ok(id) =>
        var row := Item(id, item.listId, item.itemStr);
        var items := Table.Upsert(s.items, row, ItemKey);
        var counter: Long := if id > s.itemSeq then id else s.itemSeq;
        if item.itemId == 0 then
          AppendGreatest(s.items, row, ItemKey);
          Ok(Store(s.lists, items, s.listSeq, counter))
        else
          KeysAtMostUpsert(s.items, row, s.itemSeq, counter, ItemKey);
          assert forall x :: x in items ==> x == row || x in s.items;
          Ok(Store(s.lists, items, s.listSeq, counter))
  }

  /** `updateItem` (`@Update`): the row with `item.itemId` takes `item`'s
      values (its list and its text); with no such row nothing changes. */
  function UpdateItem(s: Store, item: Item): (r: Store)
    requires Valid(s)
    ensures Valid(r)
    ensures r.lists == s.lists && r.listSeq == s.listSeq && r.itemSeq == s.itemSeq
    ensures |r.items| == |s.items|
    ensures !HasItem(s, item.itemId) ==> r == s
    ensures forall x :: x in r.items <==> (x == item && HasItem(s, item.itemId)) || (x in s.items && x.itemId != item.itemId)
  {
    var items := Table.Replace(s.items, item, ItemKey);
    Table.ReplaceContents(s.items, item, ItemKey);
    assert !HasItem(s, item.itemId) ==> items == s.items;
    assert Table.KeysAtMost(items, s.itemSeq, ItemKey);
    Store(s.lists, items, s.listSeq, s.itemSeq)
  }

  /** The item table with only the rows `keep` accepts, still a valid store. */
  function KeepItems(s: Store, keep: Item -> bool): (r: Store)
    requires Valid(s)
    ensures Valid(r)
    ensures r.lists == s.lists && r.listSeq == s.listSeq && r.itemSeq == s.itemSeq
    ensures forall x :: x in r.items <==> x in s.items && keep(x)
  {
    Table.FilterAscending(s.items, keep, ItemKey);
    Table.FilterKeysAtMost(s.items, keep, s.itemSeq, ItemKey);
    Store(s.lists, Table.Filter(s.items, keep), s.listSeq, s.itemSeq)
  }

  /** `deleteItem` (`@Delete`): removes the row whose id is `item.itemId`. */
  function DeleteItem(s: Store, item: Item): (r: Store)
    requires Valid(s)
    ensures Valid(r)
    ensures r.lists == s.lists && r.listSeq == s.listSeq && r.itemSeq == s.itemSeq
    ensures forall x :: x in r.items <==> x in s.items && x.itemId != item.itemId
    ensures !HasItem(r, item.itemId)
  {
    var r := KeepItems(s, (x: Item) => x.itemId != item.itemId);
    assert !HasItem(r, item.itemId) by {
      forall k | 0 <= k < |r.items| ensures r.items[k].itemId != item.itemId {
        assert r.items[k] in r.items;
      }
    }
    r
  }

  /** `deleteAllItems()` (`DELETE FROM item_table`). */
  function DeleteAllItems(s: Store): (r: Store)
    requires Valid(s)
    ensures Valid(r)
    ensures |r.items| == 0
    ensures r.lists == s.lists && r.listSeq == s.listSeq && r.itemSeq == s.itemSeq
  {
    Store(s.lists, [], s.listSeq, s.itemSeq)
  }

  /** `deleteItems(key)` (`DELETE FROM item_table WHERE list_id = :key`):
      exactly the items of list `key` go; every other item stays, in order. */
  function DeleteItems(s: Store, key: int): (r: Store)
    requires Valid(s)
    ensures Valid(r)
    ensures r.lists == s.lists && r.listSeq == s.listSeq && r.itemSeq == s.itemSeq
    ensures forall x :: x in r.items <==> x in s.items && x.listId != key
    ensures ItemsOf(r, key) == []
  {
    var r := KeepItems(s, (x: Item) => x.listId != key);
    Table.FilterNone(r.items, OfList(key));
    r
  }

  /** The items of list `key`, in id order: the `@Relation` side of
      `ListWithItems`. */
  function ItemsOf(s: Store, key: int): (r: seq<Item>)
    requires Valid(s)
    ensures Table.Ascending(r, ItemKey)
    ensures forall x :: x in r <==> x in s.items && x.listId == key
  {
    Table.FilterAscending(s.items, OfList(key), ItemKey);
    Table.Filter(s.items, OfList(key))
  }

  /** The `WHERE list_id = :key` condition. */
  function OfList(key: int): (keep: Item -> bool) {
    (x: Item) => x.listId == key
  }

  /** Appending an item to the table appends it to its list's items. */
  lemma ItemsOfSnoc(s: Store, s1: Store, x: Item, key: int)
    requires Valid(s) && Valid(s1)
    requires s1.items == s.items + [x]
    ensures ItemsOf(s1, key) == ItemsOf(s, key) + if x.listId == key then [x] else []
  {
    Table.FilterSnoc(s.items, x, OfList(key));
  }

  /** `getListWithItems(key)`: list `key` with its items, or no result when
      there is no such list. */
  function GetListWithItems(s: Store, key: int): (r: seq<ListWithItems>)
    requires Valid(s)
    ensures |r| <= 1
    ensures |r| == 1 <==> HasList(s, key)
    ensures |r| == 1 ==> r[0].list in s.lists && r[0].list.id == key
    ensures |r| == 1 ==> Table.Ascending(r[0].items, ItemKey)
    ensures |r| == 1 ==> forall x :: x in r[0].items <==> x in s.items && x.listId == key
  {
    match SelectList(s, key)
    case None => []
    case Some(l) => [ListWithItems(l, ItemsOf(s, key))]
  }

  /** The texts of some items, in order. */
  function Texts(items: seq<Item>): (texts: seq<string>) {
    if |items| == 0 then [] else [items[0].itemStr] + Texts(items[1..])
  }

  lemma {:induction false} TextsSnoc(items: seq<Item>, x: Item)
    ensures Texts(items + [x]) == Texts(items) + [x.itemStr]
  {
    if |items| > 0 {
      assert (items + [x])[1..] == items[1..] + [x];
      TextsSnoc(items[1..], x);
    }
  }

  /** One new item per text, each inserted with id 0 into list `key`, one
      after the other. */
  function InsertTexts(s: Store, key: Long, texts: seq<string>): (r: Result<Store>)
    requires Valid(s)
    ensures r.Ok? ==> Valid(r.value) && r.value.lists == s.lists
    decreases |texts|
  {
    if |texts| == 0 then Ok(s)
    else match InsertItem(s, Item(0, key, texts[0]))
      case Err(e) => Err(e)
      case Ok(s1) => InsertTexts(s1, key, texts[1..])
  }

  /** One text inserted into list `key` lands after that list's items. */
  lemma InsertOneText(s: Store, key: Long, t: string)
    requires Valid(s)
    requires InsertItem(s, Item(0, key, t)).Ok?
    ensures Texts(ItemsOf(InsertItem(s, Item(0, key, t)).value, key)) == Texts(ItemsOf(s, key)) + [t]
  {
    var s1 := InsertItem(s, Item(0, key, t)).value;
    var x := Item(s1.itemSeq, key, t);
    ItemsOfSnoc(s, s1, x, key);
    TextsSnoc(ItemsOf(s, key), x);
  }

  /** Items of a list come back in the order they were inserted: after
      inserting `texts` into list `key`, its items read back as the old ones
      followed by `texts`. */
  lemma {:induction false} InsertionOrder(s: Store, key: Long, texts: seq<string>)
    requires Valid(s)
    requires InsertTexts(s, key, texts).Ok?
    ensures Texts(ItemsOf(InsertTexts(s, key, texts).value, key)) == Texts(ItemsOf(s, key)) + texts
    decreases |texts|
  {
    if |texts| > 0 {
      var s1 := InsertItem(s, Item(0, key, texts[0])).value;
      var rest := InsertTexts(s1, key, texts[1..]);
      assert InsertTexts(s, key, texts) == rest;
      var before := Texts(ItemsOf(s, key));
      var mid := Texts(ItemsOf(s1, key));
      assert mid == before + [texts[0]] by {
        InsertOneText(s, key, texts[0]);
      }
      assert Texts(ItemsOf(rest.value, key)) == mid + texts[1..] by {
        InsertionOrder(s1, key, texts[1..]);
      }
      ConsSplit(before, texts);
    }
  }

  /** A list inserted with id 0 is the row `selectNewList` returns next, and
      its id is above every id the table held. */
  lemma NewListIsNewest(s: Store, name: string)
    requires Valid(s)
    requires InsertList(s, NewList(name)).Ok?
    ensures var t := InsertList(s, NewList(name)).value;
      && SelectNewList(t) == Some(UserList(t.listSeq, Some(name)))
      && forall l :: l in s.lists ==> l.id < t.listSeq
  {
    var t := InsertList(s, NewList(name)).value;
    assert t.lists[|t.lists| - 1] == UserList(t.listSeq, Some(name));
    forall l | l in s.lists ensures l.id < t.listSeq {
      var i :| 0 <= i < |s.lists| && s.lists[i] == l;
    }
  }

  /** Ids are never handed out twice: after every list is deleted, the next
      generated id is still above every id the table ever held. */
  lemma IdsNeverReused(s: Store, name: string)
    requires Valid(s)
    requires InsertList(DeleteAllLists(s), NewList(name)).Ok?
    ensures var t := InsertList(DeleteAllLists(s), NewList(name)).value;
      forall l :: l in s.lists ==> l.id < t.listSeq && !(l in t.lists)
  {
    var t := InsertList(DeleteAllLists(s), NewList(name)).value;
    forall l | l in s.lists ensures l.id < t.listSeq && !(l in t.lists) {
      var i :| 0 <= i < |s.lists| && s.lists[i] == l;
      assert t.lists == [UserList(t.listSeq, Some(name))];
    }
  }

  /** A list inserted under an explicit id above every id in the table
      goes after all the others. */
  lemma InsertAbove(s: Store, list: UserList)
    requires Valid(s) && list.id != 0
    requires forall l :: l in s.lists ==> l.id < list.id
    ensures InsertList(s, list).Ok?
    ensures InsertList(s, list).value.lists == s.lists + [list]
    ensures InsertList(s, list).value.items == s.items
  {
    forall i | 0 <= i < |s.lists| ensures ListKey(s.lists[i]) < ListKey(list) {
      assert s.lists[i] in s.lists;
    }
    AppendGreatest(s.lists, list, ListKey);
  }

  /** Two lists inserted with ascending explicit ids into a fresh
      database. */
  function TwoLists(a: UserList, b: UserList): (s: Store)
    requires 0 < a.id < b.id
    ensures Valid(s) && s.items == [] && s.lists == [a, b]
  {
    var s1 := InsertList(Fresh(), a).value;
    assert s1.lists == [a] && s1.items == [] by { InsertAbove(Fresh(), a); }
    InsertAbove(s1, b);
    InsertList(s1, b).value
  }

  /** The database the DAO's unit tests start from: three lists inserted
      with ascending explicit ids (1, 2 and 3 there) into a fresh database.
      They come back in id order. */
  function ThreeLists(a: UserList, b: UserList, c: UserList): (s: Store)
    requires 0 < a.id < b.id < c.id
    ensures Valid(s) && s.items == []
    ensures SelectAllLists(s) == [a, b, c]
  {
    var s2 := TwoLists(a, b);
    InsertAbove(s2, c);
    InsertList(s2, c).value
  }

  /** A list of the three is found by its id. */
  lemma ThreeListsFind(a: UserList, b: UserList, c: UserList)
    requires 0 < a.id < b.id < c.id
    ensures SelectList(ThreeLists(a, b, c), b.id) == Some(b)
  {
    var s := ThreeLists(a, b, c);
    assert HasList(s, b.id) by {
      assert ListKey(s.lists[1]) == b.id;
    }
  }

  /** Deleting one list keeps the other two in id order. */
  lemma ThreeListsDeleteOne(a: UserList, b: UserList, c: UserList)
    requires 0 < a.id < b.id < c.id
    ensures SelectAllLists(DeleteList(ThreeLists(a, b, c), b)) == [a, c]
  {
    var r := DeleteList(ThreeLists(a, b, c), b);
    Table.SameRows(r.lists, [a, c], ListKey);
  }

  /** Deleting a list's items leaves it with none; deleting the list then
      keeps the other two in id order. */
  lemma ThreeListsDeleteWithItems(a: UserList, b: UserList, c: UserList)
    requires 0 < a.id < b.id < c.id
    ensures var s := DeleteItems(ThreeLists(a, b, c), a.id);
      && GetListWithItems(s, a.id) == [ListWithItems(a, [])]
      && SelectAllLists(DeleteList(s, a)) == [b, c]
  {
    var s := DeleteItems(ThreeLists(a, b, c), a.id);
    assert s.lists == [a, b, c];
    assert SelectList(s, a.id) == Some(a) by {
      assert ListKey(s.lists[0]) == a.id;
    }
    assert ItemsOf(s, a.id) == [] by {
      Table.SameRows(ItemsOf(s, a.id), [], ItemKey);
    }
    var r := DeleteList(s, a);
    Table.SameRows(r.lists, [b, c], ListKey);
  }

  /** Deleting every list leaves none. */
  lemma ThreeListsDeleteAll(a: UserList, b: UserList, c: UserList)
    requires 0 < a.id < b.id < c.id
    ensures |SelectAllLists(DeleteAllLists(ThreeLists(a, b, c)))| == 0
  {
  }
}
