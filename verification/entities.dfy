/**
  The two Room entities and the one-to-many relation between them.
  Datatype equality is structural over every field, like Kotlin's data-class
  `equals`.
 */
module Entities {
  import opened Lang

  /** A row of `list_table`. `id` 0 means "let the database choose"; the
      name is nullable. */
  datatype UserList = UserList(id: Long, listName: Option<string>)

  /** A row of `item_table`; `listId` refers to a `UserList.id`, but no
      foreign key enforces it. */
  datatype Item = Item(itemId: Long, listId: Long, itemStr: string)

  /** A list with its items: the result type of the relation query. */
  datatype ListWithItems = ListWithItems(list: UserList, items: seq<Item>)

  /** A new, not yet stored list: the database assigns its id. */
  function NewList(name: string): (l: UserList)
    ensures l.id == 0 && l.listName == Some(name)
  {
    UserList(0, Some(name))
  }

  /** Primary key of `list_table`. */
  function ListKey(l: UserList): (k: int) { l.id }

  /** Primary key of `item_table`. */
  function ItemKey(i: Item): (k: int) { i.itemId }
}
