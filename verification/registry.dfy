/** Operators (`admins`) and known chats (`groups`). */
module Registry {
  import opened Scopes
  import opened Ordering

  /** `add_admin`: INSERT OR IGNORE of the user id. */
  function AddAdmin(admins: set<int>, user: int): (r: set<int>)
    ensures user in r
    ensures forall a :: a != user ==> (a in r <==> a in admins)
    ensures user in admins ==> r == admins
  {
    admins + {user}
  }

  /** `is_admin`: some row carries the user id. */
  function IsAdmin(admins: set<int>, user: int): (b: bool)
    ensures b <==> user in admins
  {
    exists a :: a in admins && a == user
  }

  /** After `add_admin(u)`, exactly `u` and the earlier operators pass
      `is_admin`. */
  lemma IsAdminAfterAdd(admins: set<int>, user: int, other: int)
    ensures IsAdmin(AddAdmin(admins, user), other) <==> other == user || IsAdmin(admins, other)
  {
  }

  /** `list_admins`: every operator once, ascending by user id. */
  function ListAdmins(admins: set<int>): (r: seq<int>)
    ensures Increasing(r)
    ensures forall u :: u in r <==> u in admins
    ensures |r| == |admins|
  {
    SortedInts(admins)
  }

  /** A row of `groups`: the chat's title (nullable) and its type. */
  datatype Group = Group(title: Option<string>, kind: string)

  /** The type `upsert_group` stores when the caller gives none. */
  const DefaultKind: string := "group"

  /** `upsert_group`: insert the chat, or overwrite the title and type of the
      existing row; other chats are untouched. A call without a type stores
      `DefaultKind`. */
  function UpsertGroup(groups: map<int, Group>, chat: int, title: Option<string>, kind: string := DefaultKind): (r: map<int, Group>)
    ensures chat in r && r[chat].title == title && r[chat].kind == kind
    ensures forall c :: c != chat ==> (c in r <==> c in groups)
    ensures forall c :: c != chat && c in groups ==> r[c] == groups[c]
  {
    groups[chat := Group(title, kind)]
  }

  /** The last upsert of a chat wins, and a repeated upsert changes nothing. */
  lemma UpsertLastWriteWins(groups: map<int, Group>, chat: int, t1: Option<string>, k1: string, t2: Option<string>, k2: string)
    ensures UpsertGroup(UpsertGroup(groups, chat, t1, k1), chat, t2, k2) == UpsertGroup(groups, chat, t2, k2)
    ensures UpsertGroup(UpsertGroup(groups, chat, t2, k2), chat, t2, k2) == UpsertGroup(groups, chat, t2, k2)
  {
  }

  /** Without a type the chat is stored as a plain group. */
  lemma UpsertDefaultKind(groups: map<int, Group>, chat: int, title: Option<string>)
    ensures UpsertGroup(groups, chat, title)[chat] == Group(title, "group")
  {
  }
}
