/** The whole store (`Database` in app/db.py) as one immutable state. Every
    public method is one atomic transition or query on it; each transition
    touches only its own table. */
module Store {
  import opened Scopes
  import Rules
  import Folders
  import Links
  import Registry
  import Text

  /** Which of the two scoped lists an operation addresses. */
  datatype ListKind = Safe | Ban

  datatype State = State(
    admins: set<int>,
    groups: map<int, Registry.Group>,
    safe: Rules.Table,
    bans: Rules.Table,
    folders: Folders.FolderTable,
    links: Links.LinkTable)

  /** The freshly created database: every table empty, both AUTOINCREMENT
      counters at 1. */
  const Init: State := State({}, map[], {}, {}, Folders.Empty, Links.Empty)

  /** What the schema keeps true of the tables with generated ids. */
  predicate Valid(st: State) {
    Folders.Valid(st.folders) && Links.Valid(st.links)
  }

  lemma InitIsValid()
    ensures Valid(Init)
  {
    Folders.EmptyIsValid();
    Links.EmptyIsValid();
  }

  function Table(st: State, kind: ListKind): Rules.Table {
    match kind
    case Safe => st.safe
    case Ban => st.bans
  }

  function WithTable(st: State, kind: ListKind, t: Rules.Table): State {
    match kind
    case Safe => st.(safe := t)
    case Ban => st.(bans := t)
  }

  /** `add_safe` / `add_ban`: the entry is present afterwards, no other entry
      of either list changes, no other table changes, and a second identical
      call changes nothing. */
  function AddEntry(st: State, kind: ListKind, user: int, scope: Scope): (r: State)
    ensures (user, scope) in Table(r, kind)
    ensures forall e :: e != (user, scope) ==> (e in Table(r, kind) <==> e in Table(st, kind))
    ensures WithTable(r, kind, Table(st, kind)) == st
    ensures (user, scope) in Table(st, kind) ==> r == st
    ensures Valid(st) ==> Valid(r)
  {
    WithTable(st, kind, Rules.Add(Table(st, kind), user, scope))
  }

  /** `remove_safe` / `remove_ban`: exactly the entry with this user and this
      scope is gone (removing a chat entry keeps the Global one and the other
      way round); removing an absent entry changes nothing. */
  function RemoveEntry(st: State, kind: ListKind, user: int, scope: Scope): (r: State)
    ensures (user, scope) !in Table(r, kind)
    ensures forall e :: e != (user, scope) ==> (e in Table(r, kind) <==> e in Table(st, kind))
    ensures WithTable(r, kind, Table(st, kind)) == st
    ensures (user, scope) !in Table(st, kind) ==> r == st
    ensures Valid(st) ==> Valid(r)
  {
    WithTable(st, kind, Rules.Remove(Table(st, kind), user, scope))
  }

  /** `list_bans`: (user_id, chat_id) rows of exactly this scope, ascending
      by user id. */
  function ListBans(st: State, scope: Scope): (r: seq<(int, Scope)>)
    ensures |r| == |Rules.List(st.bans, scope)|
    ensures forall i :: 0 <= i < |r| ==> r[i].1 == scope && (r[i].0, scope) in st.bans
    ensures forall i, j :: 0 <= i < j < |r| ==> r[i].0 < r[j].0
    ensures forall u :: (u, scope) in st.bans ==> (u, scope) in r
  {
    var users := Rules.List(st.bans, scope);
    var r := seq(|users|, i requires 0 <= i < |users| => (users[i], scope));
    assert forall u :: (u, scope) in st.bans ==> (u, scope) in r by {
      forall u | (u, scope) in st.bans
        ensures (u, scope) in r
      {
        var k :| 0 <= k < |users| && users[k] == u;
        assert r[k] == (u, scope);
      }
    }
    r
  }

  /** `create_folder`: the folder with the stripped name exists afterwards,
      no memberships change, and only the folder table can change; an
      existing folder keeps every row, though the ignored insert still moves
      the AUTOINCREMENT counter on. */
  function CreateFolder(st: State, chat: int, name: string): (r: State)
    ensures r.(folders := st.folders) == st
    ensures (chat, Text.Strip(name)) in r.folders.ids
    ensures r.folders.members == st.folders.members
    ensures forall k :: k != (chat, Text.Strip(name)) ==> (k in r.folders.ids <==> k in st.folders.ids)
    ensures forall k :: k in st.folders.ids ==> k in r.folders.ids && r.folders.ids[k] == st.folders.ids[k]
    ensures (chat, Text.Strip(name)) in st.folders.ids ==> Folders.SameRows(st.folders, r.folders)
    ensures (chat, Text.Strip(name)) !in st.folders.ids ==> r.folders.ids[(chat, Text.Strip(name))] == st.folders.nextId
    ensures r.folders.nextId == st.folders.nextId + 1
    ensures Valid(st) ==> Valid(r)
  {
    st.(folders := Folders.Create(st.folders, chat, name))
  }

  /** `folder_add_user`: returns whether the folder exists; only the
      memberships can change. */
  function FolderAddUser(st: State, chat: int, name: string, user: int): (res: (bool, State))
    ensures res.1.(folders := st.folders) == st
    ensures res.0 <==> (chat, name) in st.folders.ids
    ensures !res.0 ==> res.1 == st
    ensures res.0 ==> (st.folders.ids[(chat, name)], user) in res.1.folders.members
    ensures res.0 ==> res.1.folders.members - {(st.folders.ids[(chat, name)], user)} == st.folders.members - {(st.folders.ids[(chat, name)], user)}
    ensures res.1.folders.ids == st.folders.ids && res.1.folders.nextId == st.folders.nextId
    ensures Valid(st) ==> Valid(res.1)
  {
    var (ok, f) := Folders.AddUser(st.folders, chat, name, user);
    (ok, st.(folders := f))
  }

  /** `folder_remove_user`: returns whether the folder exists; only the
      memberships can change. */
  function FolderRemoveUser(st: State, chat: int, name: string, user: int): (res: (bool, State))
    ensures res.1.(folders := st.folders) == st
    ensures res.0 <==> (chat, name) in st.folders.ids
    ensures !res.0 ==> res.1 == st
    ensures res.0 ==> (st.folders.ids[(chat, name)], user) !in res.1.folders.members
    ensures res.0 ==> res.1.folders.members + {(st.folders.ids[(chat, name)], user)} == st.folders.members + {(st.folders.ids[(chat, name)], user)}
    ensures res.1.folders.ids == st.folders.ids && res.1.folders.nextId == st.folders.nextId
    ensures Valid(st) ==> Valid(res.1)
  {
    var (ok, f) := Folders.RemoveUser(st.folders, chat, name, user);
    (ok, st.(folders := f))
  }

  /** `add_link`: one row is appended to the link log of the chat, with the
      stripped name and url and the counter's id; nothing else changes. */
  function AddLink(st: State, chat: int, name: string, url: string): (r: State)
    ensures r.(links := st.links) == st
    ensures |r.links.rows| == |st.links.rows| + 1 && r.links.rows[..|st.links.rows|] == st.links.rows
    ensures r.links.rows[|st.links.rows|].chat == chat
    ensures r.links.rows[|st.links.rows|].name == Text.Strip(name) && r.links.rows[|st.links.rows|].url == Text.Strip(url)
    ensures r.links.rows[|st.links.rows|].id == st.links.nextId && r.links.nextId == st.links.nextId + 1
    ensures Valid(st) ==> Valid(r)
  {
    st.(links := Links.Add(st.links, chat, name, url))
  }

  /** `delete_link`: the link with that id is gone, whatever chat it
      belongs to; the counter is kept and nothing else changes. */
  function DeleteLink(st: State, id: int): (r: State)
    ensures r.(links := st.links) == st
    ensures forall l :: l in r.links.rows <==> l in st.links.rows && l.id != id
    ensures r.links.nextId == st.links.nextId
    ensures (forall l :: l in st.links.rows ==> l.id != id) ==> r == st
    ensures Valid(st) ==> Valid(r)
  {
    st.(links := Links.Delete(st.links, id))
  }

  /** `add_admin`: the user is an operator afterwards; nothing else
      changes. */
  function AddAdmin(st: State, user: int): (r: State)
    ensures r.(admins := st.admins) == st
    ensures user in r.admins && r.admins - {user} == st.admins - {user}
    ensures user in st.admins ==> r == st
    ensures Valid(st) ==> Valid(r)
  {
    st.(admins := Registry.AddAdmin(st.admins, user))
  }

  /** `upsert_group`: the chat's row holds the given title and type; nothing
      else changes. */
  function UpsertGroup(st: State, chat: int, title: Option<string>, kind: string := Registry.DefaultKind): (r: State)
    ensures r.(groups := st.groups) == st
    ensures chat in r.groups && r.groups[chat] == Registry.Group(title, kind)
    ensures forall c :: c != chat ==> (c in r.groups <==> c in st.groups)
    ensures forall c :: c != chat && c in st.groups ==> c in r.groups && r.groups[c] == st.groups[c]
    ensures Valid(st) ==> Valid(r)
  {
    st.(groups := Registry.UpsertGroup(st.groups, chat, title, kind))
  }
}
