/** Folders: named, per-chat sets of users (`folders` and `folder_members`).
    A folder is keyed by (chat_id, name) and gets an AUTOINCREMENT id; a
    membership is a (folder_id, user_id) pair. */
module Folders {
  import opened Scopes
  import opened Text
  import opened Ordering

  /** (chat_id, name): the UNIQUE key of a folder. */
  type FolderKey = (int, string)

  /** `ids` maps every folder's key to its id, `members` holds the
      (folder_id, user_id) rows, and `nextId` is the next id AUTOINCREMENT
      hands out: one more than the largest id ever issued, starting at 1. */
  datatype FolderTable = FolderTable(ids: map<FolderKey, nat>, members: set<(nat, int)>, nextId: nat)

  const Empty: FolderTable := FolderTable(map[], {}, 1)

  /** What the schema guarantees: ids are positive, below the counter and
      distinct, and every membership references an existing folder. */
  predicate Valid(f: FolderTable) {
    && 1 <= f.nextId
    && (forall k :: k in f.ids ==> 1 <= f.ids[k] < f.nextId)
    && (forall k1, k2 :: k1 in f.ids && k2 in f.ids && f.ids[k1] == f.ids[k2] ==> k1 == k2)
    && (forall m :: m in f.members ==> m.0 in f.ids.Values)
  }

  /** `SELECT id FROM folders WHERE chat_id=? AND name=?` */
  function Lookup(f: FolderTable, chat: int, name: string): Option<nat> {
    if (chat, name) in f.ids then Some(f.ids[(chat, name)]) else None
  }

  /** The users of folder (chat, name); none when there is no such folder. */
  function MembersOf(f: FolderTable, chat: int, name: string): set<int> {
    if (chat, name) in f.ids then
      set m | m in f.members && m.0 == f.ids[(chat, name)] :: m.1
    else {}
  }

  /** The names of the folders a chat owns. */
  function Names(f: FolderTable, chat: int): set<string> {
    set k | k in f.ids && k.0 == chat :: k.1
  }

  lemma EmptyIsValid()
    ensures Valid(Empty)
  {
  }

  /** Giving a new key the next id keeps the table valid. */
  lemma InsertFresh(f: FolderTable, key: FolderKey)
    requires Valid(f) && key !in f.ids
    ensures Valid(FolderTable(f.ids[key := f.nextId], f.members, f.nextId + 1))
  {
    var r := FolderTable(f.ids[key := f.nextId], f.members, f.nextId + 1);
    assert forall k :: k in r.ids && k != key ==> k in f.ids && r.ids[k] == f.ids[k] < f.nextId;
    assert forall k :: k in r.ids ==> 1 <= r.ids[k] < r.nextId;
    forall k1, k2 | k1 in r.ids && k2 in r.ids && r.ids[k1] == r.ids[k2]
      ensures k1 == k2
    {
      assert (k1 == key) == (r.ids[k1] == f.nextId);
      assert (k2 == key) == (r.ids[k2] == f.nextId);
    }
    forall m | m in r.members
      ensures m.0 in r.ids.Values
    {
      var k :| k in f.ids && f.ids[k] == m.0;
      assert r.ids[k] == m.0;
    }
  }

  /** The same folders under the same ids and the same memberships; only
      the AUTOINCREMENT counter may differ. */
  predicate SameRows(f: FolderTable, r: FolderTable) {
    r.ids == f.ids && r.members == f.members
  }

  lemma SameRowsMembers(f: FolderTable, r: FolderTable)
    requires SameRows(f, r)
    ensures forall chat, name :: MembersOf(r, chat, name) == MembersOf(f, chat, name)
  {
  }

  /** `INSERT OR IGNORE INTO folders(chat_id, name)`: the folder exists
      afterwards; a new one takes the next AUTOINCREMENT id; an existing one
      is reused and no row changes. SQLite draws the new rowid, and so
      advances the sequence, before the UNIQUE conflict makes it ignore the
      row, so the counter moves on in both cases. */
  function Insert(f: FolderTable, chat: int, name: string): (r: FolderTable)
    ensures (chat, name) in r.ids
    ensures r.members == f.members
    ensures forall k :: k != (chat, name) ==> (k in r.ids <==> k in f.ids)
    ensures forall k :: k in f.ids ==> k in r.ids && r.ids[k] == f.ids[k]
    ensures (chat, name) in f.ids ==> SameRows(f, r)
    ensures (chat, name) !in f.ids ==> r.ids[(chat, name)] == f.nextId
    ensures r.nextId == f.nextId + 1
    ensures Valid(f) ==> Valid(r)
  {
    if (chat, name) in f.ids then f.(nextId := f.nextId + 1)
    else
      var r := FolderTable(f.ids[(chat, name) := f.nextId], f.members, f.nextId + 1);
      assert Valid(f) ==> Valid(r) by {
        if Valid(f) {
          InsertFresh(f, (chat, name));
        }
      }
      r
  }

  /** `create_folder`: the name is stored stripped of surrounding white
      space; at most one folder exists per (chat, name). */
  function Create(f: FolderTable, chat: int, name: string): (r: FolderTable)
    ensures (chat, Strip(name)) in r.ids
    ensures r.members == f.members
    ensures forall k :: k != (chat, Strip(name)) ==> (k in r.ids <==> k in f.ids)
    ensures forall k :: k in f.ids ==> k in r.ids && r.ids[k] == f.ids[k]
    ensures (chat, Strip(name)) in f.ids ==> SameRows(f, r)
    ensures (chat, Strip(name)) !in f.ids ==> r.ids[(chat, Strip(name))] == f.nextId
    ensures r.nextId == f.nextId + 1
    ensures Valid(f) ==> Valid(r)
  {
    Insert(f, chat, Strip(name))
  }

  /** A second `create_folder` with the same arguments creates nothing, and
      neither does one whose name differs only in surrounding white space. */
  lemma CreateIdempotent(f: FolderTable, chat: int, name: string, name': string)
    requires Strip(name') == Strip(name)
    ensures var once := Create(f, chat, name);
      SameRows(once, Create(once, chat, name'))
  {
  }

  lemma NamesHaveFolders(f: FolderTable, chat: int)
    ensures forall n :: n in Names(f, chat) <==> (chat, n) in f.ids
  {
    forall n | (chat, n) in f.ids
      ensures n in Names(f, chat)
    {
      var k := (chat, n);
      assert k in f.ids && k.0 == chat;
    }
  }

  /** Each name paired with the id of that folder of the chat. */
  function WithIds(ids: map<FolderKey, nat>, chat: int, names: seq<string>): (r: seq<(nat, string)>)
    requires forall i :: 0 <= i < |names| ==> (chat, names[i]) in ids
    ensures |r| == |names|
    ensures forall i :: 0 <= i < |r| ==> r[i] == (ids[(chat, names[i])], names[i])
  {
    seq(|names|, i requires 0 <= i < |names| => (ids[(chat, names[i])], names[i]))
  }

  /** Pairing ascending names of a chat's folders with their ids lists
      exactly those folders, in the same order. */
  lemma WithIdsLists(f: FolderTable, chat: int, names: seq<string>)
    requires forall n :: n in names <==> (chat, n) in f.ids
    requires NamesIncreasing(names)
    ensures forall i :: 0 <= i < |names| ==> (chat, names[i]) in f.ids
    ensures var r := WithIds(f.ids, chat, names);
      && (forall p :: p in r ==> (chat, p.1) in f.ids && f.ids[(chat, p.1)] == p.0)
      && (forall n :: (chat, n) in f.ids ==> (f.ids[(chat, n)], n) in r)
      && (forall i, j :: 0 <= i < j < |r| ==> LexLess(r[i].1, r[j].1))
  {
    assert forall i :: 0 <= i < |names| ==> names[i] in names;
    var r := WithIds(f.ids, chat, names);
    forall n | (chat, n) in f.ids
      ensures (f.ids[(chat, n)], n) in r
    {
      var i :| 0 <= i < |names| && names[i] == n;
      assert r[i] == (f.ids[(chat, n)], n);
    }
  }

  /** `list_folders`: the (id, name) of every folder of the chat, ascending by
      name. */
  function List(f: FolderTable, chat: int): (r: seq<(nat, string)>)
    ensures forall p :: p in r ==> (chat, p.1) in f.ids && f.ids[(chat, p.1)] == p.0
    ensures forall n :: (chat, n) in f.ids ==> (f.ids[(chat, n)], n) in r
    ensures forall i, j :: 0 <= i < j < |r| ==> LexLess(r[i].1, r[j].1)
  {
    var names := SortedNames(Names(f, chat));
    NamesHaveFolders(f, chat);
    WithIdsLists(f, chat, names);
    WithIds(f.ids, chat, names)
  }

  /** `folder_add_user`: false and no change when the chat has no folder of
      that exact name; otherwise true, with the membership present and every
      other membership and every folder as before. */
  function AddUser(f: FolderTable, chat: int, name: string, user: int): (res: (bool, FolderTable))
    ensures res.0 <==> (chat, name) in f.ids
    ensures !res.0 ==> res.1 == f
    ensures res.0 ==> (f.ids[(chat, name)], user) in res.1.members
    ensures res.0 ==> res.1.members - {(f.ids[(chat, name)], user)} == f.members - {(f.ids[(chat, name)], user)}
    ensures res.1.ids == f.ids && res.1.nextId == f.nextId
    ensures Valid(f) ==> Valid(res.1)
  {
    match Lookup(f, chat, name)
    case None => (false, f)
    case Some(id) => (true, f.(members := f.members + {(id, user)}))
  }

  /** `folder_remove_user`: false and no change when the chat has no folder
      of that exact name; otherwise true, with the membership absent and
      every other membership and every folder as before. */
  function RemoveUser(f: FolderTable, chat: int, name: string, user: int): (res: (bool, FolderTable))
    ensures res.0 <==> (chat, name) in f.ids
    ensures !res.0 ==> res.1 == f
    ensures res.0 ==> (f.ids[(chat, name)], user) !in res.1.members
    ensures res.0 ==> res.1.members + {(f.ids[(chat, name)], user)} == f.members + {(f.ids[(chat, name)], user)}
    ensures res.1.ids == f.ids && res.1.nextId == f.nextId
    ensures Valid(f) ==> Valid(res.1)
  {
    match Lookup(f, chat, name)
    case None => (false, f)
    case Some(id) => (true, f.(members := f.members - {(id, user)}))
  }

  /** Adding a user twice is adding once. */
  lemma AddUserIdempotent(f: FolderTable, chat: int, name: string, user: int)
    ensures AddUser(AddUser(f, chat, name, user).1, chat, name, user) == AddUser(f, chat, name, user)
  {
  }

  /** In a valid table, adding or removing a member of one folder leaves the
      members of every other folder as they were. */
  lemma MembershipChangeIsLocal(f: FolderTable, chat: int, name: string, user: int, chat': int, name': string)
    requires Valid(f)
    requires (chat', name') != (chat, name)
    ensures MembersOf(AddUser(f, chat, name, user).1, chat', name') == MembersOf(f, chat', name')
    ensures MembersOf(RemoveUser(f, chat, name, user).1, chat', name') == MembersOf(f, chat', name')
  {
  }

  /** `list_folder_members`: the users of folder (chat, name), ascending; an
      empty list when there is no such folder. */
  function ListMembers(f: FolderTable, chat: int, name: string): (r: seq<int>)
    ensures Increasing(r)
    ensures forall u :: u in r <==> (chat, name) in f.ids && (f.ids[(chat, name)], u) in f.members
  {
    SortedInts(MembersOf(f, chat, name))
  }

  /** `r` keeps every folder of `f` under the same id and every membership. */
  predicate Extends(f: FolderTable, r: FolderTable) {
    && (forall k :: k in f.ids ==> k in r.ids && r.ids[k] == f.ids[k])
    && f.members <= r.members
  }

  lemma ExtendsMembers(f: FolderTable, r: FolderTable, chat: int, name: string)
    requires Extends(f, r)
    ensures MembersOf(f, chat, name) <= MembersOf(r, chat, name)
  {
  }

  /** INSERT OR IGNORE of the given users into folder `id`. */
  function WithMembers(f: FolderTable, id: nat, users: set<int>): (r: FolderTable)
    ensures r.ids == f.ids && r.nextId == f.nextId
    ensures f.members <= r.members
    ensures forall u :: u in users ==> (id, u) in r.members
    ensures forall m :: m in r.members ==> m in f.members || (m.0 == id && m.1 in users)
  {
    f.(members := f.members + set u | u in users :: (id, u))
  }

  lemma WithMembersValid(f: FolderTable, id: nat, users: set<int>)
    requires Valid(f) && id in f.ids.Values
    ensures Valid(WithMembers(f, id, users))
  {
  }

  /** Folders with another id keep their members. */
  lemma WithMembersOthers(f: FolderTable, id: nat, users: set<int>, k: FolderKey)
    requires k in f.ids && f.ids[k] != id
    ensures MembersOf(WithMembers(f, id, users), k.0, k.1) == MembersOf(f, k.0, k.1)
  {
    var r := WithMembers(f, id, users);
    forall u
      ensures u in MembersOf(r, k.0, k.1) <==> u in MembersOf(f, k.0, k.1)
    {
      assert u in MembersOf(r, k.0, k.1) <==> (f.ids[k], u) in r.members;
      assert u in MembersOf(f, k.0, k.1) <==> (f.ids[k], u) in f.members;
    }
  }

  /** Adding users a folder already holds changes nothing. */
  lemma WithMembersPresent(f: FolderTable, chat: int, name: string, users: set<int>)
    requires (chat, name) in f.ids && users <= MembersOf(f, chat, name)
    ensures WithMembers(f, f.ids[(chat, name)], users) == f
  {
    var id := f.ids[(chat, name)];
    forall u | u in users
      ensures (id, u) in f.members
    {
      assert u in MembersOf(f, chat, name);
    }
    assert WithMembers(f, id, users).members == f.members;
  }

  /** One pass of the clone's folder loop for folder `name` of `src`:
      INSERT OR IGNORE folder (dst, name), read the members of (src, name),
      look the destination folder up again (it always exists at that point)
      and INSERT OR IGNORE each member into it. */
  function CloneOne(f: FolderTable, src: int, dst: int, name: string): (r: FolderTable)
    ensures (dst, name) in r.ids
    ensures Extends(f, r)
    ensures forall k :: k in r.ids ==> k in f.ids || k == (dst, name)
    ensures Valid(f) ==> Valid(r)
    ensures MembersOf(f, src, name) <= MembersOf(r, dst, name)
    ensures Valid(f) ==> forall k :: k in f.ids && k != (dst, name) ==> MembersOf(r, k.0, k.1) == MembersOf(f, k.0, k.1)
    ensures (dst, name) in f.ids && MembersOf(f, src, name) <= MembersOf(f, dst, name) ==> SameRows(f, r)
    ensures r.nextId == f.nextId + 1
  {
    var f1 := Insert(f, dst, name);
    var users := MembersOf(f1, src, name);
    var id := f1.ids[(dst, name)];
    var r := WithMembers(f1, id, users);
    ExtendsMembers(f, f1, src, name);
    assert users <= MembersOf(r, dst, name);
    assert Valid(f) ==> Valid(r) by {
      if Valid(f) {
        WithMembersValid(f1, id, users);
      }
    }
    assert Valid(f) ==> forall k :: k in f.ids && k != (dst, name) ==> MembersOf(r, k.0, k.1) == MembersOf(f, k.0, k.1) by {
      if Valid(f) {
        forall k | k in f.ids && k != (dst, name)
          ensures MembersOf(r, k.0, k.1) == MembersOf(f, k.0, k.1)
        {
          WithMembersOthers(f1, id, users, k);
        }
      }
    }
    assert (dst, name) in f.ids && MembersOf(f, src, name) <= MembersOf(f, dst, name) ==> SameRows(f, r) by {
      if (dst, name) in f.ids && MembersOf(f, src, name) <= MembersOf(f, dst, name) {
        SameRowsMembers(f, f1);
        WithMembersPresent(f1, dst, name, users);
      }
    }
    r
  }

  /** On a valid table an insert changes no folder's members: a new folder
      takes an id no membership references yet. */
  lemma InsertMembers(f: FolderTable, chat: int, name: string)
    requires Valid(f)
    ensures forall c, n :: MembersOf(Insert(f, chat, name), c, n) == MembersOf(f, c, n)
  {
    var f1 := Insert(f, chat, name);
    forall c, n
      ensures MembersOf(f1, c, n) == MembersOf(f, c, n)
    {
      assert forall v :: v in f.ids.Values ==> v < f.nextId;
      assert forall u :: (f.nextId, u) !in f.members;
    }
  }

  /** The folder with id `id` gains exactly the given users. */
  lemma WithMembersAt(f: FolderTable, id: nat, users: set<int>, k: FolderKey)
    requires k in f.ids && f.ids[k] == id
    ensures MembersOf(WithMembers(f, id, users), k.0, k.1) == MembersOf(f, k.0, k.1) + users
  {
    var r := WithMembers(f, id, users);
    forall u
      ensures u in MembersOf(r, k.0, k.1) <==> u in MembersOf(f, k.0, k.1) + users
    {
      assert u in MembersOf(r, k.0, k.1) <==> (id, u) in r.members;
      assert u in MembersOf(f, k.0, k.1) <==> (id, u) in f.members;
    }
  }

  /** On a valid table, one pass leaves the destination folder with exactly
      its own earlier members and those of the source folder. */
  lemma CloneOneExact(f: FolderTable, src: int, dst: int, name: string)
    requires Valid(f)
    ensures MembersOf(CloneOne(f, src, dst, name), dst, name) == MembersOf(f, dst, name) + MembersOf(f, src, name)
  {
    var f1 := Insert(f, dst, name);
    var users := MembersOf(f1, src, name);
    var id := f1.ids[(dst, name)];
    assert CloneOne(f, src, dst, name) == WithMembers(f1, id, users);
    InsertMembers(f, dst, name);
    WithMembersAt(f1, id, users, (dst, name));
  }

  /** The clone's whole folder loop over `names`, in that order. */
  function CloneAll(f: FolderTable, src: int, dst: int, names: seq<string>): (r: FolderTable)
    ensures forall n :: n in names ==> (dst, n) in r.ids
    ensures Extends(f, r)
    ensures forall k :: k in r.ids ==> k in f.ids || (k.0 == dst && k.1 in names)
    ensures Valid(f) ==> Valid(r)
    ensures Valid(f) ==> forall k :: k in f.ids && k.0 != dst ==> MembersOf(r, k.0, k.1) == MembersOf(f, k.0, k.1)
    ensures r.nextId == f.nextId + |names|
    decreases |names|
  {
    if names == [] then f
    else
      var f1 := CloneOne(f, src, dst, names[0]);
      var r := CloneAll(f1, src, dst, names[1..]);
      assert forall n :: n in names ==> n == names[0] || n in names[1..];
      r
  }

  /** After the loop, each listed destination folder holds every member the
      source folder of that name had before. */
  lemma {:induction false} CloneAllCovers(f: FolderTable, src: int, dst: int, names: seq<string>)
    ensures forall n :: n in names ==> MembersOf(f, src, n) <= MembersOf(CloneAll(f, src, dst, names), dst, n)
    decreases |names|
  {
    if names != [] {
      var f1 := CloneOne(f, src, dst, names[0]);
      var r := CloneAll(f1, src, dst, names[1..]);
      CloneAllCovers(f1, src, dst, names[1..]);
      ExtendsMembers(f1, r, dst, names[0]);
      forall n | n in names[1..]
        ensures MembersOf(f, src, n) <= MembersOf(r, dst, n)
      {
        ExtendsMembers(f, f1, src, n);
      }
      assert forall n :: n in names ==> n == names[0] || n in names[1..];
    }
  }

  /** The loop changes nothing once every listed destination folder exists
      and already holds its source folder's members. */
  lemma {:induction false} CloneAllNoOp(f: FolderTable, src: int, dst: int, names: seq<string>)
    requires forall n :: n in names ==> (dst, n) in f.ids && MembersOf(f, src, n) <= MembersOf(f, dst, n)
    ensures SameRows(f, CloneAll(f, src, dst, names))
    decreases |names|
  {
    if names != [] {
      assert names[0] in names;
      var f1 := CloneOne(f, src, dst, names[0]);
      assert SameRows(f, f1);
      SameRowsMembers(f, f1);
      assert forall n :: n in names[1..] ==> n in names;
      CloneAllNoOp(f1, src, dst, names[1..]);
    }
  }

  /** Running the folder loop a second time changes nothing, also when
      `src == dst`. */
  lemma CloneAllIdempotent(f: FolderTable, src: int, dst: int, names: seq<string>)
    requires Valid(f)
    ensures var once := CloneAll(f, src, dst, names);
      SameRows(once, CloneAll(once, src, dst, names))
  {
    var r := CloneAll(f, src, dst, names);
    CloneAllCovers(f, src, dst, names);
    forall n | n in names
      ensures MembersOf(r, src, n) <= MembersOf(r, dst, n)
    {
      if src != dst {
        if (src, n) in f.ids {
          assert MembersOf(r, src, n) == MembersOf(f, src, n);
        } else {
          assert (src, n) !in r.ids;
        }
      }
    }
    CloneAllNoOp(r, src, dst, names);
  }
}
