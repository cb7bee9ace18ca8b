/** The safe list (`safe_users`) and the ban list (`bans`). Both tables have
    the same shape and the store runs the same statements against them, so
    one set of entries models either list. */
module Rules {
  import opened Scopes
  import opened Ordering

  /** One row: (user_id, scope). */
  type Entry = (int, Scope)

  /** A whole list, with one row per (user_id, scope) key. */
  type Table = set<Entry>

  /** `add_safe` / `add_ban`: INSERT OR IGNORE, so the entry is present
      afterwards, nothing else changes, and adding it again changes nothing. */
  function Add(t: Table, user: int, scope: Scope): (r: Table)
    ensures (user, scope) in r
    ensures forall e :: e != (user, scope) ==> (e in r <==> e in t)
    ensures (user, scope) in t ==> r == t
  {
    t + {(user, scope)}
  }

  /** `remove_safe` / `remove_ban`: delete the row whose scope matches
      exactly; removing an absent entry changes nothing. */
  function Remove(t: Table, user: int, scope: Scope): (r: Table)
    ensures (user, scope) !in r
    ensures forall e :: e != (user, scope) ==> (e in r <==> e in t)
    ensures (user, scope) !in t ==> r == t
  {
    t - {(user, scope)}
  }

  /** The users whose entry has exactly this scope. */
  function Users(t: Table, scope: Scope): set<int> {
    set e | e in t && e.1 == scope :: e.0
  }

  /** `list_safe` / the user column of `list_bans`: the users with an entry
      of exactly this scope (a chat query does not merge in Global entries),
      ascending by user_id. */
  function List(t: Table, scope: Scope): (r: seq<int>)
    ensures Increasing(r)
    ensures forall u :: u in r <==> (u, scope) in t
  {
    SortedInts(Users(t, scope))
  }

  /** `is_safe` / `is_banned`: some row for the user has the asked scope or
      the Global scope. */
  function Covers(t: Table, user: int, scope: Scope): (b: bool)
    ensures b <==> (user, scope) in t || (user, Global) in t
  {
    exists e :: e in t && e.0 == user && (e.1 == scope || e.1 == Global)
  }

  /** The listing is the only ascending sequence of those users, so two
      states with the same entries of a scope list it identically. */
  lemma ListIsCanonical(t: Table, scope: Scope, r: seq<int>)
    requires Increasing(r)
    requires forall u :: u in r <==> (u, scope) in t
    ensures r == List(t, scope)
  {
    IncreasingUnique(r, List(t, scope));
  }

  /** Adding or removing an entry of one scope leaves the listing of every
      other scope as it was. */
  lemma ListOtherScopeUnchanged(t: Table, user: int, scope: Scope, other: Scope)
    requires other != scope
    ensures List(Add(t, user, scope), other) == List(t, other)
    ensures List(Remove(t, user, scope), other) == List(t, other)
  {
    ListIsCanonical(Add(t, user, scope), other, List(t, other));
    ListIsCanonical(Remove(t, user, scope), other, List(t, other));
  }

  /** A Global entry satisfies the check for every chat without any entry of
      that chat. */
  lemma GlobalCoversEveryChat(t: Table, user: int)
    ensures forall c :: Covers(Add(t, user, Global), user, PerChat(c))
  {
  }

  /** A per-chat entry decides only its own chat: the answer for any other
      chat and for the Global check is what it was before. */
  lemma PerChatEntryStaysInChat(t: Table, user: int, c: int, other: int)
    requires other != c
    ensures Covers(Add(t, user, PerChat(c)), user, PerChat(other)) == Covers(t, user, PerChat(other))
    ensures Covers(Add(t, user, PerChat(c)), user, Global) == Covers(t, user, Global)
  {
  }

  /** The Global check ignores per-chat entries. */
  lemma GlobalCheckIsExact(t: Table, user: int)
    ensures Covers(t, user, Global) <==> (user, Global) in t
  {
  }

  /** The clone's copy of one list: INSERT OR IGNORE of
      (user_id, dst) for every row WHERE chat_id = src. SQL `=` never matches
      NULL, so only per-chat entries of `src` are copied. */
  function CopyChat(t: Table, src: int, dst: int): (r: Table)
    ensures forall u :: (u, PerChat(dst)) in r <==> (u, PerChat(dst)) in t || (u, PerChat(src)) in t
    ensures forall e: Entry :: e.1 != PerChat(dst) ==> (e in r <==> e in t)
    ensures t <= r
  {
    t + set e | e in t && e.1 == PerChat(src) :: (e.0, PerChat(dst))
  }

  /** Copying a second time adds nothing. */
  lemma CopyChatIdempotent(t: Table, src: int, dst: int)
    ensures CopyChat(CopyChat(t, src, dst), src, dst) == CopyChat(t, src, dst)
  {
    var once := CopyChat(t, src, dst);
    var twice := CopyChat(once, src, dst);
    forall e | e in twice
      ensures e in once
    {
      if e.1 == PerChat(dst) {
        assert (e.0, PerChat(dst)) in twice;
      }
    }
  }
}
