/** The safe and ban tables as SQLite actually stores them. The primary key
    (user_id, chat_id) is enforced only for rows whose chat_id is not NULL:
    SQLite lets two rows differ in a NULL column, so `INSERT OR IGNORE` of a
    Global entry that is already present adds a second identical row. The
    tables are then multisets of rows rather than sets. `Rules.Add` is the
    intended behaviour, where a second `add_safe`/`add_ban` of the same entry
    changes nothing. */
module NullScopeRows {
  import opened Scopes
  import Rules

  type Rows = multiset<Rules.Entry>

  /** `INSERT OR IGNORE` as SQLite performs it: the primary key rejects a
      duplicate only when chat_id is not NULL. */
  function AddAsWritten(t: Rows, user: int, scope: Scope): (r: Rows)
    ensures scope == Global ==> r[(user, scope)] == t[(user, scope)] + 1
    ensures scope != Global ==> r[(user, scope)] == if t[(user, scope)] == 0 then 1 else t[(user, scope)]
    ensures forall e :: e != (user, scope) ==> r[e] == t[e]
  {
    if scope.PerChat? && (user, scope) in t then t
    else t + multiset{(user, scope)}
  }

  /** `DELETE ... WHERE user_id=? AND chat_id IS ?` removes every copy. */
  function RemoveAsWritten(t: Rows, user: int, scope: Scope): (r: Rows)
    ensures r[(user, scope)] == 0
    ensures forall e :: e != (user, scope) ==> r[e] == t[e]
  {
    t[(user, scope) := 0]
  }

  /** The entries present at least once: what `is_safe`/`is_banned` see. */
  function Present(t: Rows): set<Rules.Entry> {
    set e | e in t
  }

  /** The duplicates do not change which entries are present, so the checks
      agree with the corrected table; only the listings differ. */
  lemma AsWrittenAgreesOnPresence(t: Rows, user: int, scope: Scope)
    ensures Present(AddAsWritten(t, user, scope)) == Rules.Add(Present(t), user, scope)
    ensures Present(RemoveAsWritten(t, user, scope)) == Rules.Remove(Present(t), user, scope)
  {
    var a := AddAsWritten(t, user, scope);
    forall e
      ensures e in Present(a) <==> e in Rules.Add(Present(t), user, scope)
    {
      assert e in Present(a) <==> a[e] > 0;
      assert e in Present(t) <==> t[e] > 0;
    }
    var d := RemoveAsWritten(t, user, scope);
    forall e
      ensures e in Present(d) <==> e in Rules.Remove(Present(t), user, scope)
    {
      assert e in Present(d) <==> d[e] > 0;
      assert e in Present(t) <==> t[e] > 0;
    }
  }

  /** A per-chat entry is never stored twice. */
  lemma PerChatAddIdempotent(t: Rows, user: int, chat: int)
    ensures AddAsWritten(AddAsWritten(t, user, PerChat(chat)), user, PerChat(chat)) == AddAsWritten(t, user, PerChat(chat))
  {
  }

  /** The discrepancy: adding user 7 to the Global list twice stores two rows,
      so listing the Global list returns 7 twice, while the corrected table
      holds the entry once and the second add changes nothing. */
  lemma GlobalAddTwiceDuplicates()
    ensures var once := AddAsWritten(multiset{}, 7, Global);
      AddAsWritten(once, 7, Global)[(7, Global)] == 2
    ensures Rules.Add(Rules.Add({}, 7, Global), 7, Global) == Rules.Add({}, 7, Global)
  {
  }
}
