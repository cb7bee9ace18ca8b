# Rule store of the group guard bot, in Dafny

The bot keeps its moderation rules in one SQLite database (`app/db.py`,
class `Database`). Its tables are:

- operators (`admins`);
- known chats (`groups`);
- a safe list and a ban list (`safe_users`, `bans`). Each entry is a user
  with a scope: a single chat, or Global when `chat_id` is NULL;
- per-chat named folders of users (`folders`, `folder_members`);
- per-chat stored links (`links`).

Every public method opens a connection and runs one or a few statements.
Every mutating method commits at the end; the queries never commit, and
`folder_add_user`/`folder_remove_user` return False without writing when
the folder is missing. The model treats each method as one atomic
transition or query on an immutable state record. `clone_group_data` copies one chat's per-chat
rules onto another chat in a single transaction.

Modules:

- `Scopes` (scopes.dfy): `Scope = Global | PerChat(chat)`. This stands for
  the nullable `chat_id` that `IS ?` matches.
- `Text` (text.dfy): Python's `str.strip` over the exact code points that
  Python's `str.isspace` accepts. Also the code-point order that
  `ORDER BY name` uses under SQLite's BINARY collation. For UTF-8 text,
  byte order and code-point order agree.
- `Ordering` (ordering.dfy): set-to-ascending-sequence conversion for
  `ORDER BY user_id` and `ORDER BY name`, with uniqueness of the result.
- `Rules` (rules.dfy): one scoped list, as a set of (user, scope) entries.
- `Folders` (folders.dfy): folder ids, memberships, and the AUTOINCREMENT
  counter.
- `Links` (links.dfy): the append-only link log.
- `Registry` (registry.dfy): operators and known chats.
- `Store` (store.dfy): the whole database as one record, with a frame
  clause on each transition.
- `Clone` (clone.dfy): `clone_group_data`, and the operator command that
  runs it for several target chats.
- `NullScopeRows` (null_scope_rows.dfy): the safe and ban tables as SQLite
  really stores Global rows. See Findings.
- `Scenarios` (scenarios.dfy): concrete runs of the store.

## Model

| member | source | states |
|---|---|---|
| Rules.Add | app/db.py:129-136 | `add_safe`/`add_ban`: the entry with this user and exact scope is present afterwards. No other entry changes. Adding a present entry leaves the table as it was (insert-or-ignore). |
| Rules.Remove | app/db.py:138-145 | `remove_safe`/`remove_ban` match the scope exactly. Removing a chat entry keeps the user's Global entry, and the other way round. Every other entry stays. Removing an absent entry changes nothing. |
| Rules.List | app/db.py:147-155 | `list_safe`/`list_bans`: exactly the users with an entry of exactly this scope. A Global entry is never merged into a chat query. Strictly ascending by user id. |
| Rules.ListIsCanonical | app/db.py:147-155 | Any strictly ascending sequence holding exactly the users of one scope equals the listing. So the listing is determined by the table. |
| Rules.ListOtherScopeUnchanged | app/db.py:129-145 | Adding or removing an entry of one scope does not change the listing of any other scope. |
| Rules.Covers | app/db.py:157-165 | `is_safe`/`is_banned` hold exactly when the user has an entry for the asked scope or a Global entry. |
| Rules.GlobalCoversEveryChat | app/db.py:195-203 | After a Global ban, the user is banned in every chat. |
| Rules.PerChatEntryStaysInChat | app/db.py:195-203 | A chat entry changes the check neither for any other chat nor for the Global check. |
| Rules.GlobalCheckIsExact | app/db.py:157-165 | Asked with scope Global, the check sees only Global entries. |
| Rules.CopyChat | app/db.py:303-315 | The clone's safe and ban step: the destination chat gains the source chat's entries. Global entries are never copied, because `=` does not match NULL. Every entry outside the destination chat is unchanged. Nothing is lost. |
| Rules.CopyChatIdempotent | app/db.py:303-315 | Repeating the copy adds nothing. |
| Store.AddEntry | app/db.py:129-136 | `add_safe`/`add_ban` on the whole store: the entry is present, and no other entry of the list changes. All other tables are unchanged. A repeated add is a no-op. |
| Store.RemoveEntry | app/db.py:138-145 | `remove_safe`/`remove_ban` on the whole store: only that exact entry goes, and all other tables are unchanged. |
| Store.ListBans | app/db.py:186-193 | `list_bans` returns the (user, scope) rows of exactly this scope, ascending by user, one per user in the scope. |
| Store.CreateFolder | app/db.py:206-213 | `create_folder` stores the stripped name. No membership changes, and only the folder table can change. Every existing folder keeps its key and id, and no key other than the stripped name appears. A new folder gets the counter's value as its id. When that folder exists, no folder or membership changes. The AUTOINCREMENT counter always moves on by one. |
| Store.FolderAddUser | app/db.py:224-240 | `folder_add_user` returns true exactly when the folder exists. When it does not exist, the store is unchanged. Otherwise the membership is present and every other membership is unchanged. Folders, the counter and other tables are unchanged. |
| Store.FolderRemoveUser | app/db.py:242-258 | `folder_remove_user` returns true exactly when the folder exists. When it does not exist, the store is unchanged. Otherwise the membership is absent and every other membership is unchanged. Folders, the counter and other tables are unchanged. |
| Store.AddLink | app/db.py:274-281 | `add_link` appends one row for the chat, with the stripped name and url. The row takes the counter's value as its id, and the counter moves on by one. Existing rows and other tables are unchanged. |
| Store.DeleteLink | app/db.py:292-296 | `delete_link` takes any integer id. It removes the row with that id, whatever its chat. The counter is kept, and other tables are unchanged. An id that no row has leaves the store unchanged. |
| Store.AddAdmin | app/db.py:91-95 | `add_admin`: the user is an operator. No other operator or table changes. A repeated add is a no-op. |
| Store.UpsertGroup | app/db.py:112-120 | `upsert_group`: the chat's row holds the given title and type. Every other chat's row is kept, and no row appears for another chat. Other tables are unchanged. |
| Store.InitIsValid | app/db.py:58-86 | The fresh database satisfies the id invariants of both AUTOINCREMENT tables. |
| Folders.Insert | app/db.py:58-65 | INSERT OR IGNORE on the UNIQUE (chat_id, name) key. At most one folder per key. An existing key keeps every folder and membership row. A new key gets the next counter value. The AUTOINCREMENT counter moves on by one either way, because SQLite draws the rowid before it detects the conflict. The id invariants are kept. |
| Folders.InsertMembers | app/db.py:58-75 | An insert never changes the members of any folder, and a new folder starts empty. |
| Folders.Create | app/db.py:206-213 | `create_folder` inserts the stripped name under the rules of `Insert`. The folder exists afterwards and an existing one keeps every row. A new one gets the counter's value as its id. The counter moves on by one. |
| Folders.CreateIdempotent | app/db.py:206-213 | Creating a folder whose stripped name already exists creates no folder and changes no membership. Only the counter moves on. |
| Folders.List | app/db.py:215-222 | `list_folders` returns exactly the (id, name) pairs of the chat's folders, in strictly ascending name order. |
| Folders.AddUser | app/db.py:224-240 | Returns true exactly when (chat, name) names a folder. A missing folder leaves the table unchanged. Otherwise the membership is present and no other membership changes. |
| Folders.RemoveUser | app/db.py:242-258 | Returns true exactly when (chat, name) names a folder. A missing folder leaves the table unchanged. Otherwise the membership is absent and no other membership changes. |
| Folders.AddUserIdempotent | app/db.py:224-240 | Adding the same member twice equals adding it once. |
| Folders.MembershipChangeIsLocal | app/db.py:224-258 | Adding or removing a member leaves every other folder's members unchanged. |
| Folders.ListMembers | app/db.py:260-271 | `list_folder_members`: exactly the users of folder (chat, name), ascending. It is empty when there is no such folder. |
| Folders.CloneOne | app/db.py:320-345 | One pass of the clone's folder loop. The destination folder exists afterwards and holds every source member. Only that key can be new. Other folders keep their members. When the destination already covers the source, no folder or membership changes. The counter moves on by one per pass. |
| Folders.CloneOneExact | app/db.py:320-345 | On a valid table, the destination folder holds exactly its former members plus the source folder's members after the pass. |
| Folders.CloneAll | app/db.py:317-345 | The whole folder loop. Every visited name exists under the destination. New folders belong to the destination. Folders of other chats keep their members. The counter moves on by one per visited name. |
| Folders.CloneAllCovers | app/db.py:317-345 | After the loop, each destination folder holds every member of the matching source folder as it was before the clone. |
| Folders.CloneAllIdempotent | app/db.py:317-345 | Running the folder loop again creates no folder and changes no membership. |
| Links.OfChat | app/db.py:283-290 | `WHERE chat_id=?` keeps exactly the chat's rows and no more rows than the table holds. |
| Links.OfChatAppend | app/db.py:283-290 | Selecting from two consecutive stretches of the table gives the first stretch's selection followed by the second's, so the selection keeps table order. |
| Links.OfChatIncreasing | app/db.py:283-290 | Selecting one chat's rows keeps ids ascending in table order. `list_links` relies on this for its newest-first order. |
| Links.Add | app/db.py:274-281 | `add_link` appends one row with the stripped name and url. Its id is the counter's value, which is larger than every id in the table, and the counter moves on by one. |
| Links.List | app/db.py:283-290 | `list_links` returns exactly the chat's rows, with ids strictly decreasing. |
| Links.Delete | app/db.py:292-296 | `delete_link` takes any integer id. It removes exactly the rows with that id and keeps the counter. An id that no row has leaves the table unchanged. |
| Links.WithoutIdIncreasing | app/db.py:292-296 | Deleting rows keeps the remaining ids ascending in table order. |
| Links.DeleteBelowOneIsNoOp | app/db.py:292-296 | AUTOINCREMENT ids start at 1, so deleting a zero or negative id removes nothing. |
| Links.DeletedIdNotReissued | app/db.py:76-85 | The link added right after a delete does not reuse the deleted id. |
| Links.Apply | app/db.py:274-352 | One write to the link log (`add_link`, `delete_link` or the clone's copy). The counter never moves back, and every row is either an old row or has an id at or above the old counter. |
| Links.RunFresh | app/db.py:76-85 | Over any run of adds, deletes and clones, the counter never moves back, and every new row has an id at or above the counter the run started from. |
| Links.DeletedIdNeverReissued | app/db.py:76-85 | After a link is deleted, no later run of adds, deletes and clones produces a row with that id again. |
| Links.Clone | app/db.py:347-352 | The clone's link copy appends, in table order, one copy of each source row under the destination. The copies take consecutive ids from the counter, and the counter moves past them. Existing rows stay. |
| Links.CloneLinkCounts | app/db.py:347-352 | Each clone adds the source's link count to the destination's count, also when source and destination are the same chat. Other chats keep their links. |
| Links.CloneKeepsOtherChats | app/db.py:347-352 | The link copy leaves the rows of every chat other than the destination exactly as they were, in order. |
| Links.CloneTwiceCounts | app/db.py:347-352 | A second clone appends the source's links again. When source and destination differ, two clones add twice the source count. |
| Registry.AddAdmin | app/db.py:91-95 | INSERT OR IGNORE into `admins`: the user is present, and no one else is added or removed. |
| Registry.IsAdmin | app/db.py:97-102 | `is_admin` is true exactly for stored operators. |
| Registry.IsAdminAfterAdd | app/db.py:91-102 | After `add_admin(u)`, a user is an operator exactly when it is `u` or already was one. |
| Registry.ListAdmins | app/db.py:104-109 | `list_admins`: every operator exactly once, ascending. |
| Registry.UpsertGroup | app/db.py:112-120 | An upsert on chat_id: the row holds the new title and type, and other rows stay. |
| Registry.UpsertDefaultKind | app/db.py:112 | Without a chat type, `upsert_group` stores the type "group". |
| Registry.UpsertLastWriteWins | app/db.py:112-120 | The later of two upserts of a chat wins, and repeating an upsert changes nothing. |
| Clone.CloneGroupData | app/db.py:299-354 | The destination gains the source's per-chat safe entries and bans. Entries outside the destination chat are unchanged, including Global ones. Every existing folder keeps its key, id and members. Every source folder exists under the destination and holds at least its members. Folders of other chats keep their members, and the only new folders are destination folders named after a source folder. The counter moves on once per source folder. The source's links are appended in order, each with the destination chat and the source row's name and url. The links of every other chat are unchanged. Operators and chats are untouched. The store invariants are kept. |
| Clone.CloneKeepsSourceNames | app/db.py:317-345 | The clone does not change which folders the source chat has, even when source and destination coincide. |
| Clone.CloneRepeatableLists | app/db.py:303-315 | A second clone adds no safe entry and no ban. |
| Clone.CloneRepeatableFolders | app/db.py:317-345 | A second clone creates no folder and adds no member. Only the counter moves on. |
| Clone.CloneRepeatableLinks | app/db.py:347-352 | A second clone appends the source's links once more. |
| Clone.CloneToTargets | app/handlers/private_panel.py:577-578 | Running the clone for each target in turn keeps every existing safe entry and ban. It never touches a Global entry, operators or chats, and it keeps the invariants. |
| Clone.CloneToTargetsKeepsOthers | app/handlers/private_panel.py:577-578 | The command leaves the per-chat safe entries and bans of every chat outside the targets as they were. |
| Clone.CloneToTargetsCopiesSource | app/handlers/private_panel.py:577-578 | After the command, every target holds every per-chat safe entry and ban that the source had before it. |
| Text.Strip | app/db.py:211 | `str.strip`: the result is a slice of the input that neither starts nor ends with whitespace. |
| Text.StripCut | app/db.py:211 | The stripped text is the input minus its maximal leading and trailing whitespace runs. |
| Text.StripIdempotent | app/db.py:211 | Stripping twice equals stripping once. |
| Text.LexLessTransitive | app/db.py:219 | The name order is transitive. |
| Text.LexLessTotal | app/db.py:219 | Any two distinct names are ordered one way. |
| Ordering.SortedNames | app/db.py:219 | The names of a set, each exactly once, strictly ascending. |
| Ordering.SortedInts | app/db.py:107 | The integers of a set, each exactly once, strictly ascending. |
| Ordering.IncreasingUnique | app/db.py:107 | Two strictly ascending sequences with the same elements are equal. |
| NullScopeRows.AddAsWritten | app/db.py:41-47 | INSERT OR IGNORE as SQLite performs it. A Global entry gains one more row every time. A chat entry is stored at most once. |
| NullScopeRows.RemoveAsWritten | app/db.py:138-145 | `DELETE ... chat_id IS ?` removes every copy of the entry. |
| NullScopeRows.AsWrittenAgreesOnPresence | app/db.py:157-165 | The duplicate rows do not change which entries are present, so `is_safe`/`is_banned` agree with the corrected table. |
| NullScopeRows.PerChatAddIdempotent | app/db.py:41-47 | As SQLite stores it, adding the same chat entry twice equals adding it once: the primary key holds for non-NULL chat ids. |
| NullScopeRows.GlobalAddTwiceDuplicates | app/db.py:41-47 | Adding user 7 to the Global list twice stores two rows, while the corrected table holds one. |
| Scenarios.BanScenario | app/db.py:168-203 | A ban in chat 100 lists as `[(42, chat 100)]` and does not ban in chat 200. A Global ban does. |
| Scenarios.TrimmedTable | app/db.py:206-213 | `create_folder(100, " vip ")` on a fresh database leaves exactly folder (100, "vip") with id 1, no members, and the counter at 2. |
| Scenarios.TrimmedListing | app/db.py:215-222 | On that table, chat 100 has only the folder "vip", and `list_folders(100)` returns `[(1, "vip")]`. |
| Scenarios.FolderTrimScenario | app/db.py:206-222 | `create_folder(100, " vip ")` on a fresh database stores "vip" as the chat's only folder, and `list_folders(100)` returns `[(1, "vip")]`. |
| Scenarios.CloneScenarioSafe | app/db.py:303-308 | Cloning chat 1 (safe users 1 and 2) onto an empty chat 2 lists safe `[1, 2]` there. |
| Scenarios.CloneScenarioBans | app/db.py:310-315 | The same clone lists bans `[3]` in chat 2. |
| Scenarios.CloneScenarioOnePass | app/db.py:317-345 | Chat 1 has one folder, so the clone's folder loop makes exactly one pass. |
| Scenarios.OnePassMembers | app/db.py:320-345 | That pass leaves chat 2's "vip" folder holding exactly user 2. |
| Scenarios.OnePassNames | app/db.py:320-345 | That pass gives chat 2 no folder but "vip". |
| Scenarios.CloneScenarioFolder | app/db.py:317-345 | The clone gives chat 2 exactly one folder, "vip", and listing its members gives exactly `[2]`. |
| Scenarios.CloneScenarioRepeat | app/db.py:299-354 | Cloning the same pair again leaves both lists, every folder and every membership unchanged. |

## Left out

- Connection handling, `PRAGMA` settings and commits (app/db.py:12-24): each method is one atomic transition.
- The table definitions, beyond what the datatypes and the `Valid` predicates encode (app/db.py:26-88).
- The `folder_members` foreign key with `ON DELETE CASCADE` has no effect here. No operation deletes a folder.
- `created_at` on links (app/db.py:84): it comes from the clock. `Links.List` returns (id, name, url) without it.
- `list_groups` (app/db.py:122-126): SQL orders NULL titles specially, and it is not one of the modelled operations.
- The Telegram bot handlers, keyboards, states and filters. Only the loop that calls the clone once per target (app/handlers/private_panel.py:577-578) is modelled, as `Clone.CloneToTargets`.
- Parsing of the target chat ids: it depends on Python's `int()`.
- The Telegram calls `ban_chat_member`, `unban_chat_member` and `get_chat`: these are network side effects.
- `app/handlers/group_guard.py`: it is not wired into the bot.
- Integer width: SQLite integers are 64-bit. The model uses unbounded integers, because no operation does arithmetic on user or chat ids.
- AUTOINCREMENT exhaustion at 2^63 - 1 is not modelled.
- Rules.Add: the model stores a Global entry once, even though SQLite stores a duplicate row for it (see Findings). `NullScopeRows` models the stored behaviour.
- Folders.Insert: the AUTOINCREMENT counter moves on at every folder insert, also an ignored one. So the no-op and repeat clauses (`Folders.SameRows`) compare folder and membership rows only, not the counter.
- Clone.CloneGroupData: the source reads folder names without ORDER BY, so their order is unspecified. The model visits them in ascending name order. Only the ids given to new destination folders depend on that order, and the folder lemmas hold for any order of names.
- Clone.CloneGroupData: for the same-table `INSERT ... SELECT` on `links`, the model copies the rows as they were before the statement, in table order. This is the order SQLite uses when it materialises the select.
- Clone.CloneGroupData: each destination folder is stated to hold at least the source members, not exactly them. It also keeps any members it already had.
- `clone_group_data` does not reject `src == dst`; a self-clone appends the chat's links again (`Links.CloneLinkCounts`). The insert methods return nothing, so "changed" and "already present" are not told apart.
- There is no exact-scope existence query; `(u, s) in t` is that test.
- `folder_add_user`, `folder_remove_user` and `list_folder_members` look the name up exactly as given. Only `create_folder` strips it. The model follows the code.

## Findings

| source | as written | input that shows it | evidently intended | confidence | as-written member | corrected member |
|---|---|---|---|---|---|---|
| app/db.py:41-56 | The primary key (user_id, chat_id) of `safe_users` and `bans` allows NULL in chat_id. SQLite treats two NULLs as distinct, so `INSERT OR IGNORE` of a Global entry that is already present inserts a second row. `list_safe(None)` / `list_bans(None)` then return the user twice. | `add_safe(7)` twice, then `list_safe()` | A second add of the same Global entry changes nothing, as it already does for chat entries. | not executed; follows from SQLite's documented NULL handling in unique constraints | NullScopeRows.GlobalAddTwiceDuplicates | Rules.Add |
