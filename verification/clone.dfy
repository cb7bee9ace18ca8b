/** `clone_group_data(src, dst)`: copy one chat's per-chat rule state onto
    another chat in a single transaction (one commit at the end), and the
    operator command that runs it for several destination chats in turn. */
module Clone {
  import opened Scopes
  import opened Ordering
  import Rules
  import Folders
  import Links
  import opened Store

  /** The folder names the clone walks. The source reads them without
      ORDER BY, so their order is unspecified; the model walks them by
      ascending name. The order only decides which fresh ids the new
      destination folders receive, and the folder lemmas hold for any
      order. */
  function SourceFolderNames(st: State, src: int): seq<string> {
    SortedNames(Folders.Names(st.folders, src))
  }

  /** One clone, as one atomic transition:
      safe entries and bans of `src` are copied to `dst` without duplicates,
      and Global entries and every other chat's entries are left alone;
      every folder keeps its id and members, every folder of `src` exists
      under `dst` afterwards and holds at least the source folder's members,
      the only new folders are those of `dst` named after a folder of `src`,
      no other chat's folders change, and the counter moves on once per
      folder of `src`;
      the links of `src` are appended again under `dst`;
      operators and known chats are untouched. */
  function CloneGroupData(st: State, src: int, dst: int): (r: State)
    ensures r.admins == st.admins && r.groups == st.groups
    ensures forall u :: (u, PerChat(dst)) in r.safe <==> (u, PerChat(dst)) in st.safe || (u, PerChat(src)) in st.safe
    ensures forall u :: (u, PerChat(dst)) in r.bans <==> (u, PerChat(dst)) in st.bans || (u, PerChat(src)) in st.bans
    ensures forall e: Rules.Entry :: e.1 != PerChat(dst) ==> (e in r.safe <==> e in st.safe) && (e in r.bans <==> e in st.bans)
    ensures forall n :: (src, n) in st.folders.ids ==>
      (dst, n) in r.folders.ids && Folders.MembersOf(st.folders, src, n) <= Folders.MembersOf(r.folders, dst, n)
    ensures Folders.Extends(st.folders, r.folders)
    ensures forall k :: k in r.folders.ids ==> k in st.folders.ids || (k.0 == dst && k.1 in Folders.Names(st.folders, src))
    ensures r.folders.nextId == st.folders.nextId + |Folders.Names(st.folders, src)|
    ensures Valid(st) ==> forall k :: k in st.folders.ids && k.0 != dst ==>
      Folders.MembersOf(r.folders, k.0, k.1) == Folders.MembersOf(st.folders, k.0, k.1)
    ensures |r.links.rows| == |st.links.rows| + |Links.OfChat(st.links.rows, src)|
    ensures r.links.rows[..|st.links.rows|] == st.links.rows
    ensures forall i :: 0 <= i < |Links.OfChat(st.links.rows, src)| ==>
      && r.links.rows[|st.links.rows| + i].chat == dst
      && r.links.rows[|st.links.rows| + i].name == Links.OfChat(st.links.rows, src)[i].name
      && r.links.rows[|st.links.rows| + i].url == Links.OfChat(st.links.rows, src)[i].url
    ensures forall c :: c != dst ==> Links.OfChat(r.links.rows, c) == Links.OfChat(st.links.rows, c)
    ensures Valid(st) ==> Valid(r)
  {
    var names := SourceFolderNames(st, src);
    assert forall n :: (src, n) in st.folders.ids ==> n in names by {
      forall n | (src, n) in st.folders.ids
        ensures n in names
      {
        assert n in Folders.Names(st.folders, src);
      }
    }
    Folders.CloneAllCovers(st.folders, src, dst, names);
    Links.CloneKeepsOtherChats(st.links, src, dst);
    State(
      st.admins,
      st.groups,
      Rules.CopyChat(st.safe, src, dst),
      Rules.CopyChat(st.bans, src, dst),
      Folders.CloneAll(st.folders, src, dst, names),
      Links.Clone(st.links, src, dst))
  }

  /** A clone leaves the set of folder names of `src` as it was (also when
      `src == dst`), so a second clone walks the same folders. */
  lemma CloneKeepsSourceNames(st: State, src: int, dst: int)
    ensures Folders.Names(CloneGroupData(st, src, dst).folders, src) == Folders.Names(st.folders, src)
  {
    var r := CloneGroupData(st, src, dst);
    var names := SourceFolderNames(st, src);
    forall n | n in Folders.Names(r.folders, src)
      ensures n in Folders.Names(st.folders, src)
    {
      assert (src, n) in r.folders.ids;
      if src == dst {
        assert (src, n) in st.folders.ids || n in names;
      }
    }
    forall n | n in Folders.Names(st.folders, src)
      ensures n in Folders.Names(r.folders, src)
    {
      assert (src, n) in r.folders.ids;
    }
  }

  /** A second clone adds no safe entry and no ban. */
  lemma CloneRepeatableLists(st: State, src: int, dst: int)
    ensures var once := CloneGroupData(st, src, dst);
      var twice := CloneGroupData(once, src, dst);
      twice.safe == once.safe && twice.bans == once.bans
  {
    Rules.CopyChatIdempotent(st.safe, src, dst);
    Rules.CopyChatIdempotent(st.bans, src, dst);
  }

  /** A second clone creates no folder and adds no member; only the
      AUTOINCREMENT counter moves on, once per ignored folder insert. */
  lemma CloneRepeatableFolders(st: State, src: int, dst: int)
    requires Valid(st)
    ensures var once := CloneGroupData(st, src, dst);
      Folders.SameRows(once.folders, CloneGroupData(once, src, dst).folders)
  {
    var once := CloneGroupData(st, src, dst);
    CloneKeepsSourceNames(st, src, dst);
    assert SourceFolderNames(once, src) == SourceFolderNames(st, src);
    Folders.CloneAllIdempotent(st.folders, src, dst, SourceFolderNames(st, src));
  }

  /** Links are not deduplicated: every clone appends the links of `src`
      under `dst` once more, and when `src != dst` every run adds the same
      number. */
  lemma CloneRepeatableLinks(st: State, src: int, dst: int)
    ensures var once := CloneGroupData(st, src, dst);
      var twice := CloneGroupData(once, src, dst);
      && |Links.OfChat(twice.links.rows, dst)| == |Links.OfChat(once.links.rows, dst)| + |Links.OfChat(once.links.rows, src)|
      && (src != dst ==> |Links.OfChat(twice.links.rows, dst)| == |Links.OfChat(st.links.rows, dst)| + 2 * |Links.OfChat(st.links.rows, src)|)
  {
    Links.CloneTwiceCounts(st.links, src, dst);
  }

  /** The operator command: clone `src` onto each target chat in turn, each
      target in its own transaction. */
  function CloneToTargets(st: State, src: int, targets: seq<int>): (r: State)
    ensures r.admins == st.admins && r.groups == st.groups
    ensures st.safe <= r.safe && st.bans <= r.bans
    ensures forall e: Rules.Entry :: e.1 == Global ==> (e in r.safe <==> e in st.safe) && (e in r.bans <==> e in st.bans)
    ensures Valid(st) ==> Valid(r)
    decreases |targets|
  {
    if targets == [] then st
    else CloneToTargets(CloneGroupData(st, src, targets[0]), src, targets[1..])
  }

  /** The command leaves the per-chat safe entries and bans of every chat
      outside the targets as they were. */
  lemma {:induction false} CloneToTargetsKeepsOthers(st: State, src: int, targets: seq<int>)
    ensures forall u, c :: c !in targets ==>
      ((u, PerChat(c)) in CloneToTargets(st, src, targets).safe <==> (u, PerChat(c)) in st.safe)
    ensures forall u, c :: c !in targets ==>
      ((u, PerChat(c)) in CloneToTargets(st, src, targets).bans <==> (u, PerChat(c)) in st.bans)
    decreases |targets|
  {
    if targets != [] {
      var st1 := CloneGroupData(st, src, targets[0]);
      CloneToTargetsKeepsOthers(st1, src, targets[1..]);
      assert forall c :: c !in targets ==> c != targets[0] && c !in targets[1..];
    }
  }

  /** After the command, every target holds every per-chat safe entry and
      ban the source held before it started. */
  lemma {:induction false} CloneToTargetsCopiesSource(st: State, src: int, targets: seq<int>)
    ensures forall t, u :: t in targets && (u, PerChat(src)) in st.safe ==> (u, PerChat(t)) in CloneToTargets(st, src, targets).safe
    ensures forall t, u :: t in targets && (u, PerChat(src)) in st.bans ==> (u, PerChat(t)) in CloneToTargets(st, src, targets).bans
    decreases |targets|
  {
    if targets != [] {
      var st1 := CloneGroupData(st, src, targets[0]);
      CloneToTargetsCopiesSource(st1, src, targets[1..]);
      assert forall t :: t in targets ==> t == targets[0] || t in targets[1..];
    }
  }
}
