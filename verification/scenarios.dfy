/** Concrete runs of the store. */
module Scenarios {
  import opened Scopes
  import opened Ordering
  import Text
  import Rules
  import Folders
  import Links
  import opened Store
  import opened Clone

  /** A chat ban lists only in its chat and does not reach another chat;
      a Global ban does. */
  lemma BanScenario()
    ensures var st := AddEntry(Init, Ban, 42, PerChat(100));
      && ListBans(st, PerChat(100)) == [(42, PerChat(100))]
      && !Rules.Covers(st.bans, 42, PerChat(200))
      && Rules.Covers(AddEntry(st, Ban, 42, Global).bans, 42, PerChat(200))
  {
    var st := AddEntry(Init, Ban, 42, PerChat(100));
    assert forall e :: e in st.bans <==> e == (42, PerChat(100));
    Rules.ListIsCanonical(st.bans, PerChat(100), [42]);
    var r := ListBans(st, PerChat(100));
    assert r[0].0 == 42;
  }

  /** Chat 100 with the single folder "vip" under id 1. */
  const Trimmed: Folders.FolderTable := Folders.FolderTable(map[(100, "vip") := 1], {}, 2)

  /** The folder name is stored without its surrounding spaces, under the
      first AUTOINCREMENT id. */
  lemma TrimmedTable()
    ensures CreateFolder(Init, 100, " vip ").folders == Trimmed
  {
    Text.StripIsStrippedAt(" vip ", 1, 4);
    assert " vip "[1..4] == "vip";
  }

  /** Listing chat 100's folders shows just "vip". */
  lemma TrimmedListing()
    ensures Folders.Names(Trimmed, 100) == {"vip"}
    ensures Folders.List(Trimmed, 100) == [(1, "vip")]
  {
    assert forall k :: k in Trimmed.ids <==> k == (100, "vip");
    var r := Folders.List(Trimmed, 100);
    assert (1, "vip") in r;
    assert forall p :: p in r ==> p == (1, "vip");
  }

  /** The folder name is stored without its surrounding spaces, under the
      first AUTOINCREMENT id, and listing the chat's folders shows just it. */
  lemma FolderTrimScenario()
    ensures var st := CreateFolder(Init, 100, " vip ");
      && Folders.Names(st.folders, 100) == {"vip"}
      && Folders.List(st.folders, 100) == [(1, "vip")]
  {
    TrimmedTable();
    TrimmedListing();
  }

  /** Source chat 1 with safe users 1 and 2, ban 3 and folder "vip" holding
      user 2; destination chat 2 is empty. */
  const Source: State := State(
    {}, map[],
    {(1, PerChat(1)), (2, PerChat(1))},
    {(3, PerChat(1))},
    Folders.FolderTable(map[(1, "vip") := 1], {(1, 2)}, 2),
    Links.Empty)

  lemma SourceIsValid()
    ensures Valid(Source)
  {
    assert Folders.MembersOf(Source.folders, 1, "vip") == {2};
  }

  /** Cloning chat 1 onto chat 2 gives chat 2 the safe list [1, 2]. */
  lemma CloneScenarioSafe()
    ensures Rules.List(CloneGroupData(Source, 1, 2).safe, PerChat(2)) == [1, 2]
  {
    var t := CloneGroupData(Source, 1, 2).safe;
    assert forall u :: (u, PerChat(1)) in Source.safe <==> u == 1 || u == 2;
    assert forall u :: (u, PerChat(2)) !in Source.safe;
    Rules.ListIsCanonical(t, PerChat(2), [1, 2]);
  }

  /** The clone gives chat 2 the ban list [3]. */
  lemma CloneScenarioBans()
    ensures Rules.List(CloneGroupData(Source, 1, 2).bans, PerChat(2)) == [3]
  {
    var t := CloneGroupData(Source, 1, 2).bans;
    assert forall u :: (u, PerChat(1)) in Source.bans <==> u == 3;
    assert forall u :: (u, PerChat(2)) !in Source.bans;
    Rules.ListIsCanonical(t, PerChat(2), [3]);
  }

  /** Chat 1 has the single folder "vip", so the clone's folder loop makes
      exactly one pass. */
  lemma CloneScenarioOnePass()
    ensures CloneGroupData(Source, 1, 2).folders == Folders.CloneOne(Source.folders, 1, 2, "vip")
  {
    var f := Source.folders;
    Folders.NamesHaveFolders(f, 1);
    assert Folders.Names(f, 1) == {"vip"};
    var names := SourceFolderNames(Source, 1);
    assert names[0] in names;
    assert names == ["vip"];
    assert Folders.CloneAll(f, 1, 2, names) == Folders.CloneAll(Folders.CloneOne(f, 1, 2, "vip"), 1, 2, []);
  }

  /** The single pass leaves chat 2's "vip" folder with exactly user 2. */
  lemma OnePassMembers()
    ensures Folders.MembersOf(Folders.CloneOne(Source.folders, 1, 2, "vip"), 2, "vip") == {2}
  {
    SourceIsValid();
    SourceMembers();
    Folders.CloneOneExact(Source.folders, 1, 2, "vip");
  }

  lemma SourceMembers()
    ensures Folders.MembersOf(Source.folders, 1, "vip") == {2}
    ensures Folders.MembersOf(Source.folders, 2, "vip") == {}
  {
    var f := Source.folders;
    assert f.ids[(1, "vip")] == 1;
    assert forall m :: m in f.members <==> m == (1, 2);
  }

  /** The single pass gives chat 2 no folder but "vip". */
  lemma OnePassNames()
    ensures Folders.Names(Folders.CloneOne(Source.folders, 1, 2, "vip"), 2) == {"vip"}
  {
    var r := Folders.CloneOne(Source.folders, 1, 2, "vip");
    Folders.NamesHaveFolders(r, 2);
    assert forall n :: (2, n) in r.ids <==> n == "vip";
  }

  /** The clone gives chat 2 exactly one folder, "vip", holding exactly
      user 2. */
  lemma CloneScenarioFolder()
    ensures var once := CloneGroupData(Source, 1, 2);
      && Folders.Names(once.folders, 2) == {"vip"}
      && Folders.ListMembers(once.folders, 2, "vip") == [2]
  {
    CloneScenarioOnePass();
    OnePassMembers();
    OnePassNames();
    var r := Folders.CloneOne(Source.folders, 1, 2, "vip");
    var m := Folders.ListMembers(r, 2, "vip");
    assert forall u :: u in m <==> u in [2];
    IncreasingUnique(m, [2]);
  }

  /** Cloning chat 1 onto chat 2 a second time changes neither list and no
      folder or membership. */
  lemma CloneScenarioRepeat()
    ensures var once := CloneGroupData(Source, 1, 2);
      var twice := CloneGroupData(once, 1, 2);
      twice.safe == once.safe && twice.bans == once.bans && Folders.SameRows(once.folders, twice.folders)
  {
    SourceIsValid();
    CloneRepeatableLists(Source, 1, 2);
    CloneRepeatableFolders(Source, 1, 2);
  }
}
