/** Stored links (`links`): an append-only log of (id, chat_id, name, url)
    rows with AUTOINCREMENT ids. The `created_at` column is not modelled. */
module Links {
  import opened Text

  datatype Link = Link(id: nat, chat: int, name: string, url: string)

  /** The rows in insertion order, and the next id AUTOINCREMENT hands out:
      one more than the largest id ever issued, starting at 1. */
  datatype LinkTable = LinkTable(rows: seq<Link>, nextId: nat)

  const Empty: LinkTable := LinkTable([], 1)

  predicate IdsIncreasing(rows: seq<Link>) {
    forall i, j :: 0 <= i < j < |rows| ==> rows[i].id < rows[j].id
  }

  /** Ids are positive, below the counter, and grow in insertion order. */
  predicate Valid(t: LinkTable) {
    && 1 <= t.nextId
    && (forall i :: 0 <= i < |t.rows| ==> 1 <= t.rows[i].id < t.nextId)
    && IdsIncreasing(t.rows)
  }

  lemma EmptyIsValid()
    ensures Valid(Empty)
  {
  }

  /** The rows of one chat (`WHERE chat_id=?`), in table order. */
  function OfChat(rows: seq<Link>, chat: int): (r: seq<Link>)
    ensures |r| <= |rows|
    ensures forall l :: l in r <==> l in rows && l.chat == chat
  {
    if rows == [] then []
    else
      var rest := OfChat(rows[1..], chat);
      if rows[0].chat == chat then [rows[0]] + rest else rest
  }

  lemma HeadBelowTail(rows: seq<Link>)
    requires IdsIncreasing(rows) && rows != []
    ensures forall l :: l in rows[1..] ==> rows[0].id < l.id
  {
    forall l | l in rows[1..]
      ensures rows[0].id < l.id
    {
      var k :| 0 <= k < |rows[1..]| && rows[1..][k] == l;
      assert rows[k + 1] == l;
    }
  }

  /** A row below every id of an ascending sequence can go in front. */
  lemma ConsIncreasing(x: Link, rest: seq<Link>)
    requires IdsIncreasing(rest)
    requires forall l :: l in rest ==> x.id < l.id
    ensures IdsIncreasing([x] + rest)
  {
    var r := [x] + rest;
    forall i, j | 0 <= i < j < |r|
      ensures r[i].id < r[j].id
    {
      assert r[j] == rest[j - 1] && r[j] in rest;
      assert 0 < i ==> r[i] == rest[i - 1];
    }
  }

  /** Selecting one chat's rows keeps them in ascending id order. */
  lemma {:induction false} OfChatIncreasing(rows: seq<Link>, chat: int)
    requires IdsIncreasing(rows)
    ensures IdsIncreasing(OfChat(rows, chat))
  {
    if rows != [] {
      OfChatIncreasing(rows[1..], chat);
      if rows[0].chat == chat {
        HeadBelowTail(rows);
        ConsIncreasing(rows[0], OfChat(rows[1..], chat));
      }
    }
  }

  lemma {:induction false} OfChatAppend(a: seq<Link>, b: seq<Link>, chat: int)
    ensures OfChat(a + b, chat) == OfChat(a, chat) + OfChat(b, chat)
  {
    if a != [] {
      assert (a + b)[1..] == a[1..] + b;
      OfChatAppend(a[1..], b, chat);
    } else {
      assert a + b == b;
    }
  }

  /** Rows that all belong to one chat are all of that chat's rows and none
      of any other chat's. */
  lemma {:induction false} OfChatUniform(rows: seq<Link>, chat: int, other: int)
    requires forall l :: l in rows ==> l.chat == chat
    requires other != chat
    ensures OfChat(rows, chat) == rows
    ensures OfChat(rows, other) == []
  {
    if rows != [] {
      assert forall l :: l in rows[1..] ==> l in rows;
      OfChatUniform(rows[1..], chat, other);
      assert rows == [rows[0]] + rows[1..];
    }
  }

  /** Appending a row that carries the counter's id keeps the table valid. */
  lemma AppendFresh(t: LinkTable, l: Link)
    requires l.id == t.nextId
    ensures (t.rows + [l])[..|t.rows|] == t.rows
    ensures Valid(t) ==> forall k :: k in t.rows ==> k.id < l.id
    ensures Valid(t) ==> Valid(LinkTable(t.rows + [l], t.nextId + 1))
  {
    assert (t.rows + [l])[..|t.rows|] == t.rows;
    if Valid(t) {
      forall k | k in t.rows
        ensures k.id < l.id
      {
        var i :| 0 <= i < |t.rows| && t.rows[i] == k;
      }
    }
  }

  /** `add_link`: one row is appended, with the stripped name and url and a
      fresh id larger than every id in the table; no existing row changes. */
  function Add(t: LinkTable, chat: int, name: string, url: string): (r: LinkTable)
    ensures |r.rows| == |t.rows| + 1 && r.rows[..|t.rows|] == t.rows
    ensures r.rows[|t.rows|].chat == chat
    ensures r.rows[|t.rows|].name == Strip(name) && r.rows[|t.rows|].url == Strip(url)
    ensures r.rows[|t.rows|].id == t.nextId && r.nextId == t.nextId + 1
    ensures Valid(t) ==> forall l :: l in t.rows ==> l.id < r.rows[|t.rows|].id
    ensures Valid(t) ==> Valid(r)
  {
    var l := Link(t.nextId, chat, Strip(name), Strip(url));
    AppendFresh(t, l);
    LinkTable(t.rows + [l], t.nextId + 1)
  }

  /** The columns `list_links` returns for a row. */
  function Row(l: Link): (nat, string, string) {
    (l.id, l.name, l.url)
  }

  predicate IdsDecreasing(r: seq<(nat, string, string)>) {
    forall i, j :: 0 <= i < j < |r| ==> r[i].0 > r[j].0
  }

  /** The rows, last first. */
  function Newest(rows: seq<Link>): (r: seq<(nat, string, string)>)
    ensures |r| == |rows|
    ensures forall i :: 0 <= i < |r| ==> r[i] == Row(rows[|rows| - 1 - i])
  {
    seq(|rows|, i requires 0 <= i < |rows| => Row(rows[|rows| - 1 - i]))
  }

  lemma NewestHoldsEveryRow(rows: seq<Link>)
    ensures forall l :: l in rows ==> Row(l) in Newest(rows)
    ensures forall x :: x in Newest(rows) ==> exists l :: l in rows && Row(l) == x
  {
    var r := Newest(rows);
    forall l | l in rows
      ensures Row(l) in r
    {
      var k :| 0 <= k < |rows| && rows[k] == l;
      assert r[|rows| - 1 - k] == Row(l);
    }
    forall x | x in r
      ensures exists l :: l in rows && Row(l) == x
    {
      var k :| 0 <= k < |r| && r[k] == x;
      assert rows[|rows| - 1 - k] in rows;
    }
  }

  lemma NewestDecreasing(rows: seq<Link>)
    ensures IdsIncreasing(rows) ==> IdsDecreasing(Newest(rows))
  {
  }

  /** `list_links`: (id, name, url) of every row of the chat and of no other
      row, newest first (`ORDER BY id DESC`). */
  function List(t: LinkTable, chat: int): (r: seq<(nat, string, string)>)
    ensures |r| == |OfChat(t.rows, chat)|
    ensures forall l :: l in t.rows && l.chat == chat ==> Row(l) in r
    ensures forall x :: x in r ==> exists l :: l in t.rows && l.chat == chat && Row(l) == x
    ensures Valid(t) ==> IdsDecreasing(r)
  {
    var rows := OfChat(t.rows, chat);
    assert Valid(t) ==> IdsIncreasing(rows) by {
      if Valid(t) {
        OfChatIncreasing(t.rows, chat);
      }
    }
    NewestHoldsEveryRow(rows);
    NewestDecreasing(rows);
    Newest(rows)
  }

  /** The rows without those carrying `id`, in table order. */
  function WithoutId(rows: seq<Link>, id: int): (r: seq<Link>)
    ensures forall l :: l in r <==> l in rows && l.id != id
    ensures (forall l :: l in rows ==> l.id != id) ==> r == rows
  {
    if rows == [] then []
    else
      var rest := WithoutId(rows[1..], id);
      assert forall l :: l in rows[1..] ==> l in rows;
      if rows[0].id == id then rest else [rows[0]] + rest
  }

  /** Dropping rows keeps the others in ascending id order. */
  lemma {:induction false} WithoutIdIncreasing(rows: seq<Link>, id: int)
    requires IdsIncreasing(rows)
    ensures IdsIncreasing(WithoutId(rows, id))
  {
    if rows != [] {
      WithoutIdIncreasing(rows[1..], id);
      if rows[0].id != id {
        HeadBelowTail(rows);
        ConsIncreasing(rows[0], WithoutId(rows[1..], id));
      }
    }
  }

  /** `delete_link`: the row with that id is gone, every other row stays in
      order, and the counter is kept so the id is never issued again. */
  function Delete(t: LinkTable, id: int): (r: LinkTable)
    ensures forall l :: l in r.rows <==> l in t.rows && l.id != id
    ensures r.nextId == t.nextId
    ensures (forall l :: l in t.rows ==> l.id != id) ==> r == t
    ensures Valid(t) ==> Valid(r)
  {
    var r := LinkTable(WithoutId(t.rows, id), t.nextId);
    assert Valid(t) ==> IdsIncreasing(r.rows) by {
      if Valid(t) {
        WithoutIdIncreasing(t.rows, id);
      }
    }
    assert Valid(t) ==> forall i :: 0 <= i < |r.rows| ==> 1 <= r.rows[i].id < r.nextId by {
      if Valid(t) {
        forall i | 0 <= i < |r.rows|
          ensures 1 <= r.rows[i].id < r.nextId
        {
          assert r.rows[i] in t.rows;
        }
      }
    }
    r
  }

  /** AUTOINCREMENT ids start at 1, so deleting a zero or negative id
      removes nothing. */
  lemma DeleteBelowOneIsNoOp(t: LinkTable, id: int)
    requires Valid(t) && id < 1
    ensures Delete(t, id) == t
  {
    forall l | l in t.rows
      ensures l.id != id
    {
      var k :| 0 <= k < |t.rows| && t.rows[k] == l;
    }
  }

  /** AUTOINCREMENT never reissues a deleted id: a link added after deleting
      an existing one gets a different id. */
  lemma DeletedIdNotReissued(t: LinkTable, id: int, chat: int, name: string, url: string)
    requires Valid(t)
    requires exists l :: l in t.rows && l.id == id
    ensures var t' := Add(Delete(t, id), chat, name, url); t'.rows[|t'.rows| - 1].id != id
  {
    var l :| l in t.rows && l.id == id;
    var k :| 0 <= k < |t.rows| && t.rows[k] == l;
  }

  /** Fresh copies of `src` under chat `dst`, numbered from `next`. */
  function Copies(src: seq<Link>, dst: int, next: nat): (r: seq<Link>)
    ensures |r| == |src|
    ensures forall i :: 0 <= i < |r| ==> r[i].id == next + i && r[i].chat == dst
    ensures forall i :: 0 <= i < |r| ==> r[i].name == src[i].name && r[i].url == src[i].url
  {
    seq(|src|, i requires 0 <= i < |src| => Link(next + i, dst, src[i].name, src[i].url))
  }

  /** Appending rows numbered from the counter on keeps the table valid. */
  lemma AppendNumbered(t: LinkTable, copies: seq<Link>)
    requires Valid(t)
    requires forall i :: 0 <= i < |copies| ==> copies[i].id == t.nextId + i
    ensures Valid(LinkTable(t.rows + copies, t.nextId + |copies|))
  {
    var rows := t.rows + copies;
    forall i | 0 <= i < |rows|
      ensures 1 <= rows[i].id < t.nextId + |copies|
    {
      if i >= |t.rows| {
        assert rows[i] == copies[i - |t.rows|];
      }
    }
    forall i, j | 0 <= i < j < |rows|
      ensures rows[i].id < rows[j].id
    {
      if j >= |t.rows| {
        assert rows[j] == copies[j - |t.rows|];
        if i >= |t.rows| {
          assert rows[i] == copies[i - |t.rows|];
        }
      }
    }
  }

  /** The clone's copy of the links: `INSERT INTO links ... SELECT dst, name,
      url FROM links WHERE chat_id=src`. The rows of `src` are read before any
      copy is written and are appended, in table order, with fresh ids; they
      are never deduplicated. */
  function Clone(t: LinkTable, src: int, dst: int): (r: LinkTable)
    ensures |r.rows| == |t.rows| + |OfChat(t.rows, src)| && r.rows[..|t.rows|] == t.rows
    ensures forall i :: 0 <= i < |OfChat(t.rows, src)| ==>
      && r.rows[|t.rows| + i].chat == dst
      && r.rows[|t.rows| + i].name == OfChat(t.rows, src)[i].name
      && r.rows[|t.rows| + i].url == OfChat(t.rows, src)[i].url
      && r.rows[|t.rows| + i].id == t.nextId + i
    ensures r.nextId == t.nextId + |OfChat(t.rows, src)|
    ensures Valid(t) ==> Valid(r)
  {
    var copies := Copies(OfChat(t.rows, src), dst, t.nextId);
    var r := LinkTable(t.rows + copies, t.nextId + |copies|);
    assert r.rows[..|t.rows|] == t.rows;
    assert forall i :: 0 <= i < |copies| ==> r.rows[|t.rows| + i] == copies[i];
    assert Valid(t) ==> Valid(r) by {
      if Valid(t) {
        AppendNumbered(t, copies);
      }
    }
    r
  }

  /** Every clone adds one more copy of each link of `src` to `dst` (also
      when `src == dst`), and the links of every other chat are untouched. */
  lemma CloneLinkCounts(t: LinkTable, src: int, dst: int, other: int)
    requires other != dst
    ensures |OfChat(Clone(t, src, dst).rows, dst)| == |OfChat(t.rows, dst)| + |OfChat(t.rows, src)|
    ensures OfChat(Clone(t, src, dst).rows, other) == OfChat(t.rows, other)
  {
    var copies := Copies(OfChat(t.rows, src), dst, t.nextId);
    assert Clone(t, src, dst).rows == t.rows + copies;
    OfChatAppend(t.rows, copies, dst);
    OfChatAppend(t.rows, copies, other);
    assert forall l :: l in copies ==> l.chat == dst;
    OfChatUniform(copies, dst, other);
  }

  /** A second clone appends the links of `src` once more; when
      `src != dst` both runs add the same number of links to `dst`. */
  lemma CloneTwiceCounts(t: LinkTable, src: int, dst: int)
    ensures var once := Clone(t, src, dst);
      var twice := Clone(once, src, dst);
      && |OfChat(twice.rows, dst)| == |OfChat(once.rows, dst)| + |OfChat(once.rows, src)|
      && (src != dst ==> |OfChat(twice.rows, dst)| == |OfChat(t.rows, dst)| + 2 * |OfChat(t.rows, src)|)
  {
    var once := Clone(t, src, dst);
    CloneLinkCounts(once, src, dst, dst + 1);
    if src != dst {
      CloneLinkCounts(t, src, dst, src);
      CloneLinkCounts(t, src, dst, dst + 1);
    }
  }

  /** The clone leaves the links of every chat but `dst` as they were. */
  lemma CloneKeepsOtherChats(t: LinkTable, src: int, dst: int)
    ensures forall c :: c != dst ==> OfChat(Clone(t, src, dst).rows, c) == OfChat(t.rows, c)
  {
    forall c | c != dst
      ensures OfChat(Clone(t, src, dst).rows, c) == OfChat(t.rows, c)
    {
      CloneLinkCounts(t, src, dst, c);
    }
  }

  /** The statements that write the link log. */
  datatype Op = AddOp(chat: int, name: string, url: string) | DeleteOp(id: int) | CloneOp(src: int, dst: int)

  /** One write. The counter never moves back, and every row it leaves is
      either an old row or carries an id at or above the old counter. */
  function Apply(t: LinkTable, op: Op): (r: LinkTable)
    ensures t.nextId <= r.nextId
    ensures forall l :: l in r.rows ==> l in t.rows || t.nextId <= l.id
  {
    match op
    case AddOp(chat, name, url) =>
      var r := Add(t, chat, name, url);
      assert forall k :: 0 <= k < |t.rows| ==> r.rows[k] == t.rows[k] by {
        assert r.rows[..|t.rows|] == t.rows;
      }
      r
    case DeleteOp(id) => Delete(t, id)
    case CloneOp(src, dst) =>
      var r := Clone(t, src, dst);
      assert forall k :: 0 <= k < |t.rows| ==> r.rows[k] == t.rows[k] by {
        assert r.rows[..|t.rows|] == t.rows;
      }
      assert forall k :: |t.rows| <= k < |r.rows| ==> t.nextId <= r.rows[k].id by {
        forall k | |t.rows| <= k < |r.rows|
          ensures t.nextId <= r.rows[k].id
        {
          var i := k - |t.rows|;
          assert r.rows[|t.rows| + i].id == t.nextId + i;
        }
      }
      r
  }

  /** A run of writes, one after the other. */
  function Run(t: LinkTable, ops: seq<Op>): LinkTable
    decreases |ops|
  {
    if ops == [] then t else Run(Apply(t, ops[0]), ops[1..])
  }

  /** AUTOINCREMENT over any run of writes: the counter never moves back,
      and every row not already in the table carries an id at or above the
      counter the run started from. */
  lemma {:induction false} RunFresh(t: LinkTable, ops: seq<Op>)
    ensures t.nextId <= Run(t, ops).nextId
    ensures forall l :: l in Run(t, ops).rows ==> l in t.rows || t.nextId <= l.id
    decreases |ops|
  {
    if ops != [] {
      RunFresh(Apply(t, ops[0]), ops[1..]);
    }
  }

  /** A deleted id is never handed out again, however many links are added,
      deleted or cloned afterwards. */
  lemma DeletedIdNeverReissued(t: LinkTable, id: int, ops: seq<Op>)
    requires Valid(t)
    requires exists l :: l in t.rows && l.id == id
    ensures forall l :: l in Run(Delete(t, id), ops).rows ==> l.id != id
  {
    var l :| l in t.rows && l.id == id;
    var k :| 0 <= k < |t.rows| && t.rows[k] == l;
    RunFresh(Delete(t, id), ops);
  }
}
