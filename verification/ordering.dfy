/** The orders in which the store returns rows: `ORDER BY user_id ASC` over a
    set of integers and `ORDER BY name ASC` over a set of names. Both turn a
    set into the unique strictly ascending sequence of its elements. */
module Ordering {
  import opened Text

  predicate Increasing(s: seq<int>) {
    forall i, j :: 0 <= i < j < |s| ==> s[i] < s[j]
  }

  predicate NamesIncreasing(s: seq<string>) {
    forall i, j :: 0 <= i < j < |s| ==> LexLess(s[i], s[j])
  }

  lemma PickElement<T>(s: set<T>) returns (y: T)
    requires s != {}
    ensures y in s
  {
    y :| y in s;
  }

  lemma MinIntStep(s: set<int>, y: int, m: int)
    requires y in s && m in s
    requires forall x :: x in s - {y} ==> m <= x
    ensures forall x :: x in s ==> (if y < m then y else m) <= x
  {
    forall x | x in s
      ensures (if y < m then y else m) <= x
    {
      if x != y {
        assert x in s - {y};
      }
    }
  }

  /** Every non-empty set of integers has a least element. */
  lemma {:induction false} LeastInt(s: set<int>) returns (m: int)
    requires s != {}
    ensures m in s && forall x :: x in s ==> m <= x
    decreases |s|
  {
    var y := PickElement(s);
    if s - {y} == {} {
      forall x | x in s
        ensures x == y
      {
        assert x in s - {y} <==> x != y;
      }
      m := y;
    } else {
      var m' := LeastInt(s - {y});
      MinIntStep(s, y, m');
      m := if y < m' then y else m';
    }
  }

  lemma MinIntExists(s: set<int>)
    requires s != {}
    ensures exists m :: m in s && forall x :: x in s ==> m <= x
  {
    var m := LeastInt(s);
  }

  function MinInt(s: set<int>): (m: int)
    requires s != {}
    ensures m in s && forall x :: x in s ==> m <= x
  {
    MinIntExists(s);
    var m :| m in s && forall x :: x in s ==> m <= x;
    m
  }

  /** The elements of `s` in ascending order. */
  function SortedInts(s: set<int>): (r: seq<int>)
    ensures Increasing(r)
    ensures forall x :: x in r <==> x in s
    ensures |r| == |s|
    decreases |s|
  {
    if s == {} then []
    else
      var m := MinInt(s);
      var rest := SortedInts(s - {m});
      assert forall k :: 0 <= k < |rest| ==> m < rest[k];
      assert |s - {m}| == |s| - 1;
      [m] + rest
  }

  lemma MinNameStep(s: set<string>, y: string, m: string)
    requires y in s && m in s - {y}
    requires forall x :: x in s - {y} && x != m ==> LexLess(m, x)
    ensures var w := if LexLess(y, m) then y else m;
      forall x :: x in s && x != w ==> LexLess(w, x)
  {
    LexLessTotal(y, m);
    var w := if LexLess(y, m) then y else m;
    forall x | x in s && x != w
      ensures LexLess(w, x)
    {
      if x != y && x != m {
        assert x in s - {y};
        if w == y {
          LexLessTransitive(y, m, x);
        }
      }
    }
  }

  /** Every non-empty set of names has a least element. */
  lemma {:induction false} LeastName(s: set<string>) returns (m: string)
    requires s != {}
    ensures m in s && forall x :: x in s && x != m ==> LexLess(m, x)
    decreases |s|
  {
    var y := PickElement(s);
    if s - {y} == {} {
      forall x | x in s
        ensures x == y
      {
        assert x in s - {y} <==> x != y;
      }
      m := y;
    } else {
      var m' := LeastName(s - {y});
      MinNameStep(s, y, m');
      m := if LexLess(y, m') then y else m';
    }
  }

  lemma MinNameExists(s: set<string>)
    requires s != {}
    ensures exists m :: m in s && forall x :: x in s && x != m ==> LexLess(m, x)
  {
    var m := LeastName(s);
  }

  lemma LexLessAsymmetricAll()
    ensures forall a, b :: LexLess(a, b) ==> !LexLess(b, a)
  {
    forall a, b
      ensures LexLess(a, b) ==> !LexLess(b, a)
    {
      LexLessAsymmetric(a, b);
    }
  }

  function MinName(s: set<string>): (m: string)
    requires s != {}
    ensures m in s && forall x :: x in s && x != m ==> LexLess(m, x)
  {
    MinNameExists(s);
    LexLessAsymmetricAll();
    var m :| m in s && forall x :: x in s && x != m ==> LexLess(m, x);
    m
  }

  /** The names of `s` in ascending code point order. */
  function SortedNames(s: set<string>): (r: seq<string>)
    ensures NamesIncreasing(r)
    ensures forall x :: x in r <==> x in s
    ensures |r| == |s|
    decreases |s|
  {
    if s == {} then []
    else
      var m := MinName(s);
      var rest := SortedNames(s - {m});
      assert forall k :: 0 <= k < |rest| ==> rest[k] in s - {m};
      [m] + rest
  }

  /** In an ascending sequence, the tail holds every element but the head. */
  lemma IncreasingTail(a: seq<int>)
    requires Increasing(a) && a != []
    ensures forall x :: x in a[1..] <==> x in a && x != a[0]
  {
    forall x | x in a && x != a[0]
      ensures x in a[1..]
    {
      var k :| 0 <= k < |a| && a[k] == x;
      assert a[1..][k - 1] == x;
    }
  }

  /** Two ascending sequences with the same elements start alike. */
  lemma IncreasingHeads(a: seq<int>, b: seq<int>)
    requires Increasing(a) && Increasing(b) && a != [] && b != []
    requires forall x :: x in a <==> x in b
    ensures a[0] == b[0]
  {
    assert a[0] in a && b[0] in b;
    var kb :| 0 <= kb < |b| && b[kb] == a[0];
    var ka :| 0 <= ka < |a| && a[ka] == b[0];
    assert a[0] <= a[ka] && b[0] <= b[kb];
  }

  /** An ascending listing is determined by its elements: any strictly
      increasing sequence holding exactly the same integers is equal. */
  lemma {:induction false} IncreasingUnique(a: seq<int>, b: seq<int>)
    requires Increasing(a) && Increasing(b)
    requires forall x :: x in a <==> x in b
    ensures a == b
  {
    assert |a| > 0 ==> a[0] in a;
    assert |b| > 0 ==> b[0] in b;
    if a != [] && b != [] {
      IncreasingHeads(a, b);
      IncreasingTail(a);
      IncreasingTail(b);
      IncreasingUnique(a[1..], b[1..]);
      assert a == [a[0]] + a[1..] && b == [b[0]] + b[1..];
    }
  }
}
