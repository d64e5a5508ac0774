/** Free lists as sequences: neighbours, heads, and removal from any position. The allocators' link
    words in memory are compared with these. */
module FreeLists {
  import opened Options

  function PrevOf(list: seq<nat>, i: nat): Option<nat>
    requires i < |list|
  {
    if i == 0 then None else Some(list[i - 1])
  }

  function NextOf(list: seq<nat>, i: nat): Option<nat>
    requires i < |list|
  {
    if i + 1 == |list| then None else Some(list[i + 1])
  }

  function Head(list: seq<nat>): Option<nat> {
    if |list| == 0 then None else Some(list[0])
  }

  function Elements(list: seq<nat>): set<nat> {
    set x | x in list
  }

  ghost predicate Distinct(list: seq<nat>) {
    forall i: nat, j: nat :: i < j < |list| ==> list[i] != list[j]
  }

  function Without(list: seq<nat>, i: nat): seq<nat>
    requires i < |list|
  {
    list[..i] + list[i + 1..]
  }

  lemma WithoutHead(list: seq<nat>)
    requires |list| > 0
    ensures Without(list, 0) == list[1..]
  {
  }

  /** The list without its first `x`. */
  function Drop(list: seq<nat>, x: nat): seq<nat> {
    if |list| == 0 then []
    else if list[0] == x then list[1..]
    else [list[0]] + Drop(list[1..], x)
  }

  lemma {:induction false} DropIsWithout(list: seq<nat>, i: nat)
    requires Distinct(list) && i < |list|
    ensures Drop(list, list[i]) == Without(list, i)
    decreases |list|
  {
    if i > 0 {
      assert list[0] != list[i];
      var rest := list[1..];
      assert forall j: nat :: j < |rest| ==> rest[j] == list[j + 1];
      DropIsWithout(rest, i - 1);
    }
  }

  lemma WithoutMembers(list: seq<nat>, i: nat)
    requires Distinct(list) && i < |list|
    ensures Distinct(Without(list, i))
    ensures forall x :: x in Without(list, i) <==> x in list && x != list[i]
    ensures Head(Without(list, i)) == if i == 0 then NextOf(list, i) else Head(list)
    ensures Without(list, i) == [] <==> PrevOf(list, i).None? && NextOf(list, i).None?
  {
    var list' := Without(list, i);
    forall x ensures x in list' <==> x in list && x != list[i] {
      if x in list' {
        var k :| 0 <= k < |list'| && list'[k] == x;
        assert x == list[if k < i then k else k + 1];
      }
      if x in list && x != list[i] {
        var j :| 0 <= j < |list| && list[j] == x;
        assert list'[if j < i then j else j - 1] == x;
      }
    }
    forall a: nat, b: nat | a < b < |list'| ensures list'[a] != list'[b] {
      assert list'[a] == list[if a < i then a else a + 1];
      assert list'[b] == list[if b < i then b else b + 1];
    }
  }
}
