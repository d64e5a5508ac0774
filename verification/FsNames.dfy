/** Names in the order of the kernel's ordered map: by their characters, a prefix before its extensions. */
module FsNames {
  predicate Before(a: string, b: string) {
    if |b| == 0 then false
    else if |a| == 0 then true
    else a[0] < b[0] || (a[0] == b[0] && Before(a[1..], b[1..]))
  }

  /** `a` and `b` agree before position `k`, where `a` ends or has the smaller character. */
  ghost predicate FirstDifference(a: string, b: string, k: nat) {
    k <= |a| && k < |b| && a[..k] == b[..k] && (k == |a| || a[k] < b[k])
  }

  /** The order is decided at the first difference. */
  lemma {:induction false} BeforeIff(a: string, b: string)
    ensures Before(a, b) <==> exists k: nat :: FirstDifference(a, b, k)
    decreases |a|
  {
    if Before(a, b) { var k := Difference(a, b); }
    if k: nat :| FirstDifference(a, b, k) { DifferenceDecides(a, b, k); }
  }

  lemma {:induction false} Difference(a: string, b: string) returns (k: nat)
    requires Before(a, b)
    ensures FirstDifference(a, b, k)
    decreases |a|
  {
    if |a| == 0 || a[0] < b[0] {
      k := 0;
    } else {
      var j := Difference(a[1..], b[1..]);
      k := j + 1;
      assert a[..k] == [a[0]] + a[1..][..j] && b[..k] == [b[0]] + b[1..][..j];
    }
  }

  lemma {:induction false} DifferenceDecides(a: string, b: string, k: nat)
    requires FirstDifference(a, b, k)
    ensures Before(a, b)
    decreases k
  {
    if k > 0 {
      assert a[..k][0] == a[0] && b[..k][0] == b[0];
      assert a[1..][..k - 1] == a[..k][1..] && b[1..][..k - 1] == b[..k][1..];
      DifferenceDecides(a[1..], b[1..], k - 1);
    }
  }

  lemma {:induction false} BeforeTotal(a: string, b: string)
    ensures Before(a, b) || a == b || Before(b, a)
    decreases |a|
  {
    if |a| > 0 && |b| > 0 && a[0] == b[0] {
      BeforeTotal(a[1..], b[1..]);
      assert a == [a[0]] + a[1..] && b == [b[0]] + b[1..];
    }
  }

  lemma {:induction false} BeforeStrict(a: string, b: string)
    requires Before(a, b)
    ensures a != b && !Before(b, a)
    decreases |a|
  {
    if |a| > 0 && a[0] == b[0] { BeforeStrict(a[1..], b[1..]); }
  }

  lemma {:induction false} BeforeTransitive(a: string, b: string, c: string)
    requires Before(a, b) && Before(b, c)
    ensures Before(a, c)
    decreases |a|
  {
    if |a| > 0 && a[0] == b[0] == c[0] { BeforeTransitive(a[1..], b[1..], c[1..]); }
  }

  predicate IsFirst(names: set<string>, m: string) {
    m in names && forall x :: x in names && x != m ==> Before(m, x)
  }

  lemma {:induction false} FirstExists(names: set<string>) returns (m: string)
    requires names != {}
    ensures IsFirst(names, m)
    decreases |names|
  {
    var x :| x in names;
    var rest := names - {x};
    if rest == {} {
      m := x;
      assert names == {x};
    } else {
      var r := FirstExists(rest);
      BeforeTotal(x, r);
      if Before(x, r) {
        m := x;
        forall y | y in names && y != x ensures Before(x, y) {
          if y != r { BeforeTransitive(x, r, y); }
        }
      } else {
        m := r;
        forall y | y in names && y != r ensures Before(r, y) {
          if y != x { assert y in rest; }
        }
      }
    }
  }

  lemma FirstUnique(names: set<string>, m: string, n: string)
    requires IsFirst(names, m) && IsFirst(names, n)
    ensures m == n
  {
    if m != n { BeforeStrict(m, n); }
  }

  lemma OneFirst(names: set<string>)
    requires names != {}
    ensures exists m :: IsFirst(names, m)
    ensures forall m, n :: IsFirst(names, m) && IsFirst(names, n) ==> m == n
  {
    var m := FirstExists(names);
    forall m, n | IsFirst(names, m) && IsFirst(names, n) ensures m == n { FirstUnique(names, m, n); }
  }

  /** The names as the ordered map iterates over them. */
  function Sorted(names: set<string>): seq<string>
    decreases |names|
  {
    if names == {} then []
    else
      OneFirst(names);
      var m :| m in names && IsFirst(names, m);
      [m] + Sorted(names - {m})
  }

  ghost predicate Ascending(list: seq<string>) {
    forall i: nat, j: nat :: i < j < |list| ==> Before(list[i], list[j])
  }

  /** The order is strictly ascending, with every name and nothing else. */
  lemma {:induction false} SortedIsAscending(names: set<string>)
    ensures Ascending(Sorted(names))
    ensures forall x :: x in Sorted(names) <==> x in names
    decreases |names|
  {
    if names != {} {
      OneFirst(names);
      var m :| m in names && IsFirst(names, m);
      var rest := Sorted(names - {m});
      SortedIsAscending(names - {m});
      var list := [m] + rest;
      assert Sorted(names) == list;
      forall i: nat, j: nat | i < j < |list| ensures Before(list[i], list[j]) {
        assert list[j] in rest;
        if i > 0 { assert Before(rest[i - 1], rest[j - 1]); }
      }
    }
  }
}
