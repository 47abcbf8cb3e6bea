/** Lists without repetition, their places and what is left when one entry is taken out. */
module Lists {
  function IndexOf<T(==)>(l: seq<T>, a: T): (i: int)
    requires a in l
    ensures 0 <= i < |l| && l[i] == a
  {
    if l[0] == a then 0 else 1 + IndexOf(l[1..], a)
  }

  ghost predicate Distinct<T>(l: seq<T>) {
    forall i, j :: 0 <= i < j < |l| ==> l[i] != l[j]
  }

  function Without<T>(l: seq<T>, i: int): seq<T>
    requires 0 <= i < |l|
  {
    l[..i] + l[i + 1..]
  }

  lemma WithoutContains<T>(l: seq<T>, i: int)
    requires 0 <= i < |l|
    ensures forall a :: a in Without(l, i) ==> a in l
    ensures forall a :: a in l && a != l[i] ==> a in Without(l, i)
    ensures Distinct(l) ==> l[i] !in Without(l, i) && Distinct(Without(l, i))
  {
    var w := Without(l, i);
    forall a | a in l && a != l[i] ensures a in w {
      var j :| 0 <= j < |l| && l[j] == a;
      assert w[if j < i then j else j - 1] == a;
    }
    assert forall j :: 0 <= j < |w| ==> w[j] == l[if j < i then j else j + 1];
  }
}
