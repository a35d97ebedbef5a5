/** The sequence operations that several components share. */
module Lists {

  /** The list without any occurrence of x, in the same order. */
  function Without<T(==)>(s: seq<T>, x: T): seq<T> {
    if s == [] then []
    else
      var rest := Without(s[..|s| - 1], x);
      if s[|s| - 1] == x then rest else rest + [s[|s| - 1]]
  }

  /** The last element moved to the front. */
  function Rotated<T>(s: seq<T>): seq<T>
    requires s != []
  {
    [s[|s| - 1]] + s[..|s| - 1]
  }

  predicate NoDuplicates<T(==)>(s: seq<T>) {
    forall i, j :: 0 <= i < j < |s| ==> s[i] != s[j]
  }

  lemma {:induction false} WithoutMembers<T>(s: seq<T>, x: T)
    ensures forall y :: y in Without(s, x) <==> y in s && y != x
    ensures NoDuplicates(s) ==> NoDuplicates(Without(s, x))
  {
    if s != [] {
      var n := |s| - 1;
      WithoutMembers(s[..n], x);
      assert forall y :: y in s <==> y in s[..n] || y == s[n];
      if NoDuplicates(s) {
        assert s[n] !in s[..n];
      }
    }
  }

  lemma {:induction false} WithoutAppend<T>(s: seq<T>, t: seq<T>, x: T)
    ensures Without(s + t, x) == Without(s, x) + Without(t, x)
  {
    if t == [] {
      assert s + t == s;
    } else {
      assert (s + t)[..|s + t| - 1] == s + t[..|t| - 1];
      WithoutAppend(s, t[..|t| - 1], x);
    }
  }

  lemma {:induction false} WithoutAbsent<T>(s: seq<T>, x: T)
    requires x !in s
    ensures Without(s, x) == s
  {
    if s != [] {
      WithoutAbsent(s[..|s| - 1], x);
    }
  }

  lemma RotatedMembers<T>(s: seq<T>)
    requires s != []
    ensures forall y :: y in Rotated(s) <==> y in s
    ensures NoDuplicates(s) ==> NoDuplicates(Rotated(s))
  {
    assert s == s[..|s| - 1] + [s[|s| - 1]];
  }

  /** Where no element is repeated, only one position goes. */
  lemma WithoutSplit<T>(s: seq<T>, k: nat)
    requires k < |s| && NoDuplicates(s)
    ensures Without(s, s[k]) == s[..k] + s[k + 1..]
  {
    assert s == s[..k] + [s[k]] + s[k + 1..];
    WithoutAppend(s[..k] + [s[k]], s[k + 1..], s[k]);
    WithoutAppend(s[..k], [s[k]], s[k]);
    WithoutAbsent(s[..k], s[k]);
    WithoutAbsent(s[k + 1..], s[k]);
    assert Without([s[k]], s[k]) == [];
  }
}
