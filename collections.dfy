/** Sequence helpers behind the Python lists of the registration system.
    Python's `x in xs` and `xs.remove(x)` compare by object identity here
    (no class of the system defines `__eq__`), which is Dafny's `==` on
    references. */
module Collections {

  datatype Option<T> = None | Some(value: T)

  predicate NoDuplicates<T(==)>(s: seq<T>)
  {
    forall i, j :: 0 <= i < j < |s| ==> s[i] != s[j]
  }

  /** Index of the first occurrence of `x` in `s`. */
  function IndexOf<T(==)>(s: seq<T>, x: T): (i: nat)
    requires x in s
    ensures i < |s| && s[i] == x
    ensures forall j :: 0 <= j < i ==> s[j] != x
  {
    if s[0] == x then 0 else 1 + IndexOf(s[1..], x)
  }

  /** `list.remove(x)` when `x` is present, and no change when it is not:
      only the first occurrence of `x` goes, the rest keeps its order. */
  function RemoveFirst<T(==)>(s: seq<T>, x: T): (r: seq<T>)
    ensures x !in s ==> r == s
    ensures x in s ==> r == s[..IndexOf(s, x)] + s[IndexOf(s, x) + 1..]
  {
    if s == [] then []
    else if s[0] == x then s[1..]
    else
      var rest := RemoveFirst(s[1..], x);
      if x in s then
        IndexOfTail(s, x);
        var k := IndexOf(s[1..], x);
        assert rest == s[1..][..k] + s[1..][k + 1..];
        assert [s[0]] + rest == ([s[0]] + s[1..][..k]) + s[1..][k + 1..];
        [s[0]] + rest
      else
        assert x !in s[1..] && rest == s[1..];
        assert [s[0]] + s[1..] == s;
        [s[0]] + rest
  }

  /** Past a different head, the first occurrence sits one place further
      on than in the tail, and the slices around it line up. */
  lemma IndexOfTail<T>(s: seq<T>, x: T)
    requires x in s && s[0] != x
    ensures x in s[1..] && IndexOf(s, x) == 1 + IndexOf(s[1..], x)
    ensures [s[0]] + s[1..][..IndexOf(s[1..], x)] == s[..IndexOf(s, x)]
    ensures s[1..][IndexOf(s[1..], x) + 1..] == s[IndexOf(s, x) + 1..]
  {
    assert s == [s[0]] + s[1..];
  }

  /** What `RemoveFirst` leaves: one fewer copy of `x` and no other change
      to what the list holds. */
  lemma {:induction false} RemoveFirstContents<T>(s: seq<T>, x: T)
    ensures x in s ==> |RemoveFirst(s, x)| == |s| - 1
    ensures multiset(RemoveFirst(s, x)) == multiset(s) - multiset{x}
  {
    if s != [] {
      assert s == [s[0]] + s[1..];
      assert multiset(s) == multiset{s[0]} + multiset(s[1..]);
      if s[0] != x {
        RemoveFirstContents(s[1..], x);
        assert RemoveFirst(s, x) == [s[0]] + RemoveFirst(s[1..], x);
        assert multiset(RemoveFirst(s, x)) == multiset{s[0]} + multiset(RemoveFirst(s[1..], x));
      }
    }
  }

  /** Every element other than `x` is kept, and nothing new appears. */
  lemma {:induction false} RemoveFirstMembers<T>(s: seq<T>, x: T)
    ensures forall y :: y in RemoveFirst(s, x) ==> y in s
    ensures forall y :: y != x && y in s ==> y in RemoveFirst(s, x)
  {
    if s != [] && s[0] != x {
      RemoveFirstMembers(s[1..], x);
      assert RemoveFirst(s, x) == [s[0]] + RemoveFirst(s[1..], x);
      assert forall y :: y in s <==> y == s[0] || y in s[1..];
    }
  }

  /** Where each remaining element came from: positions before the removed
      one are kept, later ones move one place forward. */
  lemma RemoveFirstAt<T>(s: seq<T>, x: T, k: nat)
    requires x in s && k < |s| - 1
    ensures |RemoveFirst(s, x)| == |s| - 1
    ensures RemoveFirst(s, x)[k] == s[if k < IndexOf(s, x) then k else k + 1]
  {
    var i := IndexOf(s, x);
    var r := RemoveFirst(s, x);
    assert r == s[..i] + s[i + 1..];
    if k < i {
      assert r[k] == s[..i][k];
    } else {
      assert r[k] == s[i + 1..][k - i];
    }
  }

  /** In a list without repeats, removing `x` removes every trace of it. */
  lemma {:induction false} RemoveFirstNoDuplicates<T>(s: seq<T>, x: T)
    requires NoDuplicates(s)
    ensures NoDuplicates(RemoveFirst(s, x))
    ensures x !in RemoveFirst(s, x)
  {
    if x in s {
      var i := IndexOf(s, x);
      var r := RemoveFirst(s, x);
      RemoveFirstContents(s, x);
      forall p, q | 0 <= p < q < |r| ensures r[p] != r[q] {
        RemoveFirstAt(s, x, p);
        RemoveFirstAt(s, x, q);
      }
      forall k | 0 <= k < |r| ensures r[k] != x {
        RemoveFirstAt(s, x, k);
      }
    }
  }

  /** Appending an element that is not yet present keeps a list free of repeats. */
  lemma {:induction false} AppendNoDuplicates<T>(s: seq<T>, x: T)
    requires NoDuplicates(s) && x !in s
    ensures NoDuplicates(s + [x])
  {
    forall i, j | 0 <= i < j < |s + [x]| ensures (s + [x])[i] != (s + [x])[j] {
      assert (s + [x])[i] == s[i];
    }
  }
}
