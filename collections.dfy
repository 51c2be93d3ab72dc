/** Small facts about sequences used as lists of identities: membership,
    first index of an element, duplicate-freedom and the number of distinct
    elements. */
module Collections {

  datatype Option<+T> = None | Some(value: T)

  /** No element occurs twice. */
  predicate NoDuplicates<T(==)>(s: seq<T>) {
    forall i, j :: 0 <= i < j < |s| ==> s[i] != s[j]
  }

  /** The set of elements of a list. */
  function Elems<T>(s: seq<T>): set<T> {
    set x | x in s
  }

  /** `findIndex` over a list: the first position holding `x`, or -1. */
  function IndexOf<T(==)>(s: seq<T>, x: T): (r: int)
    ensures -1 <= r < |s|
    ensures r == -1 <==> x !in s
    ensures 0 <= r ==> s[r] == x && forall j :: 0 <= j < r ==> s[j] != x
  {
    if |s| == 0 then -1
    else if s[0] == x then 0
    else
      var k := IndexOf(s[1..], x);
      if k < 0 then -1 else k + 1
  }

  /** In a duplicate-free list the position of an element is its only one. */
  lemma IndexOfDistinct<T>(s: seq<T>, i: nat)
    requires NoDuplicates(s) && i < |s|
    ensures IndexOf(s, s[i]) == i
  {
  }

  /** A list has at least as many entries as distinct elements, and exactly
      as many when it has no duplicates. */
  lemma {:induction false} ElemsCard<T>(s: seq<T>)
    ensures |Elems(s)| <= |s|
    ensures NoDuplicates(s) ==> |Elems(s)| == |s|
  {
    if |s| > 0 {
      var t := s[1..];
      ElemsCard(t);
      assert Elems(s) == Elems(t) + {s[0]} by {
        forall x ensures x in Elems(s) <==> x in Elems(t) + {s[0]} {
          if x in s && x != s[0] {
            var i :| 0 <= i < |s| && s[i] == x;
            assert t[i - 1] == x;
          }
        }
      }
      if s[0] in Elems(t) {
        assert !NoDuplicates(s) by {
          var i :| 0 <= i < |t| && t[i] == s[0];
          assert s[0] == s[i + 1];
        }
      } else {
        assert |Elems(s)| == |Elems(t)| + 1;
        assert NoDuplicates(s) ==> NoDuplicates(t) by {
          if NoDuplicates(s) {
            forall i, j | 0 <= i < j < |t| ensures t[i] != t[j] {
              assert t[i] == s[i + 1] && t[j] == s[j + 1];
            }
          }
        }
      }
    }
  }

  /** Appending an element that is absent keeps a list duplicate-free. */
  lemma AppendFresh<T>(s: seq<T>, x: T)
    requires NoDuplicates(s) && x !in s
    ensures NoDuplicates(s + [x])
  {
  }

  /** When the elements of one duplicate-free list are among those of
      another duplicate-free list of the same length, both lists hold the
      same elements. */
  lemma {:induction false} SameSizeSubsetIsEqual<T>(small: seq<T>, big: seq<T>)
    requires NoDuplicates(small) && NoDuplicates(big)
    requires Elems(small) <= Elems(big) && |small| == |big|
    ensures Elems(small) == Elems(big)
  {
    ElemsCard(small);
    ElemsCard(big);
    var rest := Elems(big) - Elems(small);
    assert Elems(big) == Elems(small) + rest;
    assert |Elems(big)| == |Elems(small)| + |rest|;
    assert rest == {};
  }
}
