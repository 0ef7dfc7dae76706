/** Small collection helpers shared by the registry and the style builder. */
module Collections {

  datatype Option<T> = None | Some(value: T)

  /** The outcome of a PHP call that may end in a fatal error. */
  datatype Result<T> = Success(value: T) | Failure(error: string)

  /** No element occurs at two positions. */
  predicate NoDup<T(==)>(s: seq<T>)
  {
    forall i, j :: 0 <= i < j < |s| ==> s[i] != s[j]
  }

  /** The elements of a sequence, as a set. */
  function Elems<T>(s: seq<T>): set<T>
  {
    set x | x in s
  }

  /**
   * Insertion into an insertion-ordered set, the way a PHP array keyed by
   * value behaves under `$a[$x] = true`: a present element is left where it
   * is, a new element is placed last.
   */
  function Insert<T(==)>(s: seq<T>, x: T): (r: seq<T>)
    ensures s <= r
    ensures Elems(r) == Elems(s) + {x}
    ensures x in s ==> r == s
    ensures x !in s ==> |r| == |s| + 1 && r[|s|] == x
    ensures NoDup(s) ==> NoDup(r)
  {
    if x in s then s else s + [x]
  }

  lemma PrefixElems<T>(a: seq<T>, b: seq<T>)
    requires a <= b
    ensures Elems(a) <= Elems(b)
    ensures forall x :: x in a ==> x in b
  {
    forall x | x in a ensures x in b {
      var i :| 0 <= i < |a| && a[i] == x;
      assert b[i] == x;
    }
  }

  lemma InsertCons<T>(a: T, s: seq<T>, x: T)
    requires a != x
    ensures Insert([a] + s, x) == [a] + Insert(s, x)
  {
  }

  lemma NoDupCons<T>(a: T, s: seq<T>)
    ensures NoDup([a] + s) <==> a !in s && NoDup(s)
  {
    var t := [a] + s;
    if NoDup(t) {
      forall i, j | 0 <= i < j < |s| ensures s[i] != s[j] {
        assert t[i + 1] == s[i] && t[j + 1] == s[j];
      }
      forall k | 0 <= k < |s| ensures s[k] != a {
        assert t[0] == a && t[k + 1] == s[k];
      }
    }
    if a !in s && NoDup(s) {
      forall i, j | 0 <= i < j < |t| ensures t[i] != t[j] {
        assert t[j] == s[j - 1];
        if i > 0 {
          assert t[i] == s[i - 1];
        }
      }
    }
  }

  /** Splitting a sequence at its head and appending the parts. */
  lemma AppendHead<T>(acc: seq<T>, s: seq<T>)
    requires s != []
    ensures acc + [s[0]] + s[1..] == acc + s
  {
    assert [s[0]] + s[1..] == s;
  }

  lemma ElemsAppend<T>(s: seq<T>, x: T)
    ensures Elems(s + [x]) == Elems(s) + {x}
  {
  }
}
