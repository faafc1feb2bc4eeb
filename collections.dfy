/** Facts about the lists and dictionaries the matcher keys by name. */
module Collections {

  /** No element occurs twice: the head is not in the tail, and so on down
      the list. */
  predicate Distinct<T(==)>(s: seq<T>) {
    s == [] || (s[0] !in s[1..] && Distinct(s[1..]))
  }

  /** The same, stated by positions: no two slots hold the same element. */
  lemma {:induction false} DistinctIndices<T>(s: seq<T>)
    ensures Distinct(s) <==> forall i, j :: 0 <= i < j < |s| ==> s[i] != s[j]
  {
    if s != [] {
      var t := s[1..];
      DistinctIndices(t);
      assert forall k :: 0 <= k < |t| ==> t[k] == s[k + 1];
      if Distinct(s) {
        forall i, j | 0 <= i < j < |s| ensures s[i] != s[j] {
          if i == 0 {
            assert s[j] in t;
          } else {
            assert t[i - 1] != t[j - 1];
          }
        }
      }
      if forall i, j :: 0 <= i < j < |s| ==> s[i] != s[j] {
        forall k | 0 <= k < |t| ensures t[k] != s[0] {
          assert s[k + 1] != s[0];
        }
        forall i, j | 0 <= i < j < |t| ensures t[i] != t[j] {
          assert s[i + 1] != s[j + 1];
        }
      }
    }
  }

  /** The elements of s, as a set. */
  function Elements<T>(s: seq<T>): set<T> {
    set x | x in s
  }

  /** `List<T>.Remove(x)`: deletes the first occurrence of x, if any. */
  function RemoveFirst<T(==)>(s: seq<T>, x: T): (r: seq<T>)
    ensures x !in s ==> r == s
    ensures x in s ==> |r| == |s| - 1
  {
    if s == [] then []
    else if s[0] == x then
      assert s == [s[0]] + s[1..];
      s[1..]
    else
      assert s == [s[0]] + s[1..];
      [s[0]] + RemoveFirst(s[1..], x)
  }

  /** Removing the element at its first occurrence i closes the gap at i. */
  lemma {:induction false} RemoveFirstAt<T>(s: seq<T>, i: nat)
    requires i < |s| && forall j :: 0 <= j < i ==> s[j] != s[i]
    ensures RemoveFirst(s, s[i]) == s[..i] + s[i + 1..]
  {
    if i == 0 {
      assert s[..0] + s[1..] == s[1..];
    } else {
      var t, x := s[1..], s[i];
      assert t[i - 1] == x && s[0] != x;
      assert forall j :: 0 <= j < i - 1 ==> t[j] == s[j + 1];
      RemoveFirstAt(t, i - 1);
      assert RemoveFirst(s, x) == [s[0]] + RemoveFirst(t, x);
      assert s[..i] == [s[0]] + t[..i - 1];
      assert s[i + 1..] == t[i..];
    }
  }

  /** Deleting one slot of a list without repetitions (what Remove does to
      its element) leaves a list without repetitions that no longer holds
      the deleted element. */
  lemma DistinctDelete<T>(s: seq<T>, i: nat)
    requires Distinct(s) && i < |s|
    ensures RemoveFirst(s, s[i]) == s[..i] + s[i + 1..]
    ensures Distinct(s[..i] + s[i + 1..])
    ensures s[i] !in s[..i] + s[i + 1..]
    ensures forall x :: x in s[..i] + s[i + 1..] <==> x in s && x != s[i]
  {
    assert forall j :: 0 <= j < i ==> s[j] != s[i] by {
      DistinctIndices(s);
    }
    RemoveFirstAt(s, i);
    DeleteMembers(s, i);
    DeleteKeepsDistinct(s, i);
  }

  /** What deleting slot i of a list without repetitions leaves: everything
      but the deleted element. */
  lemma DeleteMembers<T>(s: seq<T>, i: nat)
    requires Distinct(s) && i < |s|
    ensures forall x :: x in s[..i] + s[i + 1..] <==> x in s && x != s[i]
  {
    var r := s[..i] + s[i + 1..];
    assert forall k :: 0 <= k < |r| ==> r[k] == s[if k < i then k else k + 1];
    forall x | x in s && x != s[i] ensures x in r {
      var k :| 0 <= k < |s| && s[k] == x;
      assert r[if k < i then k else k - 1] == x;
    }
    forall x | x in r ensures x in s && x != s[i] {
      var k :| 0 <= k < |r| && r[k] == x;
      var j := if k < i then k else k + 1;
      assert s[j] == x;
      assert s[j] != s[i] by {
        DistinctIndices(s);
      }
    }
  }

  /** Deleting a slot keeps a list without repetitions. */
  lemma DeleteKeepsDistinct<T>(s: seq<T>, i: nat)
    requires Distinct(s) && i < |s|
    ensures Distinct(s[..i] + s[i + 1..])
  {
    var r := s[..i] + s[i + 1..];
    DistinctIndices(s);
    DistinctIndices(r);
    forall j, k | 0 <= j < k < |r| ensures r[j] != r[k] {
      var j', k' := if j < i then j else j + 1, if k < i then k else k + 1;
      assert r[j] == s[j'] && r[k] == s[k'];
    }
  }

  /** Joining two lists without repetitions and without common elements
      gives a list without repetitions. */
  lemma DistinctConcat<T>(s: seq<T>, t: seq<T>)
    requires Distinct(s) && Distinct(t)
    requires forall x :: x in s ==> x !in t
    ensures Distinct(s + t)
  {
    var r := s + t;
    DistinctIndices(s);
    DistinctIndices(t);
    DistinctIndices(r);
    forall i, j | 0 <= i < j < |r| ensures r[i] != r[j] {
      if j >= |s| && i < |s| {
        assert r[i] in s && r[j] == t[j - |s|];
      }
    }
  }

  /** A list without repetitions has as many elements as its set. */
  lemma {:induction false} DistinctCard<T>(s: seq<T>)
    requires Distinct(s)
    ensures |Elements(s)| == |s|
  {
    if s != [] {
      DistinctCard(s[1..]);
      assert Elements(s) == {s[0]} + Elements(s[1..]);
      assert s[0] !in Elements(s[1..]);
    }
  }

  /** Different keys hold different values. */
  ghost predicate Injective<K, V>(m: map<K, V>) {
    forall p, q :: p in m && q in m && p != q ==> m[p] != m[q]
  }

  /** An injective dictionary has as many values as keys. */
  lemma {:induction false} InjectiveCard<K, V>(m: map<K, V>)
    requires Injective(m)
    ensures |m.Values| == |m.Keys|
    decreases m.Keys
  {
    if m.Keys != {} {
      var k :| k in m.Keys;
      var m' := m - {k};
      assert m'.Keys == m.Keys - {k};
      InjectiveCard(m');
      assert m.Values == m'.Values + {m[k]};
      assert m[k] !in m'.Values;
    }
  }

  /** A subset has at most as many elements as its superset. */
  lemma {:induction false} SubsetCard<T>(a: set<T>, b: set<T>)
    requires a <= b
    ensures |a| <= |b|
    decreases b
  {
    if a != {} {
      var x :| x in a;
      SubsetCard(a - {x}, b - {x});
    }
  }
}
