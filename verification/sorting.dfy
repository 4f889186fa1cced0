/**
 Sorting by an integer key, as the source does with `sorted(zip(keys,
 items))` and `argsort`: a stable insertion sort, its result a permutation
 of the input in key order.
 */
module Sorting {
  /** Keys never decrease along `s`. */
  predicate ByKey<T>(key: T -> int, s: seq<T>) {
    forall i, j :: 0 <= i < j < |s| ==> key(s[i]) <= key(s[j])
  }

  /**
   Inserts `d` in front of the first element whose key is not below its
   own, so elements with equal keys keep their order.
   */
  function Insert<T(==)>(key: T -> int, d: T, s: seq<T>): (r: seq<T>)
    ensures |r| == |s| + 1 && multiset(r) == multiset(s) + multiset{d}
    ensures ByKey(key, s) ==> ByKey(key, r)
    decreases |s|
  {
    if |s| == 0 then [d]
    else if key(d) <= key(s[0]) then [d] + s
    else
      var rest := Insert(key, d, s[1..]);
      assert s == [s[0]] + s[1..];
      InsertBehind(key, d, s, rest);
      [s[0]] + rest
  }

  /** Every element inserted behind the head of a sorted list has a key no smaller than the head's. */
  lemma InsertBehind<T>(key: T -> int, d: T, s: seq<T>, rest: seq<T>)
    requires |s| > 0 && key(s[0]) < key(d) && multiset(rest) == multiset(s[1..]) + multiset{d}
    requires ByKey(key, s[1..]) ==> ByKey(key, rest)
    ensures ByKey(key, s) ==> ByKey(key, [s[0]] + rest)
  {
    if ByKey(key, s) {
      assert ByKey(key, s[1..]) by {
        forall i, j | 0 <= i < j < |s[1..]| ensures key(s[1..][i]) <= key(s[1..][j]) {
          assert s[1..][i] == s[i + 1] && s[1..][j] == s[j + 1];
        }
      }
      var r := [s[0]] + rest;
      forall j | 0 < j < |r| ensures key(r[0]) <= key(r[j]) {
        assert r[j] in multiset(rest);
        if r[j] != d {
          assert r[j] in multiset(s[1..]);
          var m :| 0 <= m < |s[1..]| && s[1..][m] == r[j];
          assert s[m + 1] == r[j];
        }
      }
      forall i, j | 0 <= i < j < |r| ensures key(r[i]) <= key(r[j]) {
        if i > 0 {
          assert r[i] == rest[i - 1] && r[j] == rest[j - 1];
        }
      }
    }
  }

  /** Sorting by key: Python's `sorted` on (key, element) pairs with the keys distinct or, on a tie, the input order kept. */
  function SortByKey<T(==)>(key: T -> int, s: seq<T>): (r: seq<T>)
    ensures |r| == |s| && multiset(r) == multiset(s) && ByKey(key, r)
    decreases |s|
  {
    if |s| == 0 then []
    else
      assert s == [s[0]] + s[1..];
      Insert(key, s[0], SortByKey(key, s[1..]))
  }

  /** Inserting in front of a list whose keys are all no smaller puts the element first. */
  lemma InsertSorted<T>(key: T -> int, d: T, s: seq<T>)
    requires ByKey(key, [d] + s)
    ensures Insert(key, d, s) == [d] + s
  {
    if |s| > 0 {
      assert ([d] + s)[0] == d && ([d] + s)[1] == s[0];
      assert key(d) <= key(s[0]);
    }
  }

  /** Sorting a list that is already in key order changes nothing. */
  lemma {:induction false} SortSorted<T>(key: T -> int, s: seq<T>)
    requires ByKey(key, s)
    ensures SortByKey(key, s) == s
    decreases |s|
  {
    if |s| > 0 {
      assert ByKey(key, s[1..]) by {
        forall i, j | 0 <= i < j < |s[1..]| ensures key(s[1..][i]) <= key(s[1..][j]) {
          assert s[1..][i] == s[i + 1] && s[1..][j] == s[j + 1];
        }
      }
      SortSorted(key, s[1..]);
      assert s == [s[0]] + s[1..];
      InsertSorted(key, s[0], s[1..]);
    }
  }

  /**
   sort_digits_in_numbers sorts every number twice; the second sort finds
   the list ordered and leaves it as it is.
   */
  lemma SortTwice<T>(key: T -> int, s: seq<T>)
    ensures SortByKey(key, SortByKey(key, s)) == SortByKey(key, s)
  {
    SortSorted(key, SortByKey(key, s));
  }
  /** Keys strictly increase along `s`. */
  predicate StrictlyByKey<T>(key: T -> int, s: seq<T>) {
    forall i, j :: 0 <= i < j < |s| ==> key(s[i]) < key(s[j])
  }

  /** Two positions of `s` hold elements with the same key. */
  predicate Tied<T>(key: T -> int, s: seq<T>) {
    exists i, j :: 0 <= i < j < |s| && key(s[i]) == key(s[j])
  }

  /** An element at two positions occurs at least twice. */
  lemma CountTwo<T>(s: seq<T>, i: nat, j: nat)
    requires i < j < |s| && s[i] == s[j]
    ensures multiset(s)[s[i]] >= 2
  {
    assert s == s[..j] + [s[j]] + s[j + 1..];
    assert s[i] == s[..j][i];
  }

  /** Two occurrences, counted by the multiset, sit at two different positions. */
  lemma TwoPositions<T>(s: seq<T>, x: T, y: T)
    requires x in multiset(s) && y in multiset(s) && (x == y ==> multiset(s)[x] >= 2)
    ensures exists i, j :: 0 <= i < j < |s| && {s[i], s[j]} == {x, y}
  {
    var a :| 0 <= a < |s| && s[a] == x;
    var rest := s[..a] + s[a + 1..];
    assert s == s[..a] + [x] + s[a + 1..];
    assert multiset(s) == multiset(rest) + multiset{x};
    assert y in multiset(rest);
    var m :| 0 <= m < |rest| && rest[m] == y;
    var b := if m < a then m else m + 1;
    assert s[b] == y;
    if a < b {
      assert {s[a], s[b]} == {x, y};
    } else {
      assert {s[b], s[a]} == {x, y};
    }
  }

  /** Reordering keeps a tie. */
  lemma TiedPerm<T>(key: T -> int, a: seq<T>, b: seq<T>)
    requires multiset(a) == multiset(b) && Tied(key, a)
    ensures Tied(key, b)
  {
    var i, j :| 0 <= i < j < |a| && key(a[i]) == key(a[j]);
    if a[i] == a[j] {
      CountTwo(a, i, j);
    }
    assert a[i] in multiset(b) && a[j] in multiset(b);
    TwoPositions(b, a[i], a[j]);
    var i', j' :| 0 <= i' < j' < |b| && {b[i'], b[j']} == {a[i], a[j]};
    assert b[i'] == a[i] || b[i'] == a[j];
    assert b[j'] == a[i] || b[j'] == a[j];
  }

  /** Dropping the head keeps keys strictly increasing. */
  lemma StrictTail<T>(key: T -> int, s: seq<T>)
    requires |s| > 0 && StrictlyByKey(key, s)
    ensures StrictlyByKey(key, s[1..])
  {
    forall i, j | 0 <= i < j < |s[1..]| ensures key(s[1..][i]) < key(s[1..][j]) {
      assert s[1..][i] == s[i + 1] && s[1..][j] == s[j + 1];
    }
  }

  /** Two strictly increasing reorderings of the same elements start with the same element. */
  lemma StrictSameHead<T>(key: T -> int, s: seq<T>, t: seq<T>)
    requires |s| > 0 && multiset(s) == multiset(t) && StrictlyByKey(key, s) && StrictlyByKey(key, t)
    ensures |t| > 0 && s[0] == t[0]
  {
    assert s[0] in multiset(t) && t[0] in multiset(s);
    var m :| 0 <= m < |t| && t[m] == s[0];
    var n :| 0 <= n < |s| && s[n] == t[0];
    assert key(s[0]) <= key(s[n]) == key(t[0]);
    assert m == 0;
  }

  /** Equal heads leave the tails of two reorderings reorderings of each other. */
  lemma TailPerm<T>(s: seq<T>, t: seq<T>)
    requires |s| > 0 && |t| > 0 && s[0] == t[0] && multiset(s) == multiset(t)
    ensures multiset(s[1..]) == multiset(t[1..])
  {
    assert s == [s[0]] + s[1..] && t == [t[0]] + t[1..];
    assert multiset(s[1..]) == multiset(s) - multiset{s[0]};
    assert multiset(t[1..]) == multiset(t) - multiset{s[0]};
  }

  /**
   With distinct keys the sorted order is unique: two reorderings of the
   same elements that both strictly increase in key are equal.
   */
  lemma {:induction false} StrictSortUnique<T>(key: T -> int, s: seq<T>, t: seq<T>)
    requires multiset(s) == multiset(t) && StrictlyByKey(key, s) && StrictlyByKey(key, t)
    ensures s == t
    decreases |s|
  {
    assert |s| == |multiset(s)| == |t|;
    if |s| > 0 {
      StrictSameHead(key, s, t);
      TailPerm(s, t);
      StrictTail(key, s);
      StrictTail(key, t);
      StrictSortUnique(key, s[1..], t[1..]);
      assert s == [s[0]] + s[1..] && t == [t[0]] + t[1..];
    }
  }
}
