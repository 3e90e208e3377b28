/**
 * `Array.prototype.sort` with the comparator `(a, b) => key(b) - key(a)`:
 * a stable sort into non-increasing order of an integer key. (A difference of
 * two integer time values is never rounded to zero or across it in double
 * precision, so the comparator's sign is exactly that of `key(b) - key(a)`.)
 *
 * The sort is written as an insertion sort that inserts each element in front
 * of every element whose key is not greater, which is the stable order.
 */
module ArraySort {
  import opened Seqs

  predicate SortedDesc<T>(s: seq<T>, key: T -> int) {
    forall i, j :: 0 <= i < j < |s| ==> key(s[i]) >= key(s[j])
  }

  /** The elements of `s` whose key is `k`, in their order in `s`. */
  function KeyRun<T(!new)>(s: seq<T>, key: T -> int, k: int): seq<T> {
    Filter(s, x => key(x) == k)
  }

  /** Number of leading elements of `s` whose key is greater than `key(x)`. */
  function InsertionPoint<T>(x: T, s: seq<T>, key: T -> int): (p: nat)
    ensures p <= |s|
    ensures forall i :: 0 <= i < p ==> key(s[i]) > key(x)
    ensures p < |s| ==> key(s[p]) <= key(x)
  {
    if s == [] || key(s[0]) <= key(x) then 0 else 1 + InsertionPoint(x, s[1..], key)
  }

  /** Puts `x` in front of the first element whose key is not greater than its own. */
  function Insert<T>(x: T, s: seq<T>, key: T -> int): (r: seq<T>)
    ensures |r| == |s| + 1
  {
    if s == [] || key(s[0]) <= key(x) then [x] + s else [s[0]] + Insert(x, s[1..], key)
  }

  /** The insertion is the input cut at the insertion point with `x` in the cut. */
  lemma {:induction false} InsertSplit<T>(x: T, s: seq<T>, key: T -> int)
    ensures Insert(x, s, key) == s[..InsertionPoint(x, s, key)] + [x] + s[InsertionPoint(x, s, key)..]
  {
    if s != [] && key(s[0]) > key(x) {
      InsertSplit(x, s[1..], key);
      var p := InsertionPoint(x, s[1..], key);
      assert s[..p + 1] == [s[0]] + s[1..][..p];
      assert s[p + 1..] == s[1..][p..];
    }
  }

  function SortDesc<T(!new)>(s: seq<T>, key: T -> int): (r: seq<T>)
    ensures SortedDesc(r, key)
    ensures multiset(r) == multiset(s)
  {
    if s == [] then []
    else
      var rest := SortDesc(s[1..], key);
      InsertSorted(s[0], rest, key);
      assert s == [s[0]] + s[1..];
      Insert(s[0], rest, key)
  }

  lemma InsertSorted<T>(x: T, s: seq<T>, key: T -> int)
    requires SortedDesc(s, key)
    ensures SortedDesc(Insert(x, s, key), key)
    ensures multiset(Insert(x, s, key)) == multiset{x} + multiset(s)
  {
    InsertOrdered(x, s, key);
    InsertMultiset(x, s, key);
  }

  lemma InsertOrdered<T>(x: T, s: seq<T>, key: T -> int)
    requires SortedDesc(s, key)
    ensures SortedDesc(Insert(x, s, key), key)
  {
    var p := InsertionPoint(x, s, key);
    var r := Insert(x, s, key);
    InsertAt(x, s, key, p, 0);
    forall i, j | 0 <= i < j < |r| ensures key(r[i]) >= key(r[j]) {
      InsertAt(x, s, key, p, i);
      InsertAt(x, s, key, p, j);
    }
  }

  /** The element at position `i` of the insertion, read off the input. */
  lemma {:induction false} InsertAt<T>(x: T, s: seq<T>, key: T -> int, p: nat, i: nat)
    requires p == InsertionPoint(x, s, key) && i <= |s|
    ensures |Insert(x, s, key)| == |s| + 1
    ensures i < p ==> Insert(x, s, key)[i] == s[i]
    ensures i == p ==> Insert(x, s, key)[i] == x
    ensures i > p ==> Insert(x, s, key)[i] == s[i - 1]
  {
    if s != [] && key(s[0]) > key(x) {
      if i > 0 {
        InsertAt(x, s[1..], key, p - 1, i - 1);
      } else {
        InsertAt(x, s[1..], key, p - 1, 0);
      }
    }
  }

  lemma InsertMultiset<T>(x: T, s: seq<T>, key: T -> int)
    ensures multiset(Insert(x, s, key)) == multiset{x} + multiset(s)
  {
    InsertSplit(x, s, key);
    var p := InsertionPoint(x, s, key);
    var a, b := s[..p], s[p..];
    assert s == a + b;
    calc {
      multiset(a + [x] + b);
      multiset(a + [x]) + multiset(b);
      multiset(a) + multiset{x} + multiset(b);
    }
  }

  /** Inserting `x` adds it at the head of its key's run and leaves every other run alone. */
  lemma {:induction false} InsertKeyRun<T(!new)>(x: T, s: seq<T>, key: T -> int, k: int)
    ensures KeyRun(Insert(x, s, key), key, k) == (if key(x) == k then [x] else []) + KeyRun(s, key, k)
  {
    if s == [] || key(s[0]) <= key(x) {
      KeyRunCons(x, s, key, k);
    } else {
      var t := Insert(x, s[1..], key);
      InsertKeyRun(x, s[1..], key, k);
      KeyRunCons(s[0], t, key, k);
      KeyRunCons(s[0], s[1..], key, k);
      assert s == [s[0]] + s[1..];
    }
  }

  /** The run of key `k` in `[h] + t`: `h` if its key is `k`, then the run in `t`. */
  lemma KeyRunCons<T(!new)>(h: T, t: seq<T>, key: T -> int, k: int)
    ensures KeyRun([h] + t, key, k) == (if key(h) == k then [h] else []) + KeyRun(t, key, k)
  {
    assert ([h] + t)[1..] == t;
  }

  /** The sort is stable: elements with equal keys keep their relative order. */
  lemma {:induction false} SortDescStable<T(!new)>(s: seq<T>, key: T -> int, k: int)
    ensures KeyRun(SortDesc(s, key), key, k) == KeyRun(s, key, k)
  {
    if s != [] {
      SortDescStable(s[1..], key, k);
      InsertKeyRun(s[0], SortDesc(s[1..], key), key, k);
    }
  }

  /** Sorting what is already in order changes nothing. */
  lemma {:induction false} SortDescOfSorted<T(!new)>(s: seq<T>, key: T -> int)
    requires SortedDesc(s, key)
    ensures SortDesc(s, key) == s
  {
    if s != [] {
      assert SortedDesc(s[1..], key);
      SortDescOfSorted(s[1..], key);
      assert s == [s[0]] + s[1..];
    }
  }
}
