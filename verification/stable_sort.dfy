/** The stable sort behind every `[...xs].sort(cmp)` of the dashboard.

    Each comparator in the source subtracts two numeric keys
    (`(a, b) => key(a) - key(b)`), so a sort is determined by a key function.
    Keys are reals extended with +infinity, which the sidebar list uses for a
    missing distance. `Array.prototype.sort` is stable, so elements with equal
    keys keep their relative order; that is stated here as: for every key
    value, the elements carrying it appear in the output in input order. */
module StableSort {
  import opened Seqs

  datatype Key = Finite(value: real) | Infinite

  /** The order on keys: reals as usual, infinity above every real. */
  predicate Le(a: Key, b: Key) {
    match b
    case Infinite => true
    case Finite(y) => a.Finite? && a.value <= y
  }

  /** The key of an integer, for comparators of the form `a - b`. */
  function Ascending(n: int): Key {
    Finite(n as real)
  }

  /** The key of an integer, for comparators of the form `b - a`. */
  function Descending(n: int): Key {
    Finite(-(n as real))
  }

  predicate SortedBy<T>(s: seq<T>, key: T -> Key) {
    forall i, j :: 0 <= i < j < |s| ==> Le(key(s[i]), key(s[j]))
  }

  /** The elements of `s` whose key is `k`, in order. */
  function WithKey<T>(s: seq<T>, key: T -> Key, k: Key): seq<T> {
    if |s| == 0 then []
    else if key(s[0]) == k then [s[0]] + WithKey(s[1..], key, k)
    else WithKey(s[1..], key, k)
  }

  /** Equal keys keep their relative order. */
  ghost predicate StableFor<T>(r: seq<T>, s: seq<T>, key: T -> Key) {
    forall k :: WithKey(r, key, k) == WithKey(s, key, k)
  }

  /** Inserts `x` into a sorted list in front of the first element whose key
      is not below its own, so it precedes every element of equal key. */
  function Insert<T>(x: T, s: seq<T>, key: T -> Key): (r: seq<T>)
    requires SortedBy(s, key)
    ensures SortedBy(r, key)
    ensures multiset(r) == multiset(s) + multiset{x}
    ensures forall k :: WithKey(r, key, k) ==
              (if key(x) == k then [x] + WithKey(s, key, k) else WithKey(s, key, k))
  {
    if |s| == 0 || Le(key(x), key(s[0])) then
      InsertFront(x, s, key);
      [x] + s
    else
      var rest := Insert(x, s[1..], key);
      InsertStep(x, s, rest, key);
      [s[0]] + rest
  }

  lemma WithKeyCons<T>(a: T, t: seq<T>, key: T -> Key, k: Key)
    ensures WithKey([a] + t, key, k) ==
              (if key(a) == k then [a] + WithKey(t, key, k) else WithKey(t, key, k))
  {
    assert ([a] + t)[1..] == t;
  }

  /** The base case of Insert: `x` goes first. */
  lemma InsertFront<T>(x: T, s: seq<T>, key: T -> Key)
    requires SortedBy(s, key)
    requires |s| == 0 || Le(key(x), key(s[0]))
    ensures SortedBy([x] + s, key)
    ensures forall k :: WithKey([x] + s, key, k) ==
              (if key(x) == k then [x] + WithKey(s, key, k) else WithKey(s, key, k))
  {
    forall k
      ensures WithKey([x] + s, key, k) ==
              (if key(x) == k then [x] + WithKey(s, key, k) else WithKey(s, key, k))
    {
      WithKeyCons(x, s, key, k);
    }
  }

  /** The recursive case of Insert: `s[0]` stays in front of the insertion. */
  lemma InsertStep<T>(x: T, s: seq<T>, rest: seq<T>, key: T -> Key)
    requires SortedBy(s, key) && |s| > 0 && !Le(key(x), key(s[0]))
    requires SortedBy(rest, key)
    requires multiset(rest) == multiset(s[1..]) + multiset{x}
    requires forall k :: WithKey(rest, key, k) ==
              (if key(x) == k then [x] + WithKey(s[1..], key, k) else WithKey(s[1..], key, k))
    ensures SortedBy([s[0]] + rest, key)
    ensures multiset([s[0]] + rest) == multiset(s) + multiset{x}
    ensures forall k :: WithKey([s[0]] + rest, key, k) ==
              (if key(x) == k then [x] + WithKey(s, key, k) else WithKey(s, key, k))
  {
    assert s == [s[0]] + s[1..];
    HeadBelowInsertion(x, s, rest, key);
    forall k
      ensures WithKey([s[0]] + rest, key, k) ==
              (if key(x) == k then [x] + WithKey(s, key, k) else WithKey(s, key, k))
    {
      WithKeyCons(s[0], rest, key, k);
      WithKeyCons(s[0], s[1..], key, k);
    }
  }

  /** In the recursive case of Insert, the head stays below everything after it. */
  lemma HeadBelowInsertion<T>(x: T, s: seq<T>, rest: seq<T>, key: T -> Key)
    requires SortedBy(s, key) && |s| > 0 && !Le(key(x), key(s[0]))
    requires SortedBy(rest, key)
    requires multiset(rest) == multiset(s[1..]) + multiset{x}
    ensures SortedBy([s[0]] + rest, key)
  {
    forall y | y in multiset(rest)
      ensures Le(key(s[0]), key(y))
    {
      if y != x {
        assert y in s[1..];
      }
    }
    var l := [s[0]] + rest;
    forall i, j | 0 <= i < j < |l| ensures Le(key(l[i]), key(l[j])) {
      if i == 0 {
        assert l[j] == rest[j - 1] && rest[j - 1] in multiset(rest);
      } else {
        assert l[i] == rest[i - 1] && l[j] == rest[j - 1];
      }
    }
  }

  /** `[...s].sort((a, b) => key(a) - key(b))`. */
  function SortBy<T>(s: seq<T>, key: T -> Key): (r: seq<T>)
    ensures SortedBy(r, key)
    ensures multiset(r) == multiset(s)
    ensures |r| == |s|
    ensures StableFor(r, s, key)
  {
    if |s| == 0 then []
    else
      assert s == [s[0]] + s[1..];
      Insert(s[0], SortBy(s[1..], key), key)
  }

  /** Deleting elements from a sorted list leaves it sorted. */
  lemma {:induction false} SubsequenceSorted<T>(a: seq<T>, b: seq<T>, key: T -> Key)
    requires Subsequence(a, b) && SortedBy(b, key)
    ensures SortedBy(a, key)
    decreases |b|
  {
    if |a| > 0 {
      if a[0] == b[0] && Subsequence(a[1..], b[1..]) {
        SubsequenceSorted(a[1..], b[1..], key);
        SubsequenceMultiset(a[1..], b[1..]);
        forall j | 0 < j < |a|
          ensures Le(key(a[0]), key(a[j]))
        {
          assert a[j] in multiset(a[1..]);
          assert a[j] in b[1..];
        }
      } else {
        SubsequenceSorted(a, b[1..], key);
      }
    }
  }

  /** The head of a sorted list carries a key below that of every element. */
  lemma SortedHeadLeast<T>(r: seq<T>, key: T -> Key, x: T)
    requires SortedBy(r, key) && x in r
    ensures Le(key(r[0]), key(x))
  {
    var m :| 0 <= m < |r| && r[m] == x;
    if m > 0 {
      assert Le(key(r[0]), key(r[m]));
    }
  }

  /** Cutting a list to a prefix cuts each key's elements to a prefix. */
  lemma {:induction false} WithKeyPrefix<T>(a: seq<T>, b: seq<T>, key: T -> Key, k: Key)
    requires a <= b
    ensures WithKey(a, key, k) <= WithKey(b, key, k)
  {
    if |a| > 0 {
      assert a[1..] <= b[1..];
      WithKeyPrefix(a[1..], b[1..], key, k);
    }
  }

  /** The head of WithKey is the first element of `s` carrying key `k`. */
  lemma {:induction false} WithKeyHead<T>(s: seq<T>, key: T -> Key, k: Key) returns (i: int)
    requires |WithKey(s, key, k)| > 0
    ensures 0 <= i < |s| && s[i] == WithKey(s, key, k)[0] && key(s[i]) == k
    ensures forall j :: 0 <= j < i ==> key(s[j]) != k
  {
    if key(s[0]) == k {
      i := 0;
    } else {
      var i' := WithKeyHead(s[1..], key, k);
      i := i' + 1;
    }
  }

  /** In a sorted list the elements carrying the least key form a prefix;
      by stability the head of the output is the first input element with the
      least key. */
  lemma {:induction false} SortHeadIsFirstWithLeastKey<T>(s: seq<T>, key: T -> Key)
    requires |s| > 0
    ensures var r := SortBy(s, key);
      |WithKey(s, key, key(r[0]))| > 0 && r[0] == WithKey(s, key, key(r[0]))[0]
  {
    var r := SortBy(s, key);
    assert r == [r[0]] + r[1..];
    assert WithKey(r, key, key(r[0]))[0] == r[0];
  }

  /** Membership in WithKey: exactly the elements carrying that key. */
  lemma {:induction false} WithKeyMembers<T>(s: seq<T>, key: T -> Key, k: Key, x: T)
    ensures x in WithKey(s, key, k) <==> x in s && key(x) == k
  {
    if |s| > 0 {
      WithKeyMembers(s[1..], key, k, x);
      assert s == [s[0]] + s[1..];
    }
  }
}
