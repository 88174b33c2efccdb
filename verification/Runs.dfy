/** What a loop that detects changes of key in a sorted sequence computes. */
module Runs {
  import opened Orders

  /** The key of every run of equal keys in `s`, in order. */
  ghost function RunKeys<T>(key: T -> Gram, s: seq<T>): (keys: seq<Gram>)
    ensures s != [] ==> keys != [] && keys[|keys| - 1] == key(s[|s| - 1])
  {
    if s == [] then []
    else
      var keys := RunKeys(key, s[..|s| - 1]);
      var k := key(s[|s| - 1]);
      if keys != [] && keys[|keys| - 1] == k then keys else keys + [k]
  }

  /** The elements of `s` with key `k`, in order. */
  ghost function Select<T>(key: T -> Gram, k: Gram, s: seq<T>): seq<T> {
    if s == [] then []
    else
      Select(key, k, s[..|s| - 1]) + if key(s[|s| - 1]) == k then [s[|s| - 1]] else []
  }

  /** The outputs of `f` for each of `keys`, given the elements of `s` with that key. */
  ghost function Grouped<T, O>(key: T -> Gram, f: (Gram, seq<T>) -> seq<O>, keys: seq<Gram>, s: seq<T>): seq<O> {
    if keys == [] then []
    else
      var k := keys[|keys| - 1];
      Grouped(key, f, keys[..|keys| - 1], s) + f(k, Select(key, k, s))
  }

  ghost predicate KeySorted<T>(key: T -> Gram, s: seq<T>) {
    forall i, j | 0 <= i < j < |s| :: !GramMore(key(s[i]), key(s[j]))
  }

  lemma SelectSnoc<T>(key: T -> Gram, k: Gram, s: seq<T>, x: T)
    ensures Select(key, k, s + [x]) == Select(key, k, s) + if key(x) == k then [x] else []
  {
    assert (s + [x])[..|s|] == s;
  }

  lemma RunKeysSnoc<T>(key: T -> Gram, s: seq<T>, x: T)
    ensures RunKeys(key, s + [x]) ==
            if s != [] && key(s[|s| - 1]) == key(x) then RunKeys(key, s) else RunKeys(key, s) + [key(x)]
  {
    var more, n := s + [x], |s|;
    assert more[..n] == s && more[n] == x && |more| == n + 1;
  }

  lemma {:induction false} SelectNone<T>(key: T -> Gram, k: Gram, s: seq<T>)
    requires forall x | x in s :: key(x) != k
    ensures Select(key, k, s) == []
  {
    if s != [] {
      assert s == s[..|s| - 1] + [s[|s| - 1]];
      SelectNone(key, k, s[..|s| - 1]);
    }
  }

  lemma {:induction false} GroupedStable<T, O>(
    key: T -> Gram, f: (Gram, seq<T>) -> seq<O>, keys: seq<Gram>, s: seq<T>, x: T)
    requires key(x) !in keys
    ensures Grouped(key, f, keys, s + [x]) == Grouped(key, f, keys, s)
  {
    if keys != [] {
      var n := |keys| - 1;
      assert keys[n] in keys && forall k | k in keys[..n] :: k in keys;
      GroupedStable(key, f, keys[..n], s, x);
      SelectSnoc(key, keys[n], s, x);
      assert Select(key, keys[n], s + [x]) == Select(key, keys[n], s);
    }
  }

  lemma SortedFront<T>(key: T -> Gram, s: seq<T>, x: T)
    requires KeySorted(key, s + [x])
    ensures KeySorted(key, s) && (s != [] ==> !GramMore(key(s[|s| - 1]), key(x)))
  {
    var more := s + [x];
    assert forall i | 0 <= i < |s| :: more[i] == s[i];
    assert more[|s|] == x;
  }

  /** A key that differs from the one before it exceeds every earlier key. */
  lemma NewKeyIsGreater<T>(key: T -> Gram, s: seq<T>, x: T, i: nat)
    requires KeySorted(key, s) && i < |s|
    requires key(s[|s| - 1]) != key(x) && !GramMore(key(s[|s| - 1]), key(x))
    ensures GramMore(key(x), key(s[i]))
  {
    var last, k := key(s[|s| - 1]), key(s[i]);
    GramMoreAsymmetric(k, k);
    assert !GramMore(k, last);
    if !GramMore(key(x), k) {
      GramMoreNegTransitive(key(x), k, last);
      GramMoreLinear(key(x), last);
    }
  }

  lemma {:induction false} RunKeysMembers<T>(key: T -> Gram, s: seq<T>, k: Gram)
    ensures k in RunKeys(key, s) <==> exists x :: x in s && key(x) == k
  {
    if s != [] {
      var n := |s| - 1;
      var front, x := s[..n], s[n];
      assert s == front + [x];
      RunKeysMembers(key, front, k);
      RunKeysSnoc(key, front, x);
      assert forall y :: y in s <==> y in front || y == x;
    }
  }

  /** A new key exceeds the keys of all runs before it. */
  lemma EarlierKey<T>(key: T -> Gram, s: seq<T>, x: T, k: Gram)
    requires KeySorted(key, s) && s != [] && k in RunKeys(key, s)
    requires key(s[|s| - 1]) != key(x) && !GramMore(key(s[|s| - 1]), key(x))
    ensures GramMore(key(x), k)
  {
    RunKeysMembers(key, s, k);
    var y :| y in s && key(y) == k;
    var i :| 0 <= i < |s| && s[i] == y;
    NewKeyIsGreater(key, s, x, i);
  }

  lemma AscendingSnoc(keys: seq<Gram>, k: Gram)
    requires Ascending(keys) && forall i | 0 <= i < |keys| :: GramMore(k, keys[i])
    ensures Ascending(keys + [k])
  {
  }

  lemma NewKeyIsLast<T>(key: T -> Gram, s: seq<T>, x: T)
    requires KeySorted(key, s) && s != [] && Ascending(RunKeys(key, s))
    requires key(s[|s| - 1]) != key(x) && !GramMore(key(s[|s| - 1]), key(x))
    ensures Ascending(RunKeys(key, s) + [key(x)])
  {
    var keys := RunKeys(key, s);
    forall i | 0 <= i < |keys| ensures GramMore(key(x), keys[i]) {
      EarlierKey(key, s, x, keys[i]);
    }
    AscendingSnoc(keys, key(x));
  }

  lemma {:induction false} RunsInOrder<T>(key: T -> Gram, s: seq<T>)
    requires KeySorted(key, s)
    ensures Ascending(RunKeys(key, s))
  {
    if s != [] {
      var n := |s| - 1;
      var front, x := s[..n], s[n];
      assert s == front + [x];
      SortedFront(key, front, x);
      RunsInOrder(key, front);
      RunKeysSnoc(key, front, x);
      if n > 0 && key(s[n - 1]) != key(x) {
        NewKeyIsLast(key, front, x);
      }
    }
  }

  /** In a sorted sequence every key has one run, and the runs come in ascending order. */
  lemma RunKeysAscend<T>(key: T -> Gram, s: seq<T>)
    requires KeySorted(key, s)
    ensures Ascending(RunKeys(key, s))
    ensures forall k :: k in RunKeys(key, s) <==> exists x :: x in s && key(x) == k
  {
    RunsInOrder(key, s);
    forall k ensures k in RunKeys(key, s) <==> exists x :: x in s && key(x) == k {
      RunKeysMembers(key, s, k);
    }
  }

  /** A change of key begins a run that no earlier element belongs to. */
  lemma NewRun<T>(key: T -> Gram, s: seq<T>, x: T)
    requires KeySorted(key, s + [x]) && s != [] && key(s[|s| - 1]) != key(x)
    ensures key(x) !in RunKeys(key, s) && Select(key, key(x), s) == []
  {
    SortedFront(key, s, x);
    GramMoreAsymmetric(key(x), key(x));
    forall y | y in s ensures key(y) != key(x) {
      var i :| 0 <= i < |s| && s[i] == y;
      NewKeyIsGreater(key, s, x, i);
    }
    SelectNone(key, key(x), s);
    RunKeysMembers(key, s, key(x));
  }

  /** The key of the latest run is not among the earlier ones. */
  lemma LatestRun<T>(key: T -> Gram, s: seq<T>)
    requires KeySorted(key, s) && s != []
    ensures var keys := RunKeys(key, s); key(s[|s| - 1]) !in keys[..|keys| - 1]
  {
    RunKeysAscend(key, s);
    GramMoreAsymmetric(key(s[|s| - 1]), key(s[|s| - 1]));
  }

  /** One step of a group-by loop over a sorted sequence. */
  lemma StepGrouped<T, O>(key: T -> Gram, f: (Gram, seq<T>) -> seq<O>, s: seq<T>, x: T)
    requires KeySorted(key, s + [x]) && s != []
    ensures var keys, more := RunKeys(key, s), RunKeys(key, s + [x]);
            var closed := if key(s[|s| - 1]) == key(x) then keys[..|keys| - 1] else keys;
            && more[..|more| - 1] == closed
            && Grouped(key, f, closed, s + [x]) == Grouped(key, f, closed, s)
            && Select(key, key(x), s + [x]) ==
               if key(s[|s| - 1]) == key(x) then Select(key, key(x), s) + [x] else [x]
  {
    var keys := RunKeys(key, s);
    SortedFront(key, s, x);
    RunKeysSnoc(key, s, x);
    SelectSnoc(key, key(x), s, x);
    if key(s[|s| - 1]) == key(x) {
      LatestRun(key, s);
      GroupedStable(key, f, keys[..|keys| - 1], s, x);
    } else {
      NewRun(key, s, x);
      GroupedStable(key, f, keys, s, x);
    }
  }

  lemma StartGrouped<T, O>(key: T -> Gram, f: (Gram, seq<T>) -> seq<O>, x: T)
    ensures RunKeys(key, [x]) == [key(x)]
    ensures Grouped(key, f, [key(x)], [x]) == f(key(x), [x])
  {
    SelectSnoc(key, key(x), [], x);
    RunKeysSnoc(key, [], x);
    assert [] + [x] == [x];
    assert [key(x)][..0] == [];
  }

  /** The outputs end with those of the latest run. */
  lemma LatestGrouped<T, O>(key: T -> Gram, f: (Gram, seq<T>) -> seq<O>, s: seq<T>)
    requires s != []
    ensures var keys, k := RunKeys(key, s), key(s[|s| - 1]);
            Grouped(key, f, keys, s) == Grouped(key, f, keys[..|keys| - 1], s) + f(k, Select(key, k, s))
  {
  }
}
