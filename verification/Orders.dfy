/** The records that the stages exchange, the comparators that order them, and
    sortedness under a comparator. Word and lemma n-grams are sequences of ids. */
module Orders {

  /** A tuple of word ids or of lemma ids. */
  type Gram = seq<nat>

  type u32 = n: nat | n < 0x1_0000_0000

  /** The value a 32-bit unsigned variable keeps of `n`: the remainder modulo 2^32. */
  function U32(n: nat): (r: u32)
    ensures n < 0x1_0000_0000 ==> r == n
  {
    if n < 0x1_0000_0000 then n else U32(n - 0x1_0000_0000)
  }

  lemma {:induction false} U32IsRemainder(n: nat)
    ensures U32(n) == n % 0x1_0000_0000
  {
    if n >= 0x1_0000_0000 {
      U32IsRemainder(n - 0x1_0000_0000);
    }
  }

  lemma {:induction false} U32Add(a: nat, b: nat)
    ensures U32(U32(a) + b) == U32(a + b) == U32(a + U32(b))
  {
    if a >= 0x1_0000_0000 {
      U32Add(a - 0x1_0000_0000, b);
    } else if b >= 0x1_0000_0000 {
      U32Add(a, b - 0x1_0000_0000);
    }
  }

  /** Wrapping early or late makes no difference to a sum. */
  lemma {:induction false} U32Sum(x: nat, y: nat, a: nat, a': nat, b: nat)
    requires U32(a) == U32(a') && x == a + U32(b) && y == a' + b
    ensures U32(x) == U32(y)
  {
    if a >= 0x1_0000_0000 {
      U32Sum(x - 0x1_0000_0000, y, a - 0x1_0000_0000, a', b);
    } else if a' >= 0x1_0000_0000 {
      U32Sum(x, y - 0x1_0000_0000, a, a' - 0x1_0000_0000, b);
    } else if b >= 0x1_0000_0000 {
      U32Sum(x, y - 0x1_0000_0000, a, a', b - 0x1_0000_0000);
    }
  }

  /** `grams::Unigram`, `grams::Bigram` and `grams::Trigram`, by the length of the key. */
  datatype Count = Count(key: Gram, weight: u32)

  /** `grams::Lem2AndWords` and `grams::Lem3AndWords`. */
  datatype Ext = Ext(lids: Gram, wids: Gram, count: u32)

  /** `Case` of `grams::Lem2Group` and `grams::Lem3Group`. */
  datatype Case = Case(wids: Gram, count: u32)

  /** `grams::Lem2Group` and `grams::Lem3Group`. */
  datatype Group = Group(lids: Gram, cases: seq<Case>, weight: real)

  /** Marks the triples at which negative transitivity is used. */
  ghost predicate Chain<T>(a: T, b: T, c: T) {
    true
  }

  /** What `std::sort` and `std::priority_queue` ask of a comparator. */
  ghost predicate StrictWeakOrder<T(!new)>(comp: (T, T) -> bool) {
    && (forall a, b :: comp(a, b) ==> !comp(b, a))
    && (forall a, b, c :: Chain(a, b, c) && !comp(a, b) && !comp(b, c) ==> !comp(a, c))
  }

  lemma NegTransitive<T(!new)>(comp: (T, T) -> bool, a: T, b: T, c: T)
    requires StrictWeakOrder(comp) && !comp(a, b) && !comp(b, c)
    ensures !comp(a, c)
  {
    assert Chain(a, b, c);
  }

  /** `s` is in the order in which a queue with comparator `comp` hands records out. */
  ghost predicate Sorted<T>(comp: (T, T) -> bool, s: seq<T>) {
    forall i, j | 0 <= i < j < |s| :: !comp(s[i], s[j])
  }

  // Comparators ---------------------------------------------------------------

  /** `a` and `b` agree before position `i`, where `a` is greater. */
  predicate MoreAt(a: Gram, b: Gram, i: nat) {
    && i < |a| && i <= |b| && (forall k | 0 <= k < i :: a[k] == b[k])
    && (i == |b| || a[i] > b[i])
  }

  /** `std::tuple`'s operator `>`: lexicographic. */
  predicate GramMore(a: Gram, b: Gram) {
    exists i | 0 <= i < |a| :: MoreAt(a, b, i)
  }

  /** `BigramMore` and `TrigramMore`. */
  predicate CountMore(a: Count, b: Count) {
    GramMore(a.key, b.key)
  }

  /** `Lem2AndWordsMore` and `Lem3AndWordsMore`. */
  predicate ExtMore(a: Ext, b: Ext) {
    GramMore(a.lids, b.lids)
  }

  /** `LemGroupLess`. */
  predicate GroupLess(a: Group, b: Group) {
    a.weight < b.weight
  }

  lemma GramMoreAsymmetric(a: Gram, b: Gram)
    ensures GramMore(a, b) ==> !GramMore(b, a)
  {
    forall i, j | 0 <= i < |a| && 0 <= j < |b| && MoreAt(a, b, i) ensures !MoreAt(b, a, j) {
    }
  }

  lemma GramMoreTransitive(a: Gram, b: Gram, c: Gram)
    requires GramMore(a, b) && GramMore(b, c)
    ensures GramMore(a, c)
  {
    var i: nat :| i < |a| && MoreAt(a, b, i);
    var j: nat :| j < |b| && MoreAt(b, c, j);
    assert MoreAt(a, c, if i < j then i else j);
  }

  lemma {:induction false} FirstDifference(a: Gram, b: Gram, i: nat)
    requires i <= |a| && i <= |b| && forall k | 0 <= k < i :: a[k] == b[k]
    ensures a == b || GramMore(a, b) || GramMore(b, a)
    decreases |a| - i
  {
    if i == |a| == |b| {
    } else if i == |a| || (i < |b| && b[i] > a[i]) {
      assert MoreAt(b, a, i);
    } else if i == |b| || a[i] > b[i] {
      assert MoreAt(a, b, i);
    } else {
      FirstDifference(a, b, i + 1);
    }
  }

  /** Keys that neither follow one another are the same key: `BigramEq`, `TrigramEq`
      and the run detection compare exactly what the comparators compare. */
  lemma GramMoreLinear(a: Gram, b: Gram)
    requires !GramMore(a, b) && !GramMore(b, a)
    ensures a == b
  {
    FirstDifference(a, b, 0);
  }

  lemma GramMoreNegTransitive(a: Gram, b: Gram, c: Gram)
    requires !GramMore(a, b) && !GramMore(b, c)
    ensures !GramMore(a, c)
  {
    if GramMore(a, c) {
      if GramMore(b, a) {
        GramMoreTransitive(b, a, c);
      } else {
        GramMoreLinear(a, b);
      }
    }
  }

  /** A greater first component decides ... */
  lemma GramMoreFirst(a: Gram, b: Gram)
    requires |a| == |b| > 0 && a[0] != b[0]
    ensures GramMore(a, b) <==> a[0] > b[0]
  {
    if a[0] > b[0] {
      assert MoreAt(a, b, 0);
    }
  }

  /** ... and equal ones leave it to the rest. */
  lemma GramMoreRest(a: Gram, b: Gram)
    requires |a| == |b| > 0 && a[0] == b[0]
    ensures GramMore(a, b) <==> GramMore(a[1..], b[1..])
  {
    if GramMore(a, b) {
      var i: nat :| i < |a| && MoreAt(a, b, i);
      assert MoreAt(a[1..], b[1..], i - 1);
    }
    if GramMore(a[1..], b[1..]) {
      var i: nat :| i < |a[1..]| && MoreAt(a[1..], b[1..], i);
      assert forall k | 0 < k < i + 1 :: a[k] == a[1..][k - 1] && b[k] == b[1..][k - 1];
      assert MoreAt(a, b, i + 1);
    }
  }

  /** `>` of ids. */
  lemma GramMoreOne(a: Gram, b: Gram)
    requires |a| == |b| == 1
    ensures GramMore(a, b) <==> a[0] > b[0]
  {
    if a[0] != b[0] {
      GramMoreFirst(a, b);
    } else {
      GramMoreAsymmetric(a, b);
    }
  }

  /** `>` of pairs. */
  lemma GramMoreTwo(a: Gram, b: Gram)
    requires |a| == |b| == 2
    ensures GramMore(a, b) <==> a[0] > b[0] || (a[0] == b[0] && a[1] > b[1])
  {
    if a[0] != b[0] {
      GramMoreFirst(a, b);
    } else {
      GramMoreRest(a, b);
      GramMoreOne(a[1..], b[1..]);
    }
  }

  /** `>` of triples. */
  lemma GramMoreThree(a: Gram, b: Gram)
    requires |a| == |b| == 3
    ensures GramMore(a, b) <==>
            a[0] > b[0] || (a[0] == b[0] && (a[1] > b[1] || (a[1] == b[1] && a[2] > b[2])))
  {
    if a[0] != b[0] {
      GramMoreFirst(a, b);
    } else {
      GramMoreRest(a, b);
      GramMoreTwo(a[1..], b[1..]);
    }
  }

  /** All five comparators of compare.hpp are usable by the sorts and by the queue. */
  lemma ComparatorsAreOrders()
    ensures StrictWeakOrder(GramMore)
    ensures StrictWeakOrder(CountMore)
    ensures StrictWeakOrder(ExtMore)
    ensures StrictWeakOrder(GroupLess)
  {
    forall a, b ensures GramMore(a, b) ==> !GramMore(b, a) {
      GramMoreAsymmetric(a, b);
    }
    forall a, b, c | Chain(a, b, c) && !GramMore(a, b) && !GramMore(b, c) ensures !GramMore(a, c) {
      GramMoreNegTransitive(a, b, c);
    }
    forall a: Count, b: Count, c: Count | Chain(a, b, c) ensures Chain(a.key, b.key, c.key) {
    }
    forall a: Ext, b: Ext, c: Ext | Chain(a, b, c) ensures Chain(a.lids, b.lids, c.lids) {
    }
  }

  /** Strictly ascending keys. */
  ghost predicate Ascending(keys: seq<Gram>) {
    forall i, j | 0 <= i < j < |keys| :: GramMore(keys[j], keys[i])
  }

  // std::sort -------------------------------------------------------------------

  /** The order `std::sort` establishes for the comparator `less`. */
  ghost predicate SortedBy<T>(less: (T, T) -> bool, s: seq<T>) {
    forall i, j | 0 <= i < j < |s| :: !less(s[j], s[i])
  }

  lemma ConsSorted<T>(less: (T, T) -> bool, x: T, s: seq<T>, t: seq<T>)
    requires SortedBy(less, t) && multiset(t) == multiset(s)
    requires forall i | 0 <= i < |s| :: !less(s[i], x)
    ensures SortedBy(less, [x] + t)
  {
    forall j | 0 <= j < |t| ensures !less(t[j], x) {
      assert t[j] in multiset(s);
    }
  }

  lemma HeadSorted<T(!new)>(less: (T, T) -> bool, x: T, s: seq<T>)
    requires StrictWeakOrder(less) && SortedBy(less, s) && s != [] && !less(s[0], x)
    ensures SortedBy(less, [x] + s)
  {
    forall i | 0 <= i < |s| ensures !less(s[i], x) {
      if i > 0 {
        NegTransitive(less, s[i], s[0], x);
      }
    }
    ConsSorted(less, x, s, s);
  }

  function Insert<T(!new)>(less: (T, T) -> bool, x: T, s: seq<T>): (r: seq<T>)
    requires StrictWeakOrder(less) && SortedBy(less, s)
    ensures SortedBy(less, r) && multiset(r) == multiset(s) + multiset{x}
  {
    if s == [] then [x]
    else if !less(s[0], x) then
      HeadSorted(less, x, s);
      [x] + s
    else
      var t := Insert(less, x, s[1..]);
      assert s == [s[0]] + s[1..];
      ConsSorted(less, s[0], s[1..] + [x], t);
      [s[0]] + t
  }

  /** `std::sort`: callers may rely on the order and on the contents, not on ties. */
  function Sort<T(!new)>(less: (T, T) -> bool, s: seq<T>): (r: seq<T>)
    requires StrictWeakOrder(less)
    ensures SortedBy(less, r) && multiset(r) == multiset(s) && |r| == |s|
  {
    if s == [] then []
    else
      assert s == [s[0]] + s[1..];
      var r := Insert(less, s[0], Sort(less, s[1..]));
      assert |r| == |multiset(r)| == |multiset(s)| == |s|;
      r
  }
}
