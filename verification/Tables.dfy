/** Tables of counts: what uni.bin, bi.bin, tri.bin and their parts hold. */
module Tables {
  import opened Orders
  import opened Bags

  /** `c.weight` copies of `c.key`: a bag sum of these is a sum of weights per key. */
  ghost function Copies(c: Count): multiset<Gram> {
    multiset{}[c.key := c.weight]
  }

  ghost predicate HasKey(t: seq<Count>, k: Gram) {
    exists i :: 0 <= i < |t| && t[i].key == k
  }

  ghost predicate KeysAscend(t: seq<Count>) {
    forall i, j | 0 <= i < j < |t| :: GramMore(t[j].key, t[i].key)
  }

  /** `t` lists the keys of `s` once each, ascending, with their total weights. */
  ghost predicate IsTotals(t: seq<Count>, s: seq<Count>) {
    && KeysAscend(t)
    && (forall k :: HasKey(t, k) <==> HasKey(s, k))
    && (forall c | c in t :: c.weight == U32(Gather(Copies, s)[c.key]))
  }

  ghost predicate DistinctKeys(t: seq<Count>) {
    forall i, j | 0 <= i < j < |t| :: t[i].key != t[j].key
  }

  /** `t` lists the members of `bag` once each with their multiplicities, as 32 bits hold them. */
  ghost predicate Tabulates(t: seq<Count>, bag: multiset<Gram>) {
    && DistinctKeys(t)
    && (forall k :: HasKey(t, k) <==> k in bag)
    && (forall c | c in t :: c.weight == U32(bag[c.key]))
  }

  /** The same in ascending order, as `sort_map` and `groupby_save` leave it. */
  ghost predicate IsCountTable(t: seq<Count>, bag: multiset<Gram>) {
    KeysAscend(t) && Tabulates(t, bag)
  }

  lemma AscendingIsDistinct(t: seq<Count>)
    requires KeysAscend(t)
    ensures DistinctKeys(t)
  {
    forall i, j | 0 <= i < j < |t| ensures t[i].key != t[j].key {
      GramMoreAsymmetric(t[i].key, t[j].key);
    }
  }

  /** Pairs come in the order of their first ids, and of their second ids where these are equal. */
  lemma PairsAscend(t: seq<Count>)
    requires KeysAscend(t) && forall i | 0 <= i < |t| :: |t[i].key| == 2
    ensures forall i, j | 0 <= i < j < |t| ::
              t[i].key[0] < t[j].key[0] || (t[i].key[0] == t[j].key[0] && t[i].key[1] < t[j].key[1])
  {
    forall i, j | 0 <= i < j < |t|
      ensures t[i].key[0] < t[j].key[0] || (t[i].key[0] == t[j].key[0] && t[i].key[1] < t[j].key[1])
    {
      GramMoreTwo(t[j].key, t[i].key);
    }
  }

  /** Triples in the same way. */
  lemma TriplesAscend(t: seq<Count>)
    requires KeysAscend(t) && forall i | 0 <= i < |t| :: |t[i].key| == 3
    ensures forall i, j | 0 <= i < j < |t| ::
              t[i].key[0] < t[j].key[0]
              || (t[i].key[0] == t[j].key[0]
                  && (t[i].key[1] < t[j].key[1] || (t[i].key[1] == t[j].key[1] && t[i].key[2] < t[j].key[2])))
  {
    forall i, j | 0 <= i < j < |t|
      ensures t[i].key[0] < t[j].key[0]
              || (t[i].key[0] == t[j].key[0]
                  && (t[i].key[1] < t[j].key[1] || (t[i].key[1] == t[j].key[1] && t[i].key[2] < t[j].key[2])))
    {
      GramMoreThree(t[j].key, t[i].key);
    }
  }

  lemma KeyInBag(t: seq<Count>, bag: multiset<Gram>, n: nat)
    requires Tabulates(t, bag) && forall g | g in bag :: |g| == n
    ensures forall i | 0 <= i < |t| :: |t[i].key| == n
  {
    forall i | 0 <= i < |t| ensures |t[i].key| == n {
      assert HasKey(t, t[i].key);
    }
  }

  lemma AscendingIsSorted(t: seq<Count>)
    requires KeysAscend(t)
    ensures Sorted(CountMore, t)
  {
    forall i, j | 0 <= i < j < |t| ensures !CountMore(t[i], t[j]) {
      GramMoreAsymmetric(t[j].key, t[i].key);
    }
  }

  lemma HasKeyIff(s: seq<Count>, k: Gram)
    ensures HasKey(s, k) <==> exists x :: x in s && x.key == k
  {
    if HasKey(s, k) {
      var i :| 0 <= i < |s| && s[i].key == k;
      assert s[i] in s;
    }
  }

  lemma TotalsPermute(t: seq<Count>, s: seq<Count>, s': seq<Count>)
    requires IsTotals(t, s) && multiset(s) == multiset(s')
    ensures IsTotals(t, s')
  {
    GatherPermutes(Copies, s, s');
    forall k ensures HasKey(s, k) <==> HasKey(s', k) {
      HasKeyIff(s, k);
      HasKeyIff(s', k);
      assert forall x :: x in s <==> x in multiset(s);
      assert forall x :: x in s' <==> x in multiset(s');
    }
  }

  lemma {:induction false} NoCopies(s: seq<Count>, k: Gram)
    requires !HasKey(s, k)
    ensures Gather(Copies, s)[k] == 0
  {
    if s != [] {
      var n := |s| - 1;
      assert s[n].key != k && forall i | 0 <= i < n :: s[..n][i] == s[i];
      NoCopies(s[..n], k);
    }
  }

  lemma TotalCopies(t: seq<Count>, s: seq<Count>, k: Gram)
    requires IsTotals(t, s)
    ensures Gather(Copies, t)[k] == U32(Gather(Copies, s)[k])
  {
    AscendingIsDistinct(t);
    TableCopies(t, k);
    if HasKey(t, k) {
      var i :| 0 <= i < |t| && t[i].key == k;
      assert t[i] in t;
    } else {
      NoCopies(s, k);
    }
  }

  /** Merging conserves the weight of every key exactly if no key outgrows 32 bits. */
  lemma WeightConservedIff(t: seq<Count>, s: seq<Count>)
    requires IsTotals(t, s)
    ensures Gather(Copies, t) == Gather(Copies, s) <==> forall k :: Gather(Copies, s)[k] < 0x1_0000_0000
  {
    forall k ensures Gather(Copies, t)[k] == U32(Gather(Copies, s)[k]) {
      TotalCopies(t, s, k);
    }
    if Gather(Copies, t) == Gather(Copies, s) {
      forall k ensures Gather(Copies, s)[k] < 0x1_0000_0000 {
        assert Gather(Copies, t)[k] == U32(Gather(Copies, s)[k]);
      }
    }
  }

  // Tables of counts ---------------------------------------------------------------

  /** A table of distinct keys gives back the weight of each key. */
  lemma {:induction false} TableCopies(t: seq<Count>, k: Gram)
    requires DistinctKeys(t)
    ensures !HasKey(t, k) ==> Gather(Copies, t)[k] == 0
    ensures forall c | c in t && c.key == k :: Gather(Copies, t)[k] == c.weight
  {
    if t != [] {
      var n := |t| - 1;
      TableCopies(t[..n], k);
      assert t == t[..n] + [t[n]];
      if HasKey(t[..n], k) {
        var i :| 0 <= i < n && t[..n][i].key == k;
        assert t[i].key == k;
      } else {
        assert forall c | c in t[..n] :: c.key != k by {
          HasKeyIff(t[..n], k);
        }
      }
      if t[n].key == k {
        assert t[n].key == k;
        assert !HasKey(t[..n], k);
      }
    }
  }

  lemma CountTableCopies(t: seq<Count>, bag: multiset<Gram>, k: Gram)
    requires Tabulates(t, bag)
    ensures Gather(Copies, t)[k] == U32(bag[k])
  {
    TableCopies(t, k);
    if HasKey(t, k) {
      var i :| 0 <= i < |t| && t[i].key == k;
      assert t[i] in t;
    }
  }

  ghost function Itself(bag: multiset<Gram>): multiset<Gram> {
    bag
  }

  /** The concatenated chunk tables have the keys and, modulo 2^32, the weights of all
      chunks together. */
  lemma {:induction false} ChunkTotals(parts: seq<seq<Count>>, bags: seq<multiset<Gram>>, k: Gram)
    requires |parts| == |bags| && forall i | 0 <= i < |parts| :: IsCountTable(parts[i], bags[i])
    ensures HasKey(Concat(parts), k) <==> k in Gather(Itself, bags)
    ensures U32(Gather(Copies, Concat(parts))[k]) == U32(Gather(Itself, bags)[k])
  {
    if parts != [] {
      var n := |parts| - 1;
      ChunkTotals(parts[..n], bags[..n], k);
      CountTableCopies(parts[n], bags[n], k);
      AddChunk(Concat(parts[..n]), Gather(Itself, bags[..n]), parts[n], bags[n], k);
    }
  }

  lemma AddChunk(s: seq<Count>, whole: multiset<Gram>, part: seq<Count>, bag: multiset<Gram>, k: Gram)
    requires HasKey(s, k) <==> k in whole
    requires U32(Gather(Copies, s)[k]) == U32(whole[k])
    requires HasKey(part, k) <==> k in bag
    requires Gather(Copies, part)[k] == U32(bag[k])
    ensures HasKey(s + part, k) <==> k in whole + bag
    ensures U32(Gather(Copies, s + part)[k]) == U32((whole + bag)[k])
  {
    var x: nat, y: nat := Gather(Copies, s + part)[k], (whole + bag)[k];
    assert x == Gather(Copies, s)[k] + Gather(Copies, part)[k] by {
      GatherConcat(Copies, s, part);
    }
    U32Sum(x, y, Gather(Copies, s)[k], whole[k], bag[k]);
    assert HasKey(s + part, k) <==> k in whole + bag by {
      HasKeyConcat(s, part, k);
    }
  }

  lemma HasKeyConcat(s: seq<Count>, t: seq<Count>, k: Gram)
    ensures HasKey(s + t, k) <==> HasKey(s, k) || HasKey(t, k)
  {
    HasKeyIff(s + t, k);
    HasKeyIff(s, k);
    HasKeyIff(t, k);
  }

  /** Merging tables of chunks gives the table of everything. */
  lemma MergedChunks(out: seq<Count>, parts: seq<seq<Count>>, bags: seq<multiset<Gram>>)
    requires |parts| == |bags| && forall i | 0 <= i < |parts| :: IsCountTable(parts[i], bags[i])
    requires IsTotals(out, Concat(parts))
    ensures IsCountTable(out, Gather(Itself, bags))
  {
    AscendingIsDistinct(out);
    forall k ensures HasKey(out, k) <==> k in Gather(Itself, bags) {
      ChunkTotals(parts, bags, k);
    }
    forall c | c in out ensures c.weight == U32(Gather(Itself, bags)[c.key]) {
      ChunkTotals(parts, bags, c.key);
    }
  }

  /** There is one table of a bag, so it cannot depend on how the bag was cut up. */
  lemma {:induction false} CountTableUnique(t: seq<Count>, t': seq<Count>, bag: multiset<Gram>)
    requires IsCountTable(t, bag) && IsCountTable(t', bag)
    ensures t == t'
  {
    assert forall k :: HasKey(t, k) <==> HasKey(t', k);
    assert forall i, j | 0 <= i < |t| && 0 <= j < |t'| && t[i].key == t'[j].key ::
             t[i] in t && t'[j] in t' && t[i] == t'[j];
    TablesAgree(t, t');
  }

  lemma {:induction false} TablesAgree(t: seq<Count>, t': seq<Count>)
    requires KeysAscend(t) && KeysAscend(t')
    requires forall k :: HasKey(t, k) <==> HasKey(t', k)
    requires forall i, j | 0 <= i < |t| && 0 <= j < |t'| && t[i].key == t'[j].key :: t[i] == t'[j]
    ensures t == t'
    decreases |t|
  {
    if t == [] {
      assert t' != [] ==> HasKey(t', t'[0].key);
    } else {
      assert HasKey(t, t[0].key);
      var n, m := |t| - 1, |t'| - 1;
      LastKeysAgree(t, t');
      AscendingIsDistinct(t);
      AscendingIsDistinct(t');
      forall k ensures HasKey(t[..n], k) <==> HasKey(t'[..m], k) {
        FrontKeys(t, k);
        FrontKeys(t', k);
      }
      TablesAgree(t[..n], t'[..m]);
      assert t == t[..n] + [t[n]] && t' == t'[..m] + [t'[m]];
    }
  }

  lemma FrontKeys(t: seq<Count>, k: Gram)
    requires DistinctKeys(t) && t != []
    ensures HasKey(t[..|t| - 1], k) <==> HasKey(t, k) && k != t[|t| - 1].key
  {
    var n := |t| - 1;
    if HasKey(t, k) && k != t[n].key {
      var i :| 0 <= i < |t| && t[i].key == k;
      assert t[..n][i].key == k;
    }
    if HasKey(t[..n], k) {
      var i :| 0 <= i < n && t[..n][i].key == k;
      assert t[i].key == k;
    }
  }

  lemma LastKeysAgree(t: seq<Count>, t': seq<Count>)
    requires KeysAscend(t) && KeysAscend(t') && t != []
    requires forall k :: HasKey(t, k) <==> HasKey(t', k)
    ensures t' != [] && t[|t| - 1].key == t'[|t'| - 1].key
  {
    var n := |t| - 1;
    assert HasKey(t, t[n].key);
    assert HasKey(t', t[n].key);
    var i :| 0 <= i < |t'| && t'[i].key == t[n].key;
    var m := |t'| - 1;
    assert HasKey(t', t'[m].key);
    assert HasKey(t, t'[m].key);
    GramMoreAsymmetric(t[n].key, t'[m].key);
  }
}
