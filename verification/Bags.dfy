/** Sums over sequences, with values in bags (multisets) or reals, and their
    independence of the order of the summands. */
module Bags {

  ghost predicate Distinct<T>(s: seq<T>) {
    forall i, j | 0 <= i < j < |s| :: s[i] != s[j]
  }

  /** Members of `names` before the one at `i` are in `s` before place `q`. */
  ghost predicate EarlierOnes<T>(names: seq<T>, i: nat, s: seq<T>, q: nat)
    requires i <= |names| && q <= |s|
  {
    forall k | 0 <= k < i :: names[k] in s[..q]
  }

  /** `names` lists the members of `s` in the order of their first occurrences. */
  ghost predicate InOrderOf<T>(names: seq<T>, s: seq<T>) {
    && (forall x | x in names :: x in s) && (forall x | x in s :: x in names)
    && forall i, q | 0 <= i < |names| && 0 <= q < |s| && s[q] == names[i] :: EarlierOnes(names, i, s, q)
  }

  lemma ListOne<T>(names: seq<T>, s: seq<T>, x: T)
    requires InOrderOf(names, s)
    ensures InOrderOf(if x in names then names else names + [x], s + [x])
  {
    var more, t := if x in names then names else names + [x], s + [x];
    assert more[..|names|] == names;
    forall y | y in t ensures y in more {
    }
    forall i, q | 0 <= i < |more| && 0 <= q < |t| && t[q] == more[i] ensures EarlierOnes(more, i, t, q) {
      assert t[..q] == s[..q];
      if q < |s| {
        assert s[q] in names;
        assert EarlierOnes(names, i, s, q);
      } else {
        assert s[..q] == s;
      }
    }
  }

  /** The members of `s`, each where it comes first. */
  ghost function Firsts<T>(s: seq<T>): seq<T> {
    if s == [] then []
    else
      var names, x := Firsts(s[..|s| - 1]), s[|s| - 1];
      if x in names then names else names + [x]
  }

  lemma FirstsSnoc<T>(s: seq<T>, x: T)
    ensures Firsts(s + [x]) == if x in Firsts(s) then Firsts(s) else Firsts(s) + [x]
  {
    assert (s + [x])[..|s|] == s;
  }

  lemma NextFirst<T>(seen: seq<T>, ts: seq<T>, k: nat, names: seq<T>)
    requires k < |ts| && names == Firsts(seen + ts[..k])
    ensures Firsts(seen + ts[..k + 1]) == if ts[k] in names then names else names + [ts[k]]
    ensures ts[..k + 1] == ts[..k] + [ts[k]]
  {
    JoinNext(seen, ts, k);
    FirstsSnoc(seen + ts[..k], ts[k]);
  }

  lemma JoinNext<T>(s: seq<T>, t: seq<T>, k: nat)
    requires k < |t|
    ensures t[..k + 1] == t[..k] + [t[k]] && s + t[..k + 1] == s + t[..k] + [t[k]]
  {
  }

  lemma {:induction false} FirstsMembers<T>(s: seq<T>, x: T)
    ensures x in Firsts(s) <==> x in s
  {
    if s != [] {
      var n := |s| - 1;
      FirstsMembers(s[..n], x);
      assert s == s[..n] + [s[n]];
    }
  }

  lemma {:induction false} FirstsInOrder<T>(s: seq<T>)
    ensures InOrderOf(Firsts(s), s)
  {
    if s != [] {
      var n := |s| - 1;
      FirstsInOrder(s[..n]);
      ListOne(Firsts(s[..n]), s[..n], s[n]);
      assert s[..n] + [s[n]] == s;
    }
  }

  /** What is new at place `q` comes later in the list than all that was there before. */
  lemma FirstIsLater<T>(names: seq<T>, s: seq<T>, p: nat, q: nat, i: nat, j: nat)
    requires names == Firsts(s) && p < q < |s| && s[q] !in s[..q]
    requires i < |names| && j < |names| && names[i] == s[p] && names[j] == s[q]
    ensures i < j
  {
    FirstsInOrder(s);
    assert s[p] == s[..q][p];
    assert s[..p] == s[..q][..p];
    assert EarlierOnes(names, i, s, p);
  }

  /** What comes to the list after `s` is in `t`. */
  lemma NewAmong<T>(names: seq<T>, more: seq<T>, s: seq<T>, t: seq<T>)
    requires names == Firsts(s) && more == Firsts(s + t) && names <= more && Distinct(more)
    ensures forall i | |names| <= i < |more| :: more[i] in t
  {
    forall i | |names| <= i < |more| ensures more[i] in t {
      FirstsMembers(s + t, more[i]);
      FirstsMembers(s, more[i]);
      assert forall k | 0 <= k < |names| :: names[k] == more[k];
    }
  }

  /** What is new in `t` comes later in the list than all that was in `t` before it. */
  lemma FirstInSecond<T>(names: seq<T>, s: seq<T>, t: seq<T>, p: nat, q: nat, i: nat, j: nat)
    requires names == Firsts(s + t) && p < q < |t| && t[q] !in s && t[q] !in t[..q]
    requires i < |names| && j < |names| && names[i] == t[p] && names[j] == t[q]
    ensures i < j
  {
    NotBefore(s, t, q);
    FirstIsLater(names, s + t, |s| + p, |s| + q, i, j);
  }

  /** If the names at `i` and `j` are those of the places `p` and `q`, the second comes later. */
  ghost predicate ComesLater<T>(names: seq<T>, t: seq<T>, p: int, q: int, i: int, j: int) {
    0 <= p < |t| && 0 <= q < |t| && 0 <= i < |names| && 0 <= j < |names| && names[i] == t[p] && names[j] == t[q] ==> i < j
  }

  ghost predicate LaterIn<T>(names: seq<T>, s: seq<T>, t: seq<T>) {
    forall p, q, i, j | 0 <= p < q < |t| && t[q] !in s && t[q] !in t[..q] :: ComesLater(names, t, p, q, i, j)
  }

  lemma FirstsAreLater<T>(s: seq<T>, t: seq<T>)
    ensures LaterIn(Firsts(s + t), s, t)
  {
    var names := Firsts(s + t);
    forall p, q, i, j | 0 <= p < q < |t| && t[q] !in s && t[q] !in t[..q] ensures ComesLater(names, t, p, q, i, j) {
      if 0 <= i < |names| && 0 <= j < |names| && names[i] == t[p] && names[j] == t[q] {
        FirstInSecond(names, s, t, p, q, i, j);
      }
    }
  }

  lemma NotBefore<T>(s: seq<T>, t: seq<T>, q: nat)
    requires q < |t| && t[q] !in s && t[q] !in t[..q]
    ensures (s + t)[|s| + q] !in (s + t)[..|s| + q]
  {
    assert (s + t)[..|s| + q] == s + t[..q];
  }

  /** The bag sum of `f` over the elements of `s`. */
  ghost function Gather<T, U>(f: T -> multiset<U>, s: seq<T>): multiset<U> {
    if s == [] then multiset{} else Gather(f, s[..|s| - 1]) + f(s[|s| - 1])
  }

  ghost function Sum<T>(f: T -> real, s: seq<T>): real {
    if s == [] then 0.0 else Sum(f, s[..|s| - 1]) + f(s[|s| - 1])
  }

  ghost function Content<T>(s: seq<T>): multiset<T> {
    multiset(s)
  }

  /** All records of a list of files. */
  ghost function Records<T>(files: seq<seq<T>>): multiset<T> {
    Gather(Content, files)
  }

  ghost function Concat<T>(files: seq<seq<T>>): seq<T> {
    if files == [] then [] else Concat(files[..|files| - 1]) + files[|files| - 1]
  }

  lemma GatherSnoc<T, U>(f: T -> multiset<U>, s: seq<T>, x: T)
    ensures Gather(f, s + [x]) == Gather(f, s) + f(x)
  {
    assert (s + [x])[..|s|] == s;
  }

  lemma {:induction false} GatherConcat<T, U>(f: T -> multiset<U>, s: seq<T>, t: seq<T>)
    ensures Gather(f, s + t) == Gather(f, s) + Gather(f, t)
    decreases |t|
  {
    if t == [] {
      assert s + t == s;
    } else {
      var n := |t| - 1;
      assert s + t == (s + t[..n]) + [t[n]];
      GatherSnoc(f, s + t[..n], t[n]);
      GatherConcat(f, s, t[..n]);
    }
  }

  lemma SumSnoc<T>(f: T -> real, s: seq<T>, x: T)
    ensures Sum(f, s + [x]) == Sum(f, s) + f(x)
  {
    assert (s + [x])[..|s|] == s;
  }

  lemma {:induction false} SumConcat<T>(f: T -> real, s: seq<T>, t: seq<T>)
    ensures Sum(f, s + t) == Sum(f, s) + Sum(f, t)
    decreases |t|
  {
    if t == [] {
      assert s + t == s;
    } else {
      var n := |t| - 1;
      assert s + t == (s + t[..n]) + [t[n]];
      SumSnoc(f, s + t[..n], t[n]);
      SumConcat(f, s, t[..n]);
    }
  }

  /** Where the last element of `s` sits in a reordering `t` of `s`. */
  lemma PickLast<T>(s: seq<T>, t: seq<T>) returns (a: seq<T>, b: seq<T>)
    requires s != [] && multiset(s) == multiset(t)
    ensures t == a + [s[|s| - 1]] + b
    ensures multiset(a + b) == multiset(s[..|s| - 1])
  {
    var n := |s| - 1;
    var x := s[n];
    assert s == s[..n] + [x];
    assert x in multiset(t);
    var i :| 0 <= i < |t| && t[i] == x;
    a, b := t[..i], t[i + 1..];
    assert t == a + [x] + b;
    var left, right := multiset(a + b), multiset(s[..n]);
    assert multiset(a + [x] + b) == left + multiset{x};
    assert multiset(s[..n] + [x]) == right + multiset{x};
    assert left == (left + multiset{x}) - multiset{x};
  }

  lemma {:induction false} GatherPermutes<T, U>(f: T -> multiset<U>, s: seq<T>, t: seq<T>)
    requires multiset(s) == multiset(t)
    ensures Gather(f, s) == Gather(f, t)
    decreases |s|
  {
    if s == [] {
      assert |multiset(t)| == 0;
    } else {
      var a, b := PickLast(s, t);
      GatherPermutes(f, s[..|s| - 1], a + b);
      GatherConcat(f, a, b);
      GatherConcat(f, a + [s[|s| - 1]], b);
      GatherSnoc(f, a, s[|s| - 1]);
    }
  }

  lemma {:induction false} SumPermutes<T>(f: T -> real, s: seq<T>, t: seq<T>)
    requires multiset(s) == multiset(t)
    ensures Sum(f, s) == Sum(f, t)
    decreases |s|
  {
    if s == [] {
      assert |multiset(t)| == 0;
    } else {
      var a, b := PickLast(s, t);
      SumPermutes(f, s[..|s| - 1], a + b);
      SumConcat(f, a, b);
      SumConcat(f, a + [s[|s| - 1]], b);
      SumSnoc(f, a, s[|s| - 1]);
    }
  }

  lemma {:induction false} ConcatRecords<T>(files: seq<seq<T>>)
    ensures multiset(Concat(files)) == Records(files)
  {
    if files != [] {
      ConcatRecords(files[..|files| - 1]);
    }
  }

  /** The bag of records does not depend on the order of the files. */
  lemma RecordsPermute<T>(files: seq<seq<T>>, shuffled: seq<seq<T>>)
    requires multiset(files) == multiset(shuffled)
    ensures multiset(Concat(files)) == multiset(Concat(shuffled))
  {
    GatherPermutes(Content, files, shuffled);
    ConcatRecords(files);
    ConcatRecords(shuffled);
  }

  lemma {:induction false} InRecords<T>(files: seq<seq<T>>, x: T)
    ensures x in Records(files) <==> exists i :: 0 <= i < |files| && x in files[i]
  {
    if files != [] {
      var n := |files| - 1;
      InRecords(files[..n], x);
      assert forall i | 0 <= i < n :: files[..n][i] == files[i];
      assert x in Records(files) <==> x in Records(files[..n]) || x in files[n];
    }
  }

  /** Taking the first record of one file. */
  lemma {:induction false} RecordsRead<T>(files: seq<seq<T>>, i: nat)
    requires i < |files| && files[i] != []
    ensures Records(files) == Records(files[i := files[i][1..]]) + multiset{files[i][0]}
  {
    var n := |files| - 1;
    var after := files[i := files[i][1..]];
    if i == n {
      assert after[..n] == files[..n];
      assert files[i] == [files[i][0]] + files[i][1..];
    } else {
      RecordsRead(files[..n], i);
      assert after[..n] == files[..n][i := files[i][1..]];
    }
  }

  lemma {:induction false} SumAdd<T>(f: T -> real, g: T -> real, h: T -> real, s: seq<T>)
    requires forall x | x in s :: h(x) == f(x) + g(x)
    ensures Sum(h, s) == Sum(f, s) + Sum(g, s)
  {
    if s != [] {
      assert s == s[..|s| - 1] + [s[|s| - 1]];
      SumAdd(f, g, h, s[..|s| - 1]);
    }
  }

  lemma {:induction false} SumSame<T>(f: T -> real, g: T -> real, s: seq<T>)
    requires forall x | x in s :: f(x) == g(x)
    ensures Sum(f, s) == Sum(g, s)
  {
    if s != [] {
      assert s == s[..|s| - 1] + [s[|s| - 1]];
      SumSame(f, g, s[..|s| - 1]);
    }
  }
}
