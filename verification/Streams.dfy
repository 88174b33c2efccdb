/** The pull streams of streamer.hpp: a file read through a cursor, and a stream whose
    inputs are turned into any number of outputs. */
module Streams {
  import opened Wrappers

  /** `IFStreamer`, whose cursor is what it has not handed out yet. */
  class IFStreamer<M> {
    var rest: seq<M>

    constructor (file: seq<M>)
      ensures rest == file
    {
      rest := file;
    }

    method Read() returns (msg: Option<M>)
      modifies this`rest
      ensures msg.None? ==> old(rest) == [] && rest == []
      ensures msg.Some? ==> old(rest) == [msg.value] + rest
    {
      if rest == [] {
        return None;
      }
      msg := Some(rest[0]);
      rest := rest[1..];
    }
  }

  function FlatMap<I, O>(fn: I -> seq<O>, inputs: seq<I>): seq<O> {
    if inputs == [] then [] else fn(inputs[0]) + FlatMap(fn, inputs[1..])
  }

  /** What a consumer that stops at the first failing read gets out of `inputs`. */
  function Yield<I, O>(fn: I -> seq<O>, inputs: seq<I>): seq<O> {
    if inputs == [] || fn(inputs[0]) == [] then [] else fn(inputs[0]) + Yield(fn, inputs[1..])
  }

  /** No input that has outputs comes after one that has none. */
  ghost predicate NoneAfterEmpty<I, O>(fn: I -> seq<O>, inputs: seq<I>) {
    forall i, j | 0 <= i < j < |inputs| && fn(inputs[i]) == [] :: fn(inputs[j]) == []
  }

  lemma NoneAfterEmptyTail<I, O>(fn: I -> seq<O>, inputs: seq<I>)
    requires inputs != []
    ensures NoneAfterEmpty(fn, inputs) <==>
            if fn(inputs[0]) == [] then FlatMap(fn, inputs[1..]) == [] else NoneAfterEmpty(fn, inputs[1..])
  {
    var tail := inputs[1..];
    FlatMapEmpty(fn, tail);
    assert forall i | 0 < i < |inputs| :: inputs[i] == tail[i - 1];
    assert forall i | 0 <= i < |tail| :: tail[i] == inputs[i + 1];
  }

  lemma SamePrefix<T>(a: seq<T>, s: seq<T>, t: seq<T>)
    ensures a + s == a + t <==> s == t
  {
    assert (a + s)[|a|..] == s && (a + t)[|a|..] == t;
  }

  /** A consumer gets the whole flat-map exactly if no input that has outputs comes after one
      that has none. */
  lemma {:induction false} YieldIsFlatMap<I, O>(fn: I -> seq<O>, inputs: seq<I>)
    ensures Yield(fn, inputs) == FlatMap(fn, inputs) <==> NoneAfterEmpty(fn, inputs)
  {
    if inputs != [] {
      YieldIsFlatMap(fn, inputs[1..]);
      NoneAfterEmptyTail(fn, inputs);
      SamePrefix(fn(inputs[0]), Yield(fn, inputs[1..]), FlatMap(fn, inputs[1..]));
    }
  }

  lemma {:induction false} FlatMapEmpty<I, O>(fn: I -> seq<O>, inputs: seq<I>)
    ensures FlatMap(fn, inputs) == [] <==> forall j | 0 <= j < |inputs| :: fn(inputs[j]) == []
  {
    if inputs != [] {
      FlatMapEmpty(fn, inputs[1..]);
      assert forall j | 0 < j < |inputs| :: inputs[j] == inputs[1..][j - 1];
      assert forall j | 0 <= j < |inputs[1..]| :: inputs[1..][j] == inputs[j + 1];
    }
  }

  /** A consumer gets the outputs of the inputs before the first one without outputs, in their
      order, and nothing of what comes after. */
  lemma {:induction false} YieldStops<I, O>(fn: I -> seq<O>, inputs: seq<I>, k: nat)
    requires k <= |inputs| && forall i | 0 <= i < k :: fn(inputs[i]) != []
    requires k < |inputs| ==> fn(inputs[k]) == []
    ensures Yield(fn, inputs) == FlatMap(fn, inputs[..k])
  {
    if k > 0 {
      YieldStops(fn, inputs[1..], k - 1);
      assert inputs[..k][1..] == inputs[1..][..k - 1];
    }
  }

  /** Outputs come in the order of their inputs: those of one input, then those of the rest. */
  lemma {:induction false} FlatMapSnoc<I, O>(fn: I -> seq<O>, inputs: seq<I>, x: I)
    ensures FlatMap(fn, inputs + [x]) == FlatMap(fn, inputs) + fn(x)
  {
    if inputs == [] {
      assert [x][1..] == [];
      assert fn(x) + [] == fn(x);
    } else {
      FlatMapSnoc(fn, inputs[1..], x);
      assert (inputs + [x])[1..] == inputs[1..] + [x];
    }
  }

  /** `Transformer`; `fn` gives what the source's `fn` appends to the queue. */
  class Transformer<I, O> {
    const fn: I -> seq<O>
    var rest: seq<I>
    var q: seq<O>
    var keep: bool

    constructor (file: seq<I>, fn: I -> seq<O>)
      ensures Ahead() == Yield(fn, file)
    {
      this.fn := fn;
      rest := file;
      q := [];
      keep := true;
    }

    /** What the reads up to the first failing one will return. */
    ghost function Ahead(): seq<O>
      reads this
    {
      q + if keep then Yield(fn, rest) else []
    }

    /** A read fails at the end of the file, and at an input without outputs; after that one the
        next read resumes with the next input. */
    method Read() returns (msg: Option<O>)
      modifies this`rest, this`q, this`keep
      ensures msg.None? ==> old(Ahead()) == []
      ensures msg.None? ==> Ahead() == if old(keep) && old(rest) != [] then Yield(fn, old(rest)[1..]) else []
      ensures msg.Some? ==> old(Ahead()) == [msg.value] + Ahead()
    {
      if q == [] && keep {
        if rest == [] {
          keep := false;
        } else {
          q := q + fn(rest[0]);
          rest := rest[1..];
        }
      }
      if q != [] {
        msg := Some(q[0]);
        q := q[1..];
      } else {
        msg := None;
      }
    }
  }
}
