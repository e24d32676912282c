/** Options (for the decoders, `None` stands for a read outside the buffer) and pieces of a sequence. */
module Wrappers {
  datatype Option<+T> = None | Some(value: T) {
    predicate IsFailure() { None? }

    function PropagateFailure<U>(): Option<U>
      requires None?
    {
      None
    }

    function Extract(): T
      requires Some?
    {
      value
    }
  }

  function Min(a: nat, b: nat): nat { if a < b then a else b }

  /** Pieces put one behind the other. */
  function Concat<T>(parts: seq<seq<T>>): seq<T> {
    if parts == [] then [] else Concat(parts[..|parts| - 1]) + parts[|parts| - 1]
  }

  lemma {:induction false} ConcatAppend<T>(a: seq<seq<T>>, b: seq<seq<T>>)
    ensures Concat(a + b) == Concat(a) + Concat(b)
    decreases |b|
  {
    if b == [] {
      assert a + b == a;
    } else {
      var ab := a + b;
      assert ab[..|ab| - 1] == a + b[..|b| - 1];
      ConcatAppend(a, b[..|b| - 1]);
    }
  }

  lemma {:induction false} ConcatPrefix<T>(parts: seq<seq<T>>, i: nat)
    requires i < |parts|
    ensures Concat(parts[..i + 1]) == Concat(parts[..i]) + parts[i]
    ensures |Concat(parts[..i + 1])| <= |Concat(parts)|
  {
    assert parts[..i + 1][..i] == parts[..i];
    assert parts == parts[..i + 1] + parts[i + 1..];
    ConcatAppend(parts[..i + 1], parts[i + 1..]);
  }

  lemma ConcatHead<T>(first: seq<T>, rest: seq<seq<T>>)
    ensures Concat([first] + rest) == first + Concat(rest)
  {
    ConcatAppend([first], rest);
    assert Concat([first]) == Concat([first][..0]) + first;
  }
}
