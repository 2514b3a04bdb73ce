/** Octet strings: the model of `std::string` and of the ranges the UTF-8 code walks over. */
module Octets {
  type octet = bv8
  type text = seq<octet>

  const SPACE: octet := 0x20
  const NEWLINE: octet := 0x0a

  /** An optional value, for the places where the source tests a pointer or a found position. */
  datatype Option<+T> = None | Some(value: T)

  /** All the parts, one after the other. */
  function Concat<T>(parts: seq<seq<T>>): seq<T> {
    if parts == [] then [] else parts[0] + Concat(parts[1..])
  }

  /** The suffix test of src/bpe.cpp and src/utils.cpp. */
  predicate EndsWith(full: text, suffix: text) {
    |suffix| <= |full| && full[|full| - |suffix|..] == suffix
  }

  lemma Assoc<T>(a: seq<T>, b: seq<T>, c: seq<T>)
    ensures (a + b) + c == a + (b + c)
  {}

  lemma Assoc3<T>(a: seq<T>, b: seq<T>, c: seq<T>, d: seq<T>)
    ensures a + (b + c + d) == a + b + c + d
  {}

  lemma {:induction false} ConcatAppend<T>(xs: seq<seq<T>>, ys: seq<seq<T>>)
    ensures Concat(xs + ys) == Concat(xs) + Concat(ys)
  {
    if xs == [] {
      assert xs + ys == ys;
    } else {
      assert (xs + ys)[1..] == xs[1..] + ys;
      ConcatAppend(xs[1..], ys);
    }
  }

  lemma ConcatLast<T>(xs: seq<seq<T>>)
    requires xs != []
    ensures Concat(xs) == Concat(xs[..|xs| - 1]) + xs[|xs| - 1]
  {
    assert xs == xs[..|xs| - 1] + [xs[|xs| - 1]];
    ConcatAppend(xs[..|xs| - 1], [xs[|xs| - 1]]);
    assert Concat([xs[|xs| - 1]]) == xs[|xs| - 1];
  }
}
