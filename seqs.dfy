/** Facts about sequence concatenation used by several proofs. */
module Seqs {
  /** Concatenation is associative. */
  lemma AppendAssoc<T>(a: seq<T>, b: seq<T>, c: seq<T>)
    ensures a + (b + c) == (a + b) + c
  {
  }

  /** The empty sequence is a left unit of concatenation. */
  lemma EmptyAppend<T>(a: seq<T>)
    ensures [] + a == a
  {
  }

  /** The empty sequence is a right unit of concatenation. */
  lemma AppendEmpty<T>(a: seq<T>)
    ensures a + [] == a
  {
  }

  /** A sequence that is `a` followed by `b` + `c` is `a` + `b` followed by `c`. */
  lemma Regroup<T>(whole: seq<T>, a: seq<T>, tail: seq<T>, b: seq<T>, c: seq<T>)
    requires whole == a + tail && tail == b + c
    ensures whole == (a + b) + c
  {
    AppendAssoc(a, b, c);
  }
}
