/** The column encodings the feature pipeline applies: one-hot encoding against
    a fitted vocabulary with unknown values ignored, binarization at threshold
    0, and the collection of a column's distinct values at fit time. */
module Encoding {

  datatype Option<T> = None | Some(value: T)

  /** No value occurs twice: the shape of a fitted vocabulary. */
  predicate Distinct<T(==)>(s: seq<T>) {
    forall i, j | 0 <= i < j < |s| :: s[i] != s[j]
  }

  function Indicator(b: bool): real {
    if b then 1.0 else 0.0
  }

  /** n output columns holding 0.0. */
  function Zeros(n: nat): (z: seq<real>)
    ensures |z| == n
    ensures forall i | 0 <= i < n :: z[i] == 0.0
  {
    if n == 0 then [] else Zeros(n - 1) + [0.0]
  }

  /** One-hot encoding of `v` against `vocab`, with unknown values ignored:
      one output column per known category, in vocabulary order. */
  function OneHot<T(==)>(vocab: seq<T>, v: T): (r: seq<real>)
    ensures |r| == |vocab|
  {
    if vocab == [] then [] else [Indicator(vocab[0] == v)] + OneHot(vocab[1..], v)
  }

  /** Number of output columns that hold 1.0. */
  function CountOnes(r: seq<real>): (n: nat)
    ensures n <= |r|
  {
    if r == [] then 0 else (if r[0] == 1.0 then 1 else 0) + CountOnes(r[1..])
  }

  /** The inverse of OneHot: the category whose column holds the first 1.0,
      or None for an all-zero encoding. */
  function DecodeOneHot<T>(vocab: seq<T>, r: seq<real>): (v: Option<T>)
    requires |r| == |vocab|
    ensures v.Some? ==> v.value in vocab
  {
    if vocab == [] then None
    else if r[0] == 1.0 then Some(vocab[0])
    else DecodeOneHot(vocab[1..], r[1..])
  }

  /** Column i of the encoding is 1.0 exactly when the value is category i. */
  lemma {:induction false} OneHotAt<T>(vocab: seq<T>, v: T, i: nat)
    requires i < |vocab|
    ensures OneHot(vocab, v)[i] == Indicator(vocab[i] == v)
  {
    if i > 0 {
      OneHotAt(vocab[1..], v, i - 1);
    }
  }

  /** A known category gives a single 1.0, at its own position. */
  lemma OneHotOfKnown<T>(vocab: seq<T>, k: nat)
    requires Distinct(vocab) && k < |vocab|
    ensures OneHot(vocab, vocab[k])[k] == 1.0
    ensures forall i | 0 <= i < |vocab| && i != k :: OneHot(vocab, vocab[k])[i] == 0.0
  {
    forall i | 0 <= i < |vocab|
      ensures OneHot(vocab, vocab[k])[i] == Indicator(i == k)
    {
      OneHotAt(vocab, vocab[k], i);
    }
  }

  /** A value absent from the vocabulary gives all zeros, of the same width. */
  lemma {:induction false} OneHotOfUnknown<T>(vocab: seq<T>, v: T)
    requires v !in vocab
    ensures OneHot(vocab, v) == Zeros(|vocab|)
  {
    forall i | 0 <= i < |vocab|
      ensures OneHot(vocab, v)[i] == 0.0
    {
      OneHotAt(vocab, v, i);
    }
  }

  /** Exactly one column is set for a known value and none for an unknown one. */
  lemma {:induction false} OneHotCountsOnes<T>(vocab: seq<T>, v: T)
    requires Distinct(vocab)
    ensures CountOnes(OneHot(vocab, v)) == if v in vocab then 1 else 0
  {
    if vocab != [] {
      assert OneHot(vocab, v)[1..] == OneHot(vocab[1..], v);
      OneHotCountsOnes(vocab[1..], v);
      if vocab[0] == v {
        assert v !in vocab[1..] by {
          forall i | 0 <= i < |vocab| - 1
            ensures vocab[1..][i] != v
          {
            assert vocab[1..][i] == vocab[i + 1];
          }
        }
      } else {
        assert v in vocab <==> v in vocab[1..];
      }
    }
  }

  /** Decoding the encoding gives back a known value and None for an unknown one. */
  lemma {:induction false} OneHotRoundTrip<T>(vocab: seq<T>, v: T)
    requires Distinct(vocab)
    ensures DecodeOneHot(vocab, OneHot(vocab, v)) == if v in vocab then Some(v) else None
  {
    if vocab != [] {
      assert OneHot(vocab, v)[1..] == OneHot(vocab[1..], v);
      OneHotRoundTrip(vocab[1..], v);
      if vocab[0] != v {
        assert v in vocab <==> v in vocab[1..];
      }
    }
  }

  /** The default threshold of the binarizer. */
  const Threshold: real := 0.0

  /** Binarization: a count above the threshold becomes 1, anything else 0. */
  function Binarize(x: real): (b: real)
    ensures b == 0.0 || b == 1.0
    ensures b == 1.0 <==> x > Threshold
  {
    if x > Threshold then 1.0 else 0.0
  }

  /** Binarizing an already binarized value changes nothing. */
  lemma BinarizeIdempotent(x: real)
    ensures Binarize(Binarize(x)) == Binarize(x)
  {
  }

  /** The distinct values of a column in first-seen order: what fitting a
      one-hot encoder learns for that column. */
  function Unique<T(==)>(s: seq<T>): (u: seq<T>)
    ensures Distinct(u)
    ensures forall i | 0 <= i < |s| :: s[i] in u
    ensures forall i | 0 <= i < |u| :: u[i] in s
    ensures |u| <= |s|
  {
    if s == [] then []
    else
      var rest := Unique(s[..|s| - 1]);
      var last := s[|s| - 1];
      if last in rest then rest else rest + [last]
  }
}
