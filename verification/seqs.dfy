/** Facts about concatenation, kept apart from the models so that a proof about encoded text
    does not have to rediscover them among the definitions of the encoders. */
module Seqs {

  /** Dropping the first element of a concatenation whose first part is not empty. */
  lemma TailOfConcat<T>(ts: seq<T>, m: seq<T>, us: seq<T>)
    requires |ts| > 0
    ensures (ts + m + us)[0] == (ts + us)[0] == ts[0]
    ensures (ts + m + us)[1..] == ts[1..] + m + us && (ts + us)[1..] == ts[1..] + us
  {
  }

  /** A prefix followed by three parts. */
  lemma Regroup<T>(a: seq<T>, b: seq<T>, c: seq<T>, d: seq<T>)
    ensures (a + b) + c + d == a + b + (c + d)
    ensures a + b + c + d == a + (b + c + d)
  {
  }

  /** A clue split at its first entry's colour. */
  lemma Reassoc<T>(q: seq<T>, a: seq<T>, m: seq<T>, r: seq<T>, x: seq<T>, z: seq<T>)
    ensures q + ((a + (m + r)) + x) + z == q + (a + (m + (r + (x + z))))
  {
  }

  /** A text split at the start of its fourth line. */
  lemma Reassoc2<T>(h: seq<T>, q: seq<T>, m: seq<T>, n: seq<T>, g: seq<T>)
    ensures h + ((q + m) + n) + g == h + (q + (m + n + g))
  {
  }
}
