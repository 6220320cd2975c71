/** Facts about taking prefixes of sequences, kept apart from any
    element type. */
module Seqs {

  /** The first `i` elements are the first `i - 1` and then element `i - 1`. */
  lemma TakeSnoc<T>(s: seq<T>, i: nat)
    requires 0 < i <= |s|
    ensures s[..i - 1] + [s[i - 1]] == s[..i]
  {
  }

  /** A prefix of a prefix is a prefix. */
  lemma TakeTake<T>(s: seq<T>, i: nat, j: nat)
    requires i <= j <= |s|
    ensures s[..j][..i] == s[..i]
  {
  }

  /** Taking nothing, and taking everything. */
  lemma TakeEnds<T>(s: seq<T>)
    ensures s[..0] == [] && s[..|s|] == s
  {
  }

  lemma AppendAssoc<T>(a: seq<T>, b: seq<T>, c: seq<T>)
    ensures (a + b) + c == a + (b + c)
  {
  }

  lemma AppendEmpty<T>(a: seq<T>)
    ensures a + [] == a
  {
  }

  /** All but the last element of `a + b`, for a non-empty `b`. */
  lemma DropLastAppend<T>(a: seq<T>, b: seq<T>)
    requires b != []
    ensures (a + b)[..|a + b| - 1] == a + b[..|b| - 1] && (a + b)[|a + b| - 1] == b[|b| - 1]
  {
  }

  lemma EmptyAppend<T>(a: seq<T>)
    ensures [] + a == a
  {
  }

  /** The same six pieces, grouped two ways. */
  lemma Regroup<T>(x: seq<T>, n: seq<T>, xs: seq<T>, k: seq<T>, m: seq<T>, ms: seq<T>)
    ensures ((x + n) + xs) + ((k + m) + ms) == (x + (n + xs)) + k + (m + ms)
  {
  }
}
