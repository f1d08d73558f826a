/**
 * Facts about sequence concatenation, stated over a type parameter so that
 * the solver sees plain sequences rather than byte strings.
 */
module Seqs {
  lemma Assoc<T>(a: seq<T>, b: seq<T>, c: seq<T>)
    ensures (a + b) + c == a + (b + c)
  {
  }

  lemma EmptyLeft<T>(a: seq<T>)
    ensures [] + a == a
  {
  }

  lemma EmptyRight<T>(a: seq<T>)
    ensures a + [] == a
  {
  }

  lemma ConsTail<T>(s: seq<T>)
    requires |s| > 0
    ensures [s[0]] + s[1..] == s
  {
  }

  lemma TakeOneMore<T>(s: seq<T>, i: nat)
    requires i < |s|
    ensures s[..i + 1] == s[..i] + [s[i]]
  {
  }

  lemma MoveOne<T>(acc: seq<T>, x: T, more: seq<T>)
    ensures acc + ([x] + more) == (acc + [x]) + more
  {
  }

  /** Two reads one after the other take two consecutive pieces. */
  lemma Chain2<T>(s: seq<T>, a: seq<T>, r: seq<T>, b: seq<T>, rest: seq<T>)
    requires s == a + r && r == b + rest
    ensures s == (a + b) + rest
  {
  }

  lemma Chain3<T>(s: seq<T>, a: seq<T>, r1: seq<T>, b: seq<T>, r2: seq<T>, c: seq<T>, rest: seq<T>)
    requires s == a + r1 && r1 == b + r2 && r2 == c + rest
    ensures s == a + b + c + rest
  {
  }

  lemma Chain4<T>(s: seq<T>, a: seq<T>, r1: seq<T>, b: seq<T>, r2: seq<T>, c: seq<T>, r3: seq<T>,
                  d: seq<T>, rest: seq<T>)
    requires s == a + r1 && r1 == b + r2 && r2 == c + r3 && r3 == d + rest
    ensures s == a + b + c + d + rest
  {
  }

  lemma Regroup3<T>(a: seq<T>, b: seq<T>, c: seq<T>, rest: seq<T>)
    ensures a + b + c + rest == a + (b + (c + rest))
  {
  }

  lemma Regroup4<T>(a: seq<T>, b: seq<T>, c: seq<T>, d: seq<T>, rest: seq<T>)
    ensures a + b + c + d + rest == a + (b + (c + (d + rest)))
  {
  }

  /** The two halves of a concatenation are its prefix and suffix at the seam. */
  lemma SplitAt<T>(a: seq<T>, b: seq<T>)
    ensures (a + b)[..|a|] == a && (a + b)[|a|..] == b
  {
  }

  /** A non-empty prefix leaves a shorter rest. */
  lemma Shorter<T>(s: seq<T>, a: seq<T>, rest: seq<T>)
    requires s == a + rest && |a| > 0
    ensures |rest| < |s|
  {
  }
}
