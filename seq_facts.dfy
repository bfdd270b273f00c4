/** Small facts of sequence algebra, stated once over an arbitrary element type so that the proofs
    about the grammar and the visitor can use them without re-deriving them in a large context.
    They are proof hints only: each holds by Dafny's sequence axioms alone, and none of them says
    anything about the modelled system. */
module SeqFacts {

  lemma AppendOne<T>(a: seq<T>, b: seq<T>, x: T)
    ensures (a + b) + [x] == a + (b + [x])
  {
  }

  lemma Associative<T>(a: seq<T>, b: seq<T>, c: seq<T>)
    ensures (a + b) + c == a + (b + c)
  {
  }

  lemma AppendEmpty<T>(a: seq<T>)
    ensures a + [] == a && [] + a == a
  {
  }

  /** A slice is the concatenation of its two halves. */
  lemma SliceConcat<T>(s: seq<T>, a: nat, b: nat, c: nat)
    requires a <= b <= c <= |s|
    ensures s[a..c] == s[a..b] + s[b..c]
  {
  }

  /** A slice that starts with `open` and ends with `close`, around `t`. */
  lemma Bracketed<T>(s: seq<T>, a: nat, b: nat, open: T, t: seq<T>, close: T)
    requires a + 2 <= b <= |s| && s[a] == open && s[b - 1] == close && t == s[a + 1..b - 1]
    ensures s[a..b] == [open] + t + [close]
  {
  }
}
