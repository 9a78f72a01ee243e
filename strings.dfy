/** Concatenation of a sequence of strings with no separator: JavaScript's
    `parts.join('')`, and the repeated `+=` of a string accumulator. */
module Strings {

  function Join(parts: seq<string>): string {
    if parts == [] then "" else parts[0] + Join(parts[1..])
  }

  /** Joining the halves of a split list and concatenating gives the join of the whole. */
  lemma {:induction false} JoinAppend(a: seq<string>, b: seq<string>)
    ensures Join(a + b) == Join(a) + Join(b)
  {
    if a == [] {
      assert a + b == b;
    } else {
      assert (a + b)[1..] == a[1..] + b;
      JoinAppend(a[1..], b);
    }
  }
}
