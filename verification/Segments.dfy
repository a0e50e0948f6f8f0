/** Bytes, and pieces of a sequence: buffers, token lists and packets are all read piecewise. */
module Segments {

  type byte = x: int | 0 <= x <= 255

  /** `w` is what `s` holds from position `at` on. */
  predicate Has<T(==)>(s: seq<T>, at: int, w: seq<T>) {
    0 <= at && at + |w| <= |s| && s[at..at + |w|] == w
  }

  lemma HasSplit<T>(s: seq<T>, at: int, a: seq<T>, b: seq<T>)
    ensures Has(s, at, a + b) <==> Has(s, at, a) && Has(s, at + |a|, b)
  {
    if Has(s, at, a + b) {
      assert s[at..at + |a|] == s[at..at + |a + b|][..|a|] == a;
      assert s[at + |a|..at + |a| + |b|] == s[at..at + |a + b|][|a|..] == b;
    }
    if Has(s, at, a) && Has(s, at + |a|, b) {
      assert s[at..at + |a + b|] == s[at..at + |a|] + s[at + |a|..at + |a| + |b|];
    }
  }

  lemma HasAt<T>(s: seq<T>, at: int, w: seq<T>, k: nat)
    requires Has(s, at, w) && k < |w|
    ensures 0 <= at && at + |w| <= |s| && s[at + k] == w[k]
  {
    assert s[at + k] == s[at..at + |w|][k];
  }
}
