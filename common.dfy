/** Small shared vocabulary: an optional value and prefix tests on strings. */
module Common {

  datatype Option<T> = None | Some(value: T)

  /** `p` is a prefix of `s`. */
  predicate StartsWith(s: string, p: string)
  {
    |p| <= |s| && s[..|p|] == p
  }

  /** One of `a`, `b` is a prefix of the other: text starting with `a` may also start with `b`. */
  predicate Compatible(a: string, b: string)
  {
    if |a| <= |b| then b[..|a|] == a else a[..|b|] == b
  }

  // Sequence facts, stated once so that proofs about large terms need not rederive them.

  lemma SuffixOfConcat(x: string, t: string, i: nat)
    requires i <= |x|
    ensures (x + t)[i..] == x[i..] + t
  {
  }

  lemma SuffixPastConcat(x: string, t: string, i: nat)
    requires |x| <= i <= |x| + |t|
    ensures (x + t)[i..] == t[i - |x|..]
  {
  }

  lemma ConcatAssoc(a: string, b: string, c: string)
    ensures a + b + c == a + (b + c)
  {
  }

  lemma ConsSplit(s: string)
    requires s != []
    ensures s == [s[0]] + s[1..]
  {
  }

  lemma StartsWithCons(c: char, v: string, w: string)
    requires w != []
    ensures StartsWith([c] + v, w) <==> w[0] == c && StartsWith(v, w[1..])
  {
    if StartsWith([c] + v, w) {
      assert w[0] == ([c] + v)[..|w|][0];
      assert v[..|w| - 1] == ([c] + v)[..|w|][1..];
    }
    if w[0] == c && StartsWith(v, w[1..]) {
      assert ([c] + v)[..|w|] == [c] + v[..|w| - 1];
      assert w == [w[0]] + w[1..];
    }
  }

  /** Taking one more element of a sequence appends that element. */
  lemma TakeStep<T>(s: seq<T>, i: nat)
    requires i < |s|
    ensures s[..i + 1] == s[..i] + [s[i]]
  {
  }

  lemma DiffersAt(s: string, w: string, j: nat)
    requires j < |w| && j < |s| && s[j] != w[j]
    ensures !StartsWith(s, w)
  {
    if |w| <= |s| {
      assert s[..|w|][j] == s[j];
    }
  }
}
