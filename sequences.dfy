/** Removal from the pool: `splice(i, 1)` on a copy, and the subsequence order it preserves. */
module Sequences {

  /** `const c = [...s]; c.splice(i, 1)`: s without its element at position i. */
  function RemoveAt<T>(s: seq<T>, i: nat): (r: seq<T>)
    requires i < |s|
    ensures |r| == |s| - 1
    ensures forall j :: 0 <= j < i ==> r[j] == s[j]
    ensures forall j :: i <= j < |r| ==> r[j] == s[j + 1]
    ensures multiset(r) + multiset{s[i]} == multiset(s)
  {
    assert s == s[..i] + [s[i]] + s[i + 1..];
    s[..i] + s[i + 1..]
  }

  /** a is b with some elements deleted and the rest kept in their order. */
  ghost predicate Subseq<T>(a: seq<T>, b: seq<T>)
    decreases |b|
  {
    a == [] || (b != [] && ((a[0] == b[0] && Subseq(a[1..], b[1..])) || Subseq(a, b[1..])))
  }

  lemma {:induction false} SubseqReflexive<T>(s: seq<T>)
    ensures Subseq(s, s)
    decreases |s|
  {
    if s != [] {
      SubseqReflexive(s[1..]);
    }
  }

  lemma {:induction false} SubseqTransitive<T>(a: seq<T>, b: seq<T>, c: seq<T>)
    requires Subseq(a, b) && Subseq(b, c)
    ensures Subseq(a, c)
    decreases |c|
  {
    if a != [] {
      if Subseq(b, c[1..]) {
        SubseqTransitive(a, b, c[1..]);
      } else if a[0] == b[0] && Subseq(a[1..], b[1..]) {
        SubseqTransitive(a[1..], b[1..], c[1..]);
      } else {
        SubseqTransitive(a, b[1..], c[1..]);
      }
    }
  }

  /** Removing one element keeps the others in their order. */
  lemma {:induction false} RemoveAtSubseq<T>(s: seq<T>, i: nat)
    requires i < |s|
    ensures Subseq(RemoveAt(s, i), s)
    decreases i
  {
    var r := RemoveAt(s, i);
    if i == 0 {
      assert r == s[1..];
      SubseqReflexive(s[1..]);
    } else {
      assert r[1..] == RemoveAt(s[1..], i - 1);
      RemoveAtSubseq(s[1..], i - 1);
    }
  }
}
