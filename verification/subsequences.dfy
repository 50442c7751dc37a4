/** Order-preserving sub-sequences: the shape of every result of a deletion. */
module Subsequences {

  /** True iff `a` is obtained from `b` by deleting zero or more elements,
      keeping the order of the rest. */
  ghost predicate Subseq<T>(a: seq<T>, b: seq<T>)
    decreases |b|
  {
    if |b| == 0 then |a| == 0
    else (|a| > 0 && a[0] == b[0] && Subseq(a[1..], b[1..])) || Subseq(a, b[1..])
  }

  lemma {:induction false} SubseqRefl<T>(a: seq<T>)
    ensures Subseq(a, a)
    decreases |a|
  {
    if |a| > 0 {
      SubseqRefl(a[1..]);
    }
  }

  /** A sub-sequence is never longer than the sequence it comes from. */
  lemma {:induction false} SubseqLength<T>(a: seq<T>, b: seq<T>)
    requires Subseq(a, b)
    ensures |a| <= |b|
    decreases |b|
  {
    if |b| > 0 {
      if |a| > 0 && a[0] == b[0] && Subseq(a[1..], b[1..]) {
        SubseqLength(a[1..], b[1..]);
      } else {
        SubseqLength(a, b[1..]);
      }
    }
  }

  /** Every element of a sub-sequence occurs in the original: nothing is added. */
  lemma {:induction false} SubseqMembers<T>(a: seq<T>, b: seq<T>, x: T)
    requires Subseq(a, b)
    requires x in a
    ensures x in b
    decreases |b|
  {
    if |a| > 0 && a[0] == b[0] && Subseq(a[1..], b[1..]) {
      if x != a[0] {
        SubseqMembers(a[1..], b[1..], x);
      }
    } else {
      SubseqMembers(a, b[1..], x);
    }
  }

  lemma {:induction false} SubseqTrans<T>(a: seq<T>, b: seq<T>, c: seq<T>)
    requires Subseq(a, b) && Subseq(b, c)
    ensures Subseq(a, c)
    decreases |c|
  {
    if |c| > 0 {
      if |b| > 0 && b[0] == c[0] && Subseq(b[1..], c[1..]) {
        if |a| > 0 && a[0] == b[0] && Subseq(a[1..], b[1..]) {
          SubseqTrans(a[1..], b[1..], c[1..]);
        } else {
          SubseqTrans(a, b[1..], c[1..]);
        }
      } else {
        SubseqTrans(a, b, c[1..]);
      }
    }
  }

  /** Deleting the element at one index leaves a sub-sequence. */
  lemma {:induction false} DeleteIsSubseq<T>(s: seq<T>, j: nat)
    requires j < |s|
    ensures Subseq(s[..j] + s[j + 1..], s)
    decreases j
  {
    var d := s[..j] + s[j + 1..];
    if j == 0 {
      assert d == s[1..];
      SubseqRefl(s[1..]);
    } else {
      DeleteIsSubseq(s[1..], j - 1);
      assert d[0] == s[0];
      assert d[1..] == s[1..][..j - 1] + s[1..][j..];
    }
  }
}
