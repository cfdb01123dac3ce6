/** Generic sequence vocabulary shared by the doctor and driver models: the
    `Option` returned by a lookup, and the three array methods the pages use
    (`filter`, `map` and `find`), each with its defining contract. */
module Seqs {

  /** The result of a lookup that may find nothing (`undefined` in the page code). */
  datatype Option<+T> = None | Some(value: T)

  /** `a` is obtained from `b` by deleting elements: same elements, same relative order. */
  predicate IsSubseq<T(==)>(a: seq<T>, b: seq<T>)
    decreases |b|
  {
    if |a| == 0 then true
    else if |b| == 0 then false
    else if a[0] == b[0] then IsSubseq(a[1..], b[1..])
    else IsSubseq(a, b[1..])
  }

  /** Every sequence is a subsequence of itself. */
  lemma {:induction false} SubseqRefl<T>(s: seq<T>)
    ensures IsSubseq(s, s)
  {
    if |s| > 0 {
      SubseqRefl(s[1..]);
    }
  }

  /** `Array.prototype.filter`: keeps, in order, the elements satisfying `f`. */
  function Filter<T(!new)>(f: T -> bool, s: seq<T>): (r: seq<T>)
    ensures |r| <= |s|
    ensures forall x :: x in r <==> x in s && f(x)
    ensures forall x :: multiset(r)[x] == if f(x) then multiset(s)[x] else 0
  {
    if |s| == 0 then []
    else
      assert s == [s[0]] + s[1..];
      if f(s[0]) then [s[0]] + Filter(f, s[1..]) else Filter(f, s[1..])
  }

  /** `Array.prototype.map`. */
  function Map<T, U>(f: T -> U, s: seq<T>): (r: seq<U>)
    ensures |r| == |s|
    ensures forall i :: 0 <= i < |s| ==> r[i] == f(s[i])
  {
    if |s| == 0 then [] else [f(s[0])] + Map(f, s[1..])
  }

  /** `Array.prototype.find`: the first element satisfying `f`, if any. */
  function Find<T>(f: T -> bool, s: seq<T>): (r: Option<T>)
    ensures r.None? <==> forall i :: 0 <= i < |s| ==> !f(s[i])
    ensures r.Some? ==> exists i :: 0 <= i < |s| && s[i] == r.value && f(s[i])
                          && forall j :: 0 <= j < i ==> !f(s[j])
  {
    if |s| == 0 then None
    else if f(s[0]) then Some(s[0])
    else
      var r := Find(f, s[1..]);
      assert r.Some? ==> exists i :: 0 <= i < |s[1..]| && s[1..][i] == r.value && f(s[1..][i])
                           && forall j :: 0 <= j < i ==> !f(s[1..][j]);
      assert r.Some? ==> exists i :: 1 <= i < |s| && s[i] == r.value && f(s[i])
                           && forall j :: 0 <= j < i ==> !f(s[j]) by {
        if r.Some? {
          var k :| 0 <= k < |s[1..]| && s[1..][k] == r.value && f(s[1..][k])
                   && forall j :: 0 <= j < k ==> !f(s[1..][j]);
          assert forall j :: 0 <= j < k + 1 ==> !f(s[j]) by {
            forall j | 0 <= j < k + 1 ensures !f(s[j]) {
              if j > 0 { assert s[j] == s[1..][j - 1]; }
            }
          }
        }
      }
      r
  }

  /** A filter result is a subsequence of its input: it preserves relative order. */
  lemma {:induction false} FilterIsSubseq<T(!new)>(f: T -> bool, s: seq<T>)
    ensures IsSubseq(Filter(f, s), s)
  {
    if |s| > 0 {
      FilterIsSubseq(f, s[1..]);
      if !f(s[0]) {
        SubseqDropHead(Filter(f, s[1..]), s);
      }
    }
  }

  /** Any subsequence of the tail of `b` is a subsequence of `b`. */
  lemma {:induction false} SubseqDropHead<T>(a: seq<T>, b: seq<T>)
    requires |b| > 0 && IsSubseq(a, b[1..])
    ensures IsSubseq(a, b)
    decreases |b|, 0
  {
    if |a| > 0 && a[0] == b[0] {
      SubseqTail(a, b[1..]);
    }
  }

  /** Dropping the first element of a subsequence keeps it a subsequence. */
  lemma {:induction false} SubseqTail<T>(a: seq<T>, b: seq<T>)
    requires |a| > 0 && IsSubseq(a, b)
    ensures IsSubseq(a[1..], b)
    decreases |b|, 1
  {
    assert |b| > 0;
    if a[0] == b[0] {
      if |a[1..]| > 0 {
        SubseqDropHead(a[1..], b);
      }
    } else {
      SubseqTail(a, b[1..]);
      if |a[1..]| > 0 {
        SubseqDropHead(a[1..], b);
      }
    }
  }

  /** A filter whose predicate holds of every element is the identity. */
  lemma {:induction false} FilterAll<T(!new)>(f: T -> bool, s: seq<T>)
    requires forall i :: 0 <= i < |s| ==> f(s[i])
    ensures Filter(f, s) == s
  {
    if |s| > 0 {
      FilterAll(f, s[1..]);
      assert s == [s[0]] + s[1..];
    }
  }

  /** Two predicates that agree on every element select the same elements. */
  lemma {:induction false} FilterSamePredicate<T(!new)>(f: T -> bool, g: T -> bool, s: seq<T>)
    requires forall i :: 0 <= i < |s| ==> f(s[i]) == g(s[i])
    ensures Filter(f, s) == Filter(g, s)
  {
    if |s| > 0 {
      FilterSamePredicate(f, g, s[1..]);
    }
  }

  /** A filter that rejects exactly one position drops exactly one element. */
  lemma {:induction false} FilterMissesOne<T(!new)>(f: T -> bool, s: seq<T>, k: nat)
    requires k < |s|
    requires forall i :: 0 <= i < |s| ==> (f(s[i]) <==> i != k)
    ensures |Filter(f, s)| == |s| - 1
  {
    if k == 0 {
      FilterAll(f, s[1..]);
    } else {
      FilterMissesOne(f, s[1..], k - 1);
    }
  }

  /** A filter that rejects some element is strictly shorter than its input. */
  lemma {:induction false} FilterRejectsSome<T(!new)>(f: T -> bool, s: seq<T>, k: nat)
    requires k < |s| && !f(s[k])
    ensures |Filter(f, s)| < |s|
  {
    if k > 0 {
      FilterRejectsSome(f, s[1..], k - 1);
    }
  }

  /** Filtering twice by the same predicate is the same as filtering once. */
  lemma FilterIdempotent<T(!new)>(f: T -> bool, s: seq<T>)
    ensures Filter(f, Filter(f, s)) == Filter(f, s)
  {
    var r := Filter(f, s);
    forall i | 0 <= i < |r| ensures f(r[i]) {
      assert r[i] in r;
    }
    FilterAll(f, r);
  }

  /** Filtering distributes over concatenation. */
  lemma {:induction false} FilterConcat<T(!new)>(f: T -> bool, a: seq<T>, b: seq<T>)
    ensures Filter(f, a + b) == Filter(f, a) + Filter(f, b)
  {
    if |a| > 0 {
      assert (a + b)[1..] == a[1..] + b;
      FilterConcat(f, a[1..], b);
    } else {
      assert a + b == b;
    }
  }

  /** When every element up to position `k` passes `f`, the filter keeps
      positions `0..k` in place. */
  lemma {:induction false} FilterKeepsPassingPrefix<T(!new)>(f: T -> bool, s: seq<T>, k: nat)
    requires k < |s|
    requires forall j :: 0 <= j <= k ==> f(s[j])
    ensures k < |Filter(f, s)| && Filter(f, s)[k] == s[k]
  {
    if k > 0 {
      FilterKeepsPassingPrefix(f, s[1..], k - 1);
    }
  }
}
