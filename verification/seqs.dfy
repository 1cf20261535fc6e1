/**
 Order-preserving selection from sequences: the subsequence relation, selection
 by a predicate (a boolean mask over a table's rows) and selection by an
 explicit sequence of keep/drop flags.
 */
module Seqs {

  /** True iff `a` can be obtained from `b` by deleting elements, without
      adding or reordering anything. */
  predicate IsSubseq<T(==)>(a: seq<T>, b: seq<T>)
    decreases |b|
  {
    |a| == 0
    || (|b| > 0 && ((a[0] == b[0] && IsSubseq(a[1..], b[1..])) || IsSubseq(a, b[1..])))
  }

  /** Every element of a subsequence occurs in the sequence it was taken from,
      and a subsequence is never longer. */
  lemma {:induction false} SubseqElements<T>(a: seq<T>, b: seq<T>)
    requires IsSubseq(a, b)
    ensures |a| <= |b|
    ensures forall x :: x in a ==> x in b
    decreases |b|
  {
    if |a| == 0 {
    } else if a[0] == b[0] && IsSubseq(a[1..], b[1..]) {
      SubseqElements(a[1..], b[1..]);
      forall x | x in a ensures x in b {
        if x != a[0] {
          assert x in a[1..];
        }
      }
    } else {
      SubseqElements(a, b[1..]);
      forall x | x in a ensures x in b {
        assert x in b[1..];
      }
    }
  }

  lemma {:induction false} SubseqTransitive<T>(a: seq<T>, b: seq<T>, c: seq<T>)
    requires IsSubseq(a, b) && IsSubseq(b, c)
    ensures IsSubseq(a, c)
    decreases |c|
  {
    if |a| == 0 {
    } else if IsSubseq(b, c[1..]) {
      SubseqTransitive(a, b, c[1..]);
    } else if IsSubseq(a, b[1..]) {
      SubseqTransitive(a, b[1..], c[1..]);
    } else {
      SubseqTransitive(a[1..], b[1..], c[1..]);
    }
  }

  lemma {:induction false} SubseqReflexive<T>(a: seq<T>)
    ensures IsSubseq(a, a)
    decreases |a|
  {
    if |a| > 0 {
      SubseqReflexive(a[1..]);
    }
  }

  /** The elements of `s` that satisfy `p`, in their original order. */
  function Filter<T>(s: seq<T>, p: T -> bool): (r: seq<T>)
    ensures forall i :: 0 <= i < |r| ==> p(r[i])
    ensures IsSubseq(r, s)
    decreases |s|
  {
    if |s| == 0 then []
    else if p(s[0]) then [s[0]] + Filter(s[1..], p)
    else Filter(s[1..], p)
  }

  /** Nothing that satisfies `p` is filtered out. */
  lemma {:induction false} FilterComplete<T>(s: seq<T>, p: T -> bool, x: T)
    requires x in s && p(x)
    ensures x in Filter(s, p)
    decreases |s|
  {
    if s[0] != x {
      assert x in s[1..];
      FilterComplete(s[1..], p, x);
    }
  }

  /** Membership in a filtered sequence: exactly the elements of `s` that
      satisfy `p`. */
  lemma {:induction false} FilterMembers<T>(s: seq<T>, p: T -> bool, x: T)
    ensures x in Filter(s, p) <==> x in s && p(x)
  {
    var r := Filter(s, p);
    if x in r {
      SubseqElements(r, s);
    } else if x in s && p(x) {
      FilterComplete(s, p, x);
    }
  }

  /** The flags of a boolean mask: `p` evaluated at every element. */
  function Marks<T>(s: seq<T>, p: T -> bool): (keep: seq<bool>)
    ensures |keep| == |s|
    ensures forall i :: 0 <= i < |s| ==> keep[i] == p(s[i])
  {
    seq(|s|, i requires 0 <= i < |s| => p(s[i]))
  }

  /** Selecting by a predicate is masking with the predicate's flags: every
      position whose element satisfies `p` is kept, duplicates included, so
      the selection has exactly as many elements as there are such positions. */
  lemma {:induction false} FilterIsMask<T>(s: seq<T>, p: T -> bool)
    ensures Filter(s, p) == Mask(s, Marks(s, p))
    ensures |Filter(s, p)| == CountTrue(Marks(s, p))
    decreases |s|
  {
    if |s| > 0 {
      assert Marks(s, p)[1..] == Marks(s[1..], p);
      FilterIsMask(s[1..], p);
    }
  }

  /** The number of flags that are set. */
  function CountTrue(keep: seq<bool>): nat
    decreases |keep|
  {
    if |keep| == 0 then 0 else (if keep[0] then 1 else 0) + CountTrue(keep[1..])
  }

  /** The elements `s[i]` whose flag `keep[i]` is set, in their original order. */
  function Mask<T>(s: seq<T>, keep: seq<bool>): (r: seq<T>)
    requires |keep| == |s|
    ensures |r| == CountTrue(keep)
    ensures IsSubseq(r, s)
    decreases |s|
  {
    if |s| == 0 then []
    else if keep[0] then [s[0]] + Mask(s[1..], keep[1..])
    else Mask(s[1..], keep[1..])
  }

  /** An element whose flag is set survives the mask. */
  lemma {:induction false} MaskKeeps<T>(s: seq<T>, keep: seq<bool>, i: nat)
    requires |keep| == |s| && i < |s| && keep[i]
    ensures s[i] in Mask(s, keep)
    decreases |s|
  {
    if i > 0 {
      MaskKeeps(s[1..], keep[1..], i - 1);
      assert s[1..][i - 1] == s[i];
    }
  }

  /** Only elements whose flag is set survive the mask. */
  lemma {:induction false} MaskOnlyFlagged<T>(s: seq<T>, keep: seq<bool>, x: T)
    requires |keep| == |s| && x in Mask(s, keep)
    ensures exists i :: 0 <= i < |s| && s[i] == x && keep[i]
    decreases |s|
  {
    if keep[0] && x == s[0] {
      assert 0 < |s| && s[0] == x && keep[0];
    } else {
      MaskOnlyFlagged(s[1..], keep[1..], x);
      var i :| 0 <= i < |s| - 1 && s[1..][i] == x && keep[1..][i];
      assert s[i + 1] == x && keep[i + 1];
    }
  }

  /** With every flag set the mask is the identity. */
  lemma {:induction false} MaskAllTrue<T>(s: seq<T>, keep: seq<bool>)
    requires |keep| == |s|
    requires forall i :: 0 <= i < |keep| ==> keep[i]
    ensures Mask(s, keep) == s
    decreases |s|
  {
    if |s| > 0 {
      assert keep[0];
      MaskAllTrue(s[1..], keep[1..]);
    }
  }

  /** Extending the input by one element extends the result by that element
      exactly when its flag is set. */
  lemma {:induction false} MaskSnoc<T>(s: seq<T>, keep: seq<bool>, x: T, k: bool)
    requires |keep| == |s|
    ensures Mask(s + [x], keep + [k]) == Mask(s, keep) + (if k then [x] else [])
    decreases |s|
  {
    if |s| == 0 {
      assert s + [x] == [x];
      assert keep + [k] == [k];
    } else {
      assert (s + [x])[1..] == s[1..] + [x];
      assert (keep + [k])[1..] == keep[1..] + [k];
      MaskSnoc(s[1..], keep[1..], x, k);
    }
  }
}
