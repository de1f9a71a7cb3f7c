/** Sequence operations the balancer is built from: joining groups, Python's
    clamped slicing and reversal, and the `x != None` filter. */
module Seqs {
  import opened Wrappers

  /** The groups joined end to end, in order. */
  function Concat<T>(groups: seq<seq<T>>): seq<T>
  {
    if |groups| == 0 then [] else groups[0] + Concat(groups[1..])
  }

  lemma {:induction false} ConcatAppend<T>(a: seq<seq<T>>, b: seq<seq<T>>)
    ensures Concat(a + b) == Concat(a) + Concat(b)
  {
    if |a| == 0 {
      assert a + b == b;
    } else {
      assert (a + b)[1..] == a[1..] + b;
      ConcatAppend(a[1..], b);
    }
  }

  /** Joining groups that are all empty gives nothing. */
  lemma {:induction false} ConcatOfEmpties<T>(groups: seq<seq<T>>)
    ensures (forall i :: 0 <= i < |groups| ==> groups[i] == []) ==> Concat(groups) == []
  {
    if |groups| > 0 {
      ConcatOfEmpties(groups[1..]);
      assert forall i :: 1 <= i < |groups| ==> groups[1..][i - 1] == groups[i];
    }
  }

  /** Every item of every group occurs in the joined sequence. */
  lemma {:induction false} ConcatContains<T>(groups: seq<seq<T>>, i: nat, x: T)
    requires i < |groups| && x in groups[i]
    ensures x in Concat(groups)
  {
    if i > 0 {
      ConcatContains(groups[1..], i - 1, x);
    }
  }

  /** `s[::-1]`. */
  function Reverse<T>(s: seq<T>): (r: seq<T>)
    ensures |r| == |s|
    ensures forall i :: 0 <= i < |s| ==> r[i] == s[|s| - 1 - i]
  {
    seq(|s|, i requires 0 <= i < |s| => s[|s| - 1 - i])
  }

  /** Reversing twice gives the sequence back. */
  lemma {:induction false} ReverseReverse<T>(s: seq<T>)
    ensures Reverse(Reverse(s)) == s
  {
    var n := |s|;
    var twice := Reverse(Reverse(s));
    forall i | 0 <= i < n
      ensures twice[i] == s[i]
    {
      assert twice[i] == Reverse(s)[n - 1 - i];
    }
  }

  /** Python's `s[lo:hi]` for non-negative bounds: both ends are clamped to the
      length of `s`, and a range whose start is not below its end is empty. */
  function Slice<T>(s: seq<T>, lo: nat, hi: nat): (r: seq<T>)
    ensures lo <= hi <= |s| ==> |r| == hi - lo
    ensures hi <= lo || |s| <= lo ==> r == []
    ensures lo < |s| <= hi ==> r == s[lo..]
    ensures forall i :: 0 <= i < |r| ==> lo + i < |s| && r[i] == s[lo + i]
  {
    var end := if hi < |s| then hi else |s|;
    if lo < end then s[lo..end] else []
  }

  /** `s[::-1][:k][::-1]` is the tail of `s` holding its last `k` items, and is
      empty when `k` is 0. */
  lemma ReversedHeadIsTail<T>(s: seq<T>, k: nat)
    requires k <= |s|
    ensures Reverse(Slice(Reverse(s), 0, k)) == s[|s| - k..]
  {
    assert Slice(Reverse(s), 0, k) == Reverse(s)[..k];
    ReversedPrefix(s, k);
  }

  lemma ReversedPrefix<T>(s: seq<T>, k: nat)
    requires k <= |s|
    ensures Reverse(Reverse(s)[..k]) == s[|s| - k..]
  {
    var n := |s|;
    var rev := Reverse(s);
    var head := rev[..k];
    var out := Reverse(head);
    var tail := s[n - k..];
    assert |out| == k == |tail|;
    forall i | 0 <= i < k
      ensures out[i] == tail[i]
    {
      var t := k - 1 - i;
      assert out[i] == head[t];
      assert head[t] == rev[t];
      assert rev[t] == s[n - 1 - t];
      assert n - 1 - t == n - k + i;
    }
  }

  /** The values of the items of `s` that are not `None`, in their order. */
  function Present<T>(s: seq<Option<T>>): (r: seq<T>)
    ensures |r| <= |s|
    ensures None !in s ==> |r| == |s| && forall i :: 0 <= i < |s| ==> r[i] == s[i].value
  {
    if |s| == 0 then []
    else
      assert s == [s[0]] + s[1..];
      (if s[0].Some? then [s[0].value] else []) + Present(s[1..])
  }

  /** Each value occurs in the filtered sequence as often as `Some` of it
      occurs in the original. */
  lemma {:induction false} PresentCount<T>(s: seq<Option<T>>, v: T)
    ensures multiset(Present(s))[v] == multiset(s)[Some(v)]
  {
    if |s| > 0 {
      assert s == [s[0]] + s[1..];
      PresentCount(s[1..], v);
    }
  }

  lemma {:induction false} PresentAppend<T>(a: seq<Option<T>>, b: seq<Option<T>>)
    ensures Present(a + b) == Present(a) + Present(b)
  {
    if |a| > 0 {
      assert (a + b)[1..] == a[1..] + b;
      PresentAppend(a[1..], b);
    } else {
      assert a + b == b;
    }
  }

  /** Filtering one draw: its value, or nothing for a placeholder. */
  lemma PresentOfOne<T>(x: Option<T>)
    ensures Present([x]) == if x.Some? then [x.value] else []
  {
    assert [x][1..] == [];
  }

  /** Filtering values followed by one more draw keeps the values in place
      and adds the last draw's value, if any, at the end. */
  lemma PresentSnoc<T>(full: seq<Option<T>>, last: Option<T>)
    requires None !in full
    ensures |Present(full + [last])| == |full| + (if last.Some? then 1 else 0)
    ensures forall i :: 0 <= i < |full| ==> Present(full + [last])[i] == full[i].value
    ensures last.Some? ==> Present(full + [last])[|full|] == last.value
  {
    PresentAppend(full, [last]);
    PresentOfOne(last);
  }

  /** Filtering respects multiset equality: two arrangements of the same
      values keep the same non-`None` values. */
  lemma {:induction false} PresentOfPermutation<T>(a: seq<Option<T>>, b: seq<Option<T>>)
    requires multiset(a) == multiset(b)
    ensures multiset(Present(a)) == multiset(Present(b))
  {
    var pa, pb := multiset(Present(a)), multiset(Present(b));
    forall v: T
      ensures pa[v] == pb[v]
    {
      PresentCount(a, v);
      PresentCount(b, v);
    }
    MultisetExt(pa, pb);
  }

  lemma MultisetExt<T>(m1: multiset<T>, m2: multiset<T>)
    requires forall v :: m1[v] == m2[v]
    ensures m1 == m2
  {
  }

  /** A sequence made only of `None` filters to nothing. */
  lemma {:induction false} PresentOfNones<T>(s: seq<Option<T>>)
    requires forall i :: 0 <= i < |s| ==> s[i] == None
    ensures Present(s) == []
  {
    if |s| > 0 {
      PresentOfNones(s[1..]);
    }
  }

  /* Index arithmetic for sequences cut into blocks of equal length. */

  lemma DivMod(n: nat, ns: nat)
    requires 0 < ns
    ensures (n / ns) * ns + n % ns == n
    ensures 0 <= n % ns < ns
    ensures 0 <= n / ns
  {
  }

  lemma MulStep(c: nat, ns: nat)
    ensures (c + 1) * ns == c * ns + ns
  {
  }

  lemma {:induction false} MulMono(a: nat, b: nat, ns: nat)
    requires a <= b
    ensures a * ns <= b * ns
  {
    if a < b {
      MulStep(b - 1, ns);
      MulMono(a, b - 1, ns);
    }
  }

  lemma DivSmall(j: nat, w: nat)
    requires j < w
    ensures j / w == 0 && j % w == j
  {
  }

  /** Stepping back one block of `w` lowers the block number by one and
      keeps the position inside the block. */
  lemma DivSub(j: nat, j': nat, w: nat)
    requires 0 < w && j' + w == j
    ensures j' / w == j / w - 1 && j' % w == j % w
  {
    DivMod(j, w);
    DivMod(j', w);
    var q, q' := j / w, j' / w;
    MulStep(q', w);
    if q' + 1 < q {
      MulMono(q' + 2, q, w);
      MulStep(q' + 1, w);
    } else if q' + 1 > q {
      MulMono(q + 1, q' + 1, w);
      MulStep(q, w);
    }
  }
}
