/** `ListBalancer`: validates its arguments and cuts a list into consecutive
    sections of a fixed length, followed by one trailing section holding the
    remainder. */
module ListBalancing {
  import opened Wrappers
  import opened Errors
  import opened Seqs

  /** What a successful call returns. */
  datatype Distribution<T> =
    /** The list was empty: "no distribution" (Python returns `None`). */
    | NoItems
    /** The section length reached the list length: the list itself comes back. */
    | Unchanged(items: seq<T>)
    /** The list cut into sections. */
    | Sections(groups: seq<seq<T>>)

  /** Integer floor of the square root, standing for `int(n ** (1/2))`. */
  function FloorSqrt(n: nat): (r: nat)
    ensures r * r <= n < (r + 1) * (r + 1)
  {
    if n == 0 then 0
    else
      var s := FloorSqrt(n - 1);
      if (s + 1) * (s + 1) <= n then
        assert (s + 2) * (s + 2) == (s + 1) * (s + 1) + 2 * s + 3;
        s + 1
      else s
  }

  /** The section length in force: the given one, or the floor square root of
      the list length when none is given. */
  function SectionLength(n: nat, sections: Option<int>): (r: int)
    ensures sections.Some? ==> r == sections.value
    ensures sections.None? && n > 0 ==> 0 < r <= n
  {
    match sections
    case None => FloorSqrt(n)
    case Some(k) => k
  }

  /** `groups` cuts `items` into `|items| / ns` sections of exactly `ns` items
      and one trailing section of the `|items| % ns` items left over (possibly
      none), and joining them gives `items` back. */
  ghost predicate IsPartition<T>(groups: seq<seq<T>>, items: seq<T>, ns: nat)
  {
    && 0 < ns
    && |groups| == |items| / ns + 1
    && (forall i :: 0 <= i < |groups| - 1 ==> |groups[i]| == ns)
    && |groups[|groups| - 1]| == |items| % ns
    && Concat(groups) == items
  }

  /** The first `count` full sections, in order. */
  function Chunks<T>(items: seq<T>, ns: nat, count: nat): (r: seq<seq<T>>)
    ensures |r| == count
  {
    seq(count, i requires 0 <= i < count => Chunk(items, ns, i))
  }

  /** Section number `i`: the clamped slice from `i * ns` up to `(i + 1) * ns`. */
  function Chunk<T>(items: seq<T>, ns: nat, i: nat): seq<T>
  {
    Slice(items, i * ns, i * ns + ns)
  }

  /** The slicing step: the full sections followed by the tail, taken by
      reversing the list, keeping its first `remainder` items and reversing
      them back; the tail is appended even when it is empty. */
  function Split<T>(items: seq<T>, ns: nat): (r: seq<seq<T>>)
    requires 0 < ns
    ensures |r| == |items| / ns + 1
  {
    var cycles := |items| / ns;
    var remainder := |items| % ns;
    Chunks(items, ns, cycles) + [Reverse(Slice(Reverse(items), 0, remainder))]
  }

  /** Section `i` of the first `count` is the slice `items[i*ns..(i+1)*ns]`. */
  lemma ChunkIsSlice<T>(items: seq<T>, ns: nat, count: nat, i: nat)
    requires count * ns <= |items| && i < count
    ensures (i + 1) * ns <= |items|
    ensures Chunks(items, ns, count)[i] == items[i * ns..(i + 1) * ns]
  {
    MulMono(i + 1, count, ns);
    MulStep(i, ns);
  }

  /** The first `count` sections together are the prefix of `count * ns` items. */
  lemma {:induction false} ChunksJoin<T>(items: seq<T>, ns: nat, count: nat)
    requires count * ns <= |items|
    ensures Concat(Chunks(items, ns, count)) == items[..count * ns]
  {
    if count > 0 {
      var c := count - 1;
      MulStep(c, ns);
      var lo, hi := c * ns, count * ns;
      assert hi == lo + ns;
      var last := items[lo..hi];
      ChunkIsSlice(items, ns, count, c);
      assert Chunks(items, ns, count) == Chunks(items, ns, c) + [last];
      ChunksJoin(items, ns, c);
      ConcatAppend(Chunks(items, ns, c), [last]);
      assert Concat([last]) == last;
      assert items[..lo] + last == items[..hi];
    }
  }

  /** The sizes of the sections: `|items| / ns` full ones and the remainder. */
  lemma SplitSizes<T>(items: seq<T>, ns: nat)
    requires 0 < ns
    ensures |Split(items, ns)| == |items| / ns + 1
    ensures forall i :: 0 <= i < |items| / ns ==> |Split(items, ns)[i]| == ns
    ensures |Split(items, ns)[|items| / ns]| == |items| % ns
  {
    var cycles, remainder := |items| / ns, |items| % ns;
    DivMod(|items|, ns);
    var groups := Split(items, ns);
    assert groups == Chunks(items, ns, cycles) + [Reverse(Slice(Reverse(items), 0, remainder))];
    forall i | 0 <= i < cycles
      ensures |groups[i]| == ns
    {
      ChunkIsSlice(items, ns, cycles, i);
    }
    assert remainder <= |items|;
    assert |groups[cycles]| == remainder;
  }

  /** Joining the sections gives the list back. */
  lemma SplitJoins<T>(items: seq<T>, ns: nat)
    requires 0 < ns
    ensures Concat(Split(items, ns)) == items
  {
    var cycles := |items| / ns;
    var remainder := |items| % ns;
    DivMod(|items|, ns);
    ChunksJoin(items, ns, cycles);
    var tail := Reverse(Slice(Reverse(items), 0, remainder));
    ReversedHeadIsTail(items, remainder);
    ConcatAppend(Chunks(items, ns, cycles), [tail]);
    assert Concat([tail]) == tail;
    assert items[..cycles * ns] + items[cycles * ns..] == items;
  }

  /** Slicing produces a partition in the sense of `IsPartition`. */
  lemma SplitIsPartition<T>(items: seq<T>, ns: nat)
    requires 0 < ns
    ensures IsPartition(Split(items, ns), items, ns)
  {
    SplitSizes(items, ns);
    SplitJoins(items, ns);
  }

  /** The whole of `ListBalancer`, checks in source order: the empty list, the
      section length, the "too few items" exception, the remainder policy, and
      then the slicing. */
  function ListBalancer<T>(items: seq<T>, sections: Option<int>, noRemainder: bool): (r: Result<Distribution<T>, Error>)
    ensures r == Ok(NoItems) <==> |items| == 0
    ensures r == Err(NonPositiveSections) <==> |items| > 0 && SectionLength(|items|, sections) <= 0
    ensures r.Ok? && r.value.Unchanged? <==> |items| > 0 && SectionLength(|items|, sections) >= |items|
    ensures r.Ok? && r.value.Unchanged? ==> r.value.items == items
    ensures r == Err(RemainderNotAllowed) <==>
      var ns := SectionLength(|items|, sections);
      0 < ns < |items| && noRemainder && |items| % ns != 0
    ensures r.Ok? && r.value.Sections? <==>
      var ns := SectionLength(|items|, sections);
      0 < ns < |items| && !(noRemainder && |items| % ns != 0)
    ensures r.Ok? && r.value.Sections? ==> IsPartition(r.value.groups, items, SectionLength(|items|, sections))
  {
    if |items| == 0 then Ok(NoItems)
    else
      var ns := SectionLength(|items|, sections);
      if sections.Some? && ns <= 0 then Err(NonPositiveSections)
      else if ns >= |items| then Ok(Unchanged(items))
      else if noRemainder && |items| % ns != 0 then Err(RemainderNotAllowed)
      else
        SplitIsPartition(items, ns);
        Ok(Sections(Split(items, ns)))
  }
}
