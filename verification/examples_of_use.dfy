/** Concrete calls, worked out by the verifier: the partitions and the
    interleaving of small lists. */
module Worked {
  import opened Wrappers
  import opened Errors
  import opened Seqs
  import opened ListBalancing
  import opened CycleSelect

  const Ten: seq<int> := [1, 2, 3, 4, 5, 6, 7, 8, 9, 10]

  /** An empty list is "no distribution" whatever the section length. */
  lemma EmptyListFirst()
    ensures ListBalancer<int>([], Some(-3), true) == Ok(NoItems)
    ensures ListBalancer<int>([], None, false) == Ok(NoItems)
  {
  }

  /** Sections of 5 out of ten items: two full ones and an empty trailing one. */
  lemma TenInFives()
    ensures ListBalancer(Ten, Some(5), false) == Ok(Sections([[1, 2, 3, 4, 5], [6, 7, 8, 9, 10], []]))
    ensures ListBalancer(Ten, Some(5), true) == Ok(Sections([[1, 2, 3, 4, 5], [6, 7, 8, 9, 10], []]))
  {
    var groups := Split(Ten, 5);
    SplitSizes(Ten, 5);
    ChunkIsSlice(Ten, 5, 2, 0);
    ChunkIsSlice(Ten, 5, 2, 1);
    assert groups[0] == Ten[0..5] == [1, 2, 3, 4, 5];
    assert groups[1] == Ten[5..10] == [6, 7, 8, 9, 10];
    assert groups == [[1, 2, 3, 4, 5], [6, 7, 8, 9, 10], []];
  }

  /** Sections of 3 out of ten items: the trailing section holds the last item. */
  lemma TenInThrees()
    ensures ListBalancer(Ten, Some(3), false) == Ok(Sections([[1, 2, 3], [4, 5, 6], [7, 8, 9], [10]]))
    ensures ListBalancer(Ten, Some(3), true) == Err(RemainderNotAllowed)
  {
    var groups := Split(Ten, 3);
    SplitSizes(Ten, 3);
    ChunkIsSlice(Ten, 3, 3, 0);
    ChunkIsSlice(Ten, 3, 3, 1);
    ChunkIsSlice(Ten, 3, 3, 2);
    ReversedHeadIsTail(Ten, 1);
    assert groups[0] == Ten[0..3] == [1, 2, 3];
    assert groups[1] == Ten[3..6] == [4, 5, 6];
    assert groups[2] == Ten[6..9] == [7, 8, 9];
    assert groups[3] == Ten[9..] == [10];
    assert groups == [[1, 2, 3], [4, 5, 6], [7, 8, 9], [10]];
  }

  /** Without a section length, ten items are cut into sections of 3, the
      floor of the square root of 10. */
  lemma TenDerived()
    ensures ListBalancer(Ten, None, false) == ListBalancer(Ten, Some(3), false)
  {
    var r := FloorSqrt(10);
  }

  /** A section length of at least the list length gives the list back; a
      non-positive one is refused. */
  lemma ShortList()
    ensures ListBalancer([1, 2, 3], Some(5), true) == Ok(Unchanged([1, 2, 3]))
    ensures ListBalancer([1, 2, 3], Some(0), false) == Err(NonPositiveSections)
  {
  }

  /** Draws that always choose the first position. */
  ghost predicate FirstAlways(oracle: Oracle)
  {
    forall round, group :: oracle(round, group) == 0
  }

  /** Interleaving `[[1, 2], [3]]` with the first position always chosen: the
      last group is padded to `[3, None]`, the first round gives 1 and 3, the
      second gives 2 and the placeholder, which is dropped. */
  lemma PaddedInterleaving(oracle: Oracle)
    requires FirstAlways(oracle)
    ensures RandomCycleSelect([[Some(1), Some(2)], [Some(3)]], oracle) == Ok([1, 3, 2])
  {
    var groups: seq<seq<Option<int>>> := [[Some(1), Some(2)], [Some(3)]];
    var rows: seq<seq<Option<int>>> := [[Some(1), Some(3)], [Some(2), None]];
    ShortLastPadded();
    TwoRounds(oracle, Some(1), Some(2), Some(3), None);
    assert Draws(groups, oracle) == Ok(rows);
    TwoRowsEmit();
  }

  /** The second group of `[[1, 2], [3]]` gets one placeholder. */
  lemma ShortLastPadded()
    ensures Pad([[Some(1), Some(2)], [Some(3)]]) == [[Some(1), Some(2)], [Some(3), None]]
    ensures MaxLength([[Some(1), Some(2)], [Some(3)]]) == 2
  {
    var groups: seq<seq<Option<int>>> := [[Some(1), Some(2)], [Some(3)]];
    assert |groups[0]| == 2 && |groups[1]| == 1;
    assert !SameLengths(groups);
    assert groups[..1] == [[Some(1), Some(2)]];
    var pads := Nones<int>(1);
    assert pads[0] == None;
    assert groups[1] + pads == [Some(3), None];
  }

  /** The two rounds' values, placeholder dropped. */
  lemma TwoRowsEmit()
    ensures Emit([[Some(1), Some(3)], [Some(2), None]]) == [1, 3, 2]
  {
    var r0: seq<Option<int>> := [Some(1), Some(3)];
    var r1: seq<Option<int>> := [Some(2), None];
    var rows := [r0, r1];
    assert Present(r0) == [1, 3] by {
      PresentOfOne(Some(1));
      PresentOfOne(Some(3));
      assert r0 == [Some(1)] + [Some(3)];
      PresentAppend([Some(1)], [Some(3)]);
    }
    assert Present(r1) == [2] by {
      PresentOfOne(Some(2));
      PresentOfOne<int>(None);
      assert r1 == [Some(2)] + [None];
      PresentAppend([Some(2)], [None]);
    }
    assert rows[1..] == [r1] && rows[1..][1..] == [];
    assert Emit(rows[1..]) == [2];
    assert Emit(rows) == [1, 3] + [2] == [1, 3, 2];
  }

  /** A successful round followed by successful rounds. */
  lemma RoundsStep<T>(groups: seq<seq<T>>, round: nat, count: nat, oracle: Oracle, o: RoundResult<T>, rows: seq<seq<T>>)
    requires count > 0
    requires Round(groups, RoundDraws(oracle, round, |groups|)) == Ok(o)
    requires Rounds(o.rest, round + 1, count - 1, oracle) == Ok(rows)
    ensures Rounds(groups, round, count, oracle) == Ok([o.drawn] + rows)
  {
  }

  /** Two groups of two under first-position draws: round one takes the
      first items, round two the second ones. */
  lemma TwoRounds<T>(oracle: Oracle, a: T, b: T, c: T, d: T)
    requires FirstAlways(oracle)
    ensures Rounds([[a, b], [c, d]], 0, 2, oracle) == Ok([[a, c], [b, d]])
  {
    var gs, rows := [[a, b], [c, d]], [[b, d]];
    var o := RoundResult([a, c], [[b], [d]]);
    assert Rounds(gs, 0, 2, oracle) == Ok([o.drawn] + rows) by {
      FirstRound(oracle, a, b, c, d);
      LastRound(oracle, b, d);
      assert |gs| == 2;
      assert Round(gs, RoundDraws(oracle, 0, |gs|)) == Ok(o);
      assert Rounds(o.rest, 1, 1, oracle) == Ok(rows);
    }
    assert [o.drawn] + rows == [[a, c], [b, d]];
  }

  lemma LastRound<T>(oracle: Oracle, b: T, d: T)
    requires FirstAlways(oracle)
    ensures Rounds([[b], [d]], 1, 1, oracle) == Ok([[b, d]])
  {
    var none: seq<T> := [];
    var empty: seq<seq<T>> := [];
    SecondRound(oracle, b, d);
    assert Rounds([none, none], 2, 0, oracle) == Ok(empty);
    RoundsStep([[b], [d]], 1, 1, oracle, RoundResult([b, d], [none, none]), empty);
    assert [[b, d]] + empty == [[b, d]];
  }

  /** Each round draws position 0 from both groups. */
  lemma FirstDraws(oracle: Oracle, round: nat)
    requires FirstAlways(oracle)
    ensures RoundDraws(oracle, round, 2) == [0, 0]
  {
    var d := RoundDraws(oracle, round, 2);
    assert d[0] == oracle(round, 0) && d[1] == oracle(round, 1);
  }

  /** Draw 0 pops the first item. */
  lemma PopFirst<T>(g: seq<T>)
    requires |g| > 0
    ensures Pop(g, 0) == (g[0], g[1..])
  {
    assert g[..0] + g[1..] == g[1..];
  }

  /** A round over two non-empty groups pops one item from each. */
  lemma PairRound<T>(g0: seq<T>, g1: seq<T>, d0: nat, d1: nat)
    requires |g0| > 0 && |g1| > 0
    ensures Round([g0, g1], [d0, d1]) == Ok(RoundResult([Pop(g0, d0).0, Pop(g1, d1).0], [Pop(g0, d0).1, Pop(g1, d1).1]))
  {
    var empty: seq<seq<T>> := [];
    assert Round(empty, []) == Ok(RoundResult([], []));
    RoundStep(g1, empty, d1, []);
    assert [g1] + empty == [g1] && [d1] + [] == [d1];
    var p0, p1 := Pop(g0, d0), Pop(g1, d1);
    var none: seq<T> := [];
    assert [p1.0] + none == [p1.0] && [p1.1] + empty == [p1.1];
    assert Round([g1], [d1]) == Ok(RoundResult([p1.0], [p1.1]));
    RoundStep(g0, [g1], d0, [d1]);
    assert [g0] + [g1] == [g0, g1] && [d0] + [d1] == [d0, d1];
    assert [p0.0] + [p1.0] == [p0.0, p1.0] && [p0.1] + [p1.1] == [p0.1, p1.1];
  }

  /** A round over a non-empty first group pops it and goes on with the rest. */
  lemma RoundStep<T>(g: seq<T>, groups: seq<seq<T>>, d: nat, draws: seq<nat>)
    requires |g| > 0 && |draws| == |groups| && Round(groups, draws).Ok?
    ensures var o := Round(groups, draws).value;
      Round([g] + groups, [d] + draws) == Ok(RoundResult([Pop(g, d).0] + o.drawn, [Pop(g, d).1] + o.rest))
  {
    assert ([g] + groups)[1..] == groups;
    assert ([d] + draws)[1..] == draws;
  }

  lemma FirstRound<T>(oracle: Oracle, a: T, b: T, c: T, d: T)
    requires FirstAlways(oracle)
    ensures Round([[a, b], [c, d]], RoundDraws(oracle, 0, 2)) == Ok(RoundResult([a, c], [[b], [d]]))
  {
    FirstDraws(oracle, 0);
    var g0, g1 := [a, b], [c, d];
    PopFirst(g0);
    PopFirst(g1);
    assert g0[1..] == [b] && g1[1..] == [d];
    PairRound(g0, g1, 0, 0);
  }

  lemma SecondRound<T>(oracle: Oracle, b: T, d: T)
    requires FirstAlways(oracle)
    ensures Round([[b], [d]], RoundDraws(oracle, 1, 2)) == Ok(RoundResult([b, d], [[], []]))
  {
    FirstDraws(oracle, 1);
    var g0, g1 := [b], [d];
    PopFirst(g0);
    PopFirst(g1);
    assert g0[1..] == [] && g1[1..] == [];
    PairRound(g0, g1, 0, 0);
  }

  /** A middle group shorter than the others runs out before the last round,
      whatever the draws: the draw from the empty group fails. */
  lemma ShortMiddleGroup(oracle: Oracle)
    ensures RandomCycleSelect([[Some(1), Some(2)], [Some(3)], [Some(4), Some(5)]], oracle) == Err(EmptyGroupDraw)
  {
    var groups := [[Some(1), Some(2)], [Some(3)], [Some(4), Some(5)]];
    assert MaxLength(groups) == 2;
    assert !Regular(groups);
  }
}
