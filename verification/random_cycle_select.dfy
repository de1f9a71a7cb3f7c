/** `RandomCycleSelect`: pads the last group, then runs one round per item of
    the longest group, popping one randomly chosen item from every group in
    group order and keeping the ones that are not `None`. */
module CycleSelect {
  import opened Wrappers
  import opened Errors
  import opened Seqs

  /** The random source. `oracle(round, g)` is the raw draw for group `g` in
      that round; the popped position is the draw modulo the group's current
      length, so every position can be chosen and none outside the group. */
  type Oracle = (nat, nat) -> nat

  /** Every group is as long as the first one: the test that decides whether
      padding happens. */
  predicate SameLengths<T>(groups: seq<seq<T>>)
  {
    forall i :: 0 <= i < |groups| ==> |groups[i]| == |groups[0]|
  }

  /** The length of the longest group: the number of rounds. */
  function MaxLength<T>(groups: seq<seq<T>>): (m: nat)
    requires |groups| > 0
    ensures forall i :: 0 <= i < |groups| ==> |groups[i]| <= m
    ensures exists i :: 0 <= i < |groups| && |groups[i]| == m
  {
    if |groups| == 1 then |groups[0]|
    else
      var rest := MaxLength(groups[1..]);
      assert forall i :: 1 <= i < |groups| ==> groups[i] == groups[1..][i - 1];
      if |groups[0]| >= rest then |groups[0]| else rest
  }

  /** The last group, the one that padding extends. */
  function Last<T>(groups: seq<seq<T>>): seq<T>
    requires |groups| > 0
  {
    groups[|groups| - 1]
  }

  /** `k` placeholders, none when `k <= 0`. */
  function Nones<T>(k: int): (r: seq<Option<T>>)
    ensures |r| == if k < 0 then 0 else k
    ensures forall i :: 0 <= i < |r| ==> r[i] == None
  {
    if k <= 0 then [] else [None] + Nones(k - 1)
  }

  /** The padding step: when the lengths differ, the last group is extended
      with placeholders up to the length of the FIRST group. */
  function Pad<T>(groups: seq<seq<Option<T>>>): (r: seq<seq<Option<T>>>)
    requires |groups| > 0
    ensures |r| == |groups|
    ensures forall i :: 0 <= i < |groups| - 1 ==> r[i] == groups[i]
  {
    if SameLengths(groups) then groups
    else
      var last := groups[|groups| - 1];
      groups[..|groups| - 1] + [last + Nones(|groups[0]| - |last|)]
  }

  /** Popping the item at the position `draw` selects, taken modulo the
      group's length: the popped item and what is left of the group. */
  function Pop<T>(g: seq<T>, draw: nat): (p: (T, seq<T>))
    requires |g| > 0
    ensures |p.1| == |g| - 1
    ensures multiset(p.1) + multiset{p.0} == multiset(g)
    ensures p.0 in g
  {
    var k := draw % |g|;
    assert g == g[..k] + [g[k]] + g[k + 1..];
    (g[k], g[..k] + g[k + 1..])
  }

  /** One round's draws and the groups left after them. */
  datatype RoundResult<T> = RoundResult(drawn: seq<T>, rest: seq<seq<T>>)

  /** Every group holds at least `count` items. */
  predicate Fits<T>(groups: seq<seq<T>>, count: nat)
  {
    forall i :: 0 <= i < |groups| ==> |groups[i]| >= count
  }

  /** Every group holds exactly `count` items. */
  predicate Exactly<T>(groups: seq<seq<T>>, count: nat)
  {
    forall i :: 0 <= i < |groups| ==> |groups[i]| == count
  }

  /** `o` took one item out of every group: one draw per group, and every
      group left one shorter. */
  predicate Shorter<T>(groups: seq<seq<T>>, o: RoundResult<T>)
  {
    && |o.drawn| == |groups| && |o.rest| == |groups|
    && forall i :: 0 <= i < |groups| ==> |o.rest[i]| == |groups[i]| - 1
  }

  /** ... and group `i` lost exactly the item `o.drawn[i]`. */
  ghost predicate PopsOf<T>(groups: seq<seq<T>>, o: RoundResult<T>)
  {
    && Shorter(groups, o)
    && forall i :: 0 <= i < |groups| ==> multiset(o.rest[i]) + multiset{o.drawn[i]} == multiset(groups[i])
  }

  lemma FitsCons<T>(groups: seq<seq<T>>, count: nat)
    requires |groups| > 0
    ensures Fits(groups, count) <==> |groups[0]| >= count && Fits(groups[1..], count)
  {
    assert forall i :: 1 <= i < |groups| ==> groups[1..][i - 1] == groups[i];
  }

  /** One round: a random item popped from every group, in group order.
      `draws[i]` is the raw draw for group `i`. It fails on the first empty group. */
  function Round<T>(groups: seq<seq<T>>, draws: seq<nat>): (r: Result<RoundResult<T>, Error>)
    requires |draws| == |groups|
    ensures r.Ok? <==> Fits(groups, 1)
    ensures r.Err? ==> r.error == EmptyGroupDraw
    ensures r.Ok? ==> Shorter(groups, r.value)
  {
    if |groups| == 0 then Ok(RoundResult([], []))
    else
      FitsCons(groups, 1);
      if |groups[0]| == 0 then Err(EmptyGroupDraw)
      else
        var (x, g) := Pop(groups[0], draws[0]);
        match Round(groups[1..], draws[1..])
        case Err(e) => Err(e)
        case Ok(o) =>
          assert forall i :: 1 <= i < |groups| ==> groups[1..][i - 1] == groups[i];
          Ok(RoundResult([x] + o.drawn, [g] + o.rest))
  }

  /** A round pops, from every group, the item it reports as drawn from that
      group, so the items drawn and left over are exactly the groups' items. */
  lemma {:induction false} RoundPops<T>(groups: seq<seq<T>>, draws: seq<nat>)
    requires |draws| == |groups| && Round(groups, draws).Ok?
    ensures PopsOf(groups, Round(groups, draws).value)
    ensures var o := Round(groups, draws).value;
      multiset(o.drawn) + multiset(Concat(o.rest)) == multiset(Concat(groups))
  {
    if |groups| > 0 {
      FitsCons(groups, 1);
      var (x, g) := Pop(groups[0], draws[0]);
      RoundPops(groups[1..], draws[1..]);
      var o := Round(groups[1..], draws[1..]).value;
      assert Round(groups, draws).value == RoundResult([x] + o.drawn, [g] + o.rest);
      RoundCons(groups, x, g, o);
      RoundConsItems(groups, x, g, o);
    }
  }

  /** The first group's pop in front of the rest of the round. */
  lemma {:induction false} RoundCons<T>(groups: seq<seq<T>>, x: T, g: seq<T>, o: RoundResult<T>)
    requires |groups| > 0
    requires |g| == |groups[0]| - 1 && multiset(g) + multiset{x} == multiset(groups[0])
    requires PopsOf(groups[1..], o)
    ensures PopsOf(groups, RoundResult([x] + o.drawn, [g] + o.rest))
  {
    forall i | 0 <= i < |groups|
      ensures |([g] + o.rest)[i]| == |groups[i]| - 1
      ensures multiset(([g] + o.rest)[i]) + multiset{([x] + o.drawn)[i]} == multiset(groups[i])
    {
      if i > 0 {
        assert ([g] + o.rest)[i] == o.rest[i - 1];
        assert ([x] + o.drawn)[i] == o.drawn[i - 1];
        assert groups[1..][i - 1] == groups[i];
      }
    }
  }

  /** ... and the items drawn and left over are those of the groups. */
  lemma {:induction false} RoundConsItems<T>(groups: seq<seq<T>>, x: T, g: seq<T>, o: RoundResult<T>)
    requires |groups| > 0
    requires multiset(g) + multiset{x} == multiset(groups[0])
    requires multiset(o.drawn) + multiset(Concat(o.rest)) == multiset(Concat(groups[1..]))
    ensures multiset([x] + o.drawn) + multiset(Concat([g] + o.rest)) == multiset(Concat(groups))
  {
    ConcatCons(g, o.rest);
  }

  /** Column `i` of the round-by-round draws: what group `i` gave, round by round. */
  function Column<T>(rows: seq<seq<T>>, i: nat): (c: seq<T>)
    requires forall r :: 0 <= r < |rows| ==> i < |rows[r]|
    ensures |c| == |rows|
    ensures forall r :: 0 <= r < |rows| ==> c[r] == rows[r][i]
  {
    if |rows| == 0 then [] else [rows[0][i]] + Column(rows[1..], i)
  }

  /** The raw draws of round `round` for `k` groups. */
  function RoundDraws(oracle: Oracle, round: nat, k: nat): (d: seq<nat>)
    ensures |d| == k
  {
    seq(k, i requires 0 <= i < k => oracle(round, i))
  }

  /** Every row holds one draw per group. */
  predicate Width<T>(rows: seq<seq<T>>, k: nat)
  {
    forall r :: 0 <= r < |rows| ==> |rows[r]| == k
  }

  /** `count` rounds starting at round number `round`; each row holds one
      round's draws, in group order. They all succeed exactly when every
      group holds at least `count` items. */
  function Rounds<T>(groups: seq<seq<T>>, round: nat, count: nat, oracle: Oracle): (r: Result<seq<seq<T>>, Error>)
    ensures r.Ok? <==> Fits(groups, count)
    ensures r.Err? ==> r.error == EmptyGroupDraw
    ensures r.Ok? ==> |r.value| == count && Width(r.value, |groups|)
    decreases count
  {
    if count == 0 then Ok([])
    else
      match Round(groups, RoundDraws(oracle, round, |groups|))
      case Err(e) => Err(e)
      case Ok(o) =>
        RestLengths(groups, o, count);
        match Rounds(o.rest, round + 1, count - 1, oracle)
        case Err(e) => Err(e)
        case Ok(rows) => Ok([o.drawn] + rows)
  }

  /** Column `i` of `rows` holds only items of group `i`, each at most as
      often as the group holds it, and exactly the group's items when the
      group held `count`. */
  ghost predicate ColumnsWithin<T>(rows: seq<seq<T>>, groups: seq<seq<T>>, count: nat)
  {
    && Width(rows, |groups|)
    && forall i :: 0 <= i < |groups| ==>
      && multiset(Column(rows, i)) <= multiset(groups[i])
      && (|groups[i]| == count ==> multiset(Column(rows, i)) == multiset(groups[i]))
  }

  /** The first of `count` rounds, and the rounds after it. */
  lemma RoundsFirst<T>(groups: seq<seq<T>>, round: nat, count: nat, oracle: Oracle)
    requires count > 0 && Rounds(groups, round, count, oracle).Ok?
    ensures var draws := RoundDraws(oracle, round, |groups|);
      && Round(groups, draws).Ok?
      && var o := Round(groups, draws).value;
      && Rounds(o.rest, round + 1, count - 1, oracle).Ok?
      && Rounds(groups, round, count, oracle).value == [o.drawn] + Rounds(o.rest, round + 1, count - 1, oracle).value
  {
  }

  /** Over the rounds, every group gives only its own items, each at most as
      often as the group holds it, and all of them when it held exactly `count`. */
  lemma {:induction false} RoundsColumns<T>(groups: seq<seq<T>>, round: nat, count: nat, oracle: Oracle)
    requires Rounds(groups, round, count, oracle).Ok?
    ensures ColumnsWithin(Rounds(groups, round, count, oracle).value, groups, count)
    decreases count
  {
    if count > 0 {
      var draws := RoundDraws(oracle, round, |groups|);
      RoundsFirst(groups, round, count, oracle);
      var o := Round(groups, draws).value;
      var left := count - 1;
      var rows := Rounds(o.rest, round + 1, left, oracle).value;
      assert Rounds(groups, round, count, oracle).value == [o.drawn] + rows;
      RoundPops(groups, draws);
      RoundsColumns(o.rest, round + 1, left, oracle);
      RoundsStepColumns(groups, o, rows, count);
    }
  }

  /** The draws of all rounds together are items of the groups, and all of
      them when every group held exactly `count`. */
  lemma {:induction false} RoundsItems<T>(groups: seq<seq<T>>, round: nat, count: nat, oracle: Oracle)
    requires Rounds(groups, round, count, oracle).Ok?
    ensures var rows := Rounds(groups, round, count, oracle).value;
      && multiset(Concat(rows)) <= multiset(Concat(groups))
      && (Exactly(groups, count) ==> multiset(Concat(rows)) == multiset(Concat(groups)))
    decreases count
  {
    if count == 0 {
      ConcatOfEmpties(groups);
    } else {
      var draws := RoundDraws(oracle, round, |groups|);
      RoundsFirst(groups, round, count, oracle);
      var o := Round(groups, draws).value;
      var left := count - 1;
      var rows := Rounds(o.rest, round + 1, left, oracle).value;
      assert Rounds(groups, round, count, oracle).value == [o.drawn] + rows;
      RoundPops(groups, draws);
      RoundsItems(o.rest, round + 1, left, oracle);
      RoundsStepConcat(groups, o, rows, count);
    }
  }

  /** After a round every group is one shorter, so `count - 1` more rounds
      fit exactly when `count` rounds fit the groups. */
  lemma RestLengths<T>(groups: seq<seq<T>>, o: RoundResult<T>, count: nat)
    requires count > 0 && Shorter(groups, o)
    ensures Fits(o.rest, count - 1) <==> Fits(groups, count)
    ensures Exactly(o.rest, count - 1) <==> Exactly(groups, count)
  {
  }

  /** One more round in front of `rows` keeps each group's column within the group. */
  lemma {:induction false} RoundsStepColumns<T>(groups: seq<seq<T>>, o: RoundResult<T>, rows: seq<seq<T>>, count: nat)
    requires count > 0
    requires PopsOf(groups, o)
    requires ColumnsWithin(rows, o.rest, count - 1)
    ensures ColumnsWithin([o.drawn] + rows, groups, count)
  {
    var all := [o.drawn] + rows;
    assert Width(all, |groups|);
    forall i | 0 <= i < |groups|
      ensures multiset(Column(all, i)) <= multiset(groups[i])
      ensures |groups[i]| == count ==> multiset(Column(all, i)) == multiset(groups[i])
    {
      ColumnCons(o.drawn, rows, i);
      var before, after := multiset(Column(rows, i)), multiset(o.rest[i]);
      assert before <= after && (|o.rest[i]| == count - 1 ==> before == after);
      AddOne(before, after, o.drawn[i]);
    }
  }

  lemma AddOne<T>(a: multiset<T>, b: multiset<T>, x: T)
    requires a <= b
    ensures multiset{x} + a <= b + multiset{x}
  {
  }

  /** One more round in front of `rows` keeps the draws within the groups' items. */
  lemma {:induction false} RoundsStepConcat<T>(groups: seq<seq<T>>, o: RoundResult<T>, rows: seq<seq<T>>, count: nat)
    requires count > 0 && PopsOf(groups, o)
    requires multiset(o.drawn) + multiset(Concat(o.rest)) == multiset(Concat(groups))
    requires multiset(Concat(rows)) <= multiset(Concat(o.rest))
    requires Exactly(o.rest, count - 1) ==> multiset(Concat(rows)) == multiset(Concat(o.rest))
    ensures multiset(Concat([o.drawn] + rows)) <= multiset(Concat(groups))
    ensures Exactly(groups, count) ==> multiset(Concat([o.drawn] + rows)) == multiset(Concat(groups))
  {
    RestLengths(groups, o, count);
    ConcatCons(o.drawn, rows);
  }

  lemma {:induction false} ColumnCons<T>(row: seq<T>, rows: seq<seq<T>>, i: nat)
    requires i < |row| && forall r :: 0 <= r < |rows| ==> i < |rows[r]|
    ensures multiset(Column([row] + rows, i)) == multiset{row[i]} + multiset(Column(rows, i))
  {
    assert ([row] + rows)[1..] == rows;
  }

  lemma {:induction false} ConcatCons<T>(row: seq<T>, rows: seq<seq<T>>)
    ensures multiset(Concat([row] + rows)) == multiset(row) + multiset(Concat(rows))
  {
    assert ([row] + rows)[1..] == rows;
  }

  /** The output: each round's draws with the placeholders removed, round after round. */
  function Emit<T>(rows: seq<seq<Option<T>>>): (r: seq<T>)
    ensures |r| <= |Concat(rows)|
  {
    if |rows| == 0 then [] else Present(rows[0]) + Emit(rows[1..])
  }

  /** The draws of every round, on the padded groups, for `max` rounds. */
  function Draws<T>(groups: seq<seq<Option<T>>>, oracle: Oracle): (r: Result<seq<seq<Option<T>>>, Error>)
    ensures |groups| == 0 ==> r == Err(NoGroups)
    ensures |groups| > 0 ==> (r.Ok? <==> Regular(groups))
    ensures r.Ok? ==> |r.value| == MaxLength(groups)
  {
    if |groups| == 0 then Err(NoGroups)
    else
      PadLengths(groups);
      Rounds(Pad(groups), 0, MaxLength(groups), oracle)
  }

  /** The shape the interleaver handles: every group but the last is of the
      greatest length. `ListBalancer`'s sections have this shape. */
  predicate Regular<T>(groups: seq<seq<T>>)
  {
    && |groups| > 0
    && forall i :: 0 <= i < |groups| - 1 ==> |groups[i]| == MaxLength(groups)
  }

  /** `RandomCycleSelect`. */
  function RandomCycleSelect<T>(groups: seq<seq<Option<T>>>, oracle: Oracle): (r: Result<seq<T>, Error>)
    ensures |groups| == 0 ==> r == Err(NoGroups)
    ensures r.Ok? <==> Regular(groups)
    ensures |groups| > 0 && !Regular(groups) ==> r == Err(EmptyGroupDraw)
  {
    if |groups| == 0 then Err(NoGroups)
    else
      PadLengths(groups);
      match Draws(groups, oracle)
      case Err(e) => Err(e)
      case Ok(rows) => Ok(Emit(rows))
  }

  /** The padded groups, against the longest original group: every group
      reaches it exactly when the groups are regular. */
  lemma {:induction false} PadLengths<T>(groups: seq<seq<Option<T>>>)
    requires |groups| > 0
    ensures |Pad(groups)| == |groups|
    ensures (forall i :: 0 <= i < |groups| ==> |Pad(groups)[i]| >= MaxLength(groups)) <==> Regular(groups)
    ensures Regular(groups) ==> forall i :: 0 <= i < |groups| ==> |Pad(groups)[i]| == MaxLength(groups)
  {
    var m, k := MaxLength(groups), |groups|;
    var padded := Pad(groups);
    if SameLengths(groups) {
      var j :| 0 <= j < k && |groups[j]| == m;
      assert |groups[0]| == m;
    } else {
      assert k >= 2;
      var last := groups[k - 1];
      assert forall i :: 0 <= i < k - 1 ==> padded[i] == groups[i];
      assert |padded[k - 1]| == if |groups[0]| > |last| then |groups[0]| else |last|;
    }
  }

  /** Emitting round by round is filtering the joined draws. */
  lemma {:induction false} EmitIsPresent<T>(rows: seq<seq<Option<T>>>)
    ensures Emit(rows) == Present(Concat(rows))
  {
    if |rows| > 0 {
      EmitIsPresent(rows[1..]);
      PresentAppend(rows[0], Concat(rows[1..]));
    }
  }

  /** Padding adds placeholders only: the non-`None` items are those of the
      original groups, in the same order. */
  lemma {:induction false} PadKeepsItems<T>(groups: seq<seq<Option<T>>>)
    requires |groups| > 0
    ensures Present(Concat(Pad(groups))) == Present(Concat(groups))
  {
    if !SameLengths(groups) {
      var k := |groups|;
      var last := groups[k - 1];
      var nones := Nones(|groups[0]| - |last|);
      assert groups == groups[..k - 1] + [last];
      ConcatAppend(groups[..k - 1], [last]);
      ConcatAppend(groups[..k - 1], [last + nones]);
      assert Concat([last]) == last;
      assert Concat([last + nones]) == last + nones;
      PresentAppend(Concat(groups[..k - 1]) + last, nones);
      assert Concat(groups[..k - 1]) + (last + nones) == Concat(groups[..k - 1]) + last + nones;
      PresentOfNones(nones);
    }
  }

  /** Whatever the random draws, the interleaving of regular groups (the
      ones on which it succeeds) emits every non-`None` item of the groups
      exactly once and nothing else; with no `None` among the items, it emits
      as many items as the groups hold. */
  lemma {:induction false} SelectIsPermutation<T>(groups: seq<seq<Option<T>>>, oracle: Oracle)
    requires Regular(groups)
    ensures RandomCycleSelect(groups, oracle).Ok?
    ensures multiset(RandomCycleSelect(groups, oracle).value) == multiset(Present(Concat(groups)))
    ensures None !in Concat(groups) ==> |RandomCycleSelect(groups, oracle).value| == |Concat(groups)|
  {
    var out := RandomCycleSelect(groups, oracle).value;
    PadLengths(groups);
    var rows := Draws(groups, oracle).value;
    assert out == Emit(rows);
    RoundsItems(Pad(groups), 0, MaxLength(groups), oracle);
    EmitIsPresent(rows);
    assert multiset(Concat(rows)) == multiset(Concat(Pad(groups)));
    PresentOfPermutation(Concat(rows), Concat(Pad(groups)));
    PadKeepsItems(groups);
    if None !in Concat(groups) {
      assert |multiset(out)| == |multiset(Present(Concat(groups)))|;
    }
  }

  /** Padding leaves every group but the last as it is, and adds only
      placeholders to the last. */
  lemma {:induction false} PadShape<T>(groups: seq<seq<Option<T>>>)
    requires |groups| > 0
    ensures |Pad(groups)| == |groups|
    ensures forall i :: 0 <= i < |groups| - 1 ==> Pad(groups)[i] == groups[i]
    ensures forall x :: x in Last(Pad(groups)) ==> x == None || x in Last(groups)
  {
    forall x | x in Last(Pad(groups))
      ensures x == None || x in groups[|groups| - 1]
    {
      PadMember(groups, x);
    }
  }

  /** On regular groups, every group but the last gives, over the rounds,
      each of its items exactly once: its column of draws is a rearrangement
      of the group. */
  lemma {:induction false} FullGroupDraws<T>(groups: seq<seq<Option<T>>>, oracle: Oracle)
    requires Regular(groups)
    ensures Draws(groups, oracle).Ok?
    ensures var rows := Draws(groups, oracle).value;
      && (forall r :: 0 <= r < |rows| ==> |rows[r]| == |groups|)
      && (forall i :: 0 <= i < |groups| - 1 ==> multiset(Column(rows, i)) == multiset(groups[i]))
  {
    DrawsShape(groups, oracle);
    PadShape(groups);
    UnpaddedColumns(Draws(groups, oracle).value, groups, Pad(groups));
  }

  lemma {:induction false} UnpaddedColumns<T>(rows: seq<seq<T>>, groups: seq<seq<T>>, padded: seq<seq<T>>)
    requires |padded| == |groups|
    requires forall i :: 0 <= i < |groups| - 1 ==> padded[i] == groups[i]
    requires forall r :: 0 <= r < |rows| ==> |rows[r]| == |groups|
    requires forall i :: 0 <= i < |groups| ==> multiset(Column(rows, i)) == multiset(padded[i])
    ensures forall i :: 0 <= i < |groups| - 1 ==> multiset(Column(rows, i)) == multiset(groups[i])
  {
  }

  /** On regular groups, the last group gives, in every round, one of its
      items or a placeholder. */
  lemma {:induction false} LastGroupDraws<T>(groups: seq<seq<Option<T>>>, oracle: Oracle)
    requires Regular(groups)
    ensures Draws(groups, oracle).Ok?
    ensures var rows := Draws(groups, oracle).value;
      && (forall r :: 0 <= r < |rows| ==> |rows[r]| == |groups|)
      && (forall r :: 0 <= r < |rows| ==> rows[r][|groups| - 1] == None || rows[r][|groups| - 1] in Last(groups))
  {
    DrawsShape(groups, oracle);
    PadShape(groups);
    var rows := Draws(groups, oracle).value;
    forall r | 0 <= r < |rows|
      ensures rows[r][|groups| - 1] == None || rows[r][|groups| - 1] in Last(groups)
    {
      DrawIsFromGroup(rows, Pad(groups), r, |groups| - 1);
      assert rows[r][|groups| - 1] in Last(Pad(groups));
    }
  }

  /** The shape of the draws on regular groups: `max` rows of one draw per
      group, column `i` a rearrangement of padded group `i`. */
  lemma {:induction false} DrawsShape<T>(groups: seq<seq<Option<T>>>, oracle: Oracle)
    requires Regular(groups)
    ensures Draws(groups, oracle).Ok?
    ensures var rows := Draws(groups, oracle).value;
      && |rows| == MaxLength(groups)
      && |Pad(groups)| == |groups|
      && (forall r :: 0 <= r < |rows| ==> |rows[r]| == |groups|)
      && (forall i :: 0 <= i < |groups| ==> multiset(Column(rows, i)) == multiset(Pad(groups)[i]))
  {
    PadLengths(groups);
    RoundsColumns(Pad(groups), 0, MaxLength(groups), oracle);
  }

  /** A draw lies in the group whose column it is in. */
  lemma {:induction false} DrawIsFromGroup<T>(rows: seq<seq<T>>, groups: seq<seq<T>>, r: nat, i: nat)
    requires r < |rows| && i < |groups|
    requires forall k :: 0 <= k < |rows| ==> i < |rows[k]|
    requires multiset(Column(rows, i)) == multiset(groups[i])
    ensures rows[r][i] in groups[i]
  {
    assert Column(rows, i)[r] == rows[r][i];
    assert rows[r][i] in multiset(Column(rows, i));
  }

  /** An item of the padded last group is a placeholder or an item of the last group. */
  lemma {:induction false} PadMember<T>(groups: seq<seq<Option<T>>>, x: Option<T>)
    requires |groups| > 0 && x in Pad(groups)[|groups| - 1]
    ensures x == None || x in groups[|groups| - 1]
  {
    if !SameLengths(groups) {
      var last := groups[|groups| - 1];
      var nones := Nones(|groups[0]| - |last|);
      assert Pad(groups)[|groups| - 1] == last + nones;
      if x !in last {
        assert x in nones;
      }
    }
  }

  /** When every round's draws leave `w` items after filtering, the output
      holds `|rows|` blocks of `w`. */
  lemma {:induction false} EmitLength<T>(rows: seq<seq<Option<T>>>, w: nat)
    requires forall r :: 0 <= r < |rows| ==> |Present(rows[r])| == w
    ensures |Emit(rows)| == |rows| * w
  {
    if |rows| > 0 {
      EmitLength(rows[1..], w);
      MulStep(|rows| - 1, w);
    }
  }

  /** Draws from groups with no `None` among their items are never `None`. */
  lemma {:induction false} RowsAreNoneFree<T>(rows: seq<seq<Option<T>>>, groups: seq<seq<Option<T>>>)
    requires None !in Concat(groups)
    requires forall r :: 0 <= r < |rows| ==> |rows[r]| == |groups|
    requires forall i :: 0 <= i < |groups| ==> multiset(Column(rows, i)) == multiset(groups[i])
    ensures forall r :: 0 <= r < |rows| ==> None !in rows[r] && |Present(rows[r])| == |groups|
  {
    forall r | 0 <= r < |rows|
      ensures None !in rows[r]
    {
      forall i | 0 <= i < |groups|
        ensures rows[r][i] != None
      {
        DrawIsFromGroup(rows, groups, r, i);
        ConcatContains(groups, i, rows[r][i]);
      }
    }
  }

  /** Position `j` of the output is item `j % w` of round `j / w`: the
      output is the rounds' filtered draws laid end to end in blocks of `w`. */
  lemma {:induction false} EmitAt<T>(rows: seq<seq<Option<T>>>, w: nat, j: nat)
    requires forall k :: 0 <= k < |rows| ==> |Present(rows[k])| == w
    requires j < |Emit(rows)|
    ensures 0 < w && 0 <= j / w < |rows| && 0 <= j % w < w
    ensures Emit(rows)[j] == Present(rows[j / w])[j % w]
  {
    var head, tail := Present(rows[0]), rows[1..];
    var out := Emit(rows);
    assert out == head + Emit(tail);
    if j < w {
      DivSmall(j, w);
      assert out[j] == head[j];
    } else {
      var j' := j - w;
      assert out[j] == Emit(tail)[j'];
      EmitAt(tail, w, j');
      DivSub(j, j', w);
      assert tail[j' / w] == rows[j / w];
    }
  }

  /** Groups of equal length `g` with no `None` among their items: the
      interleaving always succeeds and is `g` rounds of one item from each of
      the `K` groups, in group order, so position `j` of the output holds an
      item of group `j % K`; over the rounds, group `i` gives each of its
      items exactly once. */
  lemma {:induction false} EqualGroupsRoundMajor<T>(groups: seq<seq<Option<T>>>, oracle: Oracle)
    requires |groups| > 0 && SameLengths(groups) && None !in Concat(groups)
    ensures RandomCycleSelect(groups, oracle).Ok?
    ensures var out := RandomCycleSelect(groups, oracle).value;
      && |out| == |groups[0]| * |groups|
      && (forall j :: 0 <= j < |out| ==> Some(out[j]) in groups[j % |groups|])
  {
    var m := MaxLength(groups);
    var j0 :| 0 <= j0 < |groups| && |groups[j0]| == m;
    assert Regular(groups);
    assert Pad(groups) == groups;
    DrawsShape(groups, oracle);
    var rows := Draws(groups, oracle).value;
    assert RandomCycleSelect(groups, oracle) == Ok(Emit(rows));
    FullRowsEmit(rows, groups);
  }

  /** Rows of one draw per group, column `i` a rearrangement of group `i`,
      with no `None` anywhere: position `j` of the output is a draw of group
      `j % K`. */
  lemma {:induction false} FullRowsEmit<T>(rows: seq<seq<Option<T>>>, groups: seq<seq<Option<T>>>)
    requires |groups| > 0 && None !in Concat(groups)
    requires forall r :: 0 <= r < |rows| ==> |rows[r]| == |groups|
    requires forall i :: 0 <= i < |groups| ==> multiset(Column(rows, i)) == multiset(groups[i])
    ensures |Emit(rows)| == |rows| * |groups|
    ensures forall j :: 0 <= j < |Emit(rows)| ==> Some(Emit(rows)[j]) in groups[j % |groups|]
  {
    var k := |groups|;
    RowsAreNoneFree(rows, groups);
    EmitLength(rows, k);
    var out := Emit(rows);
    forall j | 0 <= j < |out|
      ensures Some(out[j]) in groups[j % k]
    {
      EmitAt(rows, k, j);
      var r, i := j / k, j % k;
      DrawIsFromGroup(rows, groups, r, i);
      assert out[j] == rows[r][i].value;
    }
  }

  /** `block` is one round's output: one item of each group in group order,
      the last group's item possibly missing. */
  ghost predicate RoundFromGroups<T>(block: seq<T>, groups: seq<seq<Option<T>>>)
  {
    && (|block| == |groups| - 1 || |block| == |groups|)
    && forall i :: 0 <= i < |block| ==> Some(block[i]) in groups[i]
  }

  /** On regular groups with no `None` among their items, whatever the random
      draws: the output is `max` consecutive rounds, and each round holds one
      item from every group but the last, in group order, followed by at most
      one item of the last group. */
  lemma {:induction false} RegularGroupsRounds<T>(groups: seq<seq<Option<T>>>, oracle: Oracle)
    requires Regular(groups) && None !in Concat(groups)
    ensures RandomCycleSelect(groups, oracle).Ok?
    ensures var rows := Draws(groups, oracle).value;
      && RandomCycleSelect(groups, oracle).value == Emit(rows)
      && |rows| == MaxLength(groups)
      && forall r :: 0 <= r < |rows| ==> RoundFromGroups(Present(rows[r]), groups)
  {
    DrawsShape(groups, oracle);
    FullGroupDraws(groups, oracle);
    LastGroupDraws(groups, oracle);
    var rows := Draws(groups, oracle).value;
    assert RandomCycleSelect(groups, oracle) == Ok(Emit(rows));
    forall r | 0 <= r < |rows|
      ensures RoundFromGroups(Present(rows[r]), groups)
    {
      RowIsRound(rows, groups, r);
    }
  }

  lemma {:induction false} RowIsRound<T>(rows: seq<seq<Option<T>>>, groups: seq<seq<Option<T>>>, r: nat)
    requires |groups| > 0 && None !in Concat(groups) && r < |rows|
    requires forall k :: 0 <= k < |rows| ==> |rows[k]| == |groups|
    requires forall i :: 0 <= i < |groups| - 1 ==> multiset(Column(rows, i)) == multiset(groups[i])
    requires rows[r][|groups| - 1] == None || rows[r][|groups| - 1] in Last(groups)
    ensures RoundFromGroups(Present(rows[r]), groups)
  {
    var k := |groups|;
    forall i | 0 <= i < k - 1
      ensures rows[r][i] in groups[i] && rows[r][i] != None
    {
      DrawIsFromGroup(rows, groups[..k - 1], r, i);
      ConcatContains(groups, i, rows[r][i]);
    }
    RowBlock(rows[r], groups);
  }

  /** A row drawing a value from each group but the last, and a placeholder
      or an item of the last group, filters to one round's output. */
  lemma RowBlock<T>(row: seq<Option<T>>, groups: seq<seq<Option<T>>>)
    requires 0 < |groups| == |row|
    requires forall i :: 0 <= i < |groups| - 1 ==> row[i] in groups[i] && row[i] != None
    requires row[|groups| - 1] == None || row[|groups| - 1] in Last(groups)
    ensures RoundFromGroups(Present(row), groups)
  {
    var k := |groups|;
    var full, last := row[..k - 1], row[k - 1];
    assert row == full + [last];
    assert None !in full;
    PresentSnoc(full, last);
  }
}
