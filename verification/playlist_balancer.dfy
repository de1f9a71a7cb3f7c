/** `PlaylistBalancer` with a list argument: the list is cut by `ListBalancer`
    and, when `only_return_array` is set, interleaved by `RandomCycleSelect`. */
module Playlist {
  import opened Wrappers
  import opened Errors
  import opened Seqs
  import opened ListBalancing
  import opened CycleSelect

  /** `PlaylistBalancer(list, number_sections, no_remainder=..., only_return_array=...)`.
      The list is cut first, so its errors come first; without
      `onlyReturnArray` nothing is returned (`None`). The empty-list sentinel
      and the unchanged list are not groups, and the interleaver fails on them. */
  function PlaylistBalancer<T>(playlist: seq<Option<T>>, sections: Option<int>, noRemainder: bool,
                               onlyReturnArray: bool, oracle: Oracle): (r: Result<Option<seq<T>>, Error>)
    ensures ListBalancer(playlist, sections, noRemainder).Err? ==>
      r == Err(ListBalancer(playlist, sections, noRemainder).error)
    ensures r == Ok(None) <==> !onlyReturnArray && ListBalancer(playlist, sections, noRemainder).Ok?
    ensures r == Err(NotGroups) <==>
      onlyReturnArray && ListBalancer(playlist, sections, noRemainder).Ok? &&
      !ListBalancer(playlist, sections, noRemainder).value.Sections?
    ensures r.Ok? && r.value.Some? ==> multiset(r.value.value) == multiset(Present(playlist))
    ensures r.Ok? && r.value.Some? && None !in playlist ==> |r.value.value| == |playlist|
  {
    match ListBalancer(playlist, sections, noRemainder)
    case Err(e) => Err(e)
    case Ok(d) =>
      if !onlyReturnArray then Ok(None)
      else
        match d
        case Sections(groups) =>
          (match RandomCycleSelect(groups, oracle)
           case Err(e) => Err(e)
           case Ok(out) =>
             SelectIsPermutation(groups, oracle);
             Ok(Some(out)))
        case _ => Err(NotGroups)
  }

  /** `ListBalancer`'s sections, when there are fewer items in a section than
      in the list, are regular: the longest group is a full section, padding
      brings the trailing group, and only it, up to a full section with
      `ns - |items| % ns` placeholders, and so every draw finds an item. */
  lemma {:induction false} SectionsArePadded<T>(groups: seq<seq<Option<T>>>, items: seq<Option<T>>, ns: nat)
    requires IsPartition(groups, items, ns) && ns < |items|
    ensures Regular(groups) && MaxLength(groups) == ns
    ensures forall i :: 0 <= i < |groups| - 1 ==> Pad(groups)[i] == groups[i]
    ensures Last(Pad(groups)) == Last(groups) + Nones(ns - |items| % ns)
    ensures forall i :: 0 <= i < |groups| ==> |Pad(groups)[i]| == ns
  {
    var n := |items|;
    DivMod(n, ns);
    assert n / ns >= 1;
    var k := |groups|;
    assert |groups[0]| == ns;
    assert |groups[k - 1]| < ns;
    assert !SameLengths(groups);
    var m := MaxLength(groups);
    var j :| 0 <= j < k && |groups[j]| == m;
    assert m == ns;
  }

  /** End to end, whatever the random draws: a non-empty list whose section
      length is positive, below the list length and allowed by the remainder
      policy is always interleaved, into a rearrangement of its non-`None`
      items; with no `None` in the list, nothing is lost. */
  lemma {:induction false} BalancedPlaylist<T>(playlist: seq<Option<T>>, sections: Option<int>, noRemainder: bool, oracle: Oracle)
    requires var ns := SectionLength(|playlist|, sections);
      0 < ns < |playlist| && !(noRemainder && |playlist| % ns != 0)
    ensures PlaylistBalancer(playlist, sections, noRemainder, true, oracle).Ok?
    ensures PlaylistBalancer(playlist, sections, noRemainder, true, oracle).value.Some?
    ensures var out := PlaylistBalancer(playlist, sections, noRemainder, true, oracle).value.value;
      && multiset(out) == multiset(Present(playlist))
      && (None !in playlist ==> |out| == |playlist|)
  {
    var ns := SectionLength(|playlist|, sections);
    var groups := ListBalancer(playlist, sections, noRemainder).value.groups;
    SectionsArePadded(groups, playlist, ns);
  }

  /** When the section length divides the list length, the trailing group is
      empty and is padded with placeholders only, so, whatever the random
      draws, every round gives exactly one item of each full section in
      section order: with `c` full sections, position `j` of the output is
      an item of section `j % c`. */
  lemma {:induction false} EvenPlaylistRounds<T>(playlist: seq<Option<T>>, sections: Option<int>, noRemainder: bool, oracle: Oracle)
    requires None !in playlist
    requires var ns := SectionLength(|playlist|, sections);
      0 < ns < |playlist| && |playlist| % ns == 0
    ensures PlaylistBalancer(playlist, sections, noRemainder, true, oracle).Ok?
    ensures PlaylistBalancer(playlist, sections, noRemainder, true, oracle).value.Some?
    ensures var out := PlaylistBalancer(playlist, sections, noRemainder, true, oracle).value.value;
      var ns := SectionLength(|playlist|, sections);
      var c := |playlist| / ns;
      var groups := ListBalancer(playlist, sections, noRemainder).value.groups;
      && |out| == |playlist|
      && forall j :: 0 <= j < |out| ==> Some(out[j]) in groups[j % c]
  {
    var ns := SectionLength(|playlist|, sections);
    var n := |playlist|;
    var c := n / ns;
    DivMod(n, ns);
    BalancedPlaylist(playlist, sections, noRemainder, oracle);
    var groups := Split(playlist, ns);
    assert ListBalancer(playlist, sections, noRemainder) == Ok(Sections(groups));
    SectionsArePadded(groups, playlist, ns);
    DrawsShape(groups, oracle);
    var rows := Draws(groups, oracle).value;
    var out := Emit(rows);
    assert PlaylistBalancer(playlist, sections, noRemainder, true, oracle) == Ok(Some(out));
    assert Last(groups) == [];
    assert Last(Pad(groups)) == Nones(ns);
    forall r | 0 <= r < |rows|
      ensures FullRound(rows[r], groups)
    {
      EvenRow(rows, groups, Pad(groups), r);
    }
    forall j | 0 <= j < |out|
      ensures Some(out[j]) in groups[j % c]
    {
      EvenRowItem(rows, groups, j);
    }
  }

  /** `row` is a round of draws whose filtered output is exactly one item of
      every group but the last, in group order. */
  ghost predicate FullRound<T>(row: seq<Option<T>>, groups: seq<seq<Option<T>>>)
  {
    && |Present(row)| == |groups| - 1
    && forall i :: 0 <= i < |groups| - 1 ==> i < |row| && row[i] == Some(Present(row)[i]) && row[i] in groups[i]
  }

  /** One output position of the even case, from the draws. */
  lemma {:induction false} EvenRowItem<T>(rows: seq<seq<Option<T>>>, groups: seq<seq<Option<T>>>, j: nat)
    requires |groups| > 1
    requires forall r :: 0 <= r < |rows| ==> FullRound(rows[r], groups)
    requires j < |Emit(rows)|
    ensures Some(Emit(rows)[j]) in groups[j % (|groups| - 1)]
  {
    var c := |groups| - 1;
    EmitAt(rows, c, j);
    var r, i := j / c, j % c;
    assert FullRound(rows[r], groups);
    assert Emit(rows)[j] == Present(rows[r])[i];
  }

  /** One round of the even case: the full sections' draws, then a placeholder. */
  lemma {:induction false} EvenRow<T>(rows: seq<seq<Option<T>>>, groups: seq<seq<Option<T>>>,
                                      padded: seq<seq<Option<T>>>, r: nat)
    requires None !in Concat(groups)
    requires |groups| > 0 && |padded| == |groups|
    requires forall t :: 0 <= t < |Last(padded)| ==> Last(padded)[t] == None
    requires forall i :: 0 <= i < |groups| - 1 ==> padded[i] == groups[i]
    requires forall k :: 0 <= k < |rows| ==> |rows[k]| == |groups|
    requires forall i :: 0 <= i < |groups| ==> multiset(Column(rows, i)) == multiset(padded[i])
    requires r < |rows|
    ensures FullRound(rows[r], groups)
  {
    var k := |groups|;
    var row := rows[r];
    forall i | 0 <= i < k - 1
      ensures row[i] in groups[i] && row[i] != None
    {
      DrawIsFromGroup(rows, padded, r, i);
      ConcatContains(groups, i, row[i]);
    }
    DrawIsFromGroup(rows, padded, r, k - 1);
    var t :| 0 <= t < |padded[k - 1]| && padded[k - 1][t] == row[k - 1];
    assert Last(padded)[t] == None;
    PresentOfFullRow(row, k);
  }

  /** A row whose last draw is a placeholder and whose other draws are values
      filters to exactly those values. */
  lemma PresentOfFullRow<T>(row: seq<Option<T>>, k: nat)
    requires 0 < k == |row| && row[k - 1] == None
    requires forall i :: 0 <= i < k - 1 ==> row[i] != None
    ensures |Present(row)| == k - 1
    ensures forall i :: 0 <= i < k - 1 ==> row[i] == Some(Present(row)[i])
  {
    var full := row[..k - 1];
    assert row == full + [row[k - 1]];
    assert None !in full;
    PresentSnoc(full, row[k - 1]);
  }
}
