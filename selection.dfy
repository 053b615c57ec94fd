/**
 * Asset selection (`pick_one`): a video whose id has not been used yet,
 * chosen at random; when every video has been used, the used list is
 * cleared in place and the choice is made among all videos. The shuffle
 * followed by taking the first element is modelled by a draw: the chosen
 * candidate is the one at position `draw % |candidates|`, so every candidate
 * is chosen by some draw.
 */
module Selection {
  import opened Options
  import opened Videos

  /** The files whose id is not in the used list, in pool order. */
  function Remaining(files: seq<DriveFile>, used: seq<string>): (r: seq<DriveFile>)
    ensures |r| <= |files|
    ensures forall f :: f in r <==> f in files && f.id !in used
  {
    if files == [] then []
    else if files[0].id !in used then [files[0]] + Remaining(files[1..], used)
    else Remaining(files[1..], used)
  }

  /** What `pick_one` returns, and the used list as it leaves it. */
  datatype Pick = Pick(chosen: Option<DriveFile>, usedAfter: seq<string>)

  function PickSpec(files: seq<DriveFile>, used: seq<string>, draw: nat): (p: Pick)
    ensures Remaining(files, used) != [] ==>
              p.usedAfter == used && p.chosen.Some?
              && p.chosen.value in files && p.chosen.value.id !in used
    ensures Remaining(files, used) == [] ==>
              p.usedAfter == [] && (p.chosen.None? <==> files == [])
              && (p.chosen.Some? ==> p.chosen.value in files)
  {
    var remaining := Remaining(files, used);
    if remaining != [] then
      Pick(Some(remaining[draw % |remaining|]), used)
    else if files != [] then
      Pick(Some(files[draw % |files|]), [])
    else
      Pick(None, [])
  }

  /** Every candidate is reachable: each unused file, or each file once all
      are used, is chosen by some draw. */
  lemma EveryCandidateReachable(files: seq<DriveFile>, used: seq<string>, f: DriveFile)
    requires f in files
    requires f.id !in used || Remaining(files, used) == []
    ensures exists draw: nat :: PickSpec(files, used, draw).chosen == Some(f)
  {
    var remaining := Remaining(files, used);
    var candidates := if remaining != [] then remaining else files;
    assert f in candidates;
    var i :| 0 <= i < |candidates| && candidates[i] == f;
    ModBelow(i, |candidates|);
    assert PickSpec(files, used, i).chosen == Some(f);
  }

  lemma ModBelow(i: int, n: int)
    requires 0 <= i < n
    ensures i % n == i
  {
  }

  /** The ids of the pool that are not used yet. */
  function UnusedIds(files: seq<DriveFile>, used: seq<string>): set<string> {
    set f | f in files && f.id !in used :: f.id
  }

  /** No unused id is left exactly when `pick_one` finds no remaining file
      and starts a new cycle. */
  lemma UnusedIdsEmptyIffNoneRemain(files: seq<DriveFile>, used: seq<string>)
    ensures UnusedIds(files, used) == {} <==> Remaining(files, used) == []
  {
    if Remaining(files, used) != [] {
      assert Remaining(files, used)[0].id in UnusedIds(files, used);
    }
  }

  /** The videos picked by successive successful runs: each run picks and
      then appends the chosen id to the used list. */
  function Cycle(files: seq<DriveFile>, used: seq<string>, draws: seq<nat>): (picked: seq<DriveFile>)
    requires files != []
    ensures |picked| == |draws|
    ensures forall k :: 0 <= k < |picked| ==> picked[k] in files
    decreases |draws|
  {
    if draws == [] then []
    else
      var p := PickSpec(files, used, draws[0]);
      [p.chosen.value] + Cycle(files, p.usedAfter + [p.chosen.value.id], draws[1..])
  }

  lemma UnusedIdsShrink(files: seq<DriveFile>, used: seq<string>, id: string)
    requires id in UnusedIds(files, used)
    ensures UnusedIds(files, used + [id]) == UnusedIds(files, used) - {id}
    ensures |UnusedIds(files, used + [id])| == |UnusedIds(files, used)| - 1
  {
  }

  /** While an unused id is left, a pick takes an unused video and keeps the
      used list; appending its id leaves one unused id fewer. */
  lemma PickStep(files: seq<DriveFile>, used: seq<string>, draw: nat)
    requires |UnusedIds(files, used)| > 0
    ensures var p := PickSpec(files, used, draw);
            p.usedAfter == used && p.chosen.Some? && p.chosen.value.id !in used
            && |UnusedIds(files, used + [p.chosen.value.id])| == |UnusedIds(files, used)| - 1
  {
    var x :| x in UnusedIds(files, used);
    var f :| f in files && f.id == x;
    assert f in Remaining(files, used);
    var p := PickSpec(files, used, draw);
    assert p.chosen.value.id in UnusedIds(files, used);
    UnusedIdsShrink(files, used, p.chosen.value.id);
  }

  /** No video comes back within a cycle: as long as there are unused ids
      left for every run, the runs pick distinct videos, none of them used
      before. */
  lemma {:induction false} NoRepeatWithinCycle(files: seq<DriveFile>, used: seq<string>, draws: seq<nat>)
    requires files != [] && |draws| <= |UnusedIds(files, used)|
    ensures forall k :: 0 <= k < |draws| ==> Cycle(files, used, draws)[k].id !in used
    ensures forall j, k :: 0 <= j < k < |draws| ==>
              Cycle(files, used, draws)[j].id != Cycle(files, used, draws)[k].id
    decreases |draws|
  {
    if draws != [] {
      PickStep(files, used, draws[0]);
      var p := PickSpec(files, used, draws[0]);
      var id := p.chosen.value.id;
      NoRepeatWithinCycle(files, used + [id], draws[1..]);
      var rest := Cycle(files, used + [id], draws[1..]);
      assert Cycle(files, used, draws) == [p.chosen.value] + rest;
      DistinctAfterFirst(p.chosen.value, rest, used);
    }
  }

  /** A first pick outside the used list, followed by distinct picks outside
      the list extended with its id, gives distinct picks outside the list. */
  lemma DistinctAfterFirst(first: DriveFile, rest: seq<DriveFile>, used: seq<string>)
    requires first.id !in used
    requires forall k :: 0 <= k < |rest| ==> rest[k].id !in used + [first.id]
    requires forall j, k :: 0 <= j < k < |rest| ==> rest[j].id != rest[k].id
    ensures var picked := [first] + rest;
            (forall k :: 0 <= k < |picked| ==> picked[k].id !in used)
            && forall j, k :: 0 <= j < k < |picked| ==> picked[j].id != picked[k].id
  {
    var picked := [first] + rest;
    forall k | 1 <= k < |picked| ensures picked[k].id !in used && picked[k].id != first.id {
      assert picked[k] == rest[k - 1];
      assert rest[k - 1].id !in used + [first.id];
    }
  }

  /** Picks that each start from the list the previous one left, with its
      id appended, are the picks of a cycle. */
  lemma {:induction false} StepsFormCycle(files: seq<DriveFile>, useds: seq<seq<string>>, picks: seq<DriveFile>, draws: seq<nat>)
    requires files != [] && |picks| == |draws| && |useds| == |draws| + 1
    requires forall k :: 0 <= k < |draws| ==>
               PickSpec(files, useds[k], draws[k]).chosen == Some(picks[k])
               && useds[k + 1] == PickSpec(files, useds[k], draws[k]).usedAfter + [picks[k].id]
    ensures picks == Cycle(files, useds[0], draws)
    decreases |draws|
  {
    if draws != [] {
      forall k | 0 <= k < |draws| - 1
        ensures PickSpec(files, useds[1..][k], draws[1..][k]).chosen == Some(picks[1..][k])
        ensures useds[1..][k + 1] == PickSpec(files, useds[1..][k], draws[1..][k]).usedAfter + [picks[1..][k].id]
      {
        assert useds[1..][k] == useds[k + 1] && useds[1..][k + 1] == useds[k + 2];
        assert draws[1..][k] == draws[k + 1] && picks[1..][k] == picks[k + 1];
      }
      StepsFormCycle(files, useds[1..], picks[1..], draws[1..]);
      assert picks == [picks[0]] + picks[1..];
    }
  }

  /** When every video has been used, the next pick starts a new cycle: the
      used list holds only the id just chosen. */
  lemma NewCycleAfterExhaustion(files: seq<DriveFile>, used: seq<string>, draw: nat)
    requires files != [] && forall f :: f in files ==> f.id in used
    ensures var p := PickSpec(files, used, draw);
            p.chosen.Some? && p.usedAfter + [p.chosen.value.id] == [p.chosen.value.id]
  {
  }

  /** The used list, shared with the caller and cleared in place. */
  class IdList {
    var items: seq<string>

    constructor (items0: seq<string>)
      ensures items == items0
    {
      items := items0;
    }
  }

  /** `pick_one`: choose among the remaining files, clearing the caller's used
      list first when none remain. */
  method PickOne(files: seq<DriveFile>, used: IdList, draw: nat) returns (chosen: Option<DriveFile>)
    modifies used
    ensures chosen == PickSpec(files, old(used.items), draw).chosen
    ensures used.items == PickSpec(files, old(used.items), draw).usedAfter
  {
    var remaining := Remaining(files, used.items);
    if remaining == [] {
      used.items := [];
      remaining := files;
    }
    if remaining == [] {
      chosen := None;
    } else {
      chosen := Some(remaining[draw % |remaining|]);
    }
  }
}
