/**
  `random_pick`: up to `get_num` picks; the first pick that finds nothing
  ends the loop; a photo id already seen is skipped; a new one is recorded
  and its row written, in the order the ids were first seen. The CSV file is
  the sequence of rows written (header aside).
*/
module Run {
  import opened Wrappers
  import opened Licenses
  import opened Sizes
  import opened Picker

  /** One data row of the output file, in the file's column order. */
  datatype Row = Row(
    id: string,
    license: string,
    owner: string,
    url: string,
    source: string,
    rotation: int,
    width: Option<int>,
    height: int,
    dateUploaded: int,
    dateTaken: string,
    takenUnknown: string)

  /**
    Where the run is: `Picking` while the loop goes on (at the end: all
    `get_num` iterations ran), `NoPhoto` after a pick returned None,
    `LicenseMissing` after a photo's licence id was not in the catalog (the
    row's licence name dereferences None and the run dies), `InitFailed`
    when the licence catalog could not be fetched (the run exits before
    opening the file).
  */
  datatype Status = Picking | NoPhoto | LicenseMissing | InitFailed

  /** `exist_ids`, the rows written so far, the number of picks made, and the status. */
  datatype RunState = RunState(existIds: seq<string>, rows: seq<Row>, picks: nat, status: Status)

  /** The row written for a new photo, given its licence's name. */
  function MakeRow(p: Pick, licenseName: string): Row {
    Row(p.photo.id, licenseName, p.photo.owner, p.photo.url, p.size.source, p.photo.rotation,
        p.size.width, p.size.height, p.photo.dateUploaded, p.photo.dateTaken, p.photo.takenUnknown)
  }

  /** One iteration of the loop, given what `pickRandomPhoto` returned. */
  function Step(licenses: Registry, st: RunState, pick: Option<Pick>): RunState
    requires Valid(licenses)
  {
    if st.status != Picking then st
    else
      match pick
      case None => st.(picks := st.picks + 1, status := NoPhoto)
      case Some(p) =>
        if p.photo.id in st.existIds then st.(picks := st.picks + 1)
        else
          var ids := st.existIds + [p.photo.id];
          match GetLicense(licenses, p.photo.license)
          case None => st.(existIds := ids, picks := st.picks + 1, status := LicenseMissing)
          case Some(l) => RunState(ids, st.rows + [MakeRow(p, l.name)], st.picks + 1, Picking)
  }

  /** The state after the loop has been offered the picks `results`, in order. */
  function RunSpec(licenses: Registry, results: seq<Option<Pick>>): RunState
    requires Valid(licenses)
    decreases |results|
  {
    if results == [] then RunState([], [], 0, Picking)
    else Step(licenses, RunSpec(licenses, results[..|results| - 1]), results[|results| - 1])
  }

  /** What each of the successive picks returns, each given its own searches. */
  function PickResults(p: FlickrPicker, inputs: seq<seq<SearchOutcome>>): (rs: seq<Option<Pick>>)
    requires forall k :: 0 <= k < |inputs| ==> Iterations(p.retryErrorNum) <= |inputs[k]|
    ensures |rs| == |inputs|
    ensures forall k :: 0 <= k < |inputs| ==> rs[k] == PickOf(p, inputs[k])
  {
    seq(|inputs|, k requires 0 <= k < |inputs| => PickOf(p, inputs[k]))
  }

  lemma RunSpecStep(licenses: Registry, results: seq<Option<Pick>>, i: nat)
    requires Valid(licenses) && i < |results|
    ensures RunSpec(licenses, results[..i + 1]) == Step(licenses, RunSpec(licenses, results[..i]), results[i])
  {
    assert results[..i + 1][..i] == results[..i];
  }

  /** Once the loop has stopped, later picks change nothing (none is made). */
  lemma {:induction false} StoppedStays(licenses: Registry, results: seq<Option<Pick>>, m: nat)
    requires Valid(licenses)
    requires m <= |results|
    requires RunSpec(licenses, results[..m]).status != Picking || m == |results|
    ensures RunSpec(licenses, results) == RunSpec(licenses, results[..m])
    decreases |results|
  {
    if m < |results| {
      var prefix := results[..|results| - 1];
      assert prefix[..m] == results[..m];
      StoppedStays(licenses, prefix, m);
    } else {
      assert results[..m] == results;
    }
  }

  /**
    `random_pick`, given the licence catalog (None if fetching it failed) and,
    for each pick the loop may make, the searches that pick meets.
  */
  method RandomPick(config: Config, catalog: Option<seq<License>>, getNum: int, inputs: seq<seq<SearchOutcome>>)
    returns (st: RunState)
    requires Iterations(getNum) <= |inputs|
    requires forall k :: 0 <= k < |inputs| ==> Iterations(config.retryErrorNum) <= |inputs[k]|
    ensures catalog.None? ==> st == RunState([], [], 0, InitFailed)
    ensures catalog.Some? ==>
              var p := NewPicker(config, catalog.value);
              st == RunSpec(p.licenses, PickResults(p, inputs[..Iterations(getNum)]))
  {
    if catalog.None? {
      return RunState([], [], 0, InitFailed);
    }
    var picker := NewPicker(config, catalog.value);
    var n := Iterations(getNum);
    ghost var results := PickResults(picker, inputs[..n]);
    var existIds: seq<string> := [];
    var rows: seq<Row> := [];
    var status := Picking;
    var i := 0;
    while i < n
      invariant 0 <= i <= n
      invariant RunSpec(picker.licenses, results[..i]) == RunState(existIds, rows, i, Picking)
    {
      RunSpecStep(picker.licenses, results, i);
      ghost var before := RunState(existIds, rows, i, Picking);
      var pick, _ := PickRandomPhoto(picker, inputs[i]);
      assert pick == results[i];
      if pick.None? {
        status := NoPhoto;
        i := i + 1;
        assert Step(picker.licenses, before, pick) == RunState(existIds, rows, i, status);
        break;
      }
      var photo, size := pick.value.photo, pick.value.size;
      if photo.id in existIds {
        // a photo seen before: nothing is written
        i := i + 1;
        continue;
      }
      existIds := existIds + [photo.id];
      var license := GetLicense(picker.licenses, photo.license);
      if license.None? {
        status := LicenseMissing;
        i := i + 1;
        assert Step(picker.licenses, before, pick) == RunState(existIds, rows, i, status);
        break;
      }
      rows := rows + [MakeRow(pick.value, license.value.name)];
      i := i + 1;
    }
    st := RunState(existIds, rows, i, status);
    StoppedStays(picker.licenses, results, i);
  }

  // ---------------------------------------------------------------------
  // Properties of the run

  /** The ids of some rows, in file order. */
  function RowIds(rows: seq<Row>): seq<string> {
    seq(|rows|, i requires 0 <= i < |rows| => rows[i].id)
  }

  /** The photo ids of the successful picks among `results`, in pick order. */
  function PickedIds(results: seq<Option<Pick>>): seq<string>
    decreases |results|
  {
    if results == [] then []
    else
      var last := results[|results| - 1];
      PickedIds(results[..|results| - 1]) + if last.Some? then [last.value.photo.id] else []
  }

  /** Position of the first occurrence of `x` in `xs`. */
  function IndexOf(xs: seq<string>, x: string): (i: nat)
    requires x in xs
    ensures i < |xs| && xs[i] == x && x !in xs[..i]
  {
    if xs[0] == x then 0
    else
      var k := IndexOf(xs[1..], x);
      assert xs[..k + 1] == [xs[0]] + xs[1..][..k];
      k + 1
  }

  lemma IndexOfAppend(xs: seq<string>, y: string, x: string)
    requires x in xs
    ensures IndexOf(xs + [y], x) == IndexOf(xs, x)
  {
    if xs[0] != x {
      assert (xs + [y])[0] == xs[0] && (xs + [y])[1..] == xs[1..] + [y];
      IndexOfAppend(xs[1..], y, x);
    }
  }

  /**
    Where the loop stops: at most one pick per iteration, every iteration
    while nothing goes wrong, and exactly at the first pick that found nothing.
  */
  lemma {:induction false} RunStops(licenses: Registry, results: seq<Option<Pick>>)
    requires Valid(licenses)
    ensures var st := RunSpec(licenses, results);
            && st.picks <= |results|
            && st.status != InitFailed
            && (st.status == Picking ==> st.picks == |results|)
            && (st.status == NoPhoto ==> 0 < st.picks && results[st.picks - 1].None?)
            && (forall k :: 0 <= k < st.picks - 1 ==> results[k].Some?)
            && (st.status == Picking ==> forall k :: 0 <= k < |results| ==> results[k].Some?)
    decreases |results|
  {
    if results != [] {
      var m := |results| - 1;
      var prefix := results[..m];
      RunStops(licenses, prefix);
      var prev := RunSpec(licenses, prefix);
      var st := RunSpec(licenses, results);
      assert st == Step(licenses, prev, results[m]);
      assert forall k :: 0 <= k < m ==> prefix[k] == results[k];
      if prev.status == Picking {
        assert st.picks == |results|;
      } else {
        assert st == prev;
      }
    }
  }

  /**
    What the loop records: at most one id per pick, no id twice, and one row
    per recorded id, in the same order, except that the id whose licence was
    missing has none.
  */
  lemma {:induction false} RunRecords(licenses: Registry, results: seq<Option<Pick>>)
    requires Valid(licenses)
    ensures var st := RunSpec(licenses, results);
            && |st.existIds| <= st.picks
            && Distinct(st.existIds)
            && (st.status == LicenseMissing ==>
                  0 < |st.existIds| && RowIds(st.rows) == st.existIds[..|st.existIds| - 1])
            && (st.status != LicenseMissing ==> RowIds(st.rows) == st.existIds)
    decreases |results|
  {
    if results != [] {
      var m := |results| - 1;
      var prefix := results[..m];
      RunRecords(licenses, prefix);
      var prev := RunSpec(licenses, prefix);
      var st := RunSpec(licenses, results);
      assert st == Step(licenses, prev, results[m]);
      if prev.status == Picking && results[m].Some? {
        var p := results[m].value;
        if p.photo.id !in prev.existIds {
          var ids := prev.existIds + [p.photo.id];
          assert st.existIds == ids;
          assert forall i :: 0 <= i < |prev.existIds| ==> ids[i] == prev.existIds[i];
          if st.status == Picking {
            assert RowIds(st.rows) == RowIds(prev.rows) + [p.photo.id];
          } else {
            assert st.rows == prev.rows;
            assert ids[..|ids| - 1] == prev.existIds;
          }
        } else {
          assert st.existIds == prev.existIds && st.rows == prev.rows;
        }
      } else {
        assert st.existIds == prev.existIds && st.rows == prev.rows;
      }
    }
  }

  /**
    `ids` holds each id of `seen` once, ordered by where it first occurs in
    `seen`.
  */
  ghost predicate InFirstSeenOrder(ids: seq<string>, seen: seq<string>) {
    && (forall x :: x in ids <==> x in seen)
    && forall i, j :: 0 <= i < j < |ids| ==> IndexOf(seen, ids[i]) < IndexOf(seen, ids[j])
  }

  /** A new id is seen after every id recorded before it. */
  lemma NewIdComesLast(seen: seq<string>, ids: seq<string>, id: string)
    requires InFirstSeenOrder(ids, seen) && id !in seen
    ensures InFirstSeenOrder(ids + [id], seen + [id])
  {
    var ids', seen' := ids + [id], seen + [id];
    forall x | x in seen
      ensures IndexOf(seen', x) == IndexOf(seen, x)
    {
      IndexOfAppend(seen, id, x);
    }
    assert IndexOf(seen', id) == |seen|;
    forall i, j | 0 <= i < j < |ids'|
      ensures IndexOf(seen', ids'[i]) < IndexOf(seen', ids'[j])
    {
      assert ids'[i] == ids[i] && ids[i] in seen;
      if j < |ids| {
        assert ids'[j] == ids[j];
      }
    }
  }

  /** Seeing an id again changes no first-seen position. */
  lemma SeenAgainKeepsOrder(seen: seq<string>, ids: seq<string>, id: string)
    requires InFirstSeenOrder(ids, seen) && id in seen
    ensures InFirstSeenOrder(ids, seen + [id])
  {
    forall x | x in seen
      ensures IndexOf(seen + [id], x) == IndexOf(seen, x)
    {
      IndexOfAppend(seen, id, x);
    }
  }

  /**
    `exist_ids` holds each id the picks returned once, in the order in
    which the picks first returned them.
  */
  lemma {:induction false} FirstSeenOrder(licenses: Registry, results: seq<Option<Pick>>)
    requires Valid(licenses)
    ensures RunSpec(licenses, results).picks <= |results|
    ensures InFirstSeenOrder(RunSpec(licenses, results).existIds,
                             PickedIds(results[..RunSpec(licenses, results).picks]))
    decreases |results|
  {
    if results != [] {
      var m := |results| - 1;
      var prefix := results[..m];
      FirstSeenOrder(licenses, prefix);
      RunStops(licenses, prefix);
      var prev := RunSpec(licenses, prefix);
      var st := RunSpec(licenses, results);
      assert st == Step(licenses, prev, results[m]);
      var seen := PickedIds(prefix[..prev.picks]);
      if prev.status != Picking {
        assert st == prev;
        assert results[..st.picks] == prefix[..prev.picks];
      } else {
        assert prefix[..prev.picks] == prefix;
        assert st.picks == |results|;
        assert results[..st.picks] == results;
        var next := if results[m].Some? then [results[m].value.photo.id] else [];
        assert PickedIds(results) == seen + next;
        SeenStep(licenses, prev, seen, results[m]);
      }
    }
  }

  /** One iteration of a running loop keeps the stored ids in first-seen order. */
  lemma SeenStep(licenses: Registry, prev: RunState, seen: seq<string>, r: Option<Pick>)
    requires Valid(licenses) && prev.status == Picking
    requires InFirstSeenOrder(prev.existIds, seen)
    ensures InFirstSeenOrder(Step(licenses, prev, r).existIds,
                             seen + if r.Some? then [r.value.photo.id] else [])
  {
    var st := Step(licenses, prev, r);
    if r.Some? {
      var id := r.value.photo.id;
      if id !in prev.existIds {
        NewIdComesLast(seen, prev.existIds, id);
        assert st.existIds == prev.existIds + [id];
      } else {
        SeenAgainKeepsOrder(seen, prev.existIds, id);
        assert st.existIds == prev.existIds;
      }
    } else {
      assert seen + [] == seen;
      assert st.existIds == prev.existIds;
    }
  }

  /** A photo id seen before writes nothing and records nothing. */
  lemma DuplicateWritesNothing(licenses: Registry, results: seq<Option<Pick>>, p: Pick)
    requires Valid(licenses)
    requires p.photo.id in RunSpec(licenses, results).existIds
    ensures var before, after := RunSpec(licenses, results), RunSpec(licenses, results + [Some(p)]);
            && after.existIds == before.existIds
            && after.rows == before.rows
            && after.status == before.status
  {
    assert (results + [Some(p)])[..|results|] == results;
  }

  /**
    When every photo picked carries one of the licence ids the search asked
    for, the run never misses a licence and every row's licence is one of
    the allowed names.
  */
  lemma {:induction false} RowsHaveAllowedLicenses(licenses: Registry, targets: seq<string>, results: seq<Option<Pick>>)
    requires Valid(licenses)
    requires forall k :: 0 <= k < |results| && results[k].Some? ==>
               results[k].value.photo.license in MatchingIds(licenses.order, licenses.entries, targets)
    ensures RunSpec(licenses, results).status != LicenseMissing
    ensures forall i :: 0 <= i < |RunSpec(licenses, results).rows| ==> RunSpec(licenses, results).rows[i].license in targets
    decreases |results|
  {
    if results != [] {
      var m := |results| - 1;
      var prefix := results[..m];
      assert forall k :: 0 <= k < m ==> prefix[k] == results[k];
      RowsHaveAllowedLicenses(licenses, targets, prefix);
      MatchingIdsMembers(licenses.order, licenses.entries, targets);
    }
  }

  /**
    A backend that always yields the same photo (with a known licence)
    produces one row however many picks are made, and every pick is made.
  */
  lemma {:induction false} SamePhotoGivesOneRow(licenses: Registry, results: seq<Option<Pick>>, p: Pick)
    requires Valid(licenses) && p.photo.license in licenses.order
    requires |results| > 0 && forall k :: 0 <= k < |results| ==> results[k] == Some(p)
    ensures RunSpec(licenses, results).picks == |results|
    ensures RunSpec(licenses, results).status == Picking
    ensures RunSpec(licenses, results).existIds == [p.photo.id]
    ensures |RunSpec(licenses, results).rows| == 1
    decreases |results|
  {
    var m := |results| - 1;
    var prefix := results[..m];
    if m > 0 {
      assert forall k :: 0 <= k < m ==> prefix[k] == results[k];
      SamePhotoGivesOneRow(licenses, prefix, p);
    } else {
      assert prefix == [];
    }
  }
}
