/** UPDATE archives: order assignment, URL dedupe, and the cancellable pipeline over the pending list. */
module UpdatePipeline {
  import opened Prelude
  import opened Seqs
  import opened Pipeline
  import opened PipelineProofs
  import opened PipelineTheorems
  import opened PipelineEngine
  import opened Archives

  // ---- Archive order and URL dedupe ----

  ghost predicate FirstWithUrl(items: seq<ArchiveItem>, k: nat) {
    k < |items| && forall j :: 0 <= j < k ==> items[j].url != items[k].url
  }

  /** Number the selected archives in discovery order, then keep the first of each URL. */
  method PlanUpdates(selected: seq<seq<ArchiveItem>>) returns (pending: seq<(nat, ArchiveItem)>)
    ensures forall i, j :: 0 <= i < j < |pending| ==> pending[i].0 < pending[j].0
    ensures forall i :: 0 <= i < |pending| ==>
      FirstWithUrl(Flatten(selected), pending[i].0) && pending[i].1 == Flatten(selected)[pending[i].0]
    ensures forall k: nat :: FirstWithUrl(Flatten(selected), k) ==> (k, Flatten(selected)[k]) in pending
  {
    var numbered: seq<(nat, ArchiveItem)> := [];
    var archiveOrder: nat := 0;
    for c := 0 to |selected|
      invariant archiveOrder == |numbered| == |Flatten(selected[..c])|
      invariant forall k :: 0 <= k < |numbered| ==> numbered[k] == (k, Flatten(selected[..c])[k])
    {
      ghost var flat := Flatten(selected[..c]);
      for i := 0 to |selected[c]|
        invariant archiveOrder == |numbered| == |flat| + i
        invariant forall k :: 0 <= k < |numbered| ==> numbered[k] == (k, (flat + selected[c])[k])
      {
        numbered := numbered + [(archiveOrder, selected[c][i])];
        archiveOrder := archiveOrder + 1;
      }
      assert selected[..c + 1][..c] == selected[..c];
    }
    assert selected[..|selected|] == selected;
    ghost var flat := Flatten(selected);
    pending := [];
    var seen: set<string> := {};
    for k := 0 to |numbered|
      invariant seen == set j | 0 <= j < k :: flat[j].url
      invariant forall i, j :: 0 <= i < j < |pending| ==> pending[i].0 < pending[j].0
      invariant forall i :: 0 <= i < |pending| ==>
        pending[i].0 < k && FirstWithUrl(flat, pending[i].0) && pending[i].1 == flat[pending[i].0]
      invariant forall j: nat :: j < k && FirstWithUrl(flat, j) ==> (j, flat[j]) in pending
    {
      var (order, item) := numbered[k];
      if item.url !in seen {
        seen := seen + {item.url};
        pending := pending + [(order, item)];
      }
    }
  }

  // ---- The cancellable merge ----

  function ResolveJobs(jobs: nat, parseJobs: nat, taskCount: nat, available: nat): (r: nat)
    ensures 1 <= r && (taskCount >= 1 ==> r <= taskCount)
    ensures 1 <= parseJobs <= taskCount ==> r == parseJobs
    ensures parseJobs == 0 && 1 <= jobs <= taskCount ==> r == jobs
    ensures parseJobs == 0 && jobs == 0 && 1 <= available <= 4 && available <= taskCount ==> r == available
    ensures parseJobs == 0 && jobs == 0 && available > 4 && taskCount >= 4 ==> r == 4
    ensures taskCount >= 1 && parseJobs > taskCount ==> r == taskCount
  {
    var requested := if parseJobs > 0 then parseJobs else if jobs > 0 then jobs else if available < 4 then available
      else 4;
    var bounded := if requested < taskCount then requested else taskCount;
    if bounded < 1 then 1 else bounded
  }

  /** An item's slot: its own result, or nothing if the flag was raised. */
  ghost predicate RecordedOwn<A, B, R>(
      item: A, download: A -> Result<B, string>, parse: (B, A) -> R, slot: Option<Result<R, string>>, cancelled: bool)
  {
    match slot
    case None => cancelled
    case Some(result) =>
      result == match download(item) case Ok(b) => Ok(parse(b, item)) case Err(e) => Err(e)
  }

  /** What the workers leave behind when all of them have returned. */
  ghost predicate Recorded<A, B, R>(
      slots: seq<Option<Result<R, string>>>, items: seq<A>,
      download: A -> Result<B, string>, parse: (B, A) -> R, cancelled: bool)
  {
    |slots| == |items| && forall i :: 0 <= i < |items| ==> RecordedOwn(items[i], download, parse, slots[i], cancelled)
  }

  predicate Failed<R>(slot: Option<Result<R, string>>) { slot.Some? && slot.value.Err? }

  ghost predicate LowestFailure<R>(slots: seq<Option<Result<R, string>>>, k: int, error: string) {
    0 <= k < |slots| && slots[k] == Some(Err(error)) && forall j :: 0 <= j < k ==> !Failed(slots[j])
  }

  /** The lowest failure that was recorded; without any, the cancelled marker. */
  ghost predicate FailsWith<R>(slots: seq<Option<Result<R, string>>>, error: string, cancelled: bool) {
    || (exists k :: LowestFailure(slots, k, error))
    || (cancelled && error == CANCELLED_MARKER && forall k :: 0 <= k < |slots| ==> !Failed(slots[k]))
  }

  lemma {:induction false} FirstFailureMeaning<R>(slots: seq<Option<Result<R, string>>>)
    ensures FirstFailure(slots).Some? ==> exists k :: LowestFailure(slots, k, FirstFailure(slots).value)
    ensures FirstFailure(slots).None? ==> forall k :: 0 <= k < |slots| ==> !Failed(slots[k])
  {
    if slots != [] {
      var rest := slots[1..];
      FirstFailureMeaning(rest);
      assert forall j :: 0 <= j < |rest| ==> rest[j] == slots[j + 1];
      if Failed(slots[0]) {
        var e := FirstFailure(slots).value;
        assert slots[0] == Some(Err(e));
        assert LowestFailure(slots, 0, e);
      } else if FirstFailure(slots).Some? {
        var k :| LowestFailure(rest, k, FirstFailure(slots).value);
        forall j | 0 <= j < k + 1 ensures !Failed(slots[j]) {
          assert j > 0 ==> rest[j - 1] == slots[j];
        }
        assert LowestFailure(slots, k + 1, FirstFailure(slots).value);
      } else {
        forall j | 0 <= j < |slots| ensures !Failed(slots[j]) {
          assert j > 0 ==> rest[j - 1] == slots[j];
        }
      }
    }
  }

  lemma JoinedMeansRecorded<A, B, R>(c: Job<A, B, R>, s: State<B, R>)
    requires WellFormed(c) && Inv(c, s) && Joined(s)
    ensures Recorded(s.slots, c.items, c.download, c.parse, s.cancel)
  {
    if !s.cancel { JoinedMeansFilled(c, s); }
    forall i | 0 <= i < |c.items| ensures RecordedOwn(c.items[i], c.download, c.parse, s.slots[i], s.cancel) {
      if s.slots[i].Some? { HonestMeansOwn(c, s, i); }
    }
  }

  /**
   * The merge of the UPDATE pipeline on a joined engine: an empty result stands
   * in for every failed or skipped archive, then the first failure and finally
   * the cancel flag turn the whole result into an error.
   */
  method MergeUpdates<A, B, R>(engine: Engine<A, B, R>, emptyResult: A -> R)
    returns (r: Result<seq<(Option<B>, R)>, string>)
    requires engine.Valid() && Joined(engine.View())
    ensures engine.cancel ==> r.Err?
    ensures !engine.cancel ==> r == Sequential(engine.job.items, engine.job.download, engine.job.parse)
    ensures Recorded(engine.slots[..], engine.job.items, engine.job.download, engine.job.parse, engine.cancel)
    ensures r.Err? ==> FailsWith(engine.slots[..], r.error, engine.cancel)
  {
    var out: seq<(Option<B>, R)> := [];
    var firstError: Option<string> := None;
    ghost var slots, acquired := engine.slots[..], engine.acquired[..];
    for idx := 0 to engine.slots.Length
      invariant |out| == idx
      invariant forall i :: 0 <= i < idx && slots[i].Some? && slots[i].value.Ok? ==>
        out[i] == (acquired[i], slots[i].value.value)
      invariant firstError == FirstFailure(slots[..idx])
    {
      assert slots[..idx + 1] == slots[..idx] + [slots[idx]];
      FirstFailureSnoc(slots[..idx], slots[idx]);
      match engine.slots[idx] {
        case Some(Ok(result)) =>
          out := out + [(engine.acquired[idx], result)];
        case Some(Err(e)) =>
          if firstError.None? { firstError := Some(e); }
          out := out + [(engine.acquired[idx], emptyResult(engine.job.items[idx]))];
        case None =>
          out := out + [(engine.acquired[idx], emptyResult(engine.job.items[idx]))];
      }
    }
    assert slots[..|slots|] == slots;
    JoinedMeansRecorded(engine.job, engine.View());
    FirstFailureMeaning(slots);
    if !engine.cancel {
      JoinedMeansFilled(engine.job, engine.View());
      UncancelledIsSequential(engine.job, engine.View());
      if firstError.None? {
        NoFailureMeansAll(slots, acquired, out);
      }
    }
    if firstError.Some? {
      return Err(firstError.value);
    }
    if engine.cancel {
      return Err(CANCELLED_MARKER);
    }
    return Ok(out);
  }

  /** With every slot filled and no failure, the merged list is the slots' own results. */
  lemma {:induction false} NoFailureMeansAll<B, R>(
      slots: seq<Option<Result<R, string>>>, acquired: seq<Option<B>>, out: seq<(Option<B>, R)>)
    requires |slots| == |acquired| == |out| && FirstFailure(slots) == None
    requires forall i :: 0 <= i < |slots| ==> slots[i].Some?
    requires forall i :: 0 <= i < |slots| && slots[i].value.Ok? ==> out[i] == (acquired[i], slots[i].value.value)
    ensures out == Filled(slots, acquired)
  {
    if slots != [] {
      NoFailureMeansAll(slots[1..], acquired[1..], out[1..]);
      assert out == [out[0]] + out[1..];
    }
  }

  /**
   * `process_updates_pipeline`. `cancelled` reports the flag as the last
   * statement of the merge reads it; it may rise at any moment before.
   */
  method ProcessUpdatesPipeline<A, B, R>(
      pending: seq<A>, downloadJobs: nat, jobs: nat, parseJobs: nat, available: nat,
      download: A -> Result<B, string>, parse: (B, A) -> R, emptyResult: A -> R)
    returns (r: Result<seq<(Option<B>, R)>, string>, cancelled: bool)
    ensures !cancelled ==> r == Sequential(pending, download, parse)
    ensures cancelled ==> r.Err?
    ensures exists slots ::
      Recorded(slots, pending, download, parse, cancelled) && (r.Err? ==> FailsWith(slots, r.error, cancelled))
    ensures r.Ok? <==> !cancelled && forall k :: 0 <= k < |pending| ==> download(pending[k]).Ok?
  {
    SequentialMeaning(pending, download, parse);
    if pending == [] {
      assert Recorded([], pending, download, parse, false);
      return Ok([]), false;
    }
    var n := |pending|;
    var job :=
      Job(pending, AtLeastOneAtMost(downloadJobs, n), ResolveJobs(jobs, parseJobs, n, available), true, download,
      parse);
    var engine := new Engine(job);
    engine.Run();
    if * {
      if !engine.cancel {
        engine.StepOther(RaiseCancel);
      }
    }
    cancelled := engine.cancel;
    r := MergeUpdates(engine, emptyResult);
  }

  /**
   * Phase B of the analysis: plan, then run. A successful result has one entry
   * for each distinct URL, in archive order, holding that archive's own parse.
   */
  method IngestUpdates<B, R>(
      selected: seq<seq<ArchiveItem>>, downloadJobs: nat, jobs: nat, parseJobs: nat, available: nat,
      download: ((nat, ArchiveItem)) -> Result<B, string>, parse: (B, (nat, ArchiveItem)) -> R,
      emptyResult: ((nat, ArchiveItem)) -> R)
    returns (pending: seq<(nat, ArchiveItem)>, r: Result<seq<(Option<B>, R)>, string>, cancelled: bool)
    ensures forall i, j :: 0 <= i < j < |pending| ==>
      pending[i].0 < pending[j].0 && pending[i].1.url != pending[j].1.url
    ensures forall item :: item in Flatten(selected) ==> exists i :: 0 <= i < |pending| && pending[i].1.url == item.url
    ensures r.Ok? ==> |r.value| == |pending|
    ensures r.Ok? ==> forall i :: 0 <= i < |pending| ==> download(pending[i]).Ok?
    ensures r.Ok? ==> forall i :: 0 <= i < |pending| ==>
      r.value[i] == (Some(download(pending[i]).value), parse(download(pending[i]).value, pending[i]))
    ensures r.Ok? <==> !cancelled && forall i :: 0 <= i < |pending| ==> download(pending[i]).Ok?
  {
    pending := PlanUpdates(selected);
    forall item | item in Flatten(selected) ensures exists i :: 0 <= i < |pending| && pending[i].1.url == item.url {
      var k := FirstOccurrence(Flatten(selected), item.url);
      assert (k, Flatten(selected)[k]) in pending;
    }
    r, cancelled :=
      ProcessUpdatesPipeline(pending, downloadJobs, jobs, parseJobs, available, download, parse, emptyResult);
    SequentialMeaning(pending, download, parse);
  }

  lemma {:induction false} FirstOccurrence(items: seq<ArchiveItem>, url: string) returns (k: nat)
    requires exists i :: 0 <= i < |items| && items[i].url == url
    ensures FirstWithUrl(items, k) && items[k].url == url
  {
    if items[0].url == url {
      k := 0;
    } else {
      var i :| 0 <= i < |items| && items[i].url == url;
      assert items[1..][i - 1].url == url;
      var rest := FirstOccurrence(items[1..], url);
      k := rest + 1;
      assert forall j :: 0 < j < k ==> items[j] == items[1..][j - 1];
    }
  }
}
