/**
 * The pipeline run as code: worker arrays, a shared queue, a bounded channel and
 * result slots that are written in place, driven by an arbitrary scheduler.
 */
module PipelineEngine {
  import opened Prelude
  import opened Seqs
  import opened Pipeline
  import opened PipelineProofs
  import opened PipelineTheorems

  const CANCELLED_MARKER := "__inim_cancelled__"

  class Engine<A, B, R> {
    const job: Job<A, B, R>
    const slots: array<Option<Result<R, string>>>
    const acquired: array<Option<B>>
    var queue: seq<nat>
    var channel: seq<(nat, B)>
    var downloaders: seq<Downloader<B>>
    var parsers: seq<Parser<B>>
    var rxOwner: Option<nat>
    var mainSender: bool
    var cancel: bool

    function View(): State<B, R>
      reads this, slots, acquired
    {
      State(queue, slots[..], acquired[..], channel, downloaders, parsers, rxOwner, mainSender, cancel)
    }

    ghost predicate Valid()
      reads this, slots, acquired
    {
      && slots as object != acquired as object
      && WellFormed(job) && Inv(job, View())
    }

    constructor (job: Job<A, B, R>)
      requires WellFormed(job)
      ensures Valid() && fresh(slots) && fresh(acquired)
      ensures this.job == job && View() == Init(job)
    {
      var n := |job.items|;
      this.job := job;
      slots := new Option<Result<R, string>>[n](_ => None);
      acquired := new Option<B>[n](_ => None);
      queue := seq(n, i => i);
      channel := [];
      downloaders := seq(job.downloadJobs, _ => Seeking);
      parsers := seq(job.parseJobs, _ => Ready);
      rxOwner, mainSender, cancel := None, true, false;
      new;
      assert View() == Init(job);
      InitInv(job);
    }

    /** One atomic step of download worker `w`. */
    method StepDownloader(w: nat)
      requires Valid() && Enabled(job, View(), Download(w))
      modifies this, slots, acquired
      ensures Valid() && View() == Apply(job, old(View()), Download(w))
    {
      ghost var before := View();
      match downloaders[w] {
      case Seeking =>
        if queue == [] {
          downloaders := downloaders[w := Stopped];
        } else {
          var idx := queue[0];
          queue := queue[1..];
          downloaders := downloaders[w := if job.cancellable then Checking(idx) else Fetching(idx)];
        }
      case Checking(idx) =>
        downloaders := downloaders[w := if cancel then Stopped else Fetching(idx)];
      case Fetching(idx) =>
        match job.download(job.items[idx]) {
          case Ok(b) =>
            acquired[idx] := Some(b);
            downloaders := downloaders[w := Sending(idx, b)];
          case Err(e) =>
            slots[idx] := Some(Err(e));
            downloaders := downloaders[w := Seeking];
        }
      case Sending(idx, b) =>
        channel := channel + [(idx, b)];
        downloaders := downloaders[w := Seeking];
      case Stopped =>
      }
      assert View() == Apply(job, before, Download(w));
      StepKeepsInv(job, before, Download(w));
    }

    /** One atomic step of parse worker `p`: take the lock, receive and release it, or parse. */
    method StepParser(p: nat)
      requires Valid() && Enabled(job, View(), Parse(p))
      modifies this, slots
      ensures Valid() && View() == Apply(job, old(View()), Parse(p))
    {
      ghost var before := View();
      match parsers[p] {
      case Ready =>
        rxOwner := Some(p);
        parsers := parsers[p := Receiving];
      case Receiving =>
        rxOwner := None;
        if channel == [] {
          parsers := parsers[p := Finished];
        } else {
          var (idx, b) := channel[0];
          channel := channel[1..];
          parsers := parsers[p := Parsing(idx, b)];
        }
      case Parsing(idx, b) =>
        slots[idx] := Some(Ok(job.parse(b, job.items[idx])));
        parsers := parsers[p := Ready];
      case Finished =>
      }
      assert View() == Apply(job, before, Parse(p));
      StepKeepsInv(job, before, Parse(p));
    }

    /** The main thread drops its own sender, or the environment raises the cancel flag. */
    method StepOther(a: Action)
      requires Valid() && Enabled(job, View(), a) && (a.DropMainSender? || a.RaiseCancel?)
      modifies this
      ensures Valid() && View() == Apply(job, old(View()), a)
    {
      ghost var before := View();
      if a.DropMainSender? { mainSender := false; } else { cancel := true; }
      StepKeepsInv(job, before, a);
    }

    function Thread(t: nat): Action
      reads this
    {
      if t < |downloaders| then Download(t)
      else if t < |downloaders| + |parsers| then Parse(t - |downloaders|)
      else DropMainSender
    }

    /** Run whichever thread the scheduler picks, and let the flag rise at any moment, until all have returned. */
    method Run()
      requires Valid()
      modifies this, slots, acquired
      ensures Valid() && Joined(View())
    {
      while !Joined(View())
        invariant Valid()
        decreases Work(View())
      {
        ghost var before := View();
        if * {
          if job.cancellable && !cancel {
            StepReducesWork(job, before, RaiseCancel);
            StepOther(RaiseCancel);
            continue;
          }
        }
        ghost var able := SomeThreadCanStep(job, before);
        assert able
          == Thread(if able.Download? then able.w else if able.Parse? then |downloaders| + able.p
          else |downloaders| + |parsers|);
        var t: nat :| t <= |downloaders| + |parsers| && Enabled(job, View(), Thread(t));
        StepReducesWork(job, before, Thread(t));
        match Thread(t) {
          case Download(w) => StepDownloader(w);
          case Parse(p) => StepParser(p);
          case DropMainSender => StepOther(DropMainSender);
        }
      }
    }

    /** The ordered merge: takes each acquired item, collects results, remembers the first failure. */
    method Merge() returns (r: Result<seq<(Option<B>, R)>, string>)
      requires slots.Length == acquired.Length && slots as object != acquired as object
      modifies acquired
      ensures r == Merged(old(slots[..]), old(acquired[..]))
    {
      var out: seq<(Option<B>, R)> := [];
      var firstError: Option<string> := None;
      for idx := 0 to slots.Length
        invariant slots[..] == old(slots[..]) && acquired[idx..] == old(acquired[idx..])
        invariant out == Filled(old(slots[..idx]), old(acquired[..idx]))
        invariant firstError == FirstFailure(old(slots[..idx]))
      {
        ghost var done, got := old(slots[..idx]), old(acquired[..idx]);
        assert old(slots[..idx + 1]) == done + [slots[idx]];
        assert acquired[idx] == acquired[idx..][0] == old(acquired[idx..])[0];
        assert old(acquired[..idx + 1]) == got + [acquired[idx]];
        ghost var rest := acquired[idx + 1..];
        assert acquired[idx..][1..] == rest && old(acquired[idx..])[1..] == old(acquired[idx + 1..]);
        FilledSnoc(done, got, slots[idx], acquired[idx]);
        FirstFailureSnoc(done, slots[idx]);
        match slots[idx] {
          case Some(Ok(result)) =>
            out := out + [(acquired[idx], result)];
            acquired[idx] := None;
          case Some(Err(e)) =>
            if firstError.None? { firstError := Some(e); }
          case None =>
        }
        assert acquired[idx + 1..] == rest;
      }
      assert old(slots[..slots.Length]) == old(slots[..]) && old(acquired[..slots.Length]) == old(acquired[..]);
      r := if firstError.Some? then Err(firstError.value) else Ok(out);
    }
  }

  lemma {:induction false} FilledSnoc<B, R>(
      slots: seq<Option<Result<R, string>>>, acquired: seq<Option<B>>, slot: Option<Result<R, string>>,
      got: Option<B>)
    requires |slots| == |acquired|
    ensures Filled(slots + [slot], acquired + [got]) == Filled(slots, acquired) + Entry(slot, got)
  {
    if slots == [] {
      assert [slot][1..] == [] && [got][1..] == [];
      assert slots + [slot] == [slot] && acquired + [got] == [got];
    } else {
      ConcatTail(slots, [slot]);
      ConcatTail(acquired, [got]);
      FilledSnoc(slots[1..], acquired[1..], slot, got);
      ConcatAssociates(Entry(slots[0], acquired[0]), Filled(slots[1..], acquired[1..]), Entry(slot, got));
    }
  }

  lemma {:induction false} FirstFailureSnoc<R>(slots: seq<Option<Result<R, string>>>, slot: Option<Result<R, string>>)
    ensures FirstFailure(slots + [slot])
         == if FirstFailure(slots).Some? then FirstFailure(slots)
            else if slot.Some? && slot.value.Err? then Some(slot.value.error) else None
  {
    if slots == [] {
      assert [slot][1..] == [];
    } else {
      assert (slots + [slot])[1..] == slots[1..] + [slot];
      FirstFailureSnoc(slots[1..], slot);
    }
  }

  function AtLeastOneAtMost(jobs: nat, n: nat): (workers: nat)
    ensures workers <= n && (n >= 1 ==> workers >= 1)
    ensures 1 <= jobs <= n ==> workers == jobs
    ensures jobs > n ==> workers == n
  {
    var atLeast := if jobs < 1 then 1 else jobs;
    if atLeast > n then n else atLeast
  }

  /** The plain engine: whatever the worker counts and the scheduling, the result is the sequential one. */
  method RunBoundedPipeline<A, B, R>(
      items: seq<A>, downloadJobs: nat, parseJobs: nat, download: A -> Result<B, string>, parse: (B, A) -> R)
    returns (r: Result<seq<(Option<B>, R)>, string>)
    ensures r == Sequential(items, download, parse)
  {
    if items == [] {
      return Ok([]);
    }
    var job :=
      Job(items, AtLeastOneAtMost(downloadJobs, |items|), AtLeastOneAtMost(parseJobs, |items|), false, download, parse);
    var engine := new Engine(job);
    engine.Run();
    UncancelledIsSequential(job, engine.View());
    r := engine.Merge();
  }
}
