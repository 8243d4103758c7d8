/**
 * How many items are in flight at once. The engine's documentation promises
 * `download_jobs + parse_jobs`; the code keeps up to one item per download
 * worker, `parse_jobs` in the channel and one more per parse worker.
 */
module PipelineMemory {
  import opened Prelude
  import opened Seqs
  import opened Pipeline
  import opened PipelineProofs

  predicate Holds<B>(d: Downloader<B>) { d.Checking? || d.Fetching? || d.Sending? }

  function DownloadersHolding<B>(ds: seq<Downloader<B>>): nat {
    if ds == [] then 0 else One(Holds(ds[0])) + DownloadersHolding(ds[1..])
  }

  function ParsersHolding<B>(ps: seq<Parser<B>>): nat {
    if ps == [] then 0 else One(ps[0].Parsing?) + ParsersHolding(ps[1..])
  }

  /** Items popped from the queue and not yet turned into a result. */
  function InFlight<B, R>(s: State<B, R>): nat {
    DownloadersHolding(s.downloaders) + |s.channel| + ParsersHolding(s.parsers)
  }

  lemma {:induction false} AtMostOneEach<B>(ds: seq<Downloader<B>>, ps: seq<Parser<B>>)
    ensures DownloadersHolding(ds) <= |ds| && ParsersHolding(ps) <= |ps|
    decreases |ds| + |ps|
  {
    if ds != [] { AtMostOneEach(ds[1..], []); }
    if ps != [] { AtMostOneEach<B>([], ps[1..]); }
  }

  // ---- No more in flight than there are items ----

  function SumTo(n: nat, f: nat -> nat): nat {
    if n == 0 then 0 else SumTo(n - 1, f) + f(n - 1)
  }

  lemma {:induction false} SumOfSum(n: nat, f: nat -> nat, g: nat -> nat, h: nat -> nat)
    requires forall i: nat :: i < n ==> h(i) == f(i) + g(i)
    ensures SumTo(n, h) == SumTo(n, f) + SumTo(n, g)
  {
    if n > 0 { SumOfSum(n - 1, f, g, h); }
  }

  lemma {:induction false} SumAtMost(n: nat, f: nat -> nat)
    requires forall i: nat :: i < n ==> f(i) <= 1
    ensures SumTo(n, f) <= n
  {
    if n > 0 { SumAtMost(n - 1, f); }
  }

  lemma {:induction false} SumOfPoint(n: nat, f: nat -> nat, on: bool, x: nat)
    requires forall i: nat :: i < n ==> f(i) == One(on && x == i)
    ensures SumTo(n, f) == One(on && x < n)
  {
    if n > 0 { SumOfPoint(n - 1, f, on, x); }
  }

  lemma {:induction false} SumDownloading<B>(n: nat, ds: seq<Downloader<B>>)
    requires forall w :: 0 <= w < |ds| ==> DownloaderInBounds(ds[w], n)
    ensures SumTo(n, i => Downloading(ds, i)) == DownloadersHolding(ds)
  {
    if ds == [] {
      SumOfPoint(n, i => Downloading(ds, i), false, 0);
    } else {
      SumDownloading(n, ds[1..]);
      var x := if Holds(ds[0]) then ds[0].idx else 0;
      SumOfPoint(n, i => One(Carries(ds[0], i)), Holds(ds[0]), x);
      SumOfSum(n, i => One(Carries(ds[0], i)), i => Downloading(ds[1..], i), i => Downloading(ds, i));
    }
  }

  lemma {:induction false} SumBeingParsed<B>(n: nat, ps: seq<Parser<B>>)
    requires forall p :: 0 <= p < |ps| ==> ps[p].Parsing? ==> ps[p].idx < n
    ensures SumTo(n, i => BeingParsed(ps, i)) == ParsersHolding(ps)
  {
    if ps == [] {
      SumOfPoint(n, i => BeingParsed(ps, i), false, 0);
    } else {
      SumBeingParsed(n, ps[1..]);
      var x := if ps[0].Parsing? then ps[0].idx else 0;
      SumOfPoint(n, i => One(Parses(ps[0], i)), ps[0].Parsing?, x);
      SumOfSum(n, i => One(Parses(ps[0], i)), i => BeingParsed(ps[1..], i), i => BeingParsed(ps, i));
    }
  }

  lemma {:induction false} SumInChannel<B>(n: nat, channel: seq<(nat, B)>)
    requires forall k :: 0 <= k < |channel| ==> channel[k].0 < n
    ensures SumTo(n, i => InChannel(channel, i)) == |channel|
  {
    if channel == [] {
      SumOfPoint(n, i => InChannel(channel, i), false, 0);
    } else {
      SumInChannel(n, channel[1..]);
      SumOfPoint(n, i => One(channel[0].0 == i), true, channel[0].0);
      SumOfSum(n, i => One(channel[0].0 == i), i => InChannel(channel[1..], i), i => InChannel(channel, i));
    }
  }

  lemma InFlightAtMostItems<A, B, R>(c: Job<A, B, R>, s: State<B, R>)
    requires Inv(c, s)
    ensures InFlight(s) <= |c.items|
  {
    var n := |c.items|;
    var d: nat -> nat := (i: nat) => Downloading(s.downloaders, i);
    var q: nat -> nat := (i: nat) => InChannel(s.channel, i);
    var p: nat -> nat := (i: nat) => BeingParsed(s.parsers, i);
    var dq: nat -> nat := (i: nat) => Downloading(s.downloaders, i) + InChannel(s.channel, i);
    var all: nat -> nat :=
      (i: nat) => Downloading(s.downloaders, i) + InChannel(s.channel, i) + BeingParsed(s.parsers, i);
    SumDownloading(n, s.downloaders);
    SumInChannel(n, s.channel);
    SumBeingParsed(n, s.parsers);
    SumOfSum(n, d, q, dq);
    SumOfSum(n, dq, p, all);
    forall i: nat | i < n ensures all(i) <= 1 {
      assert Places(s, i) <= 1;
    }
    SumAtMost(n, all);
  }

  /** What the code does bound: never more than one per worker and a full channel. */
  lemma {:induction false} InFlightIsBounded<A, B, R>(c: Job<A, B, R>, acts: seq<Action>)
    requires WellFormed(c) && Schedule(c, Init(c), acts)
    ensures InFlight(After(c, Init(c), acts)) <= c.downloadJobs + 2 * c.parseJobs
    ensures InFlight(After(c, Init(c), acts)) <= |c.items|
  {
    InitInv(c);
    ScheduleKeepsInv(c, Init(c), acts);
    var s := After(c, Init(c), acts);
    AtMostOneEach(s.downloaders, s.parsers);
    InFlightAtMostItems(c, s);
  }

  // ---- A schedule that goes past the documented bound ----

  lemma {:induction false} ScheduleSnoc<A, B, R>(c: Job<A, B, R>, s: State<B, R>, acts: seq<Action>, a: Action)
    requires InBounds(c, s) && Schedule(c, s, acts) && Enabled(c, After(c, s, acts), a)
    ensures Schedule(c, s, acts + [a]) && After(c, s, acts + [a]) == Apply(c, After(c, s, acts), a)
    decreases |acts|
  {
    if acts != [] {
      ScheduleSnoc(c, Apply(c, s, acts[0]), acts[1..], a);
      assert (acts + [a])[1..] == acts[1..] + [a];
    } else {
      assert [a][1..] == [];
    }
  }

  /** All download workers are looking for work, and nobody has asked to stop. */
  ghost predicate Idle<A, B, R>(c: Job<A, B, R>, s: State<B, R>) {
    && !s.cancel && |s.downloaders| == c.downloadJobs
    && forall w :: 0 <= w < |s.downloaders| ==> s.downloaders[w] == Seeking
  }

  ghost predicate AllSucceed<A, B, R>(c: Job<A, B, R>) {
    forall i :: 0 <= i < |c.items| ==> c.download(c.items[i]).Ok?
  }

  /** Download worker 0 pops the next item and gets past the cancel check, if there is one. */
  lemma PopOne<A, B, R>(c: Job<A, B, R>, acts: seq<Action>) returns (more: seq<Action>)
    requires WellFormed(c) && Schedule(c, Init(c), acts)
    requires Idle(c, After(c, Init(c), acts)) && After(c, Init(c), acts).queue != []
    ensures Schedule(c, Init(c), more)
    ensures
      var s, t := After(c, Init(c), acts), After(c, Init(c), more);
      t == s.(queue := s.queue[1..], downloaders := s.downloaders[0 := Fetching(s.queue[0])])
  {
    var s := After(c, Init(c), acts);
    ScheduleSnoc(c, Init(c), acts, Download(0));
    more := acts + [Download(0)];
    if c.cancellable {
      var popped := After(c, Init(c), more);
      ScheduleSnoc(c, Init(c), more, Download(0));
      more := more + [Download(0)];
      assert popped.downloaders[0 := Fetching(s.queue[0])] == s.downloaders[0 := Fetching(s.queue[0])];
    }
  }

  lemma FetchOne<A, B, R>(c: Job<A, B, R>, acts: seq<Action>, i: nat) returns (more: seq<Action>)
    requires WellFormed(c) && AllSucceed(c) && Schedule(c, Init(c), acts) && i < |c.items|
    requires
      var s := After(c, Init(c), acts);
      |s.downloaders| > 0 && s.downloaders[0] == Fetching(i)
    ensures Schedule(c, Init(c), more)
    ensures
      var s, t := After(c, Init(c), acts), After(c, Init(c), more);
      && |t.downloaders| > 0 && t.downloaders[0].Sending?
      && t == s.(acquired := t.acquired, downloaders := s.downloaders[0 := t.downloaders[0]])
  {
    ScheduleSnoc(c, Init(c), acts, Download(0));
    more := acts + [Download(0)];
  }

  lemma SendOne<A, B, R>(c: Job<A, B, R>, acts: seq<Action>) returns (more: seq<Action>)
    requires WellFormed(c) && Schedule(c, Init(c), acts)
    requires
      var s := After(c, Init(c), acts);
      |s.downloaders| > 0 && s.downloaders[0].Sending? && |s.channel| < c.parseJobs
    ensures Schedule(c, Init(c), more)
    ensures
      var s, t := After(c, Init(c), acts), After(c, Init(c), more);
      && |t.channel| == |s.channel| + 1
      && t == s.(channel := t.channel, downloaders := s.downloaders[0 := Seeking])
  {
    ScheduleSnoc(c, Init(c), acts, Download(0));
    more := acts + [Download(0)];
  }

  /** Download worker 0 moves the next item into the channel: pop, fetch, send. */
  lemma PumpOne<A, B, R>(c: Job<A, B, R>, acts: seq<Action>) returns (more: seq<Action>)
    requires WellFormed(c) && AllSucceed(c) && Schedule(c, Init(c), acts)
    requires
      var s := After(c, Init(c), acts);
      Idle(c, s) && s.queue != [] && |s.channel| < c.parseJobs
    ensures Schedule(c, Init(c), more)
    ensures
      var s, t := After(c, Init(c), acts), After(c, Init(c), more);
      && t.queue == s.queue[1..] && |t.channel| == |s.channel| + 1 && t.cancel == s.cancel
      && t.downloaders == s.downloaders && t.parsers == s.parsers && t.rxOwner == s.rxOwner
  {
    var s := After(c, Init(c), acts);
    more := PopOne(c, acts);
    more := FetchOne(c, more, s.queue[0]);
    more := SendOne(c, more);
    assert After(c, Init(c), more).downloaders == s.downloaders;
  }

  /** Fill the channel while parse worker 0 is busy with item 0. */
  lemma {:induction false} Fill<A, B, R>(c: Job<A, B, R>, k: nat) returns (acts: seq<Action>)
    requires WellFormed(c) && AllSucceed(c) && k <= c.parseJobs && k + 1 < |c.items|
    ensures Schedule(c, Init(c), acts)
    ensures
      var s := After(c, Init(c), acts);
      && |s.queue| == |c.items| - 1 - k && |s.channel| == k && Idle(c, s)
      && |s.parsers| == c.parseJobs && s.parsers[0].Parsing?
  {
    if k == 0 {
      var pumped := PumpOne(c, []);
      ScheduleSnoc(c, Init(c), pumped, Parse(0));
      var locked := pumped + [Parse(0)];
      ScheduleSnoc(c, Init(c), locked, Parse(0));
      acts := locked + [Parse(0)];
    } else {
      var before := Fill(c, k - 1);
      acts := PumpOne(c, before);
    }
  }

  /** Then every download worker pops one more item. */
  lemma {:induction false} Overfill<A, B, R>(c: Job<A, B, R>, d: nat) returns (acts: seq<Action>)
    requires WellFormed(c) && AllSucceed(c) && d <= c.downloadJobs
    requires c.parseJobs + 1 + d <= |c.items| && c.parseJobs + 1 < |c.items|
    ensures Schedule(c, Init(c), acts)
    ensures
      var s := After(c, Init(c), acts);
      && |s.queue| == |c.items| - 1 - c.parseJobs - d && |s.channel| == c.parseJobs
      && |s.downloaders| == c.downloadJobs
      && (forall w :: 0 <= w < |s.downloaders| ==>
        if w < d then Holds(s.downloaders[w]) else s.downloaders[w] == Seeking)
      && |s.parsers| == c.parseJobs && s.parsers[0].Parsing?
  {
    if d == 0 {
      acts := Fill(c, c.parseJobs);
    } else {
      var before := Overfill(c, d - 1);
      ScheduleSnoc(c, Init(c), before, Download(d - 1));
      acts := before + [Download(d - 1)];
    }
  }

  lemma {:induction false} AllHolding<B>(ds: seq<Downloader<B>>)
    requires forall w :: 0 <= w < |ds| ==> Holds(ds[w])
    ensures DownloadersHolding(ds) == |ds|
  {
    if ds != [] { AllHolding(ds[1..]); }
  }

  /** The same job with another source of downloads. */
  function WithDownloads<A, B, R>(c: Job<A, B, R>, download: A -> Result<B, string>): Job<A, B, R> {
    c.(download := download)
  }

  ghost predicate WithinDocumentedBound<A, B, R>(c: Job<A, B, R>, acts: seq<Action>) {
    Schedule(c, Init(c), acts) ==> InFlight(After(c, Init(c), acts)) <= c.downloadJobs + c.parseJobs
  }

  /**
   * The documented bound holds for every behaviour of the downloads and every
   * schedule, cancellable or not, exactly when there are no more items than
   * download and parse workers together. (`b` is anything a download can return.)
   */
  lemma DocumentedBoundExactly<A, B, R>(c: Job<A, B, R>, b: B)
    requires WellFormed(c)
    ensures (forall download, acts :: WithinDocumentedBound(WithDownloads(c, download), acts)) <==>
      |c.items| <= c.downloadJobs + c.parseJobs
  {
    if |c.items| <= c.downloadJobs + c.parseJobs {
      forall download, acts ensures WithinDocumentedBound(WithDownloads(c, download), acts) {
        var job := WithDownloads(c, download);
        if Schedule(job, Init(job), acts) { InFlightIsBounded(job, acts); }
      }
    } else {
      var download := (_: A) => Ok(b);
      var job := WithDownloads(c, download);
      var acts := Overfill(job, job.downloadJobs);
      AllHolding(After(job, Init(job), acts).downloaders);
      assert !WithinDocumentedBound(WithDownloads(c, download), acts);
    }
  }
}
