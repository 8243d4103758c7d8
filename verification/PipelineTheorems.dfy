/** What every run of the pipeline guarantees, for any worker counts and any interleaving. */
module PipelineTheorems {
  import opened Prelude
  import opened Seqs
  import opened Pipeline
  import opened PipelineProofs

  /** From the start, whatever has been scheduled, an index is in exactly one place and the channel fits. */
  lemma {:induction false} EveryIndexInOnePlace<A, B, R>(c: Job<A, B, R>, acts: seq<Action>, i: nat)
    requires WellFormed(c) && Schedule(c, Init(c), acts) && i < |c.items|
    ensures
      var s := After(c, Init(c), acts);
      && |s.channel| <= c.parseJobs
      && Places(s, i) <= 1
      && (!s.cancel ==> Places(s, i) == 1)
  {
    InitInv(c);
    ScheduleKeepsInv(c, Init(c), acts);
  }

  // ---- Order and cancellation ----

  /** What is left in the queue: the last indices, in order. */
  ghost predicate QueueIsRest<A, B, R>(c: Job<A, B, R>, s: State<B, R>) {
    |s.queue| <= |c.items| && forall k :: 0 <= k < |s.queue| ==> s.queue[k] == |c.items| - |s.queue| + k
  }

  lemma {:induction false} QueueStaysRest<A, B, R>(c: Job<A, B, R>, s: State<B, R>, acts: seq<Action>)
    requires InBounds(c, s) && QueueIsRest(c, s) && Schedule(c, s, acts)
    ensures QueueIsRest(c, After(c, s, acts))
    decreases |acts|
  {
    if acts != [] {
      QueueStaysRest(c, Apply(c, s, acts[0]), acts[1..]);
    }
  }

  /** Items are taken up in input order, each download worker always the first that is left. */
  lemma {:induction false} TakenInOrder<A, B, R>(c: Job<A, B, R>, acts: seq<Action>)
    requires Schedule(c, Init(c), acts)
    ensures QueueIsRest(c, After(c, Init(c), acts))
  {
    QueueStaysRest(c, Init(c), acts);
  }

  /** Whatever is fetched now was fetched before, by the same worker. */
  ghost predicate NoneStarted<B, R>(s: State<B, R>, t: State<B, R>) {
    && |t.downloaders| == |s.downloaders|
    && forall w :: 0 <= w < |t.downloaders| && t.downloaders[w].Fetching? ==> t.downloaders[w] == s.downloaders[w]
  }

  /** A worker looks at the flag before it fetches. */
  ghost predicate LooksFirst<A, B, R>(c: Job<A, B, R>, s: State<B, R>) { c.cancellable && s.cancel }

  /** Once the flag is raised, no further download begins, however the threads go on. */
  lemma {:induction false} NothingStartsAfterCancel<A, B, R>(c: Job<A, B, R>, s: State<B, R>, acts: seq<Action>)
    requires InBounds(c, s) && LooksFirst(c, s) && Schedule(c, s, acts)
    ensures NoneStarted(s, After(c, s, acts)) && After(c, s, acts).cancel
    decreases |acts|
  {
    if acts != [] {
      NoStartInStep(c, s, acts[0]);
      NothingStartsAfterCancel(c, Apply(c, s, acts[0]), acts[1..]);
    }
  }

  lemma NoStartInStep<A, B, R>(c: Job<A, B, R>, s: State<B, R>, a: Action)
    requires InBounds(c, s) && LooksFirst(c, s) && Enabled(c, s, a)
    ensures NoneStarted(s, Apply(c, s, a)) && Apply(c, s, a).cancel
  {
  }

  // ---- Termination ----

  function DownloaderWork<B>(d: Downloader<B>): nat {
    match d
    case Seeking => 1
    case Checking(_) => 7
    case Fetching(_) => 6
    case Sending(_, _) => 5
    case Stopped => 0
  }

  function ParserWork<B>(p: Parser<B>): nat {
    match p
    case Ready => 2
    case Receiving => 1
    case Parsing(_, _) => 3
    case Finished => 0
  }

  function DownloadersWork<B>(ds: seq<Downloader<B>>): nat {
    if ds == [] then 0 else DownloaderWork(ds[0]) + DownloadersWork(ds[1..])
  }

  function ParsersWork<B>(ps: seq<Parser<B>>): nat {
    if ps == [] then 0 else ParserWork(ps[0]) + ParsersWork(ps[1..])
  }

  lemma {:induction false} DownloadersWorkUpdate<B>(ds: seq<Downloader<B>>, w: nat, d: Downloader<B>)
    requires w < |ds|
    ensures DownloadersWork(ds[w := d]) == DownloadersWork(ds) - DownloaderWork(ds[w]) + DownloaderWork(d)
  {
    if w > 0 {
      DownloadersWorkUpdate(ds[1..], w - 1, d);
      assert ds[w := d][1..] == ds[1..][w - 1 := d];
    } else {
      assert ds[0 := d][1..] == ds[1..];
    }
  }

  lemma {:induction false} ParsersWorkUpdate<B>(ps: seq<Parser<B>>, p: nat, x: Parser<B>)
    requires p < |ps|
    ensures ParsersWork(ps[p := x]) == ParsersWork(ps) - ParserWork(ps[p]) + ParserWork(x)
  {
    if p > 0 {
      ParsersWorkUpdate(ps[1..], p - 1, x);
      assert ps[p := x][1..] == ps[1..][p - 1 := x];
    } else {
      assert ps[0 := x][1..] == ps[1..];
    }
  }

  /** An upper bound on the steps still to come. */
  function Work<B, R>(s: State<B, R>): nat {
    7 * |s.queue| + DownloadersWork(s.downloaders) + 3 * |s.channel| + ParsersWork(s.parsers)
    + One(s.mainSender) + One(!s.cancel)
  }

  lemma DownloadReducesWork<A, B, R>(c: Job<A, B, R>, s: State<B, R>, w: nat)
    requires InBounds(c, s) && Enabled(c, s, Download(w))
    ensures Work(Apply(c, s, Download(w))) < Work(s)
  {
    var t := Apply(c, s, Download(w));
    DownloadersWorkUpdate(s.downloaders, w, t.downloaders[w]);
    assert t.downloaders == s.downloaders[w := t.downloaders[w]];
  }

  lemma ParseReducesWork<A, B, R>(c: Job<A, B, R>, s: State<B, R>, p: nat)
    requires InBounds(c, s) && Enabled(c, s, Parse(p))
    ensures Work(Apply(c, s, Parse(p))) < Work(s)
  {
    var t := Apply(c, s, Parse(p));
    ParsersWorkUpdate(s.parsers, p, t.parsers[p]);
    assert t.parsers == s.parsers[p := t.parsers[p]];
  }

  lemma StepReducesWork<A, B, R>(c: Job<A, B, R>, s: State<B, R>, a: Action)
    requires InBounds(c, s) && Enabled(c, s, a)
    ensures Work(Apply(c, s, a)) < Work(s)
  {
    match a
    case Download(w) => DownloadReducesWork(c, s, w);
    case Parse(p) => ParseReducesWork(c, s, p);
    case DropMainSender =>
    case RaiseCancel =>
  }

  lemma {:induction false} ScheduleSpendsWork<A, B, R>(c: Job<A, B, R>, s: State<B, R>, acts: seq<Action>)
    requires InBounds(c, s) && Schedule(c, s, acts)
    ensures |acts| + Work(After(c, s, acts)) <= Work(s)
    decreases |acts|
  {
    if acts != [] {
      StepReducesWork(c, s, acts[0]);
      ScheduleSpendsWork(c, Apply(c, s, acts[0]), acts[1..]);
    }
  }

  lemma {:induction false} InitialWork<B>(d: nat, p: nat)
    ensures DownloadersWork(seq(d, _ => Downloader<B>.Seeking)) == d
    ensures ParsersWork(seq(p, _ => Parser<B>.Ready)) == 2 * p
    decreases d + p
  {
    if d > 0 {
      InitialWork<B>(d - 1, 0);
      assert seq(d, _ => Downloader<B>.Seeking)[1..] == seq(d - 1, _ => Downloader<B>.Seeking);
    }
    if p > 0 {
      InitialWork<B>(0, p - 1);
      assert seq(p, _ => Parser<B>.Ready)[1..] == seq(p - 1, _ => Parser<B>.Ready);
    }
  }

  /** No schedule runs forever: at most seven steps an item and a constant number a worker. */
  lemma {:induction false} SchedulesAreBounded<A, B, R>(c: Job<A, B, R>, acts: seq<Action>)
    requires Schedule(c, Init(c), acts)
    ensures |acts| <= 7 * |c.items| + c.downloadJobs + 2 * c.parseJobs + 2
  {
    ScheduleSpendsWork(c, Init(c), acts);
    InitialWork<B>(c.downloadJobs, c.parseJobs);
  }

  // ---- Progress ----

  lemma SomeParserCanStep<A, B, R>(c: Job<A, B, R>, s: State<B, R>, p: nat) returns (a: Action)
    requires Inv(c, s) && p < |s.parsers| && s.parsers[p] != Finished
    requires s.channel != [] || SendersGone(s)
    ensures a.Parse? && Enabled(c, s, a)
  {
    a := Parse(p);
    if s.parsers[p].Ready? && s.rxOwner.Some? {
      a := Parse(s.rxOwner.value);
    }
  }

  /** Until every thread has returned, some thread can step without help from the environment. */
  lemma SomeThreadCanStep<A, B, R>(c: Job<A, B, R>, s: State<B, R>) returns (a: Action)
    requires WellFormed(c) && Inv(c, s) && !Joined(s)
    ensures !a.RaiseCancel? && Enabled(c, s, a)
  {
    if w :| 0 <= w < |s.downloaders| && s.downloaders[w] != Stopped {
      a := Download(w);
      if !Enabled(c, s, a) {
        a := SomeParserCanStep(c, s, 0);
      }
    } else if s.mainSender {
      a := DropMainSender;
    } else {
      var p :| 0 <= p < |s.parsers| && s.parsers[p] != Finished;
      a := SomeParserCanStep(c, s, p);
    }
  }

  /** No schedule deadlocks: what has been run so far can always be run to the end. */
  lemma {:induction false} EveryScheduleCanFinish<A, B, R>(c: Job<A, B, R>, acts: seq<Action>)
    requires WellFormed(c) && Schedule(c, Init(c), acts)
    ensures exists rest :: Schedule(c, After(c, Init(c), acts), rest) && Joined(After(c, After(c, Init(c), acts), rest))
  {
    InitInv(c);
    ScheduleKeepsInv(c, Init(c), acts);
    var rest := Finish(c, After(c, Init(c), acts));
  }

  lemma {:induction false} Finish<A, B, R>(c: Job<A, B, R>, s: State<B, R>) returns (rest: seq<Action>)
    requires WellFormed(c) && Inv(c, s)
    ensures Schedule(c, s, rest) && Joined(After(c, s, rest))
    decreases Work(s)
  {
    if Joined(s) {
      rest := [];
    } else {
      var a := SomeThreadCanStep(c, s);
      StepKeepsInv(c, s, a);
      StepReducesWork(c, s, a);
      var more := Finish(c, Apply(c, s, a));
      rest := [a] + more;
      assert rest[1..] == more;
    }
  }

  // ---- The result ----

  lemma {:induction false} NothingQueuedOrHeld<B, R>(s: State<B, R>, i: nat)
    requires Joined(s) && s.queue == [] && s.channel == [] && i < |s.slots|
    ensures Places(s, i) == One(s.slots[i].Some?)
  {
    NobodyDownloading(s.downloaders, i);
    NobodyParsing(s.parsers, i);
  }

  /** Once every thread has returned without a cancellation, every slot is filled. */
  lemma JoinedMeansFilled<A, B, R>(c: Job<A, B, R>, s: State<B, R>)
    requires WellFormed(c) && Inv(c, s) && Joined(s) && !s.cancel
    ensures forall i :: 0 <= i < |c.items| ==> s.slots[i].Some?
  {
    assert s.downloaders[0] == Stopped && s.parsers[0] == Finished;
    forall i | 0 <= i < |c.items| ensures s.slots[i].Some? {
      NothingQueuedOrHeld(s, i);
    }
  }

  /** Slot `k` holds the failure of its own download or the parse of its own download. */
  ghost predicate OwnResult<A, B, R>(
      item: A, download: A -> Result<B, string>, parse: (B, A) -> R, slot: Result<R, string>, got: Option<B>)
  {
    match download(item)
    case Err(e) => slot == Err(e)
    case Ok(b) => got == Some(b) && slot == Ok(parse(b, item))
  }

  lemma {:induction false} MergedIsSequential<A, B, R>(
      items: seq<A>, download: A -> Result<B, string>, parse: (B, A) -> R,
      slots: seq<Option<Result<R, string>>>, acquired: seq<Option<B>>)
    requires |slots| == |acquired| == |items|
    requires forall i :: 0 <= i < |items| ==>
      slots[i].Some? && OwnResult(items[i], download, parse, slots[i].value, acquired[i])
    ensures Merged(slots, acquired) == Sequential(items, download, parse)
  {
    if items != [] {
      assert OwnResult(items[0], download, parse, slots[0].value, acquired[0]);
      MergedIsSequential(items[1..], download, parse, slots[1..], acquired[1..]);
    }
  }

  /** A filled slot of a reachable state is honest about its own item. */
  lemma HonestMeansOwn<A, B, R>(c: Job<A, B, R>, s: State<B, R>, i: nat)
    requires InBounds(c, s) && Honest(c, s) && i < |c.items| && s.slots[i].Some?
    ensures OwnResult(c.items[i], c.download, c.parse, s.slots[i].value, s.acquired[i])
  {
    assert SlotHonest(c, s, i);
  }

  /** Every complete run of the plain engine returns what one thread would have returned. */
  lemma {:induction false} EveryRunIsSequential<A, B, R>(c: Job<A, B, R>, acts: seq<Action>)
    requires WellFormed(c) && !c.cancellable
    requires Schedule(c, Init(c), acts) && Joined(After(c, Init(c), acts))
    ensures
      var s := After(c, Init(c), acts);
      Merged(s.slots, s.acquired) == Sequential(c.items, c.download, c.parse)
  {
    var s := After(c, Init(c), acts);
    InitInv(c);
    ScheduleKeepsInv(c, Init(c), acts);
    UncancelledIsSequential(c, s);
  }

  lemma UncancelledIsSequential<A, B, R>(c: Job<A, B, R>, s: State<B, R>)
    requires WellFormed(c) && Inv(c, s) && Joined(s) && !s.cancel
    ensures Merged(s.slots, s.acquired) == Sequential(c.items, c.download, c.parse)
  {
    JoinedMeansFilled(c, s);
    forall i | 0 <= i < |c.items| ensures OwnResult(c.items[i], c.download, c.parse, s.slots[i].value, s.acquired[i]) {
      HonestMeansOwn(c, s, i);
    }
    MergedIsSequential(c.items, c.download, c.parse, s.slots, s.acquired);
  }

  /** The sequential result spelled out: every item in input order, or the lowest-index failure. */
  lemma {:induction false} SequentialMeaning<A, B, R>(
      items: seq<A>, download: A -> Result<B, string>, parse: (B, A) -> R)
    ensures
      match Sequential(items, download, parse)
      case Ok(out) =>
        && |out| == |items|
        && (forall i :: 0 <= i < |items| ==>
          && download(items[i]).Ok?
          && out[i] == (Some(download(items[i]).value), parse(download(items[i]).value, items[i])))
      case Err(e) =>
        exists k :: 0 <= k < |items| && download(items[k]) == Err(e) && forall i :: 0 <= i < k ==>
          download(items[i]).Ok?
  {
    if items != [] && download(items[0]).Ok? {
      SequentialMeaning(items[1..], download, parse);
      var rest := Sequential(items[1..], download, parse);
      if rest.Err? {
        var k :| 0 <= k < |items[1..]| && download(items[1..][k]) == Err(rest.error) && forall i :: 0 <= i < k ==>
          download(items[1..][i]).Ok?;
        assert download(items[k + 1]) == Err(rest.error);
        assert forall i :: 1 <= i < k + 1 ==> items[i] == items[1..][i - 1];
      } else {
        var out := Sequential(items, download, parse).value;
        assert forall i :: 1 <= i < |items| ==> items[i] == items[1..][i - 1] && out[i] == rest.value[i - 1];
      }
    }
  }
}
