/** Safety, progress, termination and determinism of the pipeline, for every schedule. */
module PipelineProofs {
  import opened Prelude
  import opened Seqs
  import opened Pipeline

  // ---- Where an index is ----

  predicate Carries<B>(d: Downloader<B>, i: nat) {
    (d.Checking? || d.Fetching? || d.Sending?) && d.idx == i
  }

  predicate Parses<B>(p: Parser<B>, i: nat) {
    p.Parsing? && p.idx == i
  }

  function Downloading<B>(ds: seq<Downloader<B>>, i: nat): nat {
    if ds == [] then 0 else One(Carries(ds[0], i)) + Downloading(ds[1..], i)
  }

  function BeingParsed<B>(ps: seq<Parser<B>>, i: nat): nat {
    if ps == [] then 0 else One(Parses(ps[0], i)) + BeingParsed(ps[1..], i)
  }

  function InChannel<B>(channel: seq<(nat, B)>, i: nat): nat {
    if channel == [] then 0 else One(channel[0].0 == i) + InChannel(channel[1..], i)
  }

  function Queued(queue: seq<nat>, i: nat): nat {
    if queue == [] then 0 else One(queue[0] == i) + Queued(queue[1..], i)
  }

  /** In how many places the index is: queue, download workers, channel, parse workers, filled slot. */
  function Places<B, R>(s: State<B, R>, i: nat): nat
    requires i < |s.slots|
  {
    Queued(s.queue, i) + Downloading(s.downloaders, i) + InChannel(s.channel, i)
    + BeingParsed(s.parsers, i) + One(s.slots[i].Some?)
  }

  lemma {:induction false} DownloadingUpdate<B>(ds: seq<Downloader<B>>, w: nat, d: Downloader<B>, i: nat)
    requires w < |ds|
    ensures Downloading(ds[w := d], i) == Downloading(ds, i) - One(Carries(ds[w], i)) + One(Carries(d, i))
    ensures Downloading(ds, i) >= One(Carries(ds[w], i))
  {
    if w > 0 {
      DownloadingUpdate(ds[1..], w - 1, d, i);
      assert ds[w := d][1..] == ds[1..][w - 1 := d];
    } else {
      assert ds[0 := d][1..] == ds[1..];
    }
  }

  lemma {:induction false} BeingParsedUpdate<B>(ps: seq<Parser<B>>, p: nat, x: Parser<B>, i: nat)
    requires p < |ps|
    ensures BeingParsed(ps[p := x], i) == BeingParsed(ps, i) - One(Parses(ps[p], i)) + One(Parses(x, i))
    ensures BeingParsed(ps, i) >= One(Parses(ps[p], i))
  {
    if p > 0 {
      BeingParsedUpdate(ps[1..], p - 1, x, i);
      assert ps[p := x][1..] == ps[1..][p - 1 := x];
    } else {
      assert ps[0 := x][1..] == ps[1..];
    }
  }

  lemma {:induction false} InChannelSnoc<B>(channel: seq<(nat, B)>, x: (nat, B), i: nat)
    ensures InChannel(channel + [x], i) == InChannel(channel, i) + One(x.0 == i)
  {
    if channel != [] {
      InChannelSnoc(channel[1..], x, i);
      assert (channel + [x])[1..] == channel[1..] + [x];
    } else {
      assert [x][1..] == [];
    }
  }

  // ---- The invariant ----

  /** No index is in two places; until a cancellation, none is missing either. */
  ghost predicate Accounted<A, B, R>(c: Job<A, B, R>, s: State<B, R>)
    requires InBounds(c, s)
  {
    forall i :: 0 <= i < |c.items| ==> Places(s, i) <= 1 && (!s.cancel ==> Places(s, i) == 1)
  }

  ghost predicate Delivered<A, B, R>(c: Job<A, B, R>, s: State<B, R>, i: nat, b: B) {
    i < |c.items| && i < |s.acquired| && c.download(c.items[i]) == Ok(b) && s.acquired[i] == Some(b)
  }

  ghost predicate SlotHonest<A, B, R>(c: Job<A, B, R>, s: State<B, R>, i: nat)
    requires InBounds(c, s) && i < |c.items|
  {
    match s.slots[i]
    case None => true
    case Some(Err(e)) => c.download(c.items[i]) == Err(e)
    case Some(Ok(r)) =>
      s.acquired[i].Some? && Delivered(c, s, i, s.acquired[i].value) && r == c.parse(s.acquired[i].value, c.items[i])
  }

  /** Whatever is stored or in transit is the item's own download and parse. */
  ghost predicate Honest<A, B, R>(c: Job<A, B, R>, s: State<B, R>)
    requires InBounds(c, s)
  {
    && (forall i :: 0 <= i < |c.items| ==> SlotHonest(c, s, i))
    && (forall i :: 0 <= i < |c.items| && s.acquired[i].Some? ==> c.download(c.items[i]) == Ok(s.acquired[i].value))
    && (forall k :: 0 <= k < |s.channel| ==> Delivered(c, s, s.channel[k].0, s.channel[k].1))
    && (forall w :: 0 <= w < |s.downloaders| && s.downloaders[w].Sending? ==>
      Delivered(c, s, s.downloaders[w].idx, s.downloaders[w].item))
    && (forall p :: 0 <= p < |s.parsers| && s.parsers[p].Parsing? ==>
      Delivered(c, s, s.parsers[p].idx, s.parsers[p].item))
  }

  /** The lock has at most one holder, the channel its capacity, and workers leave only when they may. */
  ghost predicate Orderly<A, B, R>(c: Job<A, B, R>, s: State<B, R>) {
    && |s.downloaders| == c.downloadJobs && |s.parsers| == c.parseJobs
    && |s.channel| <= c.parseJobs
    && (s.cancel ==> c.cancellable)
    && (s.rxOwner.Some? ==> s.rxOwner.value < |s.parsers| && s.parsers[s.rxOwner.value] == Receiving)
    && (forall p :: 0 <= p < |s.parsers| && s.parsers[p] == Receiving ==> s.rxOwner == Some(p))
    && (forall w :: 0 <= w < |s.downloaders| && s.downloaders[w] == Stopped ==> s.queue == [] || s.cancel)
    && (forall p :: 0 <= p < |s.parsers| && s.parsers[p] == Finished ==> SendersGone(s) && s.channel == [])
  }

  ghost predicate Inv<A, B, R>(c: Job<A, B, R>, s: State<B, R>) {
    InBounds(c, s) && Accounted(c, s) && Honest(c, s) && Orderly(c, s)
  }

  lemma InitInv<A, B, R>(c: Job<A, B, R>)
    requires WellFormed(c)
    ensures Inv(c, Init(c))
  {
    var s := Init(c);
    forall i | 0 <= i < |c.items| ensures Places(s, i) == 1 {
      QueuedOnce(0, |c.items|, i);
      assert s.queue == seq(|c.items|, k => k + 0);
      NobodyDownloading(s.downloaders, i);
      NobodyParsing(s.parsers, i);
    }
  }

  lemma {:induction false} QueuedOnce(from: nat, n: nat, i: nat)
    ensures Queued(seq(n, k => k + from), i) == One(from <= i < from + n)
    decreases n
  {
    if n > 0 {
      QueuedOnce(from + 1, n - 1, i);
      assert seq(n, k => k + from)[1..] == seq(n - 1, k => k + (from + 1));
    }
  }

  lemma {:induction false} NobodyDownloading<B>(ds: seq<Downloader<B>>, i: nat)
    requires forall w :: 0 <= w < |ds| ==> !Carries(ds[w], i)
    ensures Downloading(ds, i) == 0
  {
    if ds != [] {
      NobodyDownloading(ds[1..], i);
    }
  }

  lemma {:induction false} NobodyParsing<B>(ps: seq<Parser<B>>, i: nat)
    requires forall p :: 0 <= p < |ps| ==> !Parses(ps[p], i)
    ensures BeingParsed(ps, i) == 0
  {
    if ps != [] {
      NobodyParsing(ps[1..], i);
    }
  }

  lemma FetchOwn<A, B, R>(c: Job<A, B, R>, s: State<B, R>, w: nat, i: nat)
    requires InBounds(c, s) && w < |s.downloaders| && s.downloaders[w] == Fetching(i) && Places(s, i) <= 1
    ensures Places(DownloaderStep(c, s, w), i) == Places(s, i)
  {
    var t := DownloaderStep(c, s, w);
    DownloadingUpdate(s.downloaders, w, t.downloaders[w], i);
    assert s.slots[i] == None;
    assert t.queue == s.queue && t.channel == s.channel && t.parsers == s.parsers;
  }

  lemma FetchOther<A, B, R>(c: Job<A, B, R>, s: State<B, R>, w: nat, i: nat)
    requires InBounds(c, s) && w < |s.downloaders| && i < |c.items|
    requires s.downloaders[w].Fetching? && s.downloaders[w].idx != i
    ensures Places(DownloaderStep(c, s, w), i) == Places(s, i)
  {
    var t := DownloaderStep(c, s, w);
    DownloadingUpdate(s.downloaders, w, t.downloaders[w], i);
    assert t.slots[i] == s.slots[i];
    assert t.queue == s.queue && t.channel == s.channel && t.parsers == s.parsers;
  }

  lemma FetchMoves<A, B, R>(c: Job<A, B, R>, s: State<B, R>, w: nat, i: nat)
    requires InBounds(c, s) && w < |s.downloaders| && s.downloaders[w].Fetching? && i < |c.items| && Places(s, i) <= 1
    ensures Places(DownloaderStep(c, s, w), i) == Places(s, i)
  {
    if s.downloaders[w].idx == i { FetchOwn(c, s, w, i); } else { FetchOther(c, s, w, i); }
  }

  lemma PopMoves<A, B, R>(c: Job<A, B, R>, s: State<B, R>, w: nat, i: nat)
    requires InBounds(c, s) && w < |s.downloaders| && s.downloaders[w].Seeking? && i < |c.items|
    ensures Places(DownloaderStep(c, s, w), i) == Places(s, i)
  {
    DownloadingUpdate(s.downloaders, w, DownloaderStep(c, s, w).downloaders[w], i);
  }

  /** A download step moves an index; only a cancelled check loses one. */
  lemma DownloaderMoves<A, B, R>(c: Job<A, B, R>, s: State<B, R>, w: nat, i: nat)
    requires InBounds(c, s) && Enabled(c, s, Download(w)) && i < |c.items| && Places(s, i) <= 1
    ensures
      var t := Apply(c, s, Download(w));
      Places(t, i) <= Places(s, i) && (!s.cancel ==> Places(t, i) == Places(s, i))
  {
    match s.downloaders[w]
    case Seeking => PopMoves(c, s, w, i);
    case Fetching(k) => FetchMoves(c, s, w, i);
    case Checking(k) => DownloadingUpdate(s.downloaders, w, if s.cancel then Stopped else Fetching(k), i);
    case Sending(k, b) =>
      DownloadingUpdate(s.downloaders, w, Seeking, i);
      InChannelSnoc(s.channel, (k, b), i);
  }

  /** A parse step moves an index and never loses one. */
  lemma ParserMoves<A, B, R>(c: Job<A, B, R>, s: State<B, R>, p: nat, i: nat)
    requires InBounds(c, s) && Enabled(c, s, Parse(p)) && i < |c.items| && Places(s, i) <= 1
    ensures Places(Apply(c, s, Parse(p)), i) == Places(s, i)
  {
    BeingParsedUpdate(s.parsers, p, Apply(c, s, Parse(p)).parsers[p], i);
  }

  lemma DeliveredStays<A, B, R>(c: Job<A, B, R>, s: State<B, R>, w: nat, i: nat, b: B)
    requires InBounds(c, s) && Enabled(c, s, Download(w)) && Delivered(c, s, i, b)
    ensures Delivered(c, Apply(c, s, Download(w)), i, b)
  {
  }

  lemma SlotStaysHonest<A, B, R>(c: Job<A, B, R>, s: State<B, R>, w: nat, i: nat)
    requires InBounds(c, s) && Enabled(c, s, Download(w)) && i < |c.items| && SlotHonest(c, s, i)
    ensures SlotHonest(c, Apply(c, s, Download(w)), i)
  {
    match s.slots[i]
    case Some(Ok(r)) => DeliveredStays(c, s, w, i, s.acquired[i].value);
    case _ =>
  }

  lemma DownloaderHonest<A, B, R>(c: Job<A, B, R>, s: State<B, R>, w: nat)
    requires InBounds(c, s) && Honest(c, s) && Enabled(c, s, Download(w))
    ensures Honest(c, Apply(c, s, Download(w)))
  {
    var t := Apply(c, s, Download(w));
    forall i | 0 <= i < |c.items| ensures SlotHonest(c, t, i) {
      SlotStaysHonest(c, s, w, i);
    }
    forall i, b | Delivered(c, s, i, b) ensures Delivered(c, t, i, b) {
      DeliveredStays(c, s, w, i, b);
    }
    assert t.downloaders == s.downloaders[w := t.downloaders[w]];
  }

  lemma ParserHonest<A, B, R>(c: Job<A, B, R>, s: State<B, R>, p: nat)
    requires InBounds(c, s) && Honest(c, s) && Enabled(c, s, Parse(p))
    ensures Honest(c, Apply(c, s, Parse(p)))
  {
    var t := Apply(c, s, Parse(p));
    forall i | 0 <= i < |c.items| ensures SlotHonest(c, t, i) {
      assert SlotHonest(c, s, i);
    }
    forall i, b ensures Delivered(c, t, i, b) == Delivered(c, s, i, b) {
    }
    assert t.parsers == s.parsers[p := t.parsers[p]];
  }

  lemma DownloaderOrderly<A, B, R>(c: Job<A, B, R>, s: State<B, R>, w: nat)
    requires InBounds(c, s) && Orderly(c, s) && Enabled(c, s, Download(w))
    ensures Orderly(c, Apply(c, s, Download(w)))
  {
    assert !SendersGone(s);
  }

  lemma ParserOrderly<A, B, R>(c: Job<A, B, R>, s: State<B, R>, p: nat)
    requires InBounds(c, s) && Orderly(c, s) && Enabled(c, s, Parse(p))
    ensures Orderly(c, Apply(c, s, Parse(p)))
  {
    var t := Apply(c, s, Parse(p));
    assert SendersGone(t) == SendersGone(s);
  }

  /** Every atomic step of every thread, and a cancellation at any moment, keeps the invariant. */
  lemma StepKeepsInv<A, B, R>(c: Job<A, B, R>, s: State<B, R>, a: Action)
    requires Inv(c, s) && Enabled(c, s, a)
    ensures Inv(c, Apply(c, s, a))
  {
    match a
    case Download(w) =>
      forall i | 0 <= i < |c.items| { DownloaderMoves(c, s, w, i); }
      DownloaderHonest(c, s, w);
      DownloaderOrderly(c, s, w);
    case Parse(p) =>
      forall i | 0 <= i < |c.items| { ParserMoves(c, s, p, i); }
      ParserHonest(c, s, p);
      ParserOrderly(c, s, p);
    case DropMainSender => FlagsKeepHonest(c, s, s.(mainSender := false));
    case RaiseCancel => FlagsKeepHonest(c, s, s.(cancel := true));
  }

  lemma FlagsKeepHonest<A, B, R>(c: Job<A, B, R>, s: State<B, R>, t: State<B, R>)
    requires InBounds(c, s) && Honest(c, s)
    requires t == s.(mainSender := t.mainSender, cancel := t.cancel)
    ensures InBounds(c, t) && Honest(c, t)
    ensures forall i: nat :: i < |c.items| ==> Places(t, i) == Places(s, i)
  {
    forall i | 0 <= i < |c.items| ensures SlotHonest(c, t, i) {
      assert SlotHonest(c, s, i);
    }
    forall i: nat | i < |c.items| ensures Places(t, i) == Places(s, i) { }
  }

  lemma {:induction false} ScheduleKeepsInv<A, B, R>(c: Job<A, B, R>, s: State<B, R>, acts: seq<Action>)
    requires Inv(c, s) && Schedule(c, s, acts)
    ensures Inv(c, After(c, s, acts))
    decreases |acts|
  {
    if acts != [] {
      StepKeepsInv(c, s, acts[0]);
      ScheduleKeepsInv(c, Apply(c, s, acts[0]), acts[1..]);
    }
  }
}
