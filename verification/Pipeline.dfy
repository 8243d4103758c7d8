/**
 * The bounded two-stage pipeline as a transition system.
 *
 * Download workers pop indices from a shared queue, fetch, and push into a
 * bounded channel; parse workers take turns holding the receiver lock, take one
 * entry, release the lock and parse. One model serves both the plain engine
 * (`cancellable == false`) and the UPDATE-archive pipeline, whose download
 * workers look at a cancel flag between popping an index and fetching it.
 */
module Pipeline {
  import opened Prelude

  datatype Downloader<B> =
    | Seeking
    | Checking(idx: nat)
    | Fetching(idx: nat)
    | Sending(idx: nat, item: B)
    | Stopped

  /** A `Receiving` parse worker holds the receiver lock and blocks in `recv`. */
  datatype Parser<B> =
    | Ready
    | Receiving
    | Parsing(idx: nat, item: B)
    | Finished

  datatype Job<!A, !B, !R> = Job(
    items: seq<A>,
    downloadJobs: nat,
    parseJobs: nat,
    cancellable: bool,
    download: A -> Result<B, string>,
    parse: (B, A) -> R)

  datatype State<B, R> = State(
    queue: seq<nat>,
    slots: seq<Option<Result<R, string>>>,
    acquired: seq<Option<B>>,
    channel: seq<(nat, B)>,
    downloaders: seq<Downloader<B>>,
    parsers: seq<Parser<B>>,
    rxOwner: Option<nat>,
    mainSender: bool,
    cancel: bool)

  /** Whose atomic step comes next; `RaiseCancel` belongs to the environment. */
  datatype Action = Download(w: nat) | Parse(p: nat) | DropMainSender | RaiseCancel

  predicate WellFormed<A, B, R>(c: Job<A, B, R>) {
    c.items != [] && c.downloadJobs >= 1 && c.parseJobs >= 1
  }

  function Init<A, B, R>(c: Job<A, B, R>): (s: State<B, R>)
    ensures InBounds(c, s)
  {
    var n := |c.items|;
    State(
      seq(n, i => i), seq(n, _ => None), seq(n, _ => None), [],
      seq(c.downloadJobs, _ => Seeking), seq(c.parseJobs, _ => Ready), None, true, false)
  }

  /** Every index that a worker, the queue or the channel carries names an item. */
  predicate InBounds<A, B, R>(c: Job<A, B, R>, s: State<B, R>) {
    var n := |c.items|;
    && |s.slots| == n && |s.acquired| == n
    && (forall k :: 0 <= k < |s.queue| ==> s.queue[k] < n)
    && (forall k :: 0 <= k < |s.channel| ==> s.channel[k].0 < n)
    && (forall w :: 0 <= w < |s.downloaders| ==> DownloaderInBounds(s.downloaders[w], n))
    && (forall p :: 0 <= p < |s.parsers| ==> s.parsers[p].Parsing? ==> s.parsers[p].idx < n)
  }

  predicate DownloaderInBounds<B>(d: Downloader<B>, n: nat) {
    d.Checking? || d.Fetching? || d.Sending? ==> d.idx < n
  }

  /** The channel reports closure once every sender clone is gone. */
  predicate SendersGone<B, R>(s: State<B, R>) {
    !s.mainSender && forall w :: 0 <= w < |s.downloaders| ==> s.downloaders[w] == Stopped
  }

  predicate Enabled<A, B, R>(c: Job<A, B, R>, s: State<B, R>, a: Action) {
    match a
    case Download(w) =>
      w < |s.downloaders| && s.downloaders[w] != Stopped
      && (s.downloaders[w].Sending? ==> |s.channel| < c.parseJobs)
    case Parse(p) =>
      p < |s.parsers| && s.parsers[p] != Finished
      && (s.parsers[p].Ready? ==> s.rxOwner == None)
      && (s.parsers[p].Receiving? ==> s.channel != [] || SendersGone(s))
    case DropMainSender => s.mainSender
    case RaiseCancel => c.cancellable && !s.cancel
  }

  function Apply<A, B, R>(c: Job<A, B, R>, s: State<B, R>, a: Action): (t: State<B, R>)
    requires InBounds(c, s) && Enabled(c, s, a)
    ensures InBounds(c, t)
  {
    match a
    case Download(w) => DownloaderStep(c, s, w)
    case Parse(p) => ParserStep(c, s, p)
    case DropMainSender => s.(mainSender := false)
    case RaiseCancel => s.(cancel := true)
  }

  function DownloaderStep<A, B, R>(c: Job<A, B, R>, s: State<B, R>, w: nat): (t: State<B, R>)
    requires InBounds(c, s) && w < |s.downloaders|
    ensures InBounds(c, t)
  {
    match s.downloaders[w]
    case Seeking =>
      if s.queue == [] then s.(downloaders := s.downloaders[w := Stopped])
      else
        var next := if c.cancellable then Checking(s.queue[0]) else Fetching(s.queue[0]);
        s.(queue := s.queue[1..], downloaders := s.downloaders[w := next])
    case Checking(i) =>
      s.(downloaders := s.downloaders[w := if s.cancel then Stopped else Fetching(i)])
    case Fetching(i) =>
      (match c.download(c.items[i])
       case Ok(b) => s.(acquired := s.acquired[i := Some(b)], downloaders := s.downloaders[w := Sending(i, b)])
       case Err(e) => s.(slots := s.slots[i := Some(Err(e))], downloaders := s.downloaders[w := Seeking]))
    case Sending(i, b) =>
      s.(channel := s.channel + [(i, b)], downloaders := s.downloaders[w := Seeking])
    case Stopped => s
  }

  function ParserStep<A, B, R>(c: Job<A, B, R>, s: State<B, R>, p: nat): (t: State<B, R>)
    requires InBounds(c, s) && p < |s.parsers|
    ensures InBounds(c, t)
  {
    match s.parsers[p]
    case Ready => s.(rxOwner := Some(p), parsers := s.parsers[p := Receiving])
    case Receiving =>
      if s.channel == [] then s.(rxOwner := None, parsers := s.parsers[p := Finished])
      else
        var (i, b) := s.channel[0];
        s.(channel := s.channel[1..], rxOwner := None, parsers := s.parsers[p := Parsing(i, b)])
    case Parsing(i, b) =>
      s.(slots := s.slots[i := Some(Ok(c.parse(b, c.items[i])))], parsers := s.parsers[p := Ready])
    case Finished => s
  }

  /** Every thread of the scope has returned. */
  predicate Joined<B, R>(s: State<B, R>) {
    SendersGone(s) && forall p :: 0 <= p < |s.parsers| ==> s.parsers[p] == Finished
  }

  /** A schedule: each action is enabled where it is taken. */
  ghost predicate Schedule<A, B, R>(c: Job<A, B, R>, s: State<B, R>, acts: seq<Action>)
    requires InBounds(c, s)
    decreases |acts|
  {
    acts != [] ==> Enabled(c, s, acts[0]) && Schedule(c, Apply(c, s, acts[0]), acts[1..])
  }

  ghost function After<A, B, R>(c: Job<A, B, R>, s: State<B, R>, acts: seq<Action>): (t: State<B, R>)
    requires InBounds(c, s) && Schedule(c, s, acts)
    ensures InBounds(c, t)
    decreases |acts|
  {
    if acts == [] then s else After(c, Apply(c, s, acts[0]), acts[1..])
  }

  /** The merge loop: slots in input order, the first recorded failure wins, empty slots are skipped. */
  function Merged<B, R>(
      slots: seq<Option<Result<R, string>>>, acquired: seq<Option<B>>): Result<seq<(Option<B>, R)>, string>
    requires |slots| == |acquired|
  {
    match FirstFailure(slots)
    case Some(e) => Err(e)
    case None => Ok(Filled(slots, acquired))
  }

  function FirstFailure<R>(slots: seq<Option<Result<R, string>>>): Option<string> {
    if slots == [] then None
    else if slots[0].Some? && slots[0].value.Err? then Some(slots[0].value.error)
    else FirstFailure(slots[1..])
  }

  function Filled<B, R>(slots: seq<Option<Result<R, string>>>, acquired: seq<Option<B>>): seq<(Option<B>, R)>
    requires |slots| == |acquired|
  {
    if slots == [] then []
    else Entry(slots[0], acquired[0]) + Filled(slots[1..], acquired[1..])
  }

  /** What one place contributes to the merge. */
  function Entry<B, R>(slot: Option<Result<R, string>>, got: Option<B>): seq<(Option<B>, R)> {
    if slot.Some? && slot.value.Ok? then [(got, slot.value.value)] else []
  }

  /** What one thread would compute, item after item, stopping at the first failed download. */
  function Sequential<A, B, R>(
      items: seq<A>, download: A -> Result<B, string>, parse: (B, A) -> R): Result<seq<(Option<B>, R)>, string>
  {
    if items == [] then Ok([])
    else match download(items[0])
      case Err(e) => Err(e)
      case Ok(b) =>
        match Sequential(items[1..], download, parse)
        case Err(e) => Err(e)
        case Ok(rest) => Ok([(Some(b), parse(b, items[0]))] + rest)
  }
}
