// The gates of the SDR reader on top of the ring buffer: the producer's free-space test and the
// consumer's two watermarks, in any interleaving.

module SdrReader {
  import opened Machine
  import opened Powers
  import opened Wrappers
  import opened Ringbuffer
  import opened RingProtocol

  // A sample is a pair of 4-byte floats.
  function Bytes(samples: nat): nat { 8 * samples }

  predicate Whole(bytes: int) { bytes % 8 == 0 }

  datatype Consumer = Idle | Checked(samples: nat) | Ready(samples: nat)

  // perMs samples arrive per millisecond; the ring holds a whole number of samples.
  datatype Reader = Reader(sys: System, perMs: nat, watermark: bool, consumer: Consumer)

  predicate Aligned(s: System) {
    && Whole(s.ring.size) && Whole(s.ring.head) && Whole(s.ring.used)
    && (s.grant.Granted? ==> Whole(s.grant.at) && Whole(s.grant.len))
  }

  // What get_samples relies on when it reads without looking again.
  predicate ReaderInvariant(r: Reader) {
    && Safe(r.sys) && Aligned(r.sys) && r.perMs > 0
    && (r.sys.grant.Granted? ==> r.sys.grant.len >= Bytes(1))
    && match r.consumer
       case Idle => true
       case Checked(n) => 0 < n && FitsGates(r, n) && (r.watermark ==> r.sys.ring.used >= Bytes(10 * r.perMs))
       case Ready(n) => 0 < n && Bytes(n) <= r.sys.ring.used
  }

  // A request of at most ten milliseconds and at most half the ring.
  predicate FitsGates(r: Reader, n: nat) {
    n <= 10 * r.perMs && 2 * Bytes(n) <= r.sys.ring.size
  }

  datatype Action =
    | Gate                       // room for a millisecond of samples: ask for the write head
    | Device(ch: nat, offset: nat, b: Byte)
    | Deliver(samples: nat)      // the device returns, with fewer samples than asked for or none
    | Request(samples: nat)      // get_samples, low-watermark test
    | Filled                     // half full, or the high watermark is still in force
    | TimedOut                   // five seconds without reaching half
    | Fetch                      // the read itself
    | ClearBuffer                // main starts a search; it is not asking for samples then

  predicate Can(r: Reader, a: Action)
    requires ReaderInvariant(r)
  {
    match a
    case Gate => r.sys.grant == NoGrant && r.sys.ring.size - r.sys.ring.used >= Bytes(r.perMs)
    case Device(ch, offset, b) => Enabled(r.sys, Store(ch, offset, b))
    case Deliver(samples) => r.sys.grant.Granted? && samples <= r.perMs && Bytes(samples) <= r.sys.grant.len
    case Request(n) => r.consumer == Idle && 0 < n && FitsGates(r, n)
    case Filled => r.consumer.Checked? && (r.watermark || 2 * r.sys.ring.used >= r.sys.ring.size)
    case TimedOut => r.consumer.Checked? && !r.watermark
    case Fetch => r.consumer.Ready?
    case ClearBuffer => r.consumer == Idle
  }

  function Act(r: Reader, a: Action): Reader
    requires ReaderInvariant(r) && Can(r, a)
  {
    match a
    case Gate => r.(sys := Next(r.sys, Offer))
    case Device(ch, offset, b) => r.(sys := Next(r.sys, Store(ch, offset, b)))
    case Deliver(samples) => r.(sys := Next(r.sys, Publish(Bytes(samples))))
    case Request(n) =>
      r.(consumer := Checked(n),
         watermark := r.watermark && r.sys.ring.used >= Bytes(10 * r.perMs))
    case Filled => r.(consumer := Ready(r.consumer.samples), watermark := true)
    case TimedOut => r.(consumer := Idle)
    case Fetch => r.(consumer := Idle, sys := Next(r.sys, Take(Bytes(r.consumer.samples))))
    case ClearBuffer => r.(sys := Next(r.sys, Clear), watermark := false)
  }

  // Past the free-space gate the producer is always offered at least one whole sample.
  lemma GateOffersASample(r: Reader)
    requires ReaderInvariant(r) && Can(r, Gate)
    ensures var g := Act(r, Gate).sys.grant;
            g.len >= Bytes(1) && Whole(g.len) && Whole(g.at)
  {
    OfferIsFree(r.sys.ring);
    TailIsWrap(r.sys.ring);
    WholeOffer(r.sys.ring, Wrap(r.sys.ring.head + r.sys.ring.used, r.sys.ring.size));
  }

  lemma WholeOffer(r: Ring, tail: nat)
    requires r.Valid() && Whole(r.size) && Whole(r.head) && Whole(r.used)
    requires tail == Wrap(r.head + r.used, r.size) == r.Tail()
    ensures Whole(tail) && Whole(r.Writeable())
  {
    WholeSum(r.head, r.used);
    WholeSum(r.head + r.used, r.size);
    WholeSum(r.head, tail);
    WholeSum(r.size, tail);
  }

  lemma GateKeeps(r: Reader)
    requires ReaderInvariant(r) && Can(r, Gate)
    ensures ReaderInvariant(Act(r, Gate))
  {
    GateOffersASample(r);
    OfferIsSafe(r.sys);
  }

  lemma WholeSum(a: int, b: int)
    requires Whole(a) && Whole(b)
    ensures Whole(a + b) && Whole(a - b)
  {}

  lemma PublishStaysAligned(s: System, n: nat)
    requires Safe(s) && Enabled(s, Publish(n)) && Aligned(s) && Whole(n)
    ensures Aligned(Next(s, Publish(n)))
  {
    WholeSum(s.ring.used, n);
  }

  lemma TakeStaysAligned(s: System, n: nat)
    requires Safe(s) && Enabled(s, Take(n)) && Aligned(s) && Whole(n)
    ensures Aligned(Next(s, Take(n)))
  {
    WholeSum(s.ring.used, n);
    HeadStaysWhole(s.ring, n);
  }

  lemma DeliverKeeps(r: Reader, samples: nat)
    requires ReaderInvariant(r) && Can(r, Deliver(samples))
    ensures ReaderInvariant(Act(r, Deliver(samples)))
  {
    StepIsSafe(r.sys, Publish(Bytes(samples)));
    PublishStaysAligned(r.sys, Bytes(samples));
  }

  lemma FetchKeeps(r: Reader)
    requires ReaderInvariant(r) && r.consumer.Ready?
    ensures ReaderInvariant(Act(r, Fetch))
  {
    FetchedSystem(r.sys, Bytes(r.consumer.samples));
  }

  lemma FetchedSystem(s: System, n: nat)
    requires Safe(s) && Aligned(s) && 0 < n <= s.ring.used && Whole(n)
    ensures var s' := Next(s, Take(n)); Safe(s') && Aligned(s') && s'.grant == s.grant
  {
    TakeIsSafe(s, n);
    TakeStaysAligned(s, n);
  }

  lemma HeadStaysWhole(r: Ring, n: nat)
    requires r.Valid() && 0 < n <= r.used && Whole(r.size) && Whole(r.head) && Whole(n)
    ensures Whole(r.Read(n).head)
  {
    WrapIsMod(r.head + n, r.size);
    WholeSum(r.head, n);
    WholeSum(r.head + n, r.size);
  }

  lemma ActKeeps(r: Reader, a: Action)
    requires ReaderInvariant(r) && Can(r, a)
    ensures ReaderInvariant(Act(r, a))
  {
    match a
    case Gate => GateKeeps(r);
    case Device(ch, offset, b) => StoreIsInvisible(r.sys, ch, offset, b);
    case Deliver(samples) => DeliverKeeps(r, samples);
    case Request(n) =>
    case Filled =>
    case TimedOut =>
    case Fetch => FetchKeeps(r);
    case ClearBuffer => StepIsSafe(r.sys, Clear);
  }

  // ---- How much is moved ----

  // A completed request for n samples takes exactly 8n bytes from the front of every channel
  // and hands them out.
  lemma FetchTakesAll(r: Reader)
    requires ReaderInvariant(r) && r.consumer.Ready?
    ensures var r', n := Act(r, Fetch), 8 * r.consumer.samples;
            && ReaderInvariant(r') && r'.consumer == Idle
            && r'.sys.ring.used == r.sys.ring.used - n
            && r'.sys.committed == r.sys.committed
            && forall ch :: 0 <= ch < |r.sys.received| ==>
                 && r'.sys.received[ch] == r.sys.received[ch] + r.sys.ring.Contents(ch)[..n]
                 && r'.sys.ring.Contents(ch) == r.sys.ring.Contents(ch)[n..]
  {
    FetchKeeps(r);
    var n := 8 * r.consumer.samples;
    forall ch | 0 <= ch < |r.sys.received|
      ensures Act(r, Fetch).sys.ring.Contents(ch) == r.sys.ring.Contents(ch)[n..]
    {
      ReadTakes(r.sys.ring, n, ch);
    }
  }

  // A delivery of n samples commits exactly 8n bytes on every channel, those at the beginning of
  // the region on offer.
  lemma DeliverGivesAll(r: Reader, samples: nat)
    requires ReaderInvariant(r) && Can(r, Deliver(samples))
    ensures var r', n := Act(r, Deliver(samples)), 8 * samples;
            && ReaderInvariant(r') && r'.sys.grant == NoGrant
            && r'.sys.ring.used == r.sys.ring.used + n
            && r'.sys.received == r.sys.received
            && forall ch :: 0 <= ch < |r.sys.committed| ==>
                 r'.sys.committed[ch]
                 == r.sys.committed[ch] + r.sys.ring.buffers[ch][r.sys.grant.at..r.sys.grant.at + n]
  {
    DeliverKeeps(r, samples);
  }

  // The samples of the request that is under way.
  function Pending(r: Reader): nat {
    match r.consumer
    case Idle => 0
    case Checked(n) => n
    case Ready(n) => n
  }

  // The samples of all requests that are completed, the first of which may be under way.
  function Completed(actions: seq<Action>, pending: nat): nat {
    if actions == [] then 0
    else
      match actions[0]
      case Request(n) => Completed(actions[1..], n)
      case Fetch => pending + Completed(actions[1..], 0)
      case TimedOut => Completed(actions[1..], 0)
      case _ => Completed(actions[1..], pending)
  }

  function Supplied(actions: seq<Action>): nat {
    if actions == [] then 0 else (if actions[0].Deliver? then actions[0].samples else 0) + Supplied(actions[1..])
  }

  // Over a run without clears every channel has received 8 bytes for every sample of the
  // completed requests, and had 8 bytes committed for every sample delivered.
  lemma {:induction false} RunsMoveSamples(r: Reader, actions: seq<Action>, t: Reader)
    requires ReaderInvariant(r) && ReachableReader(r, actions, t) && ClearBuffer !in actions
    ensures |t.sys.received| == |r.sys.received| == |t.sys.committed| == |r.sys.committed|
    ensures forall ch :: 0 <= ch < |r.sys.received| ==>
              |t.sys.received[ch]| == |r.sys.received[ch]| + 8 * Completed(actions, Pending(r))
    ensures forall ch :: 0 <= ch < |r.sys.committed| ==>
              |t.sys.committed[ch]| == |r.sys.committed[ch]| + 8 * Supplied(actions)
    decreases |actions|
  {
    if actions != [] {
      ActKeeps(r, actions[0]);
      ActMoves(r, actions[0]);
      SumsStep(r, actions);
      RunsMoveSamples(Act(r, actions[0]), actions[1..], t);
    }
  }

  function Got(r: Reader, a: Action): nat { if a.Fetch? then Pending(r) else 0 }

  function Gave(a: Action): nat { if a.Deliver? then a.samples else 0 }

  lemma SumsStep(r: Reader, actions: seq<Action>)
    requires actions != [] && ReaderInvariant(r) && Can(r, actions[0]) && !actions[0].ClearBuffer?
    ensures Completed(actions, Pending(r)) == Got(r, actions[0]) + Completed(actions[1..], Pending(Act(r, actions[0])))
    ensures Supplied(actions) == Gave(actions[0]) + Supplied(actions[1..])
  {
    ActMoves(r, actions[0]);
  }

  lemma ActMoves(r: Reader, a: Action)
    requires ReaderInvariant(r) && Can(r, a) && !a.ClearBuffer?
    ensures var r', got, gave := Act(r, a), Got(r, a), Gave(a);
            && |r'.sys.received| == |r.sys.received| && |r'.sys.committed| == |r.sys.committed|
            && (forall ch :: 0 <= ch < |r.sys.received| ==> |r'.sys.received[ch]| == |r.sys.received[ch]| + 8 * got)
            && (forall ch :: 0 <= ch < |r.sys.committed| ==> |r'.sys.committed[ch]| == |r.sys.committed[ch]| + 8 * gave)
            && (Pending(r') == if a.Request? then a.samples else if a.Fetch? || a.TimedOut? then 0 else Pending(r))
  {
    if a.Fetch? { FetchTakesAll(r); }
    if a.Deliver? { DeliverGivesAll(r, a.samples); }
  }

  // ---- When the gates open ----

  // The producer asks for room exactly when a millisecond of samples fits, and is offered the
  // whole free stretch; the consumer's high watermark is set by a buffer that is half full and
  // lasts until a request finds less than ten milliseconds, or the buffer is cleared.
  lemma GatesExactly(r: Reader)
    requires ReaderInvariant(r)
    ensures Can(r, Gate) <==> r.sys.grant == NoGrant && r.sys.ring.size - r.sys.ring.used >= 8 * r.perMs
    ensures Can(r, Gate) ==> Act(r, Gate).sys.grant.len == r.sys.ring.Writeable()
    ensures r.consumer.Checked? && !r.watermark ==> (Can(r, Filled) <==> r.sys.ring.used >= r.sys.ring.size - r.sys.ring.used)
    ensures forall a :: Can(r, a) ==>
              (Act(r, a).watermark <==> a.Filled? || (r.watermark && !a.ClearBuffer?
                                                      && (a.Request? ==> r.sys.ring.used >= 8 * (10 * r.perMs))))
  {
  }

  predicate FreshReader(r: Reader) {
    && Init(r.sys) && r.sys.ring.head == 0 && Whole(r.sys.ring.size)
    && r.perMs > 0 && r.consumer == Idle && !r.watermark
  }

  lemma FreshReaderIsSafe(r: Reader)
    requires FreshReader(r)
    ensures ReaderInvariant(r)
  {
    InitEstablishes(r.sys);
  }

  ghost predicate ReachableReader(r: Reader, actions: seq<Action>, t: Reader)
    requires ReaderInvariant(r)
    decreases |actions|
  {
    if actions == [] then r == t
    else Can(r, actions[0]) && (ActKeeps(r, actions[0]); ReachableReader(Act(r, actions[0]), actions[1..], t))
  }

  lemma {:induction false} ReaderRunsKeep(r: Reader, actions: seq<Action>, t: Reader)
    requires ReaderInvariant(r) && ReachableReader(r, actions, t)
    ensures ReaderInvariant(t)
    decreases |actions|
  {
    if actions != [] {
      ActKeeps(r, actions[0]);
      ReaderRunsKeep(Act(r, actions[0]), actions[1..], t);
    }
  }

  // What an action does to the ring and the histories.
  function StepOf(r: Reader, a: Action): Option<Step>
    requires ReaderInvariant(r) && Can(r, a)
  {
    match a
    case Gate => Some(Offer)
    case Device(ch, offset, b) => Some(Store(ch, offset, b))
    case Deliver(samples) => Some(Publish(Bytes(samples)))
    case Fetch => Some(Take(Bytes(r.consumer.samples)))
    case ClearBuffer => Some(Clear)
    case Request(_) => None
    case Filled => None
    case TimedOut => None
  }

  lemma ActIsStep(r: Reader, a: Action)
    requires ReaderInvariant(r) && Can(r, a)
    ensures StepOf(r, a).None? ==> Act(r, a).sys == r.sys
    ensures StepOf(r, a).Some? ==> Enabled(r.sys, StepOf(r, a).value) && Act(r, a).sys == Next(r.sys, StepOf(r, a).value)
  {
  }

  // A run of reader and consumer is a run of the ring, so what holds for those holds for it.
  lemma {:induction false} ReaderRunsAreRuns(r: Reader, actions: seq<Action>, t: Reader) returns (steps: seq<Step>)
    requires ReaderInvariant(r) && ReachableReader(r, actions, t)
    ensures Reachable(r.sys, steps, t.sys)
    decreases |actions|
  {
    if actions == [] {
      return [];
    }
    ActKeeps(r, actions[0]);
    ActIsStep(r, actions[0]);
    steps := ReaderRunsAreRuns(Act(r, actions[0]), actions[1..], t);
    if StepOf(r, actions[0]).Some? {
      var step := StepOf(r, actions[0]).value;
      OneStep(r.sys, step, Act(r, actions[0]).sys, steps, t.sys);
      steps := [step] + steps;
    }
  }

  // Over every run, with the buffer cleared at any time: the read never asks for more than is
  // buffered, nor for nothing, and every offer to the device is a whole, positive number of
  // samples of which none can be read.
  lemma ReaderRunsAreSafe(r: Reader, actions: seq<Action>, t: Reader)
    requires FreshReader(r) && ReachableReader(r, actions, t)
    ensures ReaderInvariant(t)
    ensures t.consumer.Ready? ==> 0 < Bytes(t.consumer.samples) <= t.sys.ring.used
    ensures Whole(t.sys.ring.head) && Whole(t.sys.ring.used)
    ensures t.sys.grant.Granted? ==>
              && t.sys.grant.len >= Bytes(1) && Whole(t.sys.grant.at) && Whole(t.sys.grant.len)
              && forall p :: t.sys.grant.at <= p < t.sys.grant.at + t.sys.grant.len ==> !t.sys.ring.Readable(p)
  {
    FreshReaderIsSafe(r);
    ReaderRunsKeep(r, actions, t);
    var steps := ReaderRunsAreRuns(r, actions, t);
    RunsAreSafe(r.sys, steps, t.sys);
  }
}
