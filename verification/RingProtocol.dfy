// One producer and one consumer on the ring buffer, every lock-protected call being one step
// and every byte the device stores another, in any interleaving, with the buffer cleared at
// any time.

module RingProtocol {
  import opened Machine
  import opened Powers
  import opened Ringbuffer

  datatype Grant = NoGrant | Granted(at: nat, len: nat)

  // committed and received are histories: every byte ever made readable and every byte ever
  // handed out since the last clear, channel by channel.
  datatype System = System(ring: Ring, grant: Grant, committed: seq<seq<Byte>>, received: seq<seq<Byte>>)

  predicate Init(s: System) {
    && s.ring.Valid() && s.ring.used == 0 && s.grant == NoGrant
    && |s.committed| == |s.received| == |s.ring.buffers|
    && forall ch :: 0 <= ch < |s.committed| ==> s.committed[ch] == [] && s.received[ch] == []
  }

  datatype Step =
    | Offer                                  // write_head
    | Store(ch: nat, offset: nat, b: Byte)   // the device writes inside the offered region
    | Publish(written: nat)                  // commit
    | Take(n: nat)                           // read
    | Clear                                  // clear, also while a region is offered

  function Appended(h: seq<seq<Byte>>, extra: seq<seq<Byte>>): (r: seq<seq<Byte>>)
    requires |h| == |extra|
    ensures |r| == |h|
  {
    seq(|h|, ch requires 0 <= ch < |h| => h[ch] + extra[ch])
  }

  function Slices(buffers: seq<seq<Byte>>, lo: nat, hi: nat): (r: seq<seq<Byte>>)
    requires lo <= hi && forall ch :: 0 <= ch < |buffers| ==> hi <= |buffers[ch]|
    ensures |r| == |buffers|
  {
    seq(|buffers|, ch requires 0 <= ch < |buffers| => buffers[ch][lo..hi])
  }

  function Fronts(r: Ring, n: nat): (s: seq<seq<Byte>>)
    requires r.Valid() && n <= r.used
    ensures |s| == |r.buffers|
  {
    seq(|r.buffers|, ch requires 0 <= ch < |r.buffers| => r.Contents(ch)[..n])
  }

  predicate Enabled(s: System, a: Step)
    requires Safe(s)
  {
    match a
    case Offer => s.grant == NoGrant
    case Store(ch, offset, b) => s.grant.Granted? && ch < |s.ring.buffers| && offset < s.grant.len
    case Publish(written) => s.grant.Granted? && written <= s.grant.len
    case Take(n) => 0 < n <= s.ring.used
    case Clear => true
  }

  function Next(s: System, a: Step): System
    requires Safe(s) && Enabled(s, a)
  {
    match a
    case Offer =>
      s.(grant := Granted(if s.ring.Writeable() == 0 then 0 else s.ring.Tail(), s.ring.Writeable()))
    case Store(ch, offset, b) =>
      s.(ring := s.ring.Write(ch, s.grant.at + offset, b))
    case Publish(written) =>
      s.(ring := s.ring.Commit(written), grant := NoGrant,
         committed := Appended(s.committed, Slices(s.ring.buffers, s.grant.at, s.grant.at + written)))
    case Take(n) =>
      s.(ring := s.ring.Read(n), received := Appended(s.received, Fronts(s.ring, n)))
    case Clear => Cleared(s)
  }

  // The buffer is emptied under its mutex; a producer that is filling its region goes on.
  function Cleared(s: System): System {
    s.(ring := s.ring.(head := 0, used := 0),
       committed := seq(|s.committed|, _ => []), received := seq(|s.received|, _ => []))
  }

  // ---- What holds whenever the buffer is cleared ----

  // The region was offered at another place than the tail is at now.
  predicate Displaced(s: System)
    requires s.ring.Valid()
  {
    s.grant.Granted? && s.grant.len > 0 && s.grant.at != s.ring.Tail()
  }

  // The offered region is inside the buffer and fits beside what is buffered. It starts at the
  // tail, wherever reads have moved the head meanwhile, unless the buffer has been cleared
  // since; then nothing is buffered until it is committed.
  predicate GrantHolds(s: System)
    requires s.ring.Valid()
  {
    && (s.grant.Granted? ==> s.grant.at + s.grant.len <= s.ring.size && s.grant.len <= s.ring.size - s.ring.used)
    && (Displaced(s) ==> s.ring.head == s.ring.used == 0)
  }

  predicate Safe(s: System) {
    && s.ring.Valid()
    && |s.committed| == |s.received| == |s.ring.buffers|
    && GrantHolds(s)
    && forall ch :: 0 <= ch < |s.committed| ==> |s.committed[ch]| == |s.received[ch]| + s.ring.used
  }

  lemma InitEstablishes(s: System)
    requires Init(s)
    ensures Safe(s) && Conserved(s) && Invariant(s)
  {}

  lemma GrantIsFree(s: System, p: nat)
    requires Safe(s) && s.grant.Granted? && s.grant.at <= p < s.grant.at + s.grant.len
    ensures !s.ring.Readable(p)
  {
    TailIsWrap(s.ring);
  }

  lemma OfferIsSafe(s: System)
    requires Safe(s) && s.grant == NoGrant
    ensures Safe(Next(s, Offer)) && !Displaced(Next(s, Offer))
  {
    OfferIsFree(s.ring);
  }

  lemma StoreIsInvisible(s: System, ch: nat, offset: nat, b: Byte)
    requires Safe(s) && Enabled(s, Store(ch, offset, b))
    ensures var s' := Next(s, Store(ch, offset, b));
            && Safe(s') && Displaced(s') == Displaced(s)
            && forall c :: 0 <= c < |s.committed| ==> s'.ring.Contents(c) == s.ring.Contents(c)
  {
    var at := s.grant.at + offset;
    GrantIsFree(s, at);
    var s' := Next(s, Store(ch, offset, b));
    forall c | 0 <= c < |s.committed| ensures s'.ring.Valid() && s'.ring.Contents(c) == s.ring.Contents(c) {
      WriteIsInvisible(s.ring, ch, at, b, c);
    }
    WriteIsInvisible(s.ring, ch, at, b, ch);
  }

  lemma TakeIsSafe(s: System, n: nat)
    requires Safe(s) && Enabled(s, Take(n))
    ensures Safe(Next(s, Take(n))) && Displaced(Next(s, Take(n))) == Displaced(s) == false
    ensures Next(s, Take(n)).ring.Tail() == s.ring.Tail()
  {
    var s' := Next(s, Take(n));
    WrapIsMod(s.ring.head + n, s.ring.size);
    TailIsWrap(s.ring);
    TailIsWrap(s'.ring);
  }

  lemma StepIsSafe(s: System, a: Step)
    requires Safe(s) && Enabled(s, a)
    ensures Safe(Next(s, a))
  {
    match a
    case Offer => OfferIsSafe(s);
    case Store(ch, offset, b) => StoreIsInvisible(s, ch, offset, b);
    case Publish(written) =>
    case Take(n) => TakeIsSafe(s, n);
    case Clear => TailIsWrap(Cleared(s).ring);
  }

  // ---- What was received and what is buffered ----

  predicate Conserved(s: System)
    requires s.ring.Valid() && |s.committed| == |s.received| == |s.ring.buffers|
  {
    forall ch :: 0 <= ch < |s.committed| ==> s.committed[ch] == s.received[ch] + s.ring.Contents(ch)
  }

  predicate Invariant(s: System) {
    Safe(s) && Conserved(s) && !Displaced(s)
  }

  // A commit makes readable what the device has stored: the region is at the tail, or the
  // bytes there happen to be the same.
  predicate Lands(s: System, written: nat)
    requires Safe(s) && Enabled(s, Publish(written))
  {
    Displaced(s) ==>
      forall ch :: 0 <= ch < |s.ring.buffers| ==>
        s.ring.buffers[ch][s.grant.at..s.grant.at + written] == s.ring.buffers[ch][..written]
  }

  lemma PublishConserves(s: System, written: nat)
    requires Safe(s) && Conserved(s) && Enabled(s, Publish(written)) && !Displaced(s)
    ensures Conserved(Next(s, Publish(written)))
  {
    var s' := Next(s, Publish(written));
    forall ch | 0 <= ch < |s.committed|
      ensures s'.committed[ch] == s'.received[ch] + s'.ring.Contents(ch)
    {
      if written == 0 {
        assert s.ring.buffers[ch][s.grant.at..s.grant.at] == [];
      } else {
        CommitAppends(s.ring, written, ch);
      }
    }
  }

  // After a displaced commit the first bytes of the buffer are readable.
  lemma FirstBytes(r: Ring, ch: nat, written: nat)
    requires r.Valid() && ch < |r.buffers| && r.head == 0 && r.used == written
    ensures r.Contents(ch) == r.buffers[ch][..written]
  {
    var c, b := r.Contents(ch), r.buffers[ch][..written];
    forall i | 0 <= i < written ensures c[i] == b[i] {
      assert c[i] == r.buffers[ch][Wrap(0 + i, r.size)];
    }
  }

  lemma DisplacedPublish(s: System, written: nat)
    requires Safe(s) && Conserved(s) && Enabled(s, Publish(written)) && Displaced(s)
    ensures Safe(Next(s, Publish(written)))
    ensures Conserved(Next(s, Publish(written))) <==> Lands(s, written)
  {
    var s' := Next(s, Publish(written));
    StepIsSafe(s, Publish(written));
    forall ch | 0 <= ch < |s.committed|
      ensures s'.committed[ch] == s'.received[ch] + s'.ring.Contents(ch)
              <==> s.ring.buffers[ch][s.grant.at..s.grant.at + written] == s.ring.buffers[ch][..written]
    {
      DisplacedChannel(s, written, ch);
    }
  }

  lemma DisplacedChannel(s: System, written: nat, ch: nat)
    requires Safe(s) && Conserved(s) && Enabled(s, Publish(written)) && Displaced(s) && ch < |s.committed|
    ensures var s' := Next(s, Publish(written));
            && Safe(s')
            && (s'.committed[ch] == s'.received[ch] + s'.ring.Contents(ch)
                <==> s.ring.buffers[ch][s.grant.at..s.grant.at + written] == s.ring.buffers[ch][..written])
  {
    var s' := Next(s, Publish(written));
    StepIsSafe(s, Publish(written));
    FirstBytes(s'.ring, ch, written);
    var stored, seen := s.ring.buffers[ch][s.grant.at..s.grant.at + written], s.ring.buffers[ch][..written];
    assert s.ring.Contents(ch) == [] && s.committed[ch] == s.received[ch];
    SamePrefix(s.received[ch], stored, seen);
  }

  lemma SamePrefix(a: seq<Byte>, b: seq<Byte>, c: seq<Byte>)
    ensures a + b == a + c <==> b == c
  {
    assert (a + b)[|a|..] == b && (a + c)[|a|..] == c;
  }

  lemma TakeConserves(s: System, n: nat)
    requires Safe(s) && Conserved(s) && Enabled(s, Take(n))
    ensures Safe(Next(s, Take(n))) && Conserved(Next(s, Take(n)))
  {
    TakeIsSafe(s, n);
    var s' := Next(s, Take(n));
    forall ch | 0 <= ch < |s.committed|
      ensures s'.committed[ch] == s'.received[ch] + s'.ring.Contents(ch)
    {
      ReadTakes(s.ring, n, ch);
      assert s.ring.Contents(ch)[..n] + s.ring.Contents(ch)[n..] == s.ring.Contents(ch);
    }
  }

  // The only step that can break conservation is a commit, and it does exactly if it makes
  // readable other bytes than were stored.
  lemma StepConservesExactly(s: System, a: Step)
    requires Safe(s) && Conserved(s) && Enabled(s, a)
    ensures Safe(Next(s, a)) && (Conserved(Next(s, a)) <==> (a.Publish? ==> Lands(s, a.written)))
  {
    StepIsSafe(s, a);
    match a
    case Offer =>
    case Store(ch, offset, b) => StoreIsInvisible(s, ch, offset, b);
    case Publish(written) => if Displaced(s) { DisplacedPublish(s, written); } else { PublishConserves(s, written); }
    case Take(n) => TakeConserves(s, n);
    case Clear =>
  }

  // ---- Clearing ----

  // A clear that does not displace the region on offer: there is none, or it starts where the
  // emptied buffer will.
  predicate ClearsCleanly(s: System) {
    s.grant.Granted? && s.grant.len > 0 ==> s.grant.at == 0
  }

  lemma ClearExactly(s: System)
    requires Invariant(s)
    ensures Invariant(Cleared(s)) <==> ClearsCleanly(s)
  {
    StepIsSafe(s, Clear);
    TailIsWrap(Cleared(s).ring);
  }

  lemma StepKeeps(s: System, a: Step)
    requires Invariant(s) && Enabled(s, a)
    ensures Invariant(Next(s, a)) <==> (a.Clear? ==> ClearsCleanly(s))
  {
    StepIsSafe(s, a);
    StepConservesExactly(s, a);
    match a
    case Offer => OfferIsSafe(s);
    case Store(ch, offset, b) => StoreIsInvisible(s, ch, offset, b);
    case Publish(written) =>
    case Take(n) => TakeIsSafe(s, n);
    case Clear => ClearExactly(s);
  }

  // ---- Runs ----

  // A run: the states after each of a list of steps. That the next state is one in which steps
  // are defined is StepIsSafe.
  ghost predicate Reachable(s: System, steps: seq<Step>, t: System)
    requires Safe(s)
    decreases |steps|
  {
    if steps == [] then s == t
    else Enabled(s, steps[0]) && (StepIsSafe(s, steps[0]); Reachable(Next(s, steps[0]), steps[1..], t))
  }

  // Every commit of the run lands.
  ghost predicate AllLand(s: System, steps: seq<Step>)
    requires Safe(s)
    decreases |steps|
  {
    steps == []
    || (Enabled(s, steps[0]) && (steps[0].Publish? ==> Lands(s, steps[0].written))
        && (StepIsSafe(s, steps[0]); AllLand(Next(s, steps[0]), steps[1..])))
  }

  ghost predicate AlwaysConserved(s: System, steps: seq<Step>)
    requires Safe(s)
    decreases |steps|
  {
    && Conserved(s)
    && (steps == []
        || (Enabled(s, steps[0]) && (StepIsSafe(s, steps[0]); AlwaysConserved(Next(s, steps[0]), steps[1..]))))
  }

  // Every clear of the run is clean.
  ghost predicate AllClean(s: System, steps: seq<Step>)
    requires Safe(s)
    decreases |steps|
  {
    steps == []
    || (Enabled(s, steps[0]) && (steps[0].Clear? ==> ClearsCleanly(s))
        && (StepIsSafe(s, steps[0]); AllClean(Next(s, steps[0]), steps[1..])))
  }

  lemma {:induction false} RunsStaySafe(s: System, steps: seq<Step>, t: System)
    requires Safe(s) && Reachable(s, steps, t)
    ensures Safe(t)
    decreases |steps|
  {
    if steps != [] {
      StepIsSafe(s, steps[0]);
      RunsStaySafe(Next(s, steps[0]), steps[1..], t);
    }
  }

  lemma {:induction false} RunsStayConserved(s: System, steps: seq<Step>, t: System)
    requires Safe(s) && Conserved(s) && Reachable(s, steps, t)
    ensures AlwaysConserved(s, steps) <==> AllLand(s, steps)
    decreases |steps|
  {
    if steps != [] {
      var s' := Next(s, steps[0]);
      StepIsSafe(s, steps[0]);
      StepConservesExactly(s, steps[0]);
      if Conserved(s') {
        RunsStayConserved(s', steps[1..], t);
      }
    }
  }

  lemma {:induction false} CleanRunsKeep(s: System, steps: seq<Step>, t: System)
    requires Invariant(s) && Reachable(s, steps, t) && AllClean(s, steps)
    ensures Invariant(t)
    decreases |steps|
  {
    if steps != [] {
      StepKeeps(s, steps[0]);
      CleanRunsKeep(Next(s, steps[0]), steps[1..], t);
    }
  }

  // Over every run from an empty buffer, with clears at any time: no byte on offer to the
  // producer is readable, and on every channel as many bytes are received or buffered as were
  // committed.
  lemma RunsAreSafe(s: System, steps: seq<Step>, t: System)
    requires Init(s) && Reachable(s, steps, t)
    ensures Safe(t)
    ensures forall ch :: 0 <= ch < |t.committed| ==> |t.committed[ch]| == |t.received[ch]| + t.ring.used
    ensures t.grant.Granted? ==>
              forall p :: t.grant.at <= p < t.grant.at + t.grant.len ==> !t.ring.Readable(p)
  {
    InitEstablishes(s);
    RunsStaySafe(s, steps, t);
    if t.grant.Granted? {
      forall p | t.grant.at <= p < t.grant.at + t.grant.len ensures !t.ring.Readable(p) {
        GrantIsFree(t, p);
      }
    }
  }

  // What was received followed by what is buffered is what was committed: in every state of a
  // run exactly if every commit lands, and so in every run that only clears cleanly.
  lemma RunsConserve(s: System, steps: seq<Step>, t: System)
    requires Init(s) && Reachable(s, steps, t)
    ensures AlwaysConserved(s, steps) <==> AllLand(s, steps)
    ensures AllClean(s, steps) ==>
              Invariant(t) && forall ch :: 0 <= ch < |t.committed| ==> t.committed[ch] == t.received[ch] + t.ring.Contents(ch)
  {
    InitEstablishes(s);
    RunsStayConserved(s, steps, t);
    if AllClean(s, steps) { CleanRunsKeep(s, steps, t); }
  }

  lemma OneStep(s: System, a: Step, s': System, rest: seq<Step>, t: System)
    requires Safe(s) && Enabled(s, a) && s' == Next(s, a) && Safe(s') && Reachable(s', rest, t)
    ensures Reachable(s, [a] + rest, t)
  {
    assert ([a] + rest)[1..] == rest;
  }

  // A system with a single channel.
  function Single(data: seq<Byte>, head: nat, used: nat, grant: Grant, committed: seq<Byte>, received: seq<Byte>): System {
    System(Ring([data], |data|, head, used), grant, [committed], [received])
  }

  lemma SingleStore(data: seq<Byte>, head: nat, used: nat, grant: Grant, com: seq<Byte>, rec: seq<Byte>, o: nat, b: Byte)
    requires var s := Single(data, head, used, grant, com, rec); Safe(s) && Enabled(s, Store(0, o, b))
    ensures Next(Single(data, head, used, grant, com, rec), Store(0, o, b))
            == Single(data[grant.at + o := b], head, used, grant, com, rec)
  {
    var channel: seq<Byte> := data[grant.at + o := b];
    assert [data][0 := channel] == [channel];
  }

  lemma SinglePublish(data: seq<Byte>, head: nat, used: nat, grant: Grant, com: seq<Byte>, rec: seq<Byte>, w: nat)
    requires var s := Single(data, head, used, grant, com, rec); Safe(s) && Enabled(s, Publish(w))
    ensures Next(Single(data, head, used, grant, com, rec), Publish(w))
            == Single(data, head, used + w, NoGrant, com + data[grant.at..grant.at + w], rec)
  {
    assert Slices([data], grant.at, grant.at + w) == [data[grant.at..grant.at + w]];
    assert Appended([com], [data[grant.at..grant.at + w]]) == [com + data[grant.at..grant.at + w]];
  }

  lemma SingleClear(data: seq<Byte>, head: nat, used: nat, grant: Grant, com: seq<Byte>, rec: seq<Byte>)
    ensures Cleared(Single(data, head, used, grant, com, rec)) == Single(data, 0, 0, grant, [], [])
  {
    assert Cleared(Single(data, head, used, grant, com, rec)).committed == [[]];
  }

  // The second byte is on offer in an empty buffer; y is written there and committed.
  lemma DisplacedRun(half: seq<Byte>, x: Byte, y: Byte) returns (steps: seq<Step>)
    requires |half| == 2 && half[0] == x
    ensures var e, t := Single(half, 0, 0, Granted(1, 1), [], []), Single([x, y], 0, 1, NoGrant, [y], []);
            Safe(e) && Safe(t) && Reachable(e, steps, t)
  {
    var e, f := Single(half, 0, 0, Granted(1, 1), [], []), Single([x, y], 0, 0, Granted(1, 1), [], []);
    assert half[1 := y] == [x, y] && [x, y][1..2] == [y] && [] + [y] == [y];
    SingleStore(half, 0, 0, Granted(1, 1), [], [], 0, y);
    SinglePublish([x, y], 0, 0, Granted(1, 1), [], [], 1);
    var t := Single([x, y], 0, 1, NoGrant, [y], []);
    steps := Before(e, Store(0, 0, y), f, Publish(1), t, [], t);
  }

  // The first byte was buffered until the buffer was cleared.
  lemma ClearedRun(half: seq<Byte>, x: Byte, y: Byte) returns (steps: seq<Step>)
    requires |half| == 2 && half[0] == x
    ensures var d, t := Single(half, 0, 1, Granted(1, 1), [x], []), Single([x, y], 0, 1, NoGrant, [y], []);
            Safe(d) && Safe(t) && Reachable(d, steps, t)
  {
    var d, e := Single(half, 0, 1, Granted(1, 1), [x], []), Single(half, 0, 0, Granted(1, 1), [], []);
    SingleClear(half, 0, 1, Granted(1, 1), [x], []);
    steps := DisplacedRun(half, x, y);
    OneStep(d, Clear, e, steps, Single([x, y], 0, 1, NoGrant, [y], []));
    steps := [Clear] + steps;
  }

  // Before that, x is written and committed into the empty buffer.
  lemma WholeRun(data: seq<Byte>, x: Byte, y: Byte) returns (steps: seq<Step>)
    requires |data| == 2
    ensures var s, t := Single(data, 0, 0, NoGrant, [], []), Single([x, y], 0, 1, NoGrant, [y], []);
            Init(s) && Safe(t) && Reachable(s, steps, t)
  {
    var half := data[0 := x];
    var s, a := Single(data, 0, 0, NoGrant, [], []), Single(data, 0, 0, Granted(0, 2), [], []);
    var b, c := Single(half, 0, 0, Granted(0, 2), [], []), Single(half, 0, 1, NoGrant, [x], []);
    var d, t := Single(half, 0, 1, Granted(1, 1), [x], []), Single([x, y], 0, 1, NoGrant, [y], []);
    assert half[0..1] == [x] && [] + [x] == [x];
    SingleStore(data, 0, 0, Granted(0, 2), [], [], 0, x);
    SinglePublish(half, 0, 0, Granted(0, 2), [], [], 1);
    steps := ClearedRun(half, x, y);
    steps := Before(b, Publish(1), c, Offer, d, steps, t);
    steps := Before(s, Offer, a, Store(0, 0, x), b, steps, t);
  }

  lemma Before(s: System, a: Step, u: System, b: Step, v: System, rest: seq<Step>, t: System) returns (steps: seq<Step>)
    requires Safe(s) && Enabled(s, a) && u == Next(s, a) && Safe(u) && Enabled(u, b) && v == Next(u, b) && Safe(v)
    requires Reachable(v, rest, t)
    ensures Reachable(s, steps, t)
  {
    OneStep(u, b, v, rest, t);
    OneStep(s, a, u, [b] + rest, t);
    steps := [a] + ([b] + rest);
  }

  // A clear while the device fills a region behind the beginning: the nine that it stores is
  // committed, and the five from before the clear is what can be read.
  lemma ClearInsideAGrant() returns (steps: seq<Step>, s: System, t: System)
    ensures s == System(Ring([[1, 2]], 2, 0, 0), NoGrant, [[]], [[]])
    ensures Init(s) && Reachable(s, steps, t) && Safe(t)
    ensures t.committed == [[9]] && t.received == [[]] && |t.ring.buffers| == 1 && t.ring.Contents(0) == [5]
    ensures !Conserved(t)
  {
    var data: seq<Byte> := [1, 2];
    s, t := Single(data, 0, 0, NoGrant, [], []), Single([5, 9], 0, 1, NoGrant, [9], []);
    steps := WholeRun(data, 5, 9);
    FirstBytes(t.ring, 0, 1);
    assert [5, 9][..1] == [5];
    assert t.committed[0][0] != (t.received[0] + t.ring.Contents(0))[0];
  }
}
