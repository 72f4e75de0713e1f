// What a worker does with one MBSFN subframe: the processor's lock, the error counters, and the
// stops that the scheduling information announces for logical channels.

module MbsfnProcess {
  import opened Subframes

  type Lcid = l: int | 0 <= l < 0x100

  datatype Stop = Stop(pmch: nat, lcid: Lcid)

  // ---- Which stops are due ----

  type Stops = map<Lcid, nat>

  predicate IsDue(stops: Stops, rank: nat, l: Lcid) {
    l in stops && stops[l] <= rank
  }

  // The channels below upTo whose stop has been reached, in the order of the map.
  function Due(stops: Stops, pmch: nat, rank: nat, upTo: nat): seq<Stop>
    requires upTo <= 0x100
  {
    if upTo == 0 then []
    else Due(stops, pmch, rank, upTo - 1) + (if IsDue(stops, rank, upTo - 1) then [Stop(pmch, upTo - 1)] else [])
  }

  function Remaining(stops: Stops, rank: nat, upTo: nat): Stops {
    map l: Lcid | l in stops && !(l < upTo && stops[l] <= rank) :: stops[l]
  }

  // Over all physical channels, the first n of them with their own rank of the subframe.
  function AllDue(stops: Stops, ranks: seq<nat>, n: nat): seq<Stop>
    requires n <= |ranks|
  {
    if n == 0 then []
    else AllDue(stops, ranks, n - 1) + Due(AllRemaining(stops, ranks, n - 1), n - 1, ranks[n - 1], 0x100)
  }

  function AllRemaining(stops: Stops, ranks: seq<nat>, n: nat): Stops
    requires n <= |ranks|
  {
    if n == 0 then stops else Remaining(AllRemaining(stops, ranks, n - 1), ranks[n - 1], 0x100)
  }

  lemma OneMore(stops: Stops, ranks: seq<nat>, n: nat)
    requires n < |ranks|
    ensures var left := AllRemaining(stops, ranks, n);
            && AllRemaining(stops, ranks, n + 1) == Remaining(left, ranks[n], 0x100)
            && AllDue(stops, ranks, n + 1) == AllDue(stops, ranks, n) + Due(left, n, ranks[n], 0x100)
  {
  }

  predicate Waits(stops: Stops, ranks: seq<nat>, n: nat, l: Lcid)
    requires n <= |ranks|
  {
    l in stops && forall j :: 0 <= j < n ==> ranks[j] < stops[l]
  }

  // What is left are exactly the stops that no physical channel has reached.
  lemma {:induction false} RemainingWaits(stops: Stops, ranks: seq<nat>, n: nat, l: Lcid)
    requires n <= |ranks|
    ensures l in AllRemaining(stops, ranks, n) <==> Waits(stops, ranks, n, l)
    ensures l in AllRemaining(stops, ranks, n) ==> AllRemaining(stops, ranks, n)[l] == stops[l]
  {
    if n > 0 {
      RemainingWaits(stops, ranks, n - 1, l);
    }
  }

  function Times(log: seq<Stop>, s: Stop): nat {
    if log == [] then 0 else Times(log[..|log| - 1], s) + (if log[|log| - 1] == s then 1 else 0)
  }

  lemma {:induction false} DueOnce(stops: Stops, pmch: nat, rank: nat, upTo: nat, s: Stop)
    requires upTo <= 0x100
    ensures Times(Due(stops, pmch, rank, upTo), s)
            == if s.pmch == pmch && s.lcid < upTo && IsDue(stops, rank, s.lcid) then 1 else 0
  {
    if upTo > 0 {
      DueOnce(stops, pmch, rank, upTo - 1, s);
      TimesConcat(Due(stops, pmch, rank, upTo - 1), if IsDue(stops, rank, upTo - 1) then [Stop(pmch, upTo - 1)] else [], s);
    }
  }

  predicate StopsAt(stops: Stops, ranks: seq<nat>, pmch: nat, l: Lcid)
    requires pmch < |ranks|
  {
    Waits(stops, ranks, pmch, l) && stops[l] <= ranks[pmch]
  }

  lemma {:induction false} TimesConcat(a: seq<Stop>, b: seq<Stop>, s: Stop)
    ensures Times(a + b, s) == Times(a, s) + Times(b, s)
  {
    if b == [] {
      assert a + b == a;
    } else {
      var k := |b| - 1;
      assert (a + b)[..|a| + k] == a + b[..k];
      TimesConcat(a, b[..k], s);
    }
  }

  lemma StopsAtOne(stops: Stops, ranks: seq<nat>, n: nat, s: Stop)
    requires n < |ranks|
    ensures Times(AllDue(stops, ranks, n + 1), s)
            == Times(AllDue(stops, ranks, n), s) + (if s.pmch == n && StopsAt(stops, ranks, n, s.lcid) then 1 else 0)
  {
    RemainingWaits(stops, ranks, n, s.lcid);
    var left := AllRemaining(stops, ranks, n);
    DueOnce(left, n, ranks[n], 0x100, s);
    OneMore(stops, ranks, n);
    TimesConcat(AllDue(stops, ranks, n), Due(left, n, ranks[n], 0x100), s);
  }

  // A logical channel is stopped once, on the first physical channel whose rank has reached
  // its stop, and on no other.
  lemma {:induction false} StoppedOnce(stops: Stops, ranks: seq<nat>, n: nat, s: Stop)
    requires n <= |ranks|
    ensures Times(AllDue(stops, ranks, n), s)
            == if s.pmch < n && StopsAt(stops, ranks, s.pmch, s.lcid) then 1 else 0
  {
    if n > 0 {
      StoppedOnce(stops, ranks, n - 1, s);
      StopsAtOne(stops, ranks, n - 1, s);
    }
  }

  function RanksOf(dedicated: bool, tti: nat, periods: seq<nat>): (r: seq<nat>)
    requires forall i :: 0 <= i < |periods| ==> periods[i] > 0
    ensures |r| == |periods|
  {
    seq(|periods|, i requires 0 <= i < |periods| => SubframeIndex(dedicated, tti, periods[i]))
  }

  // When all physical channels have the same period, every stop that is due is issued once, on
  // the first of them, and none on any other.
  lemma CommonPeriodStopsOnFirst(dedicated: bool, tti: nat, periods: seq<nat>, stops: Stops, s: Stop)
    requires periods != [] && forall i :: 0 <= i < |periods| ==> periods[i] == periods[0] > 0
    ensures Times(AllDue(stops, RanksOf(dedicated, tti, periods), |periods|), s)
            == if s.pmch == 0 && IsDue(stops, SubframeIndex(dedicated, tti, periods[0]), s.lcid) then 1 else 0
  {
    var ranks := RanksOf(dedicated, tti, periods);
    StoppedOnce(stops, ranks, |periods|, s);
    if 0 < s.pmch < |periods| {
      assert periods[s.pmch] == periods[0];
      NotBehindAnEqual(stops, ranks, s.pmch, s.lcid);
    }
  }

  lemma NotBehindAnEqual(stops: Stops, ranks: seq<nat>, pmch: nat, l: Lcid)
    requires 0 < pmch < |ranks| && ranks[pmch] == ranks[0]
    ensures !StopsAt(stops, ranks, pmch, l)
  {
  }

  // ---- Counters ----

  datatype Channel = Channel(errors: nat, total: nat, present: bool)

  // A subframe counts for the control channel or for one traffic channel.
  datatype Counters = Counters(mcch: Channel, mch: seq<Channel>) {
    predicate Has(isMcch: bool, idx: nat) { isMcch || idx < |mch| }

    function Of(isMcch: bool, idx: nat): Channel
      requires Has(isMcch, idx)
    {
      if isMcch then mcch else mch[idx]
    }

    function With(isMcch: bool, idx: nat, c: Channel): Counters
      requires Has(isMcch, idx)
    {
      if isMcch then this.(mcch := c) else this.(mch := mch[idx := c])
    }

    predicate Sound() {
      mcch.errors <= mcch.total && forall i :: 0 <= i < |mch| ==> mch[i].errors <= mch[i].total
    }
  }

  // The counts of one channel are apart from those of every other.
  lemma ChannelsAreApart(k: Counters, idx: nat, c: Channel)
    ensures k.Of(true, idx) == k.mcch && k.With(true, idx, c) == Counters(c, k.mch)
    ensures idx < |k.mch| ==> k.Of(false, idx) == k.mch[idx] && k.With(false, idx, c) == Counters(k.mcch, k.mch[idx := c])
  {
  }

  // ---- The subframe ----

  // What a subheader of a decoded transport block announces.
  datatype Subheader = SchedInfo(entries: seq<(Lcid, nat)>) | Sdu(lcid: nat) | Other

  // What the receiver finds in a subframe.
  datatype Subframe = Subframe(enable: bool, isMcch: bool, fftOk: bool, decodeOk: bool, crcOk: bool,
                               content: seq<Subheader>)

  predicate GoodBearers(content: seq<Subheader>, bearers: nat) {
    forall k :: 0 <= k < |content| && content[k].Sdu? ==> content[k].lcid < bearers
  }

  function Announced(stops: Stops, entries: seq<(Lcid, nat)>): Stops {
    if entries == [] then stops
    else
      var last := entries[|entries| - 1];
      Announced(stops, entries[..|entries| - 1])[last.0 := last.1]
  }

  // The stops after the first k subheaders.
  function Learned(stops: Stops, content: seq<Subheader>, k: nat): Stops
    requires k <= |content|
  {
    if k == 0 then stops
    else
      var before := Learned(stops, content, k - 1);
      if content[k - 1].SchedInfo? then Announced(before, content[k - 1].entries) else before
  }

  // A stop does not remember which physical channel announced it: with a common period the one
  // that channel idx has announced is issued on that channel if and only if idx is zero.
  lemma AnnouncedIsIssued(dedicated: bool, tti: nat, periods: seq<nat>, before: Stops, idx: nat, l: Lcid, stop: nat)
    requires idx < |periods| && forall i :: 0 <= i < |periods| ==> periods[i] == periods[0] > 0
    requires stop <= SubframeIndex(dedicated, tti, periods[0])
    ensures var stops := Learned(before, [SchedInfo([(l, stop)])], 1);
            && (Times(AllDue(stops, RanksOf(dedicated, tti, periods), |periods|), Stop(idx, l)) == 1 <==> idx == 0)
            && Times(AllDue(stops, RanksOf(dedicated, tti, periods), |periods|), Stop(0, l)) == 1
  {
    var content := [SchedInfo([(l, stop)])];
    var stops := Learned(before, content, 1);
    assert Learned(before, content, 0) == before;
    assert Announced(before, [(l, stop)]) == Announced(before, [])[l := stop] == before[l := stop];
    CommonPeriodStopsOnFirst(dedicated, tti, periods, stops, Stop(idx, l));
    CommonPeriodStopsOnFirst(dedicated, tti, periods, stops, Stop(0, l));
  }

  // So with two channels a stop of the second is issued on the first.
  lemma SecondChannelsStop(l: Lcid)
    ensures var periods, stops := [8, 8], Learned(map[], [SchedInfo([(l, 3)])], 1);
            && Times(AllDue(stops, RanksOf(true, 4, periods), 2), Stop(1, l)) == 0
            && Times(AllDue(stops, RanksOf(true, 4, periods), 2), Stop(0, l)) == 1
  {
    var periods: seq<nat> := [8, 8];
    assert SubframeIndex(true, 4, 8) == 3;
    AnnouncedIsIssued(true, 4, periods, map[], 1, l, 3);
    CommonPeriodStopsOnFirst(true, 4, periods, Learned(map[], [SchedInfo([(l, 3)])], 1), Stop(1, l));
  }

  // A unit handed to the link layer.
  datatype Unit = Unit(channel: nat, bearer: nat)

  function Delivered(content: seq<Subheader>, idx: nat, k: nat): seq<Unit>
    requires k <= |content|
  {
    if k == 0 then []
    else Delivered(content, idx, k - 1) + (if content[k - 1].Sdu? then [Unit(idx, content[k - 1].lcid)] else [])
  }

  function Sdus(content: seq<Subheader>, k: nat): nat
    requires k <= |content|
  {
    if k == 0 then 0 else Sdus(content, k - 1) + (if content[k - 1].Sdu? then 1 else 0)
  }

  // Every service data unit goes to the link layer once, in its place among them, with the
  // physical channel of the subframe as channel and its own logical channel as bearer; nothing
  // else does.
  lemma {:induction false} EveryUnitIsDelivered(content: seq<Subheader>, idx: nat, k: nat)
    requires k <= |content|
    ensures |Delivered(content, idx, k)| == Sdus(content, k)
    ensures forall j :: 0 <= j < k && content[j].Sdu? ==>
              && Sdus(content, j) < Sdus(content, k)
              && Delivered(content, idx, k)[Sdus(content, j)].channel == idx
              && Delivered(content, idx, k)[Sdus(content, j)].bearer == content[j].lcid
  {
    if k > 0 {
      EveryUnitIsDelivered(content, idx, k - 1);
    }
  }

  // Of the announcements for a logical channel the last counts.
  lemma {:induction false} LastAnnouncementCounts(stops: Stops, entries: seq<(Lcid, nat)>, i: nat)
    requires i < |entries| && forall j :: i < j < |entries| ==> entries[j].0 != entries[i].0
    ensures entries[i].0 in Announced(stops, entries) && Announced(stops, entries)[entries[i].0] == entries[i].1
  {
    var n := |entries| - 1;
    if i < n {
      assert entries[..n][i] == entries[i];
      LastAnnouncementCounts(stops, entries[..n], i);
    }
  }

  // One that is not announced keeps its stop.
  lemma {:induction false} OthersKeepTheirStop(stops: Stops, entries: seq<(Lcid, nat)>, l: Lcid)
    requires forall i :: 0 <= i < |entries| ==> entries[i].0 != l
    ensures l in Announced(stops, entries) <==> l in stops
    ensures l in stops ==> Announced(stops, entries)[l] == stops[l]
  {
    if entries != [] {
      var n := |entries| - 1;
      assert forall i :: 0 <= i < n ==> entries[..n][i] == entries[i];
      OthersKeepTheirStop(stops, entries[..n], l);
    }
  }

  lemma LearningIsAnnouncing(stops: Stops, content: seq<Subheader>, k: nat)
    requires k < |content|
    ensures content[k].SchedInfo? ==>
              Learned(stops, content, k + 1) == Announced(Learned(stops, content, k), content[k].entries)
    ensures !content[k].SchedInfo? ==> Learned(stops, content, k + 1) == Learned(stops, content, k)
  {
  }

  predicate Decoded(f: Subframe) {
    f.enable && f.fftOk && f.decodeOk && f.crcOk
  }

  // Every fifty frames the counts start afresh; an enabled subframe counts once, and once as
  // an error if it fails. A traffic channel is present once a subframe of it was decoded, the
  // control channel once one was without fault.
  function Counted(c: Channel, f: Subframe, afresh: bool, failed: bool): Channel {
    var errors, total := if afresh then 0 else c.errors, if afresh then 1 else c.total;
    if !f.enable then c.(errors := errors, total := total)
    else
      Channel(errors + (if failed then 1 else 0), total + 1,
              c.present || (if f.isMcch then !failed else f.fftOk && f.decodeOk))
  }

  // One subframe of a channel: what was found, whether its frame starts the counts afresh, and
  // whether processing it failed.
  datatype Visit = Visit(frame: Subframe, afresh: bool, failed: bool)

  function AfterVisits(c: Channel, visits: seq<Visit>): Channel {
    if visits == [] then c
    else
      var v := visits[|visits| - 1];
      Counted(AfterVisits(c, visits[..|visits| - 1]), v.frame, v.afresh, v.failed)
  }

  function Enableds(visits: seq<Visit>): nat {
    if visits == [] then 0
    else Enableds(visits[..|visits| - 1]) + (if visits[|visits| - 1].frame.enable then 1 else 0)
  }

  function Failures(visits: seq<Visit>): nat {
    if visits == [] then 0
    else
      var v := visits[|visits| - 1];
      Failures(visits[..|visits| - 1]) + (if v.frame.enable && v.failed then 1 else 0)
  }

  // Without a fresh start the total grows by the enabled subframes and the errors by those of
  // them that failed.
  lemma {:induction false} VisitsAreCounted(c: Channel, visits: seq<Visit>)
    requires forall i :: 0 <= i < |visits| ==> !visits[i].afresh
    ensures AfterVisits(c, visits).total == c.total + Enableds(visits)
    ensures AfterVisits(c, visits).errors == c.errors + Failures(visits)
  {
    if visits != [] {
      VisitsAreCounted(c, visits[..|visits| - 1]);
    }
  }

  // After a fresh start only that subframe and those behind it count, on a total that starts at
  // one, whatever was counted before.
  lemma {:induction false} FreshStart(c: Channel, v: Visit, rest: seq<Visit>)
    requires v.afresh && forall i :: 0 <= i < |rest| ==> !rest[i].afresh
    ensures AfterVisits(c, [v] + rest).total == 1 + Enableds([v] + rest)
    ensures AfterVisits(c, [v] + rest).errors == Failures([v] + rest)
  {
    if rest == [] {
      assert [v] + rest == [v] && [v][..0] == [];
    } else {
      var n := |rest| - 1;
      assert ([v] + rest)[..n + 1] == [v] + rest[..n];
      FreshStart(c, v, rest[..n]);
    }
  }

  predicate Seen(v: Visit) {
    v.frame.enable && if v.frame.isMcch then !v.failed else v.frame.fftOk && v.frame.decodeOk
  }

  // A traffic channel is present once a subframe of it was decoded, the control channel once
  // one was processed without fault, and either stays so.
  lemma {:induction false} PresentOnceSeen(c: Channel, visits: seq<Visit>)
    ensures AfterVisits(c, visits).present
            <==> c.present || (exists i :: 0 <= i < |visits| && Seen(visits[i]))
  {
    if visits != [] {
      var n := |visits| - 1;
      PresentOnceSeen(c, visits[..n]);
      assert forall i :: 0 <= i < n ==> visits[..n][i] == visits[i];
    }
  }

  class MbsfnFrameProcessor {
    const dedicated: bool
    const bearers: nat
    const keepBearers: bool
    var locked: bool
    var counters: Counters
    var schedStops: Stops
    var stopped: seq<Stop>
    var written: seq<Unit>

    constructor (dedicated: bool, bearers: nat, keepBearers: bool)
      ensures !locked && counters.Sound() && |counters.mch| == 16 && schedStops == map[]
      ensures stopped == [] && written == []
    {
      this.dedicated, this.bearers, this.keepBearers := dedicated, bearers, keepBearers;
      locked := false;
      counters := Counters(Channel(0, 1, false), seq(16, _ => Channel(0, 1, false)));
      schedStops, stopped, written := map[], [], [];
    }

    method GetRxBufferAndLock()
      requires !locked
      modifies this`locked
      ensures locked
    {
      locked := true;
    }

    method Unlock()
      requires locked
      modifies this`locked
      ensures !locked
    {
      locked := false;
    }

    method CountError(isMcch: bool, idx: nat)
      requires counters.Has(isMcch, idx)
      modifies this`counters
      ensures var c := old(counters).Of(isMcch, idx);
              counters == old(counters).With(isMcch, idx, c.(errors := c.errors + 1))
    {
      var c := counters.Of(isMcch, idx);
      counters := counters.With(isMcch, idx, c.(errors := c.errors + 1));
    }

    // The pass over the map for one physical channel.
    method SweepOne(pmch: nat, rank: nat)
      modifies this`schedStops, this`stopped
      ensures schedStops == Remaining(old(schedStops), rank, 0x100)
      ensures stopped == old(stopped) + (if keepBearers then [] else Due(old(schedStops), pmch, rank, 0x100))
    {
      ghost var stops := schedStops;
      var l: int := 0;
      while l < 0x100
        invariant 0 <= l <= 0x100 && schedStops == Remaining(stops, rank, l)
        invariant stopped == old(stopped) + (if keepBearers then [] else Due(stops, pmch, rank, l))
      {
        var lcid: Lcid := l;
        if lcid in schedStops && rank >= schedStops[lcid] {
          if !keepBearers {
            stopped := stopped + [Stop(pmch, lcid)];
          }
          schedStops := schedStops - {lcid};
        }
        l := l + 1;
      }
    }

    method Sweep(tti: nat, periods: seq<nat>)
      requires forall i :: 0 <= i < |periods| ==> periods[i] > 0
      modifies this`schedStops, this`stopped
      ensures var ranks := RanksOf(dedicated, tti, periods);
              && schedStops == AllRemaining(old(schedStops), ranks, |periods|)
              && stopped == old(stopped) + (if keepBearers then [] else AllDue(old(schedStops), ranks, |periods|))
    {
      ghost var ranks := RanksOf(dedicated, tti, periods);
      var i := 0;
      while i < |periods|
        invariant 0 <= i <= |periods| && schedStops == AllRemaining(old(schedStops), ranks, i)
        invariant stopped == old(stopped) + (if keepBearers then [] else AllDue(old(schedStops), ranks, i))
      {
        var fn, sf := (tti / 10) % periods[i], tti % 10;
        var sfIdx: nat;
        if dedicated {
          sfIdx := (fn * 10 + sf - fn / 4 - 1) % 0x1_0000_0000;
        } else {
          sfIdx := (fn * 6 + (if sf < 6 then sf - 1 else sf - 3)) % 0x1_0000_0000;
        }
        assert sfIdx == ranks[i];
        ghost var left, due := schedStops, AllDue(old(schedStops), ranks, i);
        SweepOne(i, sfIdx);
        OneMore(old(schedStops), ranks, i);
        assert (old(stopped) + due) + Due(left, i, sfIdx, 0x100) == old(stopped) + (due + Due(left, i, sfIdx, 0x100));
        i := i + 1;
      }
    }

    method Announce(entries: seq<(Lcid, nat)>)
      modifies this`schedStops
      ensures schedStops == Announced(old(schedStops), entries)
    {
      var i := 0;
      while i < |entries|
        invariant 0 <= i <= |entries| && schedStops == Announced(old(schedStops), entries[..i])
      {
        assert entries[..i + 1][..i] == entries[..i];
        schedStops := schedStops[entries[i].0 := entries[i].1];
        i := i + 1;
      }
      assert entries[..i] == entries;
    }

    // Takes the transport block apart; stops at a bearer that does not exist.
    method Deliver(content: seq<Subheader>, idx: nat) returns (ok: bool, ghost k: nat)
      modifies this`schedStops, this`written
      ensures ok <==> GoodBearers(content, bearers)
      ensures k <= |content| && GoodBearers(content[..k], bearers)
      ensures if ok then k == |content| else k < |content| && content[k].Sdu? && content[k].lcid >= bearers
      ensures schedStops == Learned(old(schedStops), content, k)
      ensures written == old(written) + Delivered(content, idx, k)
      ensures |written| == |old(written)| + Sdus(content, k)
      ensures forall j :: 0 <= j < k && content[j].Sdu? ==>
                && Sdus(content, j) < Sdus(content, k)
                && written[|old(written)| + Sdus(content, j)] == Unit(idx, content[j].lcid)
    {
      var i := 0;
      while i < |content|
        invariant 0 <= i <= |content| && GoodBearers(content[..i], bearers)
        invariant schedStops == Learned(old(schedStops), content, i)
        invariant written == old(written) + Delivered(content, idx, i)
      {
        match content[i] {
          case SchedInfo(entries) => Announce(entries);
          case Sdu(lcid) =>
            if lcid >= bearers {
              EveryUnitIsDelivered(content, idx, i);
              return false, i;
            }
            written := written + [Unit(idx, lcid)];
          case Other =>
        }
        i := i + 1;
      }
      assert content[..i] == content;
      EveryUnitIsDelivered(content, idx, i);
      return true, i;
    }

    // One subframe, from the filled buffer to the free processor: 0 for the control channel,
    // 1 for a traffic channel, -1 when nothing came of it.
    method Process(tti: nat, f: Subframe, idx: nat, periods: seq<nat>) returns (r: int, ghost k: nat)
      requires locked && counters.Sound()
      requires forall i :: 0 <= i < |periods| ==> periods[i] > 0
      modifies this
      ensures !locked && counters.Sound() && |counters.mch| == |old(counters).mch|
      ensures r == if idx < |counters.mch| && Decoded(f) && GoodBearers(f.content, bearers)
                   then (if f.isMcch then 0 else 1) else -1
      ensures r >= 0 <==> idx < |counters.mch| && f.enable && f.fftOk && f.decodeOk && f.crcOk
                          && forall i :: 0 <= i < |f.content| && f.content[i].Sdu? ==> f.content[i].lcid < bearers
      ensures r > 0 ==> !f.isMcch
      ensures idx >= |counters.mch| ==> counters == old(counters)
      ensures idx < |counters.mch| ==> counters == old(counters).With(f.isMcch, idx,
                Counted(old(counters).Of(f.isMcch, idx), f, tti / 10 % 50 == 0, r < 0))
      ensures k <= |f.content|
      ensures k == 0 || (idx < |counters.mch| && Decoded(f) && GoodBearers(f.content[..k], bearers))
      ensures idx < |counters.mch| && Decoded(f) && k < |f.content| ==> f.content[k].Sdu? && f.content[k].lcid >= bearers
      ensures written == old(written) + Delivered(f.content, idx, k)
      ensures var learned, ranks := Learned(old(schedStops), f.content, k), RanksOf(dedicated, tti, periods);
              && schedStops == (if r == 1 then AllRemaining(learned, ranks, |periods|) else learned)
              && stopped == old(stopped) + (if r == 0 then [Stop(0, 0)]
                                            else if r == 1 && !keepBearers then AllDue(learned, ranks, |periods|) else [])
    {
      k := 0;
      if idx >= |counters.mch| {
        Unlock();
        return -1, 0;
      }
      var ok := Receive(tti, f, idx);
      if !ok {
        return -1, 0;
      }
      r, k := Finish(tti, f, idx, periods);
    }

    // As far as the transport block: decoded and its checksum right, or the processor is free
    // again.
    method Receive(tti: nat, f: Subframe, idx: nat) returns (ok: bool)
      requires locked && idx < |counters.mch|
      modifies this`locked, this`counters
      ensures ok == locked == Decoded(f)
      ensures var c := Counted(old(counters).Of(f.isMcch, idx), f, tti / 10 % 50 == 0, !ok);
              counters == old(counters).With(f.isMcch, idx,
                if ok && f.isMcch then c.(present := old(counters).mcch.present) else c)
    {
      var sfn := tti / 10;
      if sfn % 50 == 0 {
        counters := counters.With(f.isMcch, idx, counters.Of(f.isMcch, idx).(errors := 0, total := 1));
      }
      if !f.enable {
        Unlock();
        return false;
      }
      var c := counters.Of(f.isMcch, idx);
      counters := counters.With(f.isMcch, idx, c.(total := c.total + 1));
      if !f.fftOk {
        CountError(f.isMcch, idx);
        Unlock();
        return false;
      }
      if !f.decodeOk {
        CountError(f.isMcch, idx);
        Unlock();
        return false;
      }
      if !f.isMcch {
        counters := counters.With(false, idx, counters.Of(false, idx).(present := true));
      }
      if !f.crcOk {
        CountError(f.isMcch, idx);
        Unlock();
        return false;
      }
      return true;
    }

    method Finish(tti: nat, f: Subframe, idx: nat, periods: seq<nat>) returns (r: int, ghost k: nat)
      requires locked && idx < |counters.mch|
      requires forall i :: 0 <= i < |periods| ==> periods[i] > 0
      modifies this
      ensures !locked
      ensures r == if GoodBearers(f.content, bearers) then (if f.isMcch then 0 else 1) else -1
      ensures var c := old(counters).Of(f.isMcch, idx);
              counters == old(counters).With(f.isMcch, idx,
                if r < 0 then c.(errors := c.errors + 1) else c.(present := c.present || f.isMcch))
      ensures k <= |f.content| && GoodBearers(f.content[..k], bearers)
      ensures k < |f.content| ==> f.content[k].Sdu? && f.content[k].lcid >= bearers
      ensures written == old(written) + Delivered(f.content, idx, k)
      ensures var learned, ranks := Learned(old(schedStops), f.content, k), RanksOf(dedicated, tti, periods);
              && schedStops == (if r == 1 then AllRemaining(learned, ranks, |periods|) else learned)
              && stopped == old(stopped) + (if r == 0 then [Stop(0, 0)]
                                            else if r == 1 && !keepBearers then AllDue(learned, ranks, |periods|) else [])
    {
      var ok;
      ok, k := Deliver(f.content, idx);
      if !ok {
        CountError(f.isMcch, idx);
        Unlock();
        return -1, k;
      }
      if !f.isMcch {
        Sweep(tti, periods);
      } else {
        stopped := stopped + [Stop(0, 0)];
        counters := counters.(mcch := counters.mcch.(present := true));
      }
      Unlock();
      return if f.isMcch then 0 else 1, k;
    }
  }
}
