// The PHY's mapping of a subframe to its physical multicast channel and modulation.

module PhyMapping {
  import opened Powers
  import opened Subframes

  datatype Pmch = Pmch(schedPeriod: nat, sfAllocEnd: nat, dataMcs: int)

  datatype Config = Config(enable: bool, isMcch: bool, areaId: int, nonMbsfnRegion: int, mcs: int)

  // ---- Which channel a subframe belongs to ----

  function IndexFor(dedicated: bool, tti: nat, p: Pmch): nat
    requires p.schedPeriod > 0
  {
    SubframeIndex(dedicated, tti, p.schedPeriod)
  }

  predicate Listed(pmch: seq<Pmch>) {
    forall i :: 0 <= i < |pmch| ==> pmch[i].schedPeriod > 0 && pmch[i].sfAllocEnd < 0x1_0000
  }

  predicate Covers(dedicated: bool, tti: nat, pmch: seq<Pmch>, i: int)
    requires Listed(pmch)
  {
    0 <= i < |pmch| && IndexFor(dedicated, tti, pmch[i]) <= pmch[i].sfAllocEnd
  }

  // The first channel whose last allocated subframe is not before this one.
  predicate IsChannel(dedicated: bool, tti: nat, pmch: seq<Pmch>, i: int)
    requires Listed(pmch)
  {
    Covers(dedicated, tti, pmch, i) && forall j :: 0 <= j < i ==> !Covers(dedicated, tti, pmch, j)
  }

  // Section 6.3.7 of 3GPP TS 36.331: every channel of the list is scheduled in the same period
  // and ends after the one before it.
  predicate Increasing(pmch: seq<Pmch>) {
    && (forall i, j :: 0 <= i < j < |pmch| ==> pmch[i].sfAllocEnd < pmch[j].sfAllocEnd)
    && (forall i, j :: 0 <= i < |pmch| && 0 <= j < |pmch| ==> pmch[i].schedPeriod == pmch[j].schedPeriod)
  }

  function FirstRank(pmch: seq<Pmch>, i: nat): nat
    requires i < |pmch|
  {
    if i == 0 then 0 else pmch[i - 1].sfAllocEnd + 1
  }

  // With increasing ends and a common period, channel i owns exactly the ranks after the end
  // of channel i - 1 up to its own end, so no subframe belongs to two channels.
  lemma ChannelOwnsInterval(dedicated: bool, tti: nat, pmch: seq<Pmch>, i: nat)
    requires Listed(pmch) && Increasing(pmch) && i < |pmch|
    ensures IsChannel(dedicated, tti, pmch, i)
            <==> FirstRank(pmch, i) <= IndexFor(dedicated, tti, pmch[i]) <= pmch[i].sfAllocEnd
  {
    var x := IndexFor(dedicated, tti, pmch[i]);
    forall j | 0 <= j < |pmch| ensures IndexFor(dedicated, tti, pmch[j]) == x {
      assert pmch[j].schedPeriod == pmch[i].schedPeriod;
    }
    if IsChannel(dedicated, tti, pmch, i) && i > 0 {
      assert !Covers(dedicated, tti, pmch, i - 1);
    }
    if FirstRank(pmch, i) <= x <= pmch[i].sfAllocEnd {
      forall j | 0 <= j < i ensures !Covers(dedicated, tti, pmch, j) {
        assert pmch[j].sfAllocEnd <= pmch[i - 1].sfAllocEnd;
      }
    }
  }

  // Every rank of a channel is served by a subframe of every scheduling period.
  lemma RankIsServed(dedicated: bool, start: nat, pmch: seq<Pmch>, i: nat, r: nat) returns (t: nat)
    requires Listed(pmch) && Increasing(pmch) && i < |pmch|
    requires GoodPeriod(dedicated, pmch[i].schedPeriod) && start % (10 * pmch[i].schedPeriod) == 0
    requires FirstRank(pmch, i) <= r <= pmch[i].sfAllocEnd && r < Ranks(dedicated, pmch[i].schedPeriod)
    ensures start <= t < start + 10 * pmch[i].schedPeriod && IsMbsfn(dedicated, t)
    ensures IndexFor(dedicated, t, pmch[i]) == r && IsChannel(dedicated, t, pmch, i)
  {
    t := IndexIsOnto(dedicated, start, pmch[i].schedPeriod, r);
    ChannelOwnsInterval(dedicated, t, pmch, i);
  }

  // Ranks past the last end belong to no channel.
  lemma PastTheEnd(dedicated: bool, tti: nat, pmch: seq<Pmch>)
    requires Listed(pmch) && Increasing(pmch) && pmch != []
    ensures (forall i :: !Covers(dedicated, tti, pmch, i))
            <==> IndexFor(dedicated, tti, pmch[|pmch| - 1]) > pmch[|pmch| - 1].sfAllocEnd
  {
    var last := |pmch| - 1;
    if !Covers(dedicated, tti, pmch, last) {
      forall i ensures !Covers(dedicated, tti, pmch, i) {
        if 0 <= i < |pmch| {
          assert pmch[i].schedPeriod == pmch[last].schedPeriod;
          assert i == last || pmch[i].sfAllocEnd < pmch[last].sfAllocEnd;
        }
      }
    } else {
      assert Covers(dedicated, tti, pmch, last);
    }
  }

  // ---- When the signalling modulation applies ----

  // The test in the code; for the first channel it looks at frame and subframe.
  predicate FirstOfChannel(dedicated: bool, tti: nat, pmch: seq<Pmch>, i: nat)
    requires Listed(pmch) && i < |pmch|
  {
    var fn, sf := (tti / 10) % pmch[i].schedPeriod, tti % 10;
    (i == 0 && fn == 0 && sf == 1) ||
    (i > 0 && pmch[i - 1].sfAllocEnd + 1 == IndexFor(dedicated, tti, pmch[i]))
  }

  // It holds exactly at the first rank of the channel.
  lemma SignallingAtFirstRank(dedicated: bool, tti: nat, pmch: seq<Pmch>, i: nat)
    requires Listed(pmch) && i < |pmch| && GoodPeriod(dedicated, pmch[i].schedPeriod)
    requires IsMbsfn(dedicated, tti)
    ensures FirstOfChannel(dedicated, tti, pmch, i)
            <==> IndexFor(dedicated, tti, pmch[i]) == FirstRank(pmch, i)
  {
    var fn, sf := (tti / 10) % pmch[i].schedPeriod, tti % 10;
    PeriodStartMultiple(dedicated, tti, pmch[i].schedPeriod);
    if i == 0 { RankZero(dedicated, tti, fn, sf, PeriodStart(tti, pmch[i].schedPeriod)); }
  }

  lemma RankZero(dedicated: bool, tti: nat, fn: nat, sf: nat, start: nat)
    requires sf == tti % 10 && fn < 1024 && IsMbsfn(dedicated, tti)
    requires tti == start + fn * 10 + sf && (dedicated ==> start % 40 == 0)
    ensures IndexInPeriod(dedicated, fn, sf) == 0 <==> fn == 0 && sf == 1
  {
    if dedicated {
      SameDigit(start, fn * 10 + sf, 40);
      assert fn * 10 + sf != 0;
      assert fn * 10 + sf - fn / 4 - 1 >= 0;
    }
  }

  class Phy {
    var dedicated: bool
    var mcchConfigured: bool
    var mchConfigured: bool
    var decodeMcch: bool
    var areaId: int
    var nonMbsfnRegion: int
    var mcchRepeatPeriod: nat
    var mcchOffset: nat
    var sigMcs: int
    var mcchTable: seq<nat>
    var pmch: seq<Pmch>

    predicate Valid()
      reads this
    {
      mcchRepeatPeriod > 0 && |mcchTable| == 10 && Listed(pmch)
    }

    predicate IsMcchSubframe(tti: nat)
      reads this
      requires Valid()
    {
      (tti / 10) % mcchRepeatPeriod == mcchOffset && mcchTable[tti % 10] == 1
    }

    // MCCH comes once in a repetition period, in the frame at the offset, and there in exactly
    // the subframes that are set in the table.
    lemma McchInItsFrame(k: nat, sf: nat)
      requires Valid() && mcchOffset < mcchRepeatPeriod && sf < 10
      ensures k * mcchRepeatPeriod >= 0
      ensures IsMcchSubframe((k * mcchRepeatPeriod + mcchOffset) * 10 + sf) <==> mcchTable[sf] == 1
    {
      MulMonotone(mcchRepeatPeriod, 0, k);
      var frame := k * mcchRepeatPeriod + mcchOffset;
      DivModUnique(frame * 10 + sf, 10, frame, sf);
      DivModUnique(frame, mcchRepeatPeriod, k, mcchOffset);
    }

    lemma McchInNoOtherFrame(k: nat, offset: nat, sf: nat)
      requires Valid() && offset < mcchRepeatPeriod && offset != mcchOffset && sf < 10
      ensures k * mcchRepeatPeriod >= 0
      ensures !IsMcchSubframe((k * mcchRepeatPeriod + offset) * 10 + sf)
    {
      MulMonotone(mcchRepeatPeriod, 0, k);
      var frame := k * mcchRepeatPeriod + offset;
      DivModUnique(frame * 10 + sf, 10, frame, sf);
      DivModUnique(frame, mcchRepeatPeriod, k, offset);
    }

    // So the test is the one over frames, for every subframe.
    lemma McchExactly(tti: nat)
      requires Valid() && mcchOffset < mcchRepeatPeriod
      ensures IsMcchSubframe(tti)
              <==> mcchTable[tti % 10] == 1 && exists k: nat :: tti / 10 == k * mcchRepeatPeriod + mcchOffset
    {
      var k, offset := tti / 10 / mcchRepeatPeriod, tti / 10 % mcchRepeatPeriod;
      DivIdentity(tti / 10, mcchRepeatPeriod);
      DivIdentity(tti, 10);
      if k < 0 { MulMonotone(mcchRepeatPeriod, k, -1); }
      if offset == mcchOffset { McchInItsFrame(k, tti % 10); } else { McchInNoOtherFrame(k, offset, tti % 10); }
      if i: nat :| tti / 10 == i * mcchRepeatPeriod + mcchOffset {
        DivModUnique(tti / 10, mcchRepeatPeriod, i, mcchOffset);
      }
    }

    // Set in the table, and at the offset in some repetition period. An offset beyond the
    // period is at no subframe.
    ghost predicate McchAt(tti: nat)
      reads this
      requires Valid()
    {
      && mcchOffset < mcchRepeatPeriod && mcchTable[tti % 10] == 1
      && exists k: nat :: tti / 10 == k * mcchRepeatPeriod + mcchOffset
    }

    lemma McchAtExactly(tti: nat)
      requires Valid()
      ensures McchAt(tti) <==> IsMcchSubframe(tti)
    {
      if mcchOffset < mcchRepeatPeriod { McchExactly(tti); } else { DivIdentity(tti / 10, mcchRepeatPeriod); }
    }

    // The configuration of a subframe and, through the second result, its channel; when no
    // channel takes the subframe the caller's value is handed back.
    method MbsfnConfigForTti(tti: nat, area: nat, blank: Config) returns (cfg: Config, area': nat)
      requires Valid()
      ensures !mcchConfigured ==> !cfg.enable && !cfg.isMcch && area' == area
      ensures mcchConfigured && McchAt(tti) ==>
                area' == area && cfg.enable == cfg.isMcch == decodeMcch && (decodeMcch ==> cfg.mcs == sigMcs)
      ensures mcchConfigured && !McchAt(tti) ==>
                && !cfg.isMcch
                && (cfg.enable <==> mchConfigured && exists i :: Covers(dedicated, tti, pmch, i))
                && (cfg.enable ==> IsChannel(dedicated, tti, pmch, area')
                                   && cfg.mcs == if FirstOfChannel(dedicated, tti, pmch, area')
                                                 then sigMcs else pmch[area'].dataMcs)
                && (!cfg.enable ==> area' == area)
      ensures mcchConfigured ==> cfg.areaId == areaId && cfg.nonMbsfnRegion == nonMbsfnRegion
    {
      McchAtExactly(tti);
      area' := area;
      cfg := blank.(enable := false, isMcch := false);
      if !mcchConfigured { return; }
      var sfn, sf := tti / 10, tti % 10;
      cfg := cfg.(areaId := areaId, nonMbsfnRegion := nonMbsfnRegion);
      if sfn % mcchRepeatPeriod == mcchOffset && mcchTable[sf] == 1 {
        if decodeMcch {
          cfg := cfg.(mcs := sigMcs, enable := true, isMcch := true);
        }
      } else if mchConfigured {
        cfg := cfg.(areaId := areaId);
        var i := 0;
        while i < |pmch|
          invariant 0 <= i <= |pmch| && area' == area
          invariant !cfg.enable && !cfg.isMcch && cfg.areaId == areaId && cfg.nonMbsfnRegion == nonMbsfnRegion
          invariant forall j :: 0 <= j < i ==> !Covers(dedicated, tti, pmch, j)
        {
          var fn := sfn % pmch[i].schedPeriod;
          var index;
          if dedicated {
            index := (fn * 10 + sf - fn / 4 - 1) % 0x1_0000_0000;
          } else {
            index := (fn * 6 + (if sf < 6 then sf - 1 else sf - 3)) % 0x1_0000_0000;
          }
          assert index == IndexFor(dedicated, tti, pmch[i]);
          if index <= pmch[i].sfAllocEnd {
            area' := i;
            if (i == 0 && fn == 0 && sf == 1) || (i > 0 && pmch[i - 1].sfAllocEnd + 1 == index) {
              cfg := cfg.(mcs := sigMcs);
            } else {
              cfg := cfg.(mcs := pmch[i].dataMcs);
            }
            cfg := cfg.(enable := true);
            assert Covers(dedicated, tti, pmch, i);
            break;
          }
          i := i + 1;
        }
      }
    }
  }
}
