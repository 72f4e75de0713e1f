// The IPv4 header checksum that the gateway corrects before it passes a packet on (RFC 791
// section 3.1), in the one's complement arithmetic of RFC 1071.

module IpChecksum {
  import opened Machine
  import opened Powers

  type Word = w: int | 0 <= w < 0x1_0000

  // The order in which the host keeps the bytes of a word.
  datatype Order = BigEndian | LittleEndian

  function Join(order: Order, first: Byte, second: Byte): Word {
    if order.BigEndian? then first * 0x100 + second else second * 0x100 + first
  }

  function First(order: Order, w: Word): Byte {
    if order.BigEndian? then w / 0x100 else w % 0x100
  }

  function Second(order: Order, w: Word): Byte {
    if order.BigEndian? then w % 0x100 else w / 0x100
  }

  lemma JoinsBack(order: Order, w: Word, first: Byte, second: Byte)
    ensures Join(order, First(order, w), Second(order, w)) == w
    ensures First(order, Join(order, first, second)) == first && Second(order, Join(order, first, second)) == second
  {
  }

  function WordAt(order: Order, h: seq<Byte>, i: nat): Word
    requires 2 * i + 1 < |h|
  {
    Join(order, h[2 * i], h[2 * i + 1])
  }

  function Words(order: Order, h: seq<Byte>, from: nat, n: nat): (ws: seq<Word>)
    requires 2 * (from + n) <= |h|
    ensures |ws| == n
  {
    if n == 0 then [] else Words(order, h, from, n - 1) + [WordAt(order, h, from + n - 1)]
  }

  // ---- One's complement sums ----

  // Section 1 of RFC 1071: add, and bring a carry out of the top back in at the bottom.
  function OnesAdd(a: Word, b: Word): Word {
    if a + b >= 0x1_0000 then a + b - 0xFFFF else a + b
  }

  function OnesSum(ws: seq<Word>): Word {
    if ws == [] then 0 else OnesAdd(OnesSum(ws[..|ws| - 1]), ws[|ws| - 1])
  }

  function PlainSum(ws: seq<Word>): (s: nat)
    ensures s <= 0xFFFF * |ws|
  {
    if ws == [] then 0 else PlainSum(ws[..|ws| - 1]) + ws[|ws| - 1]
  }

  // Carries folded back until none is left.
  function EndAround(s: nat): Word {
    if s < 0x1_0000 then s else EndAround(s / 0x1_0000 + s % 0x1_0000)
  }

  // The one word that stands for s: zero only for zero, otherwise the remainder by 0xFFFF with
  // 0xFFFF in the place of zero.
  predicate StandsFor(w: Word, s: nat) {
    w % 0xFFFF == s % 0xFFFF && (w == 0 <==> s == 0)
  }

  lemma OnlyOneStands(v: Word, w: Word, s: nat)
    requires StandsFor(v, s) && StandsFor(w, s)
    ensures v == w
  {
  }

  lemma {:induction false} EndAroundStands(s: nat)
    ensures StandsFor(EndAround(s), s)
  {
    if s >= 0x1_0000 {
      EndAroundStands(s / 0x1_0000 + s % 0x1_0000);
    }
  }

  lemma {:induction false} OnesSumStands(ws: seq<Word>)
    ensures StandsFor(OnesSum(ws), PlainSum(ws))
  {
    if ws != [] {
      var n := |ws| - 1;
      OnesSumStands(ws[..n]);
      OnesAddStands(OnesSum(ws[..n]), ws[n], PlainSum(ws[..n]));
    }
  }

  lemma OnesAddStands(a: Word, w: Word, s: nat)
    requires StandsFor(a, s)
    ensures StandsFor(OnesAdd(a, w), s + w)
  {
    SameRemainder(a + w, s + w, s / 0xFFFF - a / 0xFFFF);
    SameRemainder(a + w - 0xFFFF, a + w, 1);
  }

  lemma SameRemainder(a: int, b: int, j: int)
    requires b == a + 0xFFFF * j
    ensures a % 0xFFFF == b % 0xFFFF
  {
  }

  // Adding with end-around carry at every step or only at the end is the same.
  lemma SumThenFold(ws: seq<Word>)
    ensures EndAround(PlainSum(ws)) == OnesSum(ws)
  {
    EndAroundStands(PlainSum(ws));
    OnesSumStands(ws);
    OnlyOneStands(EndAround(PlainSum(ws)), OnesSum(ws), PlainSum(ws));
  }

  // What the two folding statements leave in the low sixteen bits.
  function TwoFolds(s: nat): Word {
    var t := s / 0x1_0000 + s % 0x1_0000;
    (t + t / 0x1_0000) % 0x1_0000
  }

  // Two folds are enough for any sum below 2^32, that is of up to 65537 words.
  lemma TwoFoldsSuffice(s: nat)
    requires s <= 0xFFFF_FFFF
    ensures TwoFolds(s) == EndAround(s)
  {
    var t := s / 0x1_0000 + s % 0x1_0000;
    FoldsOnceMore(t);
    assert EndAround(s) == if s < 0x1_0000 then s else EndAround(t);
  }

  lemma FoldsOnceMore(t: nat)
    requires t <= 0x1_FFFE
    ensures (t + t / 0x1_0000) % 0x1_0000 == EndAround(t)
  {
    if t >= 0x1_0000 {
      DivModUnique(t, 0x1_0000, 1, t - 0x1_0000);
      DivModUnique(t + 1, 0x1_0000, 1, t - 0xFFFF);
      assert EndAround(t) == EndAround(t - 0xFFFF);
    }
  }

  // ---- The header ----

  const HEADER_BYTES := 20
  const UDP := 17

  // A receiver accepts a header whose ten words add up to all ones.
  predicate Verifies(order: Order, h: seq<Byte>)
    requires |h| >= HEADER_BYTES
  {
    OnesSum(Words(order, h, 0, 10)) == 0xFFFF
  }

  // The words but for the checksum.
  function Summed(order: Order, h: seq<Byte>): seq<Word>
    requires |h| >= HEADER_BYTES
  {
    Words(order, h, 0, 5) + Words(order, h, 6, 4)
  }

  function Check(order: Order, h: seq<Byte>): Word
    requires |h| >= HEADER_BYTES
  {
    0xFFFF - OnesSum(Summed(order, h))
  }

  function Stored(order: Order, h: seq<Byte>, c: Word): (h': seq<Byte>)
    requires |h| >= HEADER_BYTES
    ensures |h'| == |h| && WordAt(order, h', 5) == c
    ensures forall i :: 0 <= i < |h| && i != 10 && i != 11 ==> h'[i] == h[i]
  {
    h[10 := First(order, c)][11 := Second(order, c)]
  }

  function Corrected(order: Order, h: seq<Byte>): (h': seq<Byte>)
    requires |h| >= HEADER_BYTES
    ensures |h'| == |h|
  {
    if h[9] == UDP then Stored(order, h, Check(order, h)) else h
  }

  // ---- The nine additions ----

  lemma {:induction false} PlainSumConcat(a: seq<Word>, b: seq<Word>)
    ensures PlainSum(a + b) == PlainSum(a) + PlainSum(b)
  {
    if b == [] {
      assert a + b == a;
    } else {
      var k := |b| - 1;
      assert (a + b)[..|a| + k] == a + b[..k];
      PlainSumConcat(a, b[..k]);
    }
  }

  lemma WordsSum(order: Order, h: seq<Byte>, from: nat, n: nat)
    requires 0 < n && 2 * (from + n) <= |h|
    ensures PlainSum(Words(order, h, from, n))
            == PlainSum(Words(order, h, from, n - 1)) + WordAt(order, h, from + n - 1)
  {
    assert Words(order, h, from, n)[..n - 1] == Words(order, h, from, n - 1);
  }

  lemma FourWords(order: Order, h: seq<Byte>, from: nat)
    requires 2 * from + 8 <= |h|
    ensures PlainSum(Words(order, h, from, 4))
            == WordAt(order, h, from) + WordAt(order, h, from + 1) + WordAt(order, h, from + 2) + WordAt(order, h, from + 3)
  {
    WordsSum(order, h, from, 1);
    WordsSum(order, h, from, 2);
    WordsSum(order, h, from, 3);
    WordsSum(order, h, from, 4);
  }

  lemma LastFiveWords(order: Order, h: seq<Byte>, n: nat)
    requires 2 * n + 10 <= |h|
    ensures PlainSum(Words(order, h, 0, n + 5))
            == PlainSum(Words(order, h, 0, n)) + WordAt(order, h, n) + WordAt(order, h, n + 1) + WordAt(order, h, n + 2)
               + WordAt(order, h, n + 3) + WordAt(order, h, n + 4)
  {
    WordsSum(order, h, 0, n + 1);
    WordsSum(order, h, 0, n + 2);
    WordsSum(order, h, 0, n + 3);
    WordsSum(order, h, 0, n + 4);
    WordsSum(order, h, 0, n + 5);
  }

  lemma HeaderSum(order: Order, h: seq<Byte>)
    requires |h| >= HEADER_BYTES
    ensures PlainSum(Summed(order, h))
            == WordAt(order, h, 0) + WordAt(order, h, 1) + WordAt(order, h, 2) + WordAt(order, h, 3)
               + WordAt(order, h, 4) + WordAt(order, h, 6) + WordAt(order, h, 7) + WordAt(order, h, 8)
               + WordAt(order, h, 9)
  {
    FourWords(order, h, 0);
    WordsSum(order, h, 0, 5);
    FourWords(order, h, 6);
    PlainSumConcat(Words(order, h, 0, 5), Words(order, h, 6, 4));
  }

  lemma WholeHeaderSum(order: Order, h: seq<Byte>)
    requires |h| >= HEADER_BYTES
    ensures PlainSum(Words(order, h, 0, 10)) == PlainSum(Summed(order, h)) + WordAt(order, h, 5)
  {
    LastFiveWords(order, h, 5);
    FourWords(order, h, 6);
    PlainSumConcat(Words(order, h, 0, 5), Words(order, h, 6, 4));
  }

  // The folded sum, inverted and cut to sixteen bits.
  lemma FoldingChecks(order: Order, h: seq<Byte>)
    requires |h| >= HEADER_BYTES
    ensures var s := PlainSum(Summed(order, h));
            var t := s / 0x1_0000 + s % 0x1_0000;
            (-(t + t / 0x1_0000) - 1) % 0x1_0000 == Check(order, h)
  {
    var s := PlainSum(Summed(order, h));
    TwoFoldsSuffice(s);
    SumThenFold(Summed(order, h));
    var t := s / 0x1_0000 + s % 0x1_0000;
    var u := t + t / 0x1_0000;
    assert u % 0x1_0000 == TwoFolds(s) == OnesSum(Summed(order, h));
    InvertLow(u);
  }

  lemma InvertLow(x: int)
    ensures (-x - 1) % 0x1_0000 == 0xFFFF - x % 0x1_0000
  {
  }

  method SumHeader(order: Order, msg: array<Byte>) returns (sum: int)
    requires msg.Length >= HEADER_BYTES
    ensures sum == PlainSum(Summed(order, msg[..])) <= 9 * 0xFFFF
  {
    HeaderSum(order, msg[..]);
    sum := 0;
    sum := sum + Join(order, msg[0], msg[1]);
    sum := sum + Join(order, msg[2], msg[3]);
    sum := sum + Join(order, msg[4], msg[5]);
    sum := sum + Join(order, msg[6], msg[7]);
    sum := sum + Join(order, msg[8], msg[9]);
    sum := sum + Join(order, msg[12], msg[13]);
    sum := sum + Join(order, msg[14], msg[15]);
    sum := sum + Join(order, msg[16], msg[17]);
    sum := sum + Join(order, msg[18], msg[19]);
  }

  // The correction in the receiver's message buffer.
  method CorrectChecksum(order: Order, msg: array<Byte>)
    requires msg.Length >= HEADER_BYTES
    modifies msg
    ensures msg[..] == Corrected(order, old(msg[..]))
  {
    if msg[9] == UDP {
      ghost var h := msg[..];
      var sum := SumHeader(order, msg);
      sum := sum / 0x1_0000 + sum % 0x1_0000;
      sum := sum + sum / 0x1_0000;
      var chk: Word := (-sum - 1) % 0x1_0000;
      FoldingChecks(order, h);
      JoinsBack(order, chk, msg[10], msg[11]);
      if Join(order, msg[10], msg[11]) != chk {
        msg[10], msg[11] := First(order, chk), Second(order, chk);
      }
      assert msg[..] == Stored(order, h, chk);
    }
  }

  // ---- What the correction achieves ----

  lemma {:induction false} WordsAgree(order: Order, h: seq<Byte>, h': seq<Byte>, from: nat, n: nat)
    requires |h| == |h'| && 2 * (from + n) <= |h|
    requires forall i :: 2 * from <= i < 2 * (from + n) ==> h'[i] == h[i]
    ensures Words(order, h', from, n) == Words(order, h, from, n)
  {
    if n > 0 {
      WordsAgree(order, h, h', from, n - 1);
    }
  }

  lemma SummedIgnoresCheck(order: Order, h: seq<Byte>, h': seq<Byte>)
    requires |h| == |h'| >= HEADER_BYTES
    requires forall i :: 0 <= i < HEADER_BYTES && i != 10 && i != 11 ==> h'[i] == h[i]
    ensures Summed(order, h') == Summed(order, h)
  {
    WordsAgree(order, h, h', 0, 5);
    WordsAgree(order, h, h', 6, 4);
  }

  // Which checksum words make the header verify.
  lemma VerifiesWhen(order: Order, h: seq<Byte>)
    requires |h| >= HEADER_BYTES
    ensures var e, c := OnesSum(Summed(order, h)), WordAt(order, h, 5);
            Verifies(order, h) <==> c == 0xFFFF - e || (e == 0xFFFF && c == 0xFFFF)
  {
    WholeHeaderSum(order, h);
    OnesSumStands(Summed(order, h));
    OnesSumStands(Words(order, h, 0, 10));
    AllOnesWhen(OnesSum(Words(order, h, 0, 10)), OnesSum(Summed(order, h)), PlainSum(Summed(order, h)), WordAt(order, h, 5));
  }

  lemma AllOnesWhen(total: Word, e: Word, s: nat, c: Word)
    requires StandsFor(e, s) && StandsFor(total, s + c)
    ensures total == 0xFFFF <==> s + c > 0 && (e + c) % 0xFFFF == 0
    ensures total == 0xFFFF <==> c == 0xFFFF - e || (e == 0xFFFF && c == 0xFFFF)
  {
    SameRemainder(e + c, s + c, s / 0xFFFF - e / 0xFFFF);
  }

  // After the correction the ten words of a UDP packet's header add up to all ones, nothing but
  // the checksum has changed, and a second correction changes nothing.
  lemma CorrectedVerifies(order: Order, h: seq<Byte>)
    requires |h| >= HEADER_BYTES && h[9] == 17
    ensures var h' := Corrected(order, h);
            && Verifies(order, h')
            && (forall i :: 0 <= i < |h| && i != 10 && i != 11 ==> h'[i] == h[i])
            && Corrected(order, h') == h'
  {
    var h' := Corrected(order, h);
    SummedIgnoresCheck(order, h, h');
    VerifiesWhen(order, h');
    assert Stored(order, h', WordAt(order, h', 5)) == h';
  }

  // A header that does not carry UDP is not touched.
  lemma OthersAreNotTouched(order: Order, h: seq<Byte>)
    requires |h| >= HEADER_BYTES
    ensures h[9] != 17 ==> Corrected(order, h) == h
    ensures h[9] == 17 ==> WordAt(order, Corrected(order, h), 5) == Check(order, h)
  {
  }

  // A UDP header is left alone exactly if it verifies already, but for one case: a checksum of
  // all ones over words that themselves add up to all ones, which becomes zero.
  lemma LeftAloneWhen(order: Order, h: seq<Byte>)
    requires |h| >= HEADER_BYTES && h[9] == UDP
    ensures Corrected(order, h) == h
            <==> Verifies(order, h) && !(WordAt(order, h, 5) == 0xFFFF && OnesSum(Summed(order, h)) == 0xFFFF)
  {
    VerifiesWhen(order, h);
    JoinsBack(order, Check(order, h), h[10], h[11]);
  }

  // Such a header: the other words are 0x4500, 0x0011 and 0xBAEE.
  lemma VerifiesButRewritten(h: seq<Byte>)
    requires h == [0x45, 0, 0, 0, 0, 0, 0, 0, 0, 0x11, 0xFF, 0xFF, 0xBA, 0xEE, 0, 0, 0, 0, 0, 0]
    ensures Verifies(BigEndian, h) && Corrected(BigEndian, h) != h
    ensures WordAt(BigEndian, Corrected(BigEndian, h), 5) == 0
  {
    HeaderSum(BigEndian, h);
    OnesSumStands(Summed(BigEndian, h));
    VerifiesWhen(BigEndian, h);
    LeftAloneWhen(BigEndian, h);
  }

  // The one-word sum of a UDP header is never zero, so the checksum written is never all ones.
  lemma NeverAllOnes(order: Order, h: seq<Byte>)
    requires |h| >= HEADER_BYTES && h[9] == UDP
    ensures Check(order, h) != 0xFFFF
  {
    HeaderSum(order, h);
    OnesSumStands(Summed(order, h));
  }

  // ---- Byte order ----

  function Swap(w: Word): Word {
    w % 0x100 * 0x100 + w / 0x100
  }

  // Exchanging the bytes multiplies by 256 up to multiples of 0xFFFF.
  lemma {:induction false} SwappedSum(ws: seq<Word>, vs: seq<Word>) returns (k: nat)
    requires |ws| == |vs| && forall i :: 0 <= i < |ws| ==> vs[i] == Swap(ws[i])
    ensures PlainSum(vs) + 0xFFFF * k == 0x100 * PlainSum(ws)
    ensures PlainSum(vs) == 0 <==> PlainSum(ws) == 0
  {
    if ws == [] {
      return 0;
    }
    var n := |ws| - 1;
    k := SwappedSum(ws[..n], vs[..n]);
    k := k + ws[n] / 0x100;
  }

  lemma SwappedOnesSum(ws: seq<Word>, vs: seq<Word>)
    requires |ws| == |vs| && forall i :: 0 <= i < |ws| ==> vs[i] == Swap(ws[i])
    ensures OnesSum(vs) == Swap(OnesSum(ws))
  {
    var k := SwappedSum(ws, vs);
    OnesSumStands(ws);
    OnesSumStands(vs);
    SwapStands(OnesSum(ws), PlainSum(ws), PlainSum(vs), k);
    OnlyOneStands(OnesSum(vs), Swap(OnesSum(ws)), PlainSum(vs));
  }

  lemma SwapStands(w: Word, s: nat, s': nat, k: nat)
    requires StandsFor(w, s) && s' + 0xFFFF * k == 0x100 * s && (s' == 0 <==> s == 0)
    ensures StandsFor(Swap(w), s')
  {
    var j := s / 0xFFFF - w / 0xFFFF;
    assert s == w + 0xFFFF * j;
    SameRemainder(Swap(w), s', 0x100 * j - k + w / 0x100);
  }

  // The bytes of the corrected header do not depend on the order in which the host reads them.
  lemma ByteOrderIndependent(h: seq<Byte>)
    requires |h| >= HEADER_BYTES
    ensures Corrected(BigEndian, h) == Corrected(LittleEndian, h)
    ensures Verifies(BigEndian, h) <==> Verifies(LittleEndian, h)
  {
    SwappedWords(h, 0, 10);
    SwappedWords(h, 0, 5);
    SwappedWords(h, 6, 4);
    SwappedOnesSum(Summed(LittleEndian, h), Summed(BigEndian, h));
    SwappedOnesSum(Words(LittleEndian, h, 0, 10), Words(BigEndian, h, 0, 10));
    var e := OnesSum(Summed(LittleEndian, h));
    SwappedCheck(e);
    SwappedCheck(OnesSum(Words(LittleEndian, h, 0, 10)));
    assert Check(BigEndian, h) == 0xFFFF - Swap(e) && Check(LittleEndian, h) == 0xFFFF - e;
  }

  lemma {:induction false} SwappedWords(h: seq<Byte>, from: nat, n: nat)
    requires 2 * (from + n) <= |h|
    ensures forall i :: 0 <= i < n ==> Words(BigEndian, h, from, n)[i] == Swap(Words(LittleEndian, h, from, n)[i])
  {
    if n > 0 {
      SwappedWords(h, from, n - 1);
    }
  }

  lemma SwappedCheck(e: Word)
    ensures First(BigEndian, 0xFFFF - Swap(e)) == First(LittleEndian, 0xFFFF - e)
    ensures Second(BigEndian, 0xFFFF - Swap(e)) == Second(LittleEndian, 0xFFFF - e)
    ensures Swap(e) == 0xFFFF <==> e == 0xFFFF
  {
    var q, r := e / 0x100, e % 0x100;
    DivModUnique(0xFFFF - e, 0x100, 0xFF - q, 0xFF - r);
    DivModUnique(0xFFFF - Swap(e), 0x100, 0xFF - r, 0xFF - q);
  }
}
