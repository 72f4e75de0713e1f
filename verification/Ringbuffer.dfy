// The multichannel ring buffer between the SDR thread and the main loop: the values it goes
// through, the class that holds them, and the protocol of one producer and one consumer.

module Ringbuffer {
  import opened Machine
  import opened Powers

  datatype Ring = Ring(buffers: seq<seq<Byte>>, size: nat, head: nat, used: nat) {

    predicate Valid() {
      0 < size && head < size && used <= size && forall ch :: 0 <= ch < |buffers| ==> |buffers[ch]| == size
    }

    // What a reader of channel ch would get next.
    function Contents(ch: nat): (s: seq<Byte>)
      requires Valid() && ch < |buffers|
      ensures |s| == used
    {
      seq(used, i requires 0 <= i < used => buffers[ch][Wrap(head + i, size)])
    }

    function Tail(): nat
      requires Valid()
    {
      (head + used) % size
    }

    // The contiguous region offered to the producer.
    function Writeable(): nat
      requires Valid()
    {
      if size == used then 0
      else if Tail() < head then head - Tail()
      else size - Tail()
    }

    function Commit(written: nat): Ring
      requires written <= size - used
    {
      this.(used := used + written)
    }

    function Read(n: nat): Ring
      requires Valid() && 0 < n <= used
    {
      this.(head := (head + n) % size, used := used - n)
    }

    function Write(ch: nat, at: nat, b: Byte): Ring
      requires ch < |buffers| && at < |buffers[ch]|
    {
      var channel: seq<Byte> := buffers[ch][at := b];
      this.(buffers := buffers[ch := channel])
    }

    // The position holds a byte that is still to be read.
    predicate Readable(p: nat)
      requires Valid()
    {
      p < size && if head + used <= size then head <= p < head + used else p >= head || p < head + used - size
    }
  }

  lemma TailIsWrap(r: Ring)
    requires r.Valid()
    ensures r.Tail() == Wrap(r.head + r.used, r.size) < r.size
  {
    WrapIsMod(r.head + r.used, r.size);
  }

  // The offered region fits the buffer, is free, and is not empty unless the buffer is full.
  lemma OfferIsFree(r: Ring)
    requires r.Valid()
    ensures r.Tail() + r.Writeable() <= r.size && r.Writeable() <= r.size - r.used
    ensures r.Writeable() == 0 <==> r.used == r.size
    ensures forall p :: r.Tail() <= p < r.Tail() + r.Writeable() ==> !r.Readable(p)
  {
    TailIsWrap(r);
  }

  // And it is the longest such region: nothing that starts at the tail, fits the buffer and is
  // free reaches further.
  lemma OfferIsLongest(r: Ring, n: nat)
    requires r.Valid() && r.used < r.size && r.Tail() + n <= r.size
    requires forall p :: r.Tail() <= p < r.Tail() + n ==> !r.Readable(p)
    ensures n <= r.Writeable()
  {
    TailIsWrap(r);
    if n > r.Writeable() {
      assert r.Readable(r.Tail() + r.Writeable());
    }
  }

  // Committing extends what can be read by the bytes written at the tail.
  lemma CommitAppends(r: Ring, n: nat, ch: nat)
    requires r.Valid() && ch < |r.buffers| && r.Tail() + n <= r.size && n <= r.size - r.used
    ensures r.Commit(n).Valid()
    ensures r.Commit(n).Contents(ch) == r.Contents(ch) + r.buffers[ch][r.Tail()..r.Tail() + n]
  {
    TailIsWrap(r);
    var s := r.Commit(n).Contents(ch);
    var t := r.Contents(ch) + r.buffers[ch][r.Tail()..r.Tail() + n];
    forall i | 0 <= i < |s| ensures s[i] == t[i] {
      if i >= r.used {
        assert Wrap(r.head + i, r.size) == r.Tail() + (i - r.used);
      }
    }
  }

  // Reading takes bytes off the front and leaves the tail where it is.
  lemma ReadTakes(r: Ring, n: nat, ch: nat)
    requires r.Valid() && 0 < n <= r.used && ch < |r.buffers|
    ensures r.Read(n).Valid() && r.Read(n).Tail() == r.Tail()
    ensures r.Read(n).Contents(ch) == r.Contents(ch)[n..]
    ensures forall p :: r.Read(n).Readable(p) ==> r.Readable(p)
  {
    var r' := r.Read(n);
    WrapIsMod(r.head + n, r.size);
    TailIsWrap(r);
    TailIsWrap(r');
    var s, t := r'.Contents(ch), r.Contents(ch)[n..];
    forall i | 0 <= i < |s| ensures s[i] == t[i] {
      assert Wrap(r'.head + i, r.size) == Wrap(r.head + (n + i), r.size);
    }
  }

  // Writing to a position that is not readable changes nothing that can be read.
  lemma WriteIsInvisible(r: Ring, ch: nat, at: nat, b: Byte, other: nat)
    requires r.Valid() && ch < |r.buffers| && at < r.size && !r.Readable(at) && other < |r.buffers|
    ensures r.Write(ch, at, b).Valid()
    ensures r.Write(ch, at, b).Contents(other) == r.Contents(other)
  {
    var r' := r.Write(ch, at, b);
    var s, t := r'.Contents(other), r.Contents(other);
    forall i | 0 <= i < |s| ensures s[i] == t[i] {
      assert r.Readable(Wrap(r.head + i, r.size));
    }
  }

  // The two copies made by a read cover exactly the bytes asked for when something is asked
  // for. A request for nothing is taken for a wrap-around: the first copy takes everything up
  // to the end of the buffer, and the length of the second is negative.
  function FirstPart(head: nat, size: nat, n: nat): int
    requires size > 0
  {
    if (head + n) % size <= head then size - head else n
  }

  lemma PartsFitExactly(r: Ring, n: nat)
    requires r.Valid() && n <= r.used
    ensures var first := FirstPart(r.head, r.size, n);
            0 <= first <= n && r.head + first <= r.size <==> n > 0
  {
    WrapIsMod(r.head + n, r.size);
  }

  class MultichannelRingbuffer {
    const size: nat
    const channels: nat
    const buffers: array2<Byte>
    var head: nat
    var used: nat

    ghost predicate Shaped()
      reads this
    {
      buffers.Length0 == channels && buffers.Length1 == size
    }

    ghost function Row(ch: nat): (s: seq<Byte>)
      reads this, buffers
      requires Shaped() && ch < channels
      ensures |s| == size && forall i :: 0 <= i < size ==> s[i] == buffers[ch, i]
    {
      seq(size, i requires 0 <= i < size reads this, buffers => buffers[ch, i])
    }

    ghost function Rows(n: nat): (s: seq<seq<Byte>>)
      reads this, buffers
      requires Shaped() && n <= channels
      ensures |s| == n && forall ch :: 0 <= ch < n ==> s[ch] == Row(ch)
    {
      if n == 0 then [] else Rows(n - 1) + [Row(n - 1)]
    }

    // The state as a value.
    ghost function State(): Ring
      reads this, buffers
      requires Shaped()
    {
      Ring(Rows(channels), size, head, used)
    }

    ghost predicate Valid()
      reads this, buffers
    {
      Shaped() && State().Valid()
    }

    twostate lemma SameRows()
      requires Shaped() && unchanged(buffers)
      ensures State().buffers == old(State().buffers)
    {
      forall ch | 0 <= ch < channels ensures Row(ch) == old(Row(ch)) {}
    }

    constructor (size: nat, channels: nat)
      requires size > 0
      ensures Valid() && fresh(buffers)
      ensures this.size == size && this.channels == channels && head == 0 && used == 0
    {
      this.size, this.channels := size, channels;
      this.buffers := new Byte[channels, size];
      this.head, this.used := 0, 0;
    }

    method FreeSize() returns (n: nat)
      requires Valid()
      ensures n == size - used
    {
      n := size - used;
    }

    method Clear()
      requires Valid()
      modifies this`head, this`used
      ensures Valid() && State() == old(State()).(head := 0, used := 0)
    {
      head, used := 0, 0;
      SameRows();
    }

    // Where the producer may write, the same offset on every channel, and how much.
    method WriteHead() returns (at: nat, writeable: nat)
      requires Valid()
      ensures writeable == State().Writeable()
      ensures writeable > 0 ==> at == State().Tail()
    {
      at := 0;
      if size == used {
        writeable := 0;
      } else {
        var tail := (head + used) % size;
        if tail < head {
          writeable := head - tail;
        } else {
          TailIsWrap(State());
          writeable := size - tail;
        }
        at := tail;
      }
    }

    // The device stores bytes of one channel through the pointer it was given.
    method Fill(ch: nat, at: nat, data: seq<Byte>)
      requires Valid() && ch < channels && at + |data| <= size
      modifies buffers
      ensures Valid()
      ensures forall c, i :: 0 <= c < channels && 0 <= i < size ==>
                State().buffers[c][i] == if c == ch && at <= i < at + |data| then data[i - at] else old(State()).buffers[c][i]
    {
      forall i | 0 <= i < |data| {
        buffers[ch, at + i] := data[i];
      }
    }

    method Commit(written: nat)
      requires Valid() && written <= size - used
      modifies this`used
      ensures Valid() && State() == old(State()).Commit(written)
    {
      used := used + written;
      SameRows();
    }

    // memcpy on every channel.
    method CopyBlock(dest: array2<Byte>, at: nat, from: nat, n: nat)
      requires Shaped() && from + n <= size
      requires dest != buffers && dest.Length0 >= channels && dest.Length1 >= at + n
      modifies dest
      ensures forall ch, i :: 0 <= ch < dest.Length0 && 0 <= i < dest.Length1 ==>
                dest[ch, i] == if ch < channels && at <= i < at + n then buffers[ch, from + i - at] else old(dest[ch, i])
    {
      forall ch, i | 0 <= ch < channels && at <= i < at + n {
        dest[ch, i] := buffers[ch, from + i - at];
      }
    }

    // Copies to the destination, in one piece or in two around the end of the buffer.
    method CopyOut(dest: array2<Byte>, n: nat)
      requires Shaped() && head < size && 0 < n <= size
      requires dest != buffers && dest.Length0 >= channels && dest.Length1 >= n
      modifies dest
      ensures forall ch, i :: 0 <= ch < channels && 0 <= i < n ==> dest[ch, i] == buffers[ch, Wrap(head + i, size)]
      ensures forall ch, i :: 0 <= ch < dest.Length0 && n <= i < dest.Length1 ==> dest[ch, i] == old(dest[ch, i])
    {
      WrapIsMod(head + n, size);
      var firstPart := FirstPart(head, size, n);
      CopyBlock(dest, 0, head, firstPart);
      if (head + n) % size <= head {
        var secondPart := n - firstPart;
        CopyBlock(dest, firstPart, 0, secondPart);
      }
    }

    method Read(dest: array2<Byte>, n: nat)
      requires Valid() && 0 < n <= used
      requires dest != buffers && dest.Length0 >= channels && dest.Length1 >= n
      modifies this`head, this`used, dest
      ensures Valid() && State() == old(State()).Read(n)
      ensures forall ch, i :: 0 <= ch < channels && 0 <= i < n ==> dest[ch, i] == old(State()).Contents(ch)[i]
      ensures forall ch, i :: 0 <= ch < dest.Length0 && n <= i < dest.Length1 ==> dest[ch, i] == old(dest[ch, i])
    {
      ghost var r := State();
      CopyOut(dest, n);
      SameRows();
      forall ch, i | 0 <= ch < channels && 0 <= i < n ensures dest[ch, i] == r.Contents(ch)[i] {
        assert dest[ch, i] == Row(ch)[Wrap(head + i, size)];
      }
      WrapIsMod(head + n, size);
      head := (head + n) % size;
      used := used - n;
      SameRows();
    }
  }
}
