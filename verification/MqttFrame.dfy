/**
 The message frame between the MQTT sink and source: a 1024-byte header with the sizes of
 the memories and the timestamps, followed by the bytes of all memories.
 */
module MqttFrame {
  import opened Bytes
  import opened Options

  const HEADER_SIZE: nat := 1024
  const MAX_MEMS: nat := 16

  // Layout of GstMQTTMessageHdr (little endian, 64-bit sizes).
  const NUM_MEMS: nat := 0
  const SIZE_MEMS: nat := 8
  const BASE_TIME_EPOCH: nat := 136
  const SENT_TIME_EPOCH: nat := 144
  const DURATION: nat := 152
  const DTS: nat := 160
  const PTS: nat := 168
  const CAPS_STR: nat := 176

  /** `GST_CLOCK_TIME_NONE` */
  const CLOCK_TIME_NONE: Word64 := 0xFFFF_FFFF_FFFF_FFFF

  type Header = h: Block | |h| == HEADER_SIZE witness seq(HEADER_SIZE, _ => 0)

  /** Timestamps of a buffer, as unsigned 64-bit values. */
  datatype Stamps = Stamps(pts: Word64, dts: Word64, duration: Word64)

  const NO_STAMPS: Stamps := Stamps(CLOCK_TIME_NONE, CLOCK_TIME_NONE, CLOCK_TIME_NONE)

  /** Two's complement reading of a 64-bit value. */
  function Signed64(w: Word64): int
  {
    if w < TWO_63 then w else w - TWO_64
  }

  type Epoch = e: int | -TWO_63 <= e < TWO_63

  // ----- header fields -----

  function SizeOffset(i: nat): (off: nat)
    requires i < MAX_MEMS
    ensures SIZE_MEMS <= off && off + 8 <= BASE_TIME_EPOCH
  {
    SIZE_MEMS + 8 * i
  }

  lemma Get64Frame(m: Block, off: nat, b: Block, at: nat)
    requires off + |b| <= |m| && at + 8 <= |m| && (at + 8 <= off || off + |b| <= at)
    ensures Get64(Put(m, off, b), at) == Get64(m, at)
  {
  }

  lemma Get32Frame(m: Block, off: nat, b: Block, at: nat)
    requires off + |b| <= |m| && at + 4 <= |m| && (at + 4 <= off || off + |b| <= at)
    ensures Get32(Put(m, off, b), at) == Get32(m, at)
  {
  }

  /** The header describes a buffer of these memories. */
  predicate Describes(h: Block, mems: seq<Block>)
    requires |h| >= HEADER_SIZE
  {
    && |mems| <= MAX_MEMS
    && Get32(h, NUM_MEMS) == |mems|
    && forall i :: 0 <= i < |mems| ==> Get64(h, SizeOffset(i)) == |mems[i]|
  }

  /** The header carries these timestamps and epochs. */
  predicate Stamped(h: Block, base: Epoch, sent: Epoch, s: Stamps)
    requires |h| >= HEADER_SIZE
  {
    && Signed64(Get64(h, BASE_TIME_EPOCH)) == base && Signed64(Get64(h, SENT_TIME_EPOCH)) == sent
    && Get64(h, DURATION) == s.duration && Get64(h, DTS) == s.dts && Get64(h, PTS) == s.pts
  }

  // ----- sink -----

  /** `_mqtt_set_msg_buf_hdr` */
  method SetMsgBufHdr(h0: Header, mems: seq<Block>) returns (h: Header)
    requires |mems| <= MAX_MEMS && forall i :: 0 <= i < |mems| ==> |mems[i]| < TWO_64
    ensures Describes(h, mems)
    ensures h[BASE_TIME_EPOCH..] == h0[BASE_TIME_EPOCH..]
  {
    hide Put, Get32, Get64;
    h := Put32(h0, NUM_MEMS, |mems|);
    Get32OfPut(h0, NUM_MEMS, |mems|);
    SliceAfterPut(h0, NUM_MEMS, Le32(|mems|), BASE_TIME_EPOCH, HEADER_SIZE);
    assert h[BASE_TIME_EPOCH..] == h[BASE_TIME_EPOCH..HEADER_SIZE];
    assert h0[BASE_TIME_EPOCH..] == h0[BASE_TIME_EPOCH..HEADER_SIZE];
    for i := 0 to |mems|
      invariant Get32(h, NUM_MEMS) == |mems|
      invariant forall k :: 0 <= k < i ==> Get64(h, SizeOffset(k)) == |mems[k]|
      invariant h[BASE_TIME_EPOCH..] == h0[BASE_TIME_EPOCH..]
    {
      ghost var before := h;
      var size: Word64 := |mems[i]|;
      h := Put64(h, SizeOffset(i), size);
      Get64OfPut(before, SizeOffset(i), size);
      Get32Frame(before, SizeOffset(i), Le64(size), NUM_MEMS);
      forall k | 0 <= k < i ensures Get64(h, SizeOffset(k)) == |mems[k]| {
        Get64Frame(before, SizeOffset(i), Le64(size), SizeOffset(k));
      }
      SliceAfterPut(before, SizeOffset(i), Le64(size), BASE_TIME_EPOCH, HEADER_SIZE);
      assert h[BASE_TIME_EPOCH..] == h[BASE_TIME_EPOCH..HEADER_SIZE];
      assert before[BASE_TIME_EPOCH..] == before[BASE_TIME_EPOCH..HEADER_SIZE];
    }
  }

  lemma WrapSigned(e: Epoch)
    ensures Signed64(Wrap64(e)) == e
  {
  }

  /** Writing a 64-bit field of the time part leaves the memory sizes and the other fields alone. */
  lemma TimeFieldWritten(m: Block, off: nat, v: Word64)
    requires |m| >= HEADER_SIZE && BASE_TIME_EPOCH <= off && off + 8 <= HEADER_SIZE
    ensures var p := Put64(m, off, v);
            && Get64(p, off) == v
            && (forall at :: 0 <= at && at + 8 <= |m| && (at + 8 <= off || off + 8 <= at) ==>
                  Get64(p, at) == Get64(m, at))
            && (forall mems: seq<Block> :: Describes(m, mems) ==> Describes(p, mems))
            && (off + 8 <= CAPS_STR ==> p[CAPS_STR..] == m[CAPS_STR..])
  {
    hide Put, Get32, Get64;
    var p := Put64(m, off, v);
    Get64OfPut(m, off, v);
    forall at | 0 <= at && at + 8 <= |m| && (at + 8 <= off || off + 8 <= at) ensures Get64(p, at) == Get64(m, at) {
      Get64Frame(m, off, Le64(v), at);
    }
    Get32Frame(m, off, Le64(v), NUM_MEMS);
    if off + 8 <= CAPS_STR {
      SliceAfterPut(m, off, Le64(v), CAPS_STR, |m|);
      assert p[CAPS_STR..] == p[CAPS_STR..|m|] && m[CAPS_STR..] == m[CAPS_STR..|m|];
    }
  }

  /** `_put_timestamp_to_msg_buf_hdr`, into the header at the front of the message buffer. */
  method PutTimestamp(m0: Block, base: Epoch, sent: Epoch, s: Stamps) returns (m: Block)
    requires |m0| >= HEADER_SIZE
    ensures |m| == |m0| && m[CAPS_STR..] == m0[CAPS_STR..]
    ensures Stamped(m, base, sent, s)
    ensures forall mems: seq<Block> :: Describes(m0, mems) ==> Describes(m, mems)
  {
    hide Put64, Get64, Describes, Wrap64, Signed64;
    WrapSigned(base);
    WrapSigned(sent);
    TimeFieldWritten(m0, BASE_TIME_EPOCH, Wrap64(base));
    m := Put64(m0, BASE_TIME_EPOCH, Wrap64(base));
    TimeFieldWritten(m, SENT_TIME_EPOCH, Wrap64(sent));
    m := Put64(m, SENT_TIME_EPOCH, Wrap64(sent));
    TimeFieldWritten(m, DURATION, s.duration);
    m := Put64(m, DURATION, s.duration);
    TimeFieldWritten(m, DTS, s.dts);
    m := Put64(m, DTS, s.dts);
    TimeFieldWritten(m, PTS, s.pts);
    m := Put64(m, PTS, s.pts);
  }

  /** A well-formed message for a buffer. */
  predicate Frames(msg: Block, mems: seq<Block>, base: Epoch, sent: Epoch, s: Stamps)
  {
    && |msg| >= HEADER_SIZE
    && Describes(msg, mems)
    && Stamped(msg, base, sent, s)
    && msg[HEADER_SIZE..] == Flatten(mems)
  }

  class MqttSink {
    const baseTimeEpoch: Epoch
    /** Reused between renders; the caps string in it is set elsewhere. */
    var header: Header
    /** The message buffer, dynamically sized: it only grows. */
    var msgBuf: Option<Block>

    constructor (base: Epoch, header: Header)
      ensures baseTimeEpoch == base && msgBuf == None
    {
      baseTimeEpoch, this.header, msgBuf := base, header, None;
    }

    /**
     Message assembly of `gst_mqtt_sink_render`. The buffer may hold anything from earlier
     renders; only header and data of this one are sent.
     */
    method Render(mems: seq<Block>, s: Stamps, sent: Epoch) returns (msg: Block)
      requires |mems| <= MAX_MEMS && HEADER_SIZE + |Flatten(mems)| < TWO_64
      modifies this
      ensures Frames(msg, mems, baseTimeEpoch, sent, s)
      ensures msg[CAPS_STR..HEADER_SIZE] == old(header)[CAPS_STR..] == header[CAPS_STR..]
      ensures msgBuf.Some? && |msgBuf.value| >= HEADER_SIZE + |Flatten(mems)|
      ensures old(msgBuf).Some? ==> |msgBuf.value| >= |old(msgBuf).value|
    {
      hide Flatten, Put, Stamped;
      var data := Flatten(mems);
      var needed := HEADER_SIZE + |data|;
      if msgBuf.Some? && |msgBuf.value| != 0 && |msgBuf.value| < needed {
        msgBuf := None;
      }
      if msgBuf.None? || |msgBuf.value| == 0 {
        msgBuf := Some(seq(needed, _ => 0));
      }
      EachFits(mems);
      var h := SetMsgBufHdr(header, mems);
      CapsKept(header, h);
      header := h;
      var buf' := Put(msgBuf.value, 0, h);
      DescribesPrefix(h, buf', mems);
      var stamped := PutTimestamp(buf', baseTimeEpoch, sent, s);
      var buf := Put(stamped, HEADER_SIZE, data);
      msgBuf := Some(buf);
      msg := buf[..needed];
      assert buf[..HEADER_SIZE] == stamped[..HEADER_SIZE];
      assert msg[..HEADER_SIZE] == stamped[..HEADER_SIZE];
      HeaderOnly(stamped, msg, mems, baseTimeEpoch, sent, s);
      CapsSent(h, buf', stamped, msg);
      assert msg[HEADER_SIZE..] == buf[HEADER_SIZE..HEADER_SIZE + |data|];
    }
  }

  lemma CapsKept(a: Header, b: Header)
    requires a[BASE_TIME_EPOCH..] == b[BASE_TIME_EPOCH..]
    ensures a[CAPS_STR..] == b[CAPS_STR..]
  {
  }

  lemma CapsSent(h: Header, copied: Block, stamped: Block, msg: Block)
    requires |copied| >= HEADER_SIZE && |stamped| == |copied| && |msg| >= HEADER_SIZE
    requires copied[0..HEADER_SIZE] == h && stamped[CAPS_STR..] == copied[CAPS_STR..]
    requires msg[..HEADER_SIZE] == stamped[..HEADER_SIZE]
    ensures msg[CAPS_STR..HEADER_SIZE] == h[CAPS_STR..]
  {
  }

  lemma EachFits(mems: seq<Block>)
    ensures forall i :: 0 <= i < |mems| ==> |mems[i]| <= |Flatten(mems)|
  {
  }

  lemma DescribesPrefix(a: Block, b: Block, mems: seq<Block>)
    requires |a| >= HEADER_SIZE && |b| >= HEADER_SIZE && a[..HEADER_SIZE] == b[..HEADER_SIZE]
    requires Describes(a, mems)
    ensures Describes(b, mems)
  {
  }

  lemma SameField(a: Block, b: Block, off: nat)
    requires |a| >= HEADER_SIZE && |b| >= HEADER_SIZE && a[..HEADER_SIZE] == b[..HEADER_SIZE] && off + 8 <= HEADER_SIZE
    ensures Get64(a, off) == Get64(b, off)
  {
  }

  lemma HeaderOnly(a: Block, b: Block, mems: seq<Block>, base: Epoch, sent: Epoch, s: Stamps)
    requires |a| >= HEADER_SIZE && |b| >= HEADER_SIZE && a[..HEADER_SIZE] == b[..HEADER_SIZE]
    requires Describes(a, mems) && Stamped(a, base, sent, s)
    ensures Describes(b, mems) && Stamped(b, base, sent, s)
  {
    hide Get64, Describes;
    DescribesPrefix(a, b, mems);
    SameField(a, b, BASE_TIME_EPOCH);
    SameField(a, b, SENT_TIME_EPOCH);
    SameField(a, b, DURATION);
    SameField(a, b, DTS);
    SameField(a, b, PTS);
  }

  // ----- source -----

  /** A `gsize` stored into an `int`. */
  function ToInt(w: Word64): int
  {
    var low := w % TWO_32;
    if low < 0x8000_0000 then low else low - TWO_32
  }

  /**
   The memories from number `i` on, the first one starting at `offset`. A window outside the
   message counts as a failure.
   */
  function RebuildFrom(msg: Block, num: nat, i: nat, offset: nat): Option<seq<Block>>
    requires |msg| >= HEADER_SIZE && i <= num <= MAX_MEMS
    decreases num - i
  {
    if i == num then Some([])
    else
      var size := ToInt(Get64(msg, SizeOffset(i)));
      if size < 0 || offset + size > |msg| then None
      else
        match RebuildFrom(msg, num, i + 1, offset + size)
        case None => None
        case Some(rest) => Some([msg[offset..offset + size]] + rest)
  }

  /** A header announcing more memories than a buffer can hold counts as a failure as well. */
  function Rebuild(msg: Block): Option<seq<Block>>
  {
    if |msg| < HEADER_SIZE || Get32(msg, NUM_MEMS) > MAX_MEMS then None
    else RebuildFrom(msg, Get32(msg, NUM_MEMS), 0, HEADER_SIZE)
  }

  /** Message splitting of `cb_mqtt_on_message_arrived`. */
  method SplitMessage(msg: Block) returns (r: Option<seq<Block>>)
    ensures r == Rebuild(msg)
  {
    hide Get32, Get64, ToInt, RebuildFrom;
    if |msg| < HEADER_SIZE {
      return None;
    }
    var num := Get32(msg, NUM_MEMS);
    if num > MAX_MEMS {
      return None;
    }
    var offset := HEADER_SIZE;
    var out: seq<Block> := [];
    if Rebuild(msg).Some? {
      assert [] + Rebuild(msg).value == Rebuild(msg).value;
    }
    for i := 0 to num
      invariant offset >= 0
      invariant Prepend(out, RebuildFrom(msg, num, i, offset)) == Rebuild(msg)
    {
      var size := ToInt(Get64(msg, SizeOffset(i)));
      RebuildStep(msg, num, i, offset);
      if size < 0 || offset + size > |msg| {
        return None;
      }
      ghost var rest := RebuildFrom(msg, num, i + 1, offset + size);
      if rest.Some? {
        Associative(out, [msg[offset..offset + size]], rest.value);
      }
      out := out + [msg[offset..offset + size]];
      offset := offset + size;
    }
    RebuildStep(msg, num, num, offset);
    assert out + [] == out;
    r := Some(out);
  }

  lemma RebuildStep(msg: Block, num: nat, i: nat, offset: nat)
    requires |msg| >= HEADER_SIZE && i <= num <= MAX_MEMS
    ensures i == num ==> RebuildFrom(msg, num, i, offset) == Some([])
    ensures i < num ==>
              var size := ToInt(Get64(msg, SizeOffset(i)));
              RebuildFrom(msg, num, i, offset)
              == if size < 0 || offset + size > |msg| then None
                 else Prepend([msg[offset..offset + size]], RebuildFrom(msg, num, i + 1, offset + size))
  {
    hide Get64, ToInt;
  }

  lemma {:induction false} RebuildsFrom(msg: Block, mems: seq<Block>, i: nat)
    requires |msg| >= HEADER_SIZE && Describes(msg, mems) && msg[HEADER_SIZE..] == Flatten(mems)
    requires i <= |mems| && forall k :: 0 <= k < |mems| ==> |mems[k]| < 0x8000_0000
    ensures RebuildFrom(msg, |mems|, i, HEADER_SIZE + TotalSize(mems[..i])) == Some(mems[i..])
    decreases |mems| - i
  {
    hide Flatten, TotalSize, Get32, Get64, ToInt;
    if i < |mems| {
      NextMemory(msg, mems, i);
      RebuildsFrom(msg, mems, i + 1);
      assert mems[i..] == [mems[i]] + mems[i + 1..];
    }
  }

  /** Rebuilt memories have the announced sizes, read as `int`. */
  lemma {:induction false} RebuiltSizes(msg: Block, num: nat, i: nat, offset: nat, k: nat)
    requires |msg| >= HEADER_SIZE && i <= num <= MAX_MEMS && k < num - i
    requires RebuildFrom(msg, num, i, offset).Some?
    ensures |RebuildFrom(msg, num, i, offset).value| == num - i
    ensures |RebuildFrom(msg, num, i, offset).value[k]| == ToInt(Get64(msg, SizeOffset(i + k)))
    decreases num - i
  {
    hide Get64, ToInt;
    var size := ToInt(Get64(msg, SizeOffset(i)));
    var rest := RebuildFrom(msg, num, i + 1, offset + size);
    if i + 1 < num {
      RebuiltSizes(msg, num, i + 1, offset + size, if k > 0 then k - 1 else 0);
    }
  }

  /**
   Frame round trip: the receiver rebuilds the same memory boundaries and bytes if and only if
   every memory is smaller than 2 GiB, since sizes pass through an `int`.
   */
  lemma FrameRoundTrip(msg: Block, mems: seq<Block>, base: Epoch, sent: Epoch, s: Stamps)
    requires Frames(msg, mems, base, sent, s)
    ensures Rebuild(msg) == Some(mems) <==> forall i :: 0 <= i < |mems| ==> |mems[i]| < 0x8000_0000
  {
    hide Flatten, Get32, Get64, RebuildFrom;
    if forall i :: 0 <= i < |mems| ==> |mems[i]| < 0x8000_0000 {
      assert |msg[HEADER_SIZE..]| == |Flatten(mems)|;
      RebuildsFrom(msg, mems, 0);
      assert mems[..0] == [] && mems[0..] == mems;
    }
    if Rebuild(msg) == Some(mems) {
      forall i | 0 <= i < |mems| ensures |mems[i]| < 0x8000_0000 {
        RebuiltSizes(msg, |mems|, 0, HEADER_SIZE, i);
      }
    }
  }

  lemma NextMemory(msg: Block, mems: seq<Block>, i: nat)
    requires |msg| >= HEADER_SIZE && Describes(msg, mems) && msg[HEADER_SIZE..] == Flatten(mems)
    requires i < |mems| && |mems[i]| < 0x8000_0000
    ensures var size := ToInt(Get64(msg, SizeOffset(i))); var at := HEADER_SIZE + TotalSize(mems[..i]);
            && size == |mems[i]| && at + size <= |msg| && msg[at..at + size] == mems[i]
            && at + size == HEADER_SIZE + TotalSize(mems[..i + 1])
  {
    hide Flatten, TotalSize, Get64;
    FlattenSliceAt(msg, HEADER_SIZE, mems, i);
    TotalSizeStep(mems, i);
  }

  /** The timestamps a receiver with its own base time gives to the rebuilt buffer. */
  function Received(base: Epoch, sent: Epoch, s: Stamps, selfBase: Epoch): Stamps
  {
    var diff := Wrap64(base - selfBase);
    if sent < selfBase then NO_STAMPS
    else if Signed64(Wrap64(s.pts + diff)) < 0 then NO_STAMPS
    else
      Stamps(if s.pts != CLOCK_TIME_NONE then Wrap64(s.pts + diff) else CLOCK_TIME_NONE,
             if s.dts != CLOCK_TIME_NONE then Wrap64(s.dts + diff) else CLOCK_TIME_NONE,
             s.duration)
  }

  /** `_put_timestamp_on_gst_buf` */
  method PutTimestampOnBuffer(msg: Block, selfBase: Epoch) returns (s: Stamps)
    requires |msg| >= HEADER_SIZE
    ensures forall base: Epoch, sent: Epoch, t: Stamps ::
              Stamped(msg, base, sent, t) ==> s == Received(base, sent, t, selfBase)
  {
    hide Get64;
    var base, sent := Signed64(Get64(msg, BASE_TIME_EPOCH)), Signed64(Get64(msg, SENT_TIME_EPOCH));
    var pts: int, dts: int := Get64(msg, PTS), Get64(msg, DTS);
    var diff: int := Wrap64(base - selfBase);
    s := NO_STAMPS;
    if sent < selfBase {
      return;
    }
    if Signed64(Wrap64(pts + diff)) < 0 {
      return;
    }
    if pts != CLOCK_TIME_NONE {
      s := s.(pts := Wrap64(pts + diff));
    }
    if dts != CLOCK_TIME_NONE {
      s := s.(dts := Wrap64(dts + diff));
    }
    s := s.(duration := Get64(msg, DURATION));
  }

  /** The 64-bit signed sums of the receiver are exact. */
  predicate ExactShift(t: Word64, base: Epoch, selfBase: Epoch)
  {
    t < TWO_63 && -TWO_63 <= base - selfBase < TWO_63 && t + base - selfBase < TWO_63
  }

  /**
   For every valid PTS, either all timestamps are cleared, exactly when the message predates the
   receiver's base time or the shifted PTS is negative as a signed number, or the absolute
   presentation time is the same on both sides modulo 2^64. Where the signed sums are exact, the
   shifted PTS is negative exactly when it lies before the receiver's base time, and the absolute
   time is the same.
   */
  lemma TimestampPreservedOrCleared(base: Epoch, sent: Epoch, s: Stamps, selfBase: Epoch)
    requires s.pts != CLOCK_TIME_NONE
    ensures var r := Received(base, sent, s, selfBase);
            && (r == NO_STAMPS <==> sent < selfBase || Signed64(Wrap64(s.pts + base - selfBase)) < 0)
            && (r != NO_STAMPS ==>
                  && r.pts != CLOCK_TIME_NONE && Wrap64(r.pts + selfBase) == Wrap64(s.pts + base)
                  && r.duration == s.duration
                  && (s.dts == CLOCK_TIME_NONE ==> r.dts == CLOCK_TIME_NONE)
                  && (s.dts != CLOCK_TIME_NONE ==> Wrap64(r.dts + selfBase) == Wrap64(s.dts + base)))
    ensures ExactShift(s.pts, base, selfBase) ==>
              var r := Received(base, sent, s, selfBase);
              && (r == NO_STAMPS <==> sent < selfBase || s.pts + base < selfBase)
              && (r != NO_STAMPS ==> r.pts + selfBase == s.pts + base)
              && (r != NO_STAMPS && ExactShift(s.dts, base, selfBase) && s.dts + base >= selfBase ==>
                    r.dts + selfBase == s.dts + base)
  {
    hide Wrap64;
    WrapTwice(s.pts, base - selfBase, selfBase);
    WrapTwice(s.dts, base - selfBase, selfBase);
    if ExactShift(s.pts, base, selfBase) {
      WrapShift(s.pts, base - selfBase);
      if ExactShift(s.dts, base, selfBase) && s.dts + base >= selfBase {
        WrapShift(s.dts, base - selfBase);
      }
    }
  }

  /**
   A buffer without PTS: its timestamps are cleared when the message predates the receiver's base
   time or the sender's base time is not later than the receiver's; otherwise the PTS stays
   absent, the DTS is shifted and the duration kept.
   */
  lemma NoPtsReceived(base: Epoch, sent: Epoch, s: Stamps, selfBase: Epoch)
    requires s.pts == CLOCK_TIME_NONE && -TWO_63 < base - selfBase < TWO_63
    ensures var r := Received(base, sent, s, selfBase);
            if sent < selfBase || base <= selfBase then r == NO_STAMPS
            else
              && r.pts == CLOCK_TIME_NONE && r.duration == s.duration
              && (if s.dts == CLOCK_TIME_NONE then r.dts == CLOCK_TIME_NONE
                  else Wrap64(r.dts + selfBase) == Wrap64(s.dts + base))
  {
    hide Wrap64;
    WrapTwice(s.dts, base - selfBase, selfBase);
    NoPtsShift(base - selfBase);
  }

  /** An absent PTS counts as -1 in the test for a negative sum. */
  lemma NoPtsShift(d: int)
    requires -TWO_63 < d < TWO_63
    ensures Wrap64(CLOCK_TIME_NONE + Wrap64(d)) == if d > 0 then d - 1 else d - 1 + TWO_64
  {
  }

  /** Wrapping in between does not change a wrapped sum. */
  lemma WrapTwice(t: Word64, d: int, e: int)
    ensures Wrap64(t + Wrap64(d)) == Wrap64(t + d)
    ensures Wrap64(Wrap64(t + Wrap64(d)) + e) == Wrap64(t + d + e)
  {
  }

  /** Adding a wrapped difference and wrapping gives the wrapped exact sum. */
  lemma WrapShift(t: Word64, d: int)
    requires t < TWO_63 && -TWO_63 <= d < TWO_63 && t + d < TWO_63
    ensures t + d >= 0 ==> Wrap64(t + Wrap64(d)) == t + d
    ensures t + d < 0 ==> Signed64(Wrap64(t + Wrap64(d))) == t + d
  {
  }

  /** The fields follow each other as in the C struct, and fit the reserved header. */
  lemma HeaderLayout(i: nat)
    requires i < MAX_MEMS
    ensures NUM_MEMS == 0 && SizeOffset(i) == 8 + 8 * i && BASE_TIME_EPOCH == SizeOffset(15) + 8
    ensures SENT_TIME_EPOCH == BASE_TIME_EPOCH + 8 && DURATION == SENT_TIME_EPOCH + 8
    ensures DTS == DURATION + 8 && PTS == DTS + 8 && CAPS_STR == PTS + 8 && CAPS_STR + 512 <= HEADER_SIZE == 1024
  {
  }

  /** A message with one memory of 2 GiB, which the receiver does not rebuild. */
  method LargeMemoryWitness() returns (mems: seq<Block>, msg: Block)
    ensures |mems| == 1 && |mems[0]| == 0x8000_0000 && Frames(msg, mems, 0, 0, NO_STAMPS)
    ensures Rebuild(msg) != Some(mems)
  {
    hide Rebuild, Frames, Flatten;
    var sink := new MqttSink(0, seq(HEADER_SIZE, _ => 0));
    mems := [seq(0x8000_0000, _ => 0)];
    FlattenOne(mems[0]);
    msg := sink.Render(mems, NO_STAMPS, 0);
    FrameRoundTrip(msg, mems, 0, 0, NO_STAMPS);
  }
}
