/**
 Time synchronisation of the mux and merge elements. Every input pad has a queue of
 buffers in timestamp order and keeps the last buffer taken from it. A round fixes a
 current time and tries, again and again, to find one buffer per pad for it; an attempt
 that meets a buffer older than the current time takes it from its queue and fails.
 */
module TimeSync {
  import opened Bytes
  import opened Options
  import opened TensorMeta
  import opened TensorBuffer
  import opened TensorConfig
  import opened PadBuffers

  datatype Mode = Slowest | BasePad(sinkId: nat, duration: nat)

  /** The absolute difference. */
  function Dist(a: ClockTime, b: ClockTime): (d: nat)
    ensures d == a - b || d == b - a
  {
    if a <= b then b - a else a - b
  }

  predicate Ordered(bs: seq<TimedBuffer>)
  {
    forall i, j :: 0 <= i < j < |bs| ==> bs[i].pts <= bs[j].pts
  }

  /** Everything the pad can still contribute: the kept buffer, then the queue. */
  function Held(p: Pad): seq<TimedBuffer>
  {
    (if p.kept.Some? then [p.kept.value] else []) + p.queue
  }

  // ----- one pad -----

  predicate KeepsLast(p: Pad, current: ClockTime, base: Word64, mode: Mode)
    requires p.queue != []
  {
    && p.kept.Some?
    && match mode
       case Slowest => Dist(current, p.kept.value.pts) < Dist(current, p.queue[0].pts)
       case BasePad(_, _) => Dist(current, p.queue[0].pts) > base
  }

  predicate HeadIsStale(p: Pad, current: ClockTime)
  {
    p.queue != [] && p.queue[0].pts < current
  }

  function Pop(p: Pad): Pad
    requires p.queue != []
  {
    p.(queue := p.queue[1..], kept := Some(p.queue[0]))
  }

  /** `_gst_tensor_time_sync_buffer_update`; it fails exactly when the head of the queue is stale. */
  function UpdatePad(p: Pad, current: ClockTime, base: Word64, mode: Mode): Pad
  {
    if p.queue == [] then p
    else if HeadIsStale(p, current) then Pop(p)
    else if KeepsLast(p, current, base, mode) then p
    else Pop(p)
  }

  // ----- one attempt over all pads -----

  /** Pads are updated in order up to the first one that fails. */
  function Attempt(pads: seq<Pad>, current: ClockTime, base: Word64, mode: Mode): (r: (seq<Pad>, bool))
    ensures |r.0| == |pads|
  {
    if pads == [] then ([], true)
    else
      var p := UpdatePad(pads[0], current, base, mode);
      if HeadIsStale(pads[0], current) then ([p] + pads[1..], false)
      else
        var rest := Attempt(pads[1..], current, base, mode);
        ([p] + rest.0, rest.1)
  }

  /** Pad `f` is the first one with a stale head; `f` is the number of pads if there is none. */
  predicate FirstStale(pads: seq<Pad>, current: ClockTime, f: nat)
  {
    && f <= |pads|
    && (forall i :: 0 <= i < f ==> !HeadIsStale(pads[i], current))
    && (f < |pads| ==> HeadIsStale(pads[f], current))
  }

  /** A success updates every pad; a failure updates the pads up to the first stale head. */
  lemma {:induction false} AttemptShape(pads: seq<Pad>, current: ClockTime, base: Word64, mode: Mode)
    returns (failed: nat)
    ensures var (after, ok) := Attempt(pads, current, base, mode);
            && FirstStale(pads, current, failed) && (ok <==> failed == |pads|)
            && (forall i :: 0 <= i < |pads| ==>
                  after[i] == if i <= failed then UpdatePad(pads[i], current, base, mode) else pads[i])
  {
    hide UpdatePad;
    if pads == [] || HeadIsStale(pads[0], current) {
      failed := 0;
    } else {
      failed := AttemptShape(pads[1..], current, base, mode);
      failed := failed + 1;
      var (after, ok) := Attempt(pads, current, base, mode);
      var (rest, _) := Attempt(pads[1..], current, base, mode);
      forall i | 0 <= i < |pads|
        ensures after[i] == if i <= failed then UpdatePad(pads[i], current, base, mode) else pads[i]
      {
        if i > 0 {
          assert after[i] == rest[i - 1] && pads[i] == pads[1..][i - 1];
        }
      }
      forall i | 0 <= i < failed ensures !HeadIsStale(pads[i], current) {
        if i > 0 {
          assert pads[i] == pads[1..][i - 1];
        }
      }
    }
  }

  // ----- nearest buffers -----

  /**
   `history` lists, in order, all buffers the pad held or queued since the round began. The
   ones no longer queued are no nearer to the current time than the kept one.
   */
  predicate Tracks(p: Pad, history: seq<TimedBuffer>, current: ClockTime)
  {
    var gone := |history| - |p.queue|;
    && 0 <= gone && history[gone..] == p.queue
    && Ordered(history)
    && (if gone == 0 then p.kept == None else p.kept == Some(history[gone - 1]))
    && forall k :: 0 <= k < gone ==> Dist(current, history[gone - 1].pts) <= Dist(current, history[k].pts)
  }

  /** The kept buffer is a nearest one among the whole history. */
  predicate Nearest(p: Pad, history: seq<TimedBuffer>, current: ClockTime)
  {
    p.kept.Some? ==>
      p.kept.value in history
      && forall k :: 0 <= k < |history| ==> Dist(current, p.kept.value.pts) <= Dist(current, history[k].pts)
  }

  lemma TracksAtStart(p: Pad, current: ClockTime)
    requires Ordered(Held(p))
    ensures Tracks(p, Held(p), current)
  {
  }

  lemma OrderedSnoc(bs: seq<TimedBuffer>, b: TimedBuffer)
    requires Ordered(bs) && (bs != [] ==> bs[|bs| - 1].pts <= b.pts)
    ensures Ordered(bs + [b])
  {
  }

  lemma OrderedArrival(p: Pad, b: TimedBuffer)
    requires Ordered(Held(p)) && (Held(p) != [] ==> Held(p)[|Held(p)| - 1].pts <= b.pts)
    ensures Ordered(Held(p.(queue := p.queue + [b])))
  {
    hide Ordered;
    OrderedSnoc(Held(p), b);
    assert Held(p.(queue := p.queue + [b])) == Held(p) + [b];
  }

  lemma TracksArrival(p: Pad, history: seq<TimedBuffer>, current: ClockTime, b: TimedBuffer)
    requires Tracks(p, history, current)
    requires Held(p) != [] ==> Held(p)[|Held(p)| - 1].pts <= b.pts
    ensures Tracks(p.(queue := p.queue + [b]), history + [b], current)
  {
    hide Ordered, Dist;
    var gone, grown := |history| - |p.queue|, history + [b];
    assert grown[gone..] == history[gone..] + [b];
    forall k | 0 <= k < gone ensures Dist(current, grown[gone - 1].pts) <= Dist(current, grown[k].pts) {
      assert grown[k] == history[k] && grown[gone - 1] == history[gone - 1];
    }
    if history != [] {
      assert Held(p)[|Held(p)| - 1] == history[|history| - 1];
    }
    OrderedSnoc(history, b);
  }

  /** Every update in slowest mode keeps track. */
  lemma TracksUpdate(p: Pad, history: seq<TimedBuffer>, current: ClockTime, base: Word64)
    requires Tracks(p, history, current)
    ensures Tracks(UpdatePad(p, current, base, Slowest), history, current)
  {
  }

  /** Nothing still queued lies before the head, which lies at or after the current time. */
  lemma QueuedAreLater(p: Pad, history: seq<TimedBuffer>, current: ClockTime, k: nat)
    requires Tracks(p, history, current) && !HeadIsStale(p, current)
    requires |history| - |p.queue| <= k < |history|
    ensures p.queue != [] && current <= p.queue[0].pts <= history[k].pts
  {
    var first := |history| - |p.queue|;
    assert p.queue[0] == history[first..][0] == history[first];
  }

  /** An update that does not fail leaves a nearest buffer in the pad. */
  lemma UpdateFindsNearest(p: Pad, history: seq<TimedBuffer>, current: ClockTime, base: Word64)
    requires Tracks(p, history, current) && !HeadIsStale(p, current)
    ensures Nearest(UpdatePad(p, current, base, Slowest), history, current)
    ensures UpdatePad(p, current, base, Slowest) == p && p.queue != [] ==>
              p.kept.Some? && Dist(current, p.kept.value.pts) < Dist(current, p.queue[0].pts)
  {
    hide Ordered;
    var q := UpdatePad(p, current, base, Slowest);
    TracksUpdate(p, history, current, base);
    var gone := |history| - |q.queue|;
    if q.kept.Some? {
      forall k | gone <= k < |history|
        ensures Dist(current, q.kept.value.pts) <= Dist(current, history[k].pts)
      {
        QueuedAreLater(p, history, current, k);
      }
    }
  }

  // ----- base pad mode -----

  /** Everything the pad held or queued since the round began; only its first buffer may lie far ahead. */
  predicate BaseTracks(p: Pad, history: seq<TimedBuffer>, current: ClockTime, limit: nat)
  {
    var gone := |history| - |p.queue|;
    && 0 <= gone && history[gone..] == p.queue
    && (if gone == 0 then p.kept == None else p.kept == Some(history[gone - 1]))
    && (gone > 1 ==> history[gone - 1].pts <= current + limit)
  }

  /**
   The contribution of a pad in base pad mode: the buffer it has reached, which lies at most the
   limit ahead unless it is the first one of the round; and it is older than the current time only
   if nothing is queued or the next buffer lies beyond the base distance.
   */
  predicate BaseChoice(p: Pad, history: seq<TimedBuffer>, current: ClockTime, base: Word64, limit: nat)
  {
    BaseTracks(p, history, current, limit)
    && (p.kept.Some? && p.kept.value.pts < current ==>
          p.queue == [] || Dist(current, p.queue[0].pts) > base)
  }

  lemma BaseTracksUpdate(p: Pad, history: seq<TimedBuffer>, current: ClockTime, base: Word64, mode: Mode, limit: nat)
    requires BaseTracks(p, history, current, limit) && mode.BasePad? && base <= limit
    ensures var q := UpdatePad(p, current, base, mode);
            && BaseTracks(q, history, current, limit)
            && (!HeadIsStale(p, current) ==> BaseChoice(q, history, current, base, limit))
  {
    if p.queue != [] {
      assert history[|history| - |p.queue|] == p.queue[0];
    }
  }

  lemma BaseTracksArrival(p: Pad, history: seq<TimedBuffer>, current: ClockTime, limit: nat, b: TimedBuffer)
    requires BaseTracks(p, history, current, limit)
    ensures BaseTracks(p.(queue := p.queue + [b]), history + [b], current, limit)
  {
    var gone := |history| - |p.queue|;
    assert (history + [b])[gone..] == history[gone..] + [b];
  }

  /** The base pad has reached the current time, or is about to. */
  predicate Anchored(p: Pad, current: ClockTime)
  {
    (p.kept.Some? && p.kept.value.pts == current) || (p.queue != [] && p.queue[0].pts == current)
  }

  /** The base distance is short of the next buffer of the base pad, so the base pad stays at the current time. */
  lemma AnchoredStays(pads: seq<Pad>, current: ClockTime, mode: Mode)
    requires mode.BasePad? && mode.sinkId < |pads| && mode.duration < TWO_32
    requires Anchored(pads[mode.sinkId], current) && Ordered(Held(pads[mode.sinkId]))
    ensures var q := UpdatePad(pads[mode.sinkId], current, BaseTime(pads, mode), mode);
            q.kept.Some? && q.kept.value.pts == current
  {
    var p := pads[mode.sinkId];
    if p.queue != [] && p.kept.Some? {
      assert Held(p)[0] == p.kept.value && Held(p)[1] == p.queue[0];
    }
  }

  // ----- counting older buffers -----

  function StaleIn(q: seq<TimedBuffer>, current: ClockTime): nat
  {
    if q == [] then 0 else (if q[0].pts < current then 1 else 0) + StaleIn(q[1..], current)
  }

  /** Queued buffers, over all pads, that are older than the current time. */
  function StaleCount(pads: seq<Pad>, current: ClockTime): nat
  {
    if pads == [] then 0 else StaleIn(pads[0].queue, current) + StaleCount(pads[1..], current)
  }

  lemma {:induction false} NoneStale(q: seq<TimedBuffer>, current: ClockTime)
    requires Ordered(q) && (q != [] ==> current <= q[0].pts)
    ensures StaleIn(q, current) == 0
  {
    if |q| > 0 {
      NoneStale(q[1..], current);
    }
  }

  lemma StaleAfterUpdate(p: Pad, current: ClockTime, base: Word64, mode: Mode)
    ensures StaleIn(UpdatePad(p, current, base, mode).queue, current)
            == StaleIn(p.queue, current) - if HeadIsStale(p, current) then 1 else 0
  {
  }

  /** A failed attempt takes away exactly one older buffer; a successful one leaves none. */
  lemma {:induction false} StaleAfterAttempt(pads: seq<Pad>, current: ClockTime, base: Word64, mode: Mode)
    requires forall i :: 0 <= i < |pads| ==> Ordered(pads[i].queue)
    ensures var (after, ok) := Attempt(pads, current, base, mode);
            if ok then StaleCount(pads, current) == 0 == StaleCount(after, current)
            else StaleCount(after, current) == StaleCount(pads, current) - 1
  {
    hide UpdatePad, StaleIn;
    if pads != [] {
      var (after, ok) := Attempt(pads, current, base, mode);
      StaleAfterUpdate(pads[0], current, base, mode);
      if HeadIsStale(pads[0], current) {
        assert after[1..] == pads[1..];
      } else {
        NoneStale(pads[0].queue, current);
        StaleAfterAttempt(pads[1..], current, base, mode);
        assert after[1..] == Attempt(pads[1..], current, base, mode).0;
      }
    }
  }

  lemma {:induction false} StaleAppend(q: seq<TimedBuffer>, b: TimedBuffer, current: ClockTime)
    ensures StaleIn(q + [b], current) == StaleIn(q, current) + if b.pts < current then 1 else 0
  {
    if q == [] {
      assert (q + [b])[1..] == [];
    } else {
      StaleAppend(q[1..], b, current);
      assert (q + [b])[1..] == q[1..] + [b];
    }
  }

  lemma {:induction false} StaleArrival(pads: seq<Pad>, i: nat, p: Pad, current: ClockTime)
    requires i < |pads|
    ensures StaleCount(pads[i := p], current)
            == StaleCount(pads, current) - StaleIn(pads[i].queue, current) + StaleIn(p.queue, current)
  {
    if i == 0 {
      assert pads[i := p][1..] == pads[1..];
    } else {
      StaleArrival(pads[1..], i - 1, p, current);
      assert pads[i := p][1..] == pads[1..][i - 1 := p];
    }
  }

  // ----- one call -----

  /** Aborted: an assertion of the source failed. Refused: a tensor could not be appended to the output. */
  datatype Outcome = Retry | EndOfStream | NoBasePad | Aborted | Refused | Output(pts: ClockTime, mems: seq<Memory>)

  /** The distance within which the base pad mode accepts a new buffer. */
  function BaseTime(pads: seq<Pad>, mode: Mode): Word64
    requires mode.BasePad? ==> mode.sinkId < |pads| && mode.duration < TWO_32
  {
    if mode.Slowest? then 0
    else
      var p := pads[mode.sinkId];
      if p.queue == [] || p.kept.None? then 0
      else
        var d := Dist(p.queue[0].pts, p.kept.value.pts) - 1;
        Wrap64(if d < mode.duration then d else mode.duration)
  }

  /**
   The base distance: none without two buffers on the base pad; otherwise the largest one that is
   within the duration and short of the gap between them. Buffers of the same time put no limit.
   */
  lemma BaseTimeMeaning(pads: seq<Pad>, mode: Mode)
    requires mode.BasePad? && mode.sinkId < |pads| && mode.duration < TWO_32
    ensures var p, base := pads[mode.sinkId], BaseTime(pads, mode);
            if p.queue == [] || p.kept.None? then base == 0
            else
              var gap := Dist(p.queue[0].pts, p.kept.value.pts);
              if gap == 0 then base == TWO_64 - 1
              else base <= mode.duration && base < gap && (base == mode.duration || base + 1 == gap)
  {
  }

  /** Every queue keeps its order and loses at most its head, to the kept buffer. */
  predicate Advanced(before: seq<Pad>, after: seq<Pad>)
  {
    && |after| == |before|
    && forall i :: 0 <= i < |after| ==>
         after[i].queue == before[i].queue || (before[i].queue != [] && after[i] == Pop(before[i]))
  }

  /** An assertion of the source fails while the tensors of these pads are collected. */
  predicate Stops(pads: seq<Pad>)
  {
    !Collectable(pads) || |Collected(pads)| > SIZE_LIMIT
  }

  /** A failed attempt took one older buffer from the failing pad and left the pads behind it alone. */
  ghost predicate FailedOnce(before: seq<Pad>, after: seq<Pad>, current: ClockTime)
  {
    && |after| == |before|
    && StaleCount(after, current) == StaleCount(before, current) - 1
    && exists f :: 0 <= f < |after| && FirstStale(before, current, f) && after[f] == Pop(before[f])
         && (forall i :: f < i < |after| ==> after[i] == before[i]) && !Stops(after[..f])
  }

  /** Every pad has its buffer: a nearest one in slowest mode; in base pad mode the base pad one of the current time. */
  predicate Synchronised(pads: seq<Pad>, history: seq<seq<TimedBuffer>>, current: ClockTime, mode: Mode)
  {
    && |history| == |pads|
    && (forall i :: 0 <= i < |pads| ==> pads[i].kept.Some?)
    && (mode == Slowest ==> forall i :: 0 <= i < |pads| ==> Nearest(pads[i], history[i], current))
    && (mode.BasePad? ==> mode.sinkId < |pads| && pads[mode.sinkId].kept.value.pts == current)
  }

  /** The output is stamped with the current time and stands for the tensors of all pads, in pad order. */
  ghost predicate Emits(out: Outcome, pads: seq<Pad>, current: ClockTime)
  {
    && out.Output? && out.pts == current
    && Collectable(pads) && |Collected(pads)| <= SIZE_LIMIT
    && AllOutgoing(Collected(pads), AnyFlexible(pads))
    && StandsFor(out.mems, StoredAll(OutgoingItems(Collected(pads), AnyFlexible(pads))))
  }

  /**
   An output in terms of what the pads carry: stamped with the current time, with as many tensors
   as all pads together, each read at its place in pad order with its own bytes, or behind a
   header that describes it, if and only if no pad is flexible or there are at most sixteen.
   */
  lemma EmittedTensors(out: Outcome, pads: seq<Pad>, current: ClockTime, lists: seq<seq<Item>>)
    requires Emits(out, pads, current) && PadsCarry(pads, lists) && NobodyPoses(pads, lists)
    ensures out.pts == current && |out.mems| <= MEMORY_MAX && Count(out.mems) == TotalSize(lists)
    ensures AllArrive(out.mems, pads, lists) <==> !AnyFlexible(pads) || TotalSize(lists) <= MEMORY_MAX
  {
    hide CarriesItems, NobodyPoses, StandsFor, AllArrive, AllOutgoing, Collected, Collectable, TotalSize, Count;
    CarriedIsCollected(pads, lists);
    CarriedLength(pads, lists);
    OutputReadsBackIff(pads, lists, out.mems);
  }

  class Mux {
    const mode: Mode
    var pads: seq<Pad>
    var currentTime: ClockTime
    var needSetTime: bool

    /** Per pad, what it held or queued since the round began. */
    ghost var history: seq<seq<TimedBuffer>>
    /** Failed attempts of the round, and older buffers met in it. */
    ghost var failures: nat
    ghost var olderSeen: nat

    ghost predicate Valid()
      reads this
    {
      && (mode.BasePad? ==> mode.duration < TWO_32)
      && (forall i :: 0 <= i < |pads| ==> Ordered(Held(pads[i])))
      && |history| == |pads|
      && (!needSetTime ==>
            && (mode == Slowest ==>
                  forall i :: 0 <= i < |pads| ==> Tracks(pads[i], history[i], currentTime))
            && (mode.BasePad? && mode.sinkId < |pads| ==> Anchored(pads[mode.sinkId], currentTime))
            && failures + StaleCount(pads, currentTime) == olderSeen)
    }

    constructor (mode: Mode, configs: seq<Config>)
      requires mode.BasePad? ==> mode.duration < TWO_32
      ensures Valid() && needSetTime && |pads| == |configs|
      ensures forall i :: 0 <= i < |pads| ==> pads[i] == Pad([], None, configs[i])
    {
      this.mode := mode;
      pads := seq(|configs|, i requires 0 <= i < |configs| => Pad([], None, configs[i]));
      currentTime, needSetTime := 0, true;
      history := seq(|configs|, _ => []);
      failures, olderSeen := 0, 0;
    }

    /** A buffer reaches a pad, no earlier than the ones before it. */
    method Arrive(i: nat, b: TimedBuffer)
      requires Valid() && i < |pads|
      requires Held(pads[i]) != [] ==> Held(pads[i])[|Held(pads[i])| - 1].pts <= b.pts
      modifies this`pads, this`history, this`olderSeen
      ensures Valid()
      ensures pads == old(pads)[i := old(pads[i]).(queue := old(pads[i]).queue + [b])]
      ensures history == old(history)[i := old(history[i]) + [b]]
      ensures olderSeen == old(olderSeen) + if b.pts < currentTime then 1 else 0
    {
      hide Tracks, StaleCount, StaleIn, Ordered, Held;
      var p := pads[i].(queue := pads[i].queue + [b]);
      OrderedArrival(pads[i], b);
      StaleArrival(pads, i, p, currentTime);
      StaleAppend(pads[i].queue, b, currentTime);
      if !needSetTime && mode == Slowest {
        TracksArrival(pads[i], history[i], currentTime, b);
      }
      pads := pads[i := p];
      history := history[i := history[i] + [b]];
      olderSeen := olderSeen + if b.pts < currentTime then 1 else 0;
    }

    /**
     `gst_tensor_time_sync_get_current_time`: the latest head in slowest mode, the head of
     the base pad in base pad mode; an empty queue means end of stream.
     */
    method GetCurrentTime() returns (time: ClockTime, eos: bool)
      requires Valid()
      ensures eos <==> exists i :: 0 <= i < |pads| && pads[i].queue == []
      ensures mode == Slowest ==> time >= currentTime
      ensures mode == Slowest ==>
                (forall i :: 0 <= i < |pads| && pads[i].queue != [] ==> pads[i].queue[0].pts <= time)
      ensures mode == Slowest && time != currentTime ==>
                exists i :: 0 <= i < |pads| && pads[i].queue != [] && pads[i].queue[0].pts == time
      ensures mode.BasePad? && mode.sinkId < |pads| && pads[mode.sinkId].queue != [] ==>
                time == pads[mode.sinkId].queue[0].pts
    {
      hide Valid;
      time := currentTime;
      var empty := 0;
      for k := 0 to |pads|
        invariant empty > 0 <==> exists i :: 0 <= i < k && pads[i].queue == []
        invariant empty >= 0
        invariant mode == Slowest ==> time >= currentTime
        invariant mode == Slowest ==>
                    forall i :: 0 <= i < k && pads[i].queue != [] ==> pads[i].queue[0].pts <= time
        invariant mode == Slowest ==>
                    time == currentTime || exists i :: 0 <= i < k && pads[i].queue != [] && pads[i].queue[0].pts == time
        invariant mode.BasePad? && mode.sinkId < k && pads[mode.sinkId].queue != [] ==>
                    time == pads[mode.sinkId].queue[0].pts
      {
        if pads[k].queue != [] {
          var head := pads[k].queue[0].pts;
          var needUpdate := if mode.Slowest? then time < head else k == mode.sinkId;
          if needUpdate {
            time := head;
          }
        } else {
          empty := empty + 1;
        }
      }
      eos := empty > 0;
    }

    /**
     `gst_tensor_mux_collect_buffer`: one attempt, in a round whose current time is fixed by
     its first attempt. After an output the next call opens a new round.
     */
    method CollectBuffer() returns (out: Outcome)
      requires Valid()
      modifies this
      ensures Valid() && |pads| == |old(pads)|
      // time
      ensures mode == Slowest ==> currentTime >= old(currentTime)
      ensures !old(needSetTime) ==> currentTime == old(currentTime)
      // history is what the round has seen so far
      ensures !old(needSetTime) ==> history == old(history) && olderSeen == old(olderSeen)
      ensures old(needSetTime) && (out.Retry? || out.Output?) ==>
                && (forall i :: 0 <= i < |pads| ==> history[i] == Held(old(pads)[i]))
                && olderSeen == StaleCount(old(pads), currentTime)
      // pads and output
      ensures Advanced(old(pads), pads)
      ensures out.Retry? ==> !needSetTime && FailedOnce(old(pads), pads, currentTime)
      ensures out.Output? ==>
                && needSetTime && failures == olderSeen
                && Synchronised(pads, history, currentTime, mode) && Emits(out, pads, currentTime)
      // neither
      ensures out.NoBasePad? ==> mode.BasePad? && mode.sinkId >= |pads|
      ensures out.EndOfStream? ==>
                (exists i :: 0 <= i < |pads| && old(pads)[i].queue == [])
                || exists i :: 0 <= i < |pads| && pads[i].kept.None?
      ensures out.Aborted? ==> exists f :: 0 <= f <= |pads| && Stops(pads[..f])
      ensures out.Refused? ==> Collectable(pads) && !Appendable(Collected(pads), AnyFlexible(pads))
    {
      hide Ordered, Held, Tracks, StaleCount, Anchored, FailedOnce, Synchronised, Emits;
      hide Collectable, Collected, Appendable, Stops;
      if needSetTime {
        var eos := BeginRound();
        if eos {
          return EndOfStream;
        }
      }
      if mode.BasePad? && mode.sinkId >= |pads| {
        return NoBasePad;
      }
      out := TryOnce();
    }

    /** `gst_tensor_time_sync_buffer_from_collectpad`: updates the pads and, if none fails, makes the output. */
    method TryOnce() returns (out: Outcome)
      requires Valid() && !needSetTime && (mode.BasePad? ==> mode.sinkId < |pads|)
      modifies this`pads, this`failures, this`needSetTime
      ensures Valid() && Advanced(old(pads), pads)
      ensures out.Retry? ==> !needSetTime && FailedOnce(old(pads), pads, currentTime)
      ensures out.Output? ==>
                && needSetTime && failures == olderSeen
                && Synchronised(pads, history, currentTime, mode) && Emits(out, pads, currentTime)
      ensures !out.NoBasePad?
      ensures out.EndOfStream? ==> exists i :: 0 <= i < |pads| && pads[i].kept.None?
      ensures out.Aborted? ==> exists f :: 0 <= f <= |pads| && Stops(pads[..f])
      ensures out.Refused? ==> Collectable(pads) && !Appendable(Collected(pads), AnyFlexible(pads))
    {
      hide Ordered, Held, Tracks, Nearest, StaleCount, UpdatePad, Attempt, HeadIsStale, BaseTime, Anchored;
      hide Collectable, Collected, Appendable, Emits, FirstStale;
      var base := BaseTime(pads, mode);
      ghost var before := pads;
      var ok, f := RunAttempt(base);
      AfterAttempt(before, history, currentTime, base, mode);
      if mode.BasePad? {
        AttemptAnchored(before, currentTime, mode);
      }
      if !ok {
        failures := failures + 1;
      }
      if Stops(pads[..f]) {
        return Aborted;
      }
      if !ok {
        OneFirst(before, currentTime, f);
        return Retry;
      }
      assert pads[..f] == pads;
      out := Gather();
      if out.Output? {
        if exists i :: 0 <= i < |pads| && pads[i].kept.None? {
          return EndOfStream;
        }
        needSetTime := true;
      }
    }

    /** Opens a round: fixes the current time and starts the history of every pad. */
    method BeginRound() returns (eos: bool)
      requires Valid() && needSetTime
      modifies this`currentTime, this`needSetTime, this`history, this`failures, this`olderSeen
      ensures Valid()
      ensures needSetTime == eos
      ensures mode == Slowest ==> currentTime >= old(currentTime)
      ensures eos <==> exists i :: 0 <= i < |pads| && pads[i].queue == []
      ensures !eos ==> (forall i :: 0 <= i < |pads| ==> history[i] == Held(pads[i]))
                       && failures == 0 && olderSeen == StaleCount(pads, currentTime)
    {
      hide Ordered, Held, Tracks, StaleCount;
      var time;
      time, eos := GetCurrentTime();
      currentTime := time;
      if eos {
        return;
      }
      needSetTime := false;
      ghost var ps := pads;
      history := seq(|ps|, i requires 0 <= i < |ps| => Held(ps[i]));
      failures, olderSeen := 0, StaleCount(pads, currentTime);
      forall i | 0 <= i < |pads| ensures Tracks(pads[i], history[i], currentTime) {
        TracksAtStart(pads[i], currentTime);
      }
    }

    /** The loop over the pads. */
    method RunAttempt(base: Word64) returns (ok: bool, f: nat)
      modifies this`pads
      ensures (pads, ok) == Attempt(old(pads), currentTime, base, mode)
      ensures FirstStale(old(pads), currentTime, f) && f <= |pads| && (ok <==> f == |pads|)
    {
      hide UpdatePad, Attempt, HeadIsStale;
      ghost var before := pads;
      ghost var goal := Attempt(before, currentTime, base, mode);
      var i := 0;
      assert before[0..] == before && [] + goal.0 == goal.0;
      while i < |pads|
        invariant 0 <= i <= |pads| == |before|
        invariant pads[i..] == before[i..]
        invariant var rest := Attempt(before[i..], currentTime, base, mode);
                  goal == (pads[..i] + rest.0, rest.1)
        invariant forall k :: 0 <= k < i ==> !HeadIsStale(before[k], currentTime)
      {
        AttemptStep(before, i, currentTime, base, mode);
        ghost var head, prior := pads[..i], pads;
        assert pads[i] == pads[i..][0] == before[i];
        var stale := HeadIsStale(pads[i], currentTime);
        var p := UpdatePad(pads[i], currentTime, base, mode);
        pads := pads[i := p];
        assert pads[..i + 1] == head + [p] && pads[i + 1..] == prior[i..][1..] == before[i + 1..];
        if stale {
          assert pads == head + ([p] + before[i + 1..]);
          return false, i;
        }
        Associative(head, [p], Attempt(before[i + 1..], currentTime, base, mode).0);
        i := i + 1;
      }
      AttemptEnd(currentTime, base, mode);
      assert before[i..] == [] && pads[..i] == pads && pads + [] == pads;
      ok, f := true, i;
    }

    /** Collects the tensors of the kept buffers, pad by pad, and appends them to the output. */
    method Gather() returns (out: Outcome)
      ensures out.Aborted? || out.Refused? || out.Output?
      ensures out.Aborted? <==> Stops(pads)
      ensures out.Refused? ==> !Appendable(Collected(pads), AnyFlexible(pads))
      ensures out.Output? ==> Emits(out, pads, currentTime)
    {
      hide CollectableFrom, TakenFrom, Outgoing, StandsFor, Accepted, Sound, Fits, Stored;
      var tensors: seq<Tensor> := [];
      for i := 0 to |pads|
        invariant Collectable(pads[..i]) && tensors == Collected(pads[..i])
      {
        assert pads[..i + 1][..i] == pads[..i];
        if !CollectableFrom(pads[i]) {
          return Aborted;
        }
        tensors := tensors + TakenFrom(pads[i]);
      }
      assert pads[..|pads|] == pads;
      if |tensors| > SIZE_LIMIT {
        return Aborted;
      }
      var anyFlexible := exists i :: 0 <= i < |pads| && IsFlexible(pads[i]);
      var items: seq<Item> := [];
      for i := 0 to |tensors|
        invariant |items| == i && forall k :: 0 <= k < i ==> Outgoing(tensors[k], anyFlexible) == Some(items[k])
      {
        var item := Outgoing(tensors[i], anyFlexible);
        if item.None? {
          return Refused;
        }
        items := items + [item.value];
      }
      assert AllOutgoing(tensors, anyFlexible) && items == OutgoingItems(tensors, anyFlexible);
      var buffer := new Buffer();
      var ok := buffer.AppendAll(items);
      if !ok {
        return Refused;
      }
      out := Output(currentTime, buffer.mems);
    }
  }

  /** Over an attempt the base pad stays anchored; if the attempt succeeds it is at the current time. */
  lemma AttemptAnchored(before: seq<Pad>, current: ClockTime, mode: Mode)
    requires mode.BasePad? && mode.sinkId < |before| && mode.duration < TWO_32
    requires Anchored(before[mode.sinkId], current) && Ordered(Held(before[mode.sinkId]))
    ensures var (after, ok) := Attempt(before, current, BaseTime(before, mode), mode);
            && Anchored(after[mode.sinkId], current)
            && (ok ==> after[mode.sinkId].kept.Some? && after[mode.sinkId].kept.value.pts == current)
  {
    hide UpdatePad, Ordered, Held, BaseTime, Attempt;
    var failed := AttemptShape(before, current, BaseTime(before, mode), mode);
    AnchoredStays(before, current, mode);
  }

  lemma AttemptEnd(current: ClockTime, base: Word64, mode: Mode)
    ensures Attempt([], current, base, mode) == ([], true)
  {
  }

  lemma AttemptStep(pads: seq<Pad>, i: nat, current: ClockTime, base: Word64, mode: Mode)
    requires i < |pads|
    ensures var p, rest := UpdatePad(pads[i], current, base, mode), Attempt(pads[i + 1..], current, base, mode);
            Attempt(pads[i..], current, base, mode)
            == if HeadIsStale(pads[i], current) then ([p] + pads[i + 1..], false) else ([p] + rest.0, rest.1)
  {
    assert pads[i..][1..] == pads[i + 1..];
  }

  lemma QueuesOrdered(pads: seq<Pad>)
    requires forall i :: 0 <= i < |pads| ==> Ordered(Held(pads[i]))
    ensures forall i :: 0 <= i < |pads| ==> Ordered(pads[i].queue)
  {
    forall i | 0 <= i < |pads| ensures Ordered(pads[i].queue) {
      var h, q := Held(pads[i]), pads[i].queue;
      var n := |h| - |q|;
      forall j, k | 0 <= j < k < |q| ensures q[j].pts <= q[k].pts {
        assert q[j] == h[n + j] && q[k] == h[n + k];
      }
    }
  }

  lemma UpdateKeepsOrder(p: Pad, current: ClockTime, base: Word64, mode: Mode)
    requires Ordered(Held(p))
    ensures var q := UpdatePad(p, current, base, mode);
            Ordered(Held(q)) && (q == p || (p.queue != [] && q == Pop(p)))
  {
    var q := UpdatePad(p, current, base, mode);
    if q != p {
      assert Held(q) == p.queue;
      QueuesOrdered([p]);
      assert Ordered([p][0].queue);
    }
  }

  lemma UpdateOfStale(p: Pad, current: ClockTime, base: Word64, mode: Mode)
    requires HeadIsStale(p, current)
    ensures UpdatePad(p, current, base, mode) == Pop(p)
  {
  }

  lemma OneFirst(pads: seq<Pad>, current: ClockTime, f: nat)
    requires FirstStale(pads, current, f)
    ensures forall g :: 0 <= g <= |pads| && FirstStale(pads, current, g) ==> g == f
  {
  }

  /** What one attempt does to every pad and to the number of older buffers. */
  lemma AfterAttempt(before: seq<Pad>, history: seq<seq<TimedBuffer>>, current: ClockTime, base: Word64, mode: Mode)
    requires |history| == |before|
    requires forall i :: 0 <= i < |before| ==> Ordered(Held(before[i]))
    requires mode == Slowest ==> forall i :: 0 <= i < |before| ==> Tracks(before[i], history[i], current)
    ensures var (after, ok) := Attempt(before, current, base, mode);
            && (forall i :: 0 <= i < |before| ==> Ordered(Held(after[i])))
            && (forall i :: 0 <= i < |before| ==>
                  after[i] == before[i] || (before[i].queue != [] && after[i] == Pop(before[i])))
            && (mode == Slowest ==> forall i :: 0 <= i < |before| ==> Tracks(after[i], history[i], current))
            && (ok && mode == Slowest ==> forall i :: 0 <= i < |before| ==> Nearest(after[i], history[i], current))
            && (ok ==> StaleCount(before, current) == 0 == StaleCount(after, current))
            && (!ok ==>
                  && StaleCount(after, current) == StaleCount(before, current) - 1
                  && exists f :: 0 <= f < |before| && FirstStale(before, current, f)
                       && after[f] == Pop(before[f])
                       && forall i :: f < i < |before| ==> after[i] == before[i])
  {
    hide Ordered, Held, Tracks, Nearest, StaleCount, UpdatePad, Attempt, HeadIsStale;
    var (after, ok) := Attempt(before, current, base, mode);
    var failed := AttemptShape(before, current, base, mode);
    QueuesOrdered(before);
    StaleAfterAttempt(before, current, base, mode);
    forall i | 0 <= i < |before|
      ensures Ordered(Held(after[i]))
      ensures after[i] == before[i] || (before[i].queue != [] && after[i] == Pop(before[i]))
      ensures mode == Slowest ==> Tracks(after[i], history[i], current)
      ensures mode == Slowest && ok ==> Nearest(after[i], history[i], current)
    {
      UpdateKeepsOrder(before[i], current, base, mode);
      if mode == Slowest {
        TracksUpdate(before[i], history[i], current, base);
        if ok {
          UpdateFindsNearest(before[i], history[i], current, base);
        }
      }
    }
    if !ok {
      UpdateOfStale(before[failed], current, base, mode);
    }
  }

  // ----- whole rounds -----

  /** Between two outputs buffers arrive and attempts fail, in any interleaving. */
  datatype Step = Arrival(pad: nat, buffer: TimedBuffer) | FailedTry(base: Word64)

  datatype Round = Round(pads: seq<Pad>, history: seq<seq<TimedBuffer>>)

  predicate Enabled(r: Round, s: Step, current: ClockTime, mode: Mode)
  {
    match s
    case Arrival(i, b) =>
      && i < |r.pads| == |r.history|
      && (Held(r.pads[i]) != [] ==> Held(r.pads[i])[|Held(r.pads[i])| - 1].pts <= b.pts)
    case FailedTry(base) => !Attempt(r.pads, current, base, mode).1
  }

  function After(r: Round, s: Step, current: ClockTime, mode: Mode): Round
    requires Enabled(r, s, current, mode)
  {
    match s
    case Arrival(i, b) =>
      Round(r.pads[i := r.pads[i].(queue := r.pads[i].queue + [b])], r.history[i := r.history[i] + [b]])
    case FailedTry(base) => r.(pads := Attempt(r.pads, current, base, mode).0)
  }

  predicate Legal(r: Round, steps: seq<Step>, current: ClockTime, mode: Mode)
    decreases |steps|
  {
    steps != [] ==>
      Enabled(r, steps[0], current, mode) && Legal(After(r, steps[0], current, mode), steps[1..], current, mode)
  }

  function Final(r: Round, steps: seq<Step>, current: ClockTime, mode: Mode): Round
    requires Legal(r, steps, current, mode)
    decreases |steps|
  {
    if steps == [] then r else Final(After(r, steps[0], current, mode), steps[1..], current, mode)
  }

  function Tries(steps: seq<Step>): nat
  {
    if steps == [] then 0 else (if steps[0].FailedTry? then 1 else 0) + Tries(steps[1..])
  }

  /** Arrivals older than the current time. */
  function OlderArrivals(steps: seq<Step>, current: ClockTime): nat
  {
    if steps == [] then 0
    else (if steps[0].Arrival? && steps[0].buffer.pts < current then 1 else 0) + OlderArrivals(steps[1..], current)
  }

  predicate RoundInv(r: Round, current: ClockTime, mode: Mode)
  {
    && |r.history| == |r.pads|
    && (forall i :: 0 <= i < |r.pads| ==> Ordered(Held(r.pads[i])))
    && (mode == Slowest ==> forall i :: 0 <= i < |r.pads| ==> Tracks(r.pads[i], r.history[i], current))
  }

  lemma StepKeepsInv(r: Round, s: Step, current: ClockTime, mode: Mode)
    requires RoundInv(r, current, mode) && Enabled(r, s, current, mode)
    ensures var q := After(r, s, current, mode);
            && RoundInv(q, current, mode)
            && (if s.FailedTry? then StaleCount(q.pads, current) == StaleCount(r.pads, current) - 1
                else StaleCount(q.pads, current)
                     == StaleCount(r.pads, current) + if s.buffer.pts < current then 1 else 0)
  {
    hide Ordered, Held, Tracks, Nearest, StaleCount, StaleIn, Attempt, HeadIsStale;
    match s
    case Arrival(i, b) =>
      var p := r.pads[i].(queue := r.pads[i].queue + [b]);
      OrderedArrival(r.pads[i], b);
      StaleArrival(r.pads, i, p, current);
      StaleAppend(r.pads[i].queue, b, current);
      if mode == Slowest {
        TracksArrival(r.pads[i], r.history[i], current, b);
      }
    case FailedTry(base) =>
      AfterAttempt(r.pads, r.history, current, base, mode);
  }

  lemma {:induction false} RoundKeepsInv(r: Round, steps: seq<Step>, current: ClockTime, mode: Mode)
    requires RoundInv(r, current, mode) && Legal(r, steps, current, mode)
    ensures var q := Final(r, steps, current, mode);
            && RoundInv(q, current, mode)
            && Tries(steps) + StaleCount(q.pads, current)
               == StaleCount(r.pads, current) + OlderArrivals(steps, current)
    decreases |steps|
  {
    hide RoundInv, StaleCount, Enabled, After;
    if steps != [] {
      StepKeepsInv(r, steps[0], current, mode);
      RoundKeepsInv(After(r, steps[0], current, mode), steps[1..], current, mode);
    }
  }

  /**
   Every round, whatever the interleaving of arrivals and failures: when an attempt succeeds,
   each pad contributes a buffer nearest to the current time among all it held or queued
   since the round began (slowest mode), and the number of failures was exactly the number
   of older buffers queued at the start or arriving meanwhile (both modes).
   */
  lemma RoundFindsNearest(pads: seq<Pad>, steps: seq<Step>, current: ClockTime, base: Word64, mode: Mode)
    requires forall i :: 0 <= i < |pads| ==> Ordered(Held(pads[i]))
    requires Legal(Start(pads), steps, current, mode)
    requires Attempt(Final(Start(pads), steps, current, mode).pads, current, base, mode).1
    ensures var q := Final(Start(pads), steps, current, mode);
            var (after, _) := Attempt(q.pads, current, base, mode);
            && |q.history| == |after|
            && Tries(steps) == StaleCount(pads, current) + OlderArrivals(steps, current)
            && (mode == Slowest ==> forall i :: 0 <= i < |after| ==> Nearest(after[i], q.history[i], current))
  {
    hide Ordered, Held, Tracks, Nearest, StaleCount, Attempt, Legal, Final;
    var r := Start(pads);
    forall i | 0 <= i < |pads| ensures Tracks(r.pads[i], r.history[i], current) {
      TracksAtStart(pads[i], current);
    }
    RoundKeepsInv(r, steps, current, mode);
    var q := Final(r, steps, current, mode);
    AfterAttempt(q.pads, q.history, current, base, mode);
  }

  function Start(pads: seq<Pad>): Round
  {
    Round(pads, seq(|pads|, i requires 0 <= i < |pads| => Held(pads[i])))
  }

  // ----- whole rounds in base pad mode -----

  ghost predicate BaseInv(r: Round, current: ClockTime, limit: nat)
  {
    |r.history| == |r.pads| && forall i :: 0 <= i < |r.pads| ==> BaseTracks(r.pads[i], r.history[i], current, limit)
  }

  /** The base distance of every attempt, which may change from one to the next, is within the limit. */
  predicate Within(steps: seq<Step>, limit: nat)
  {
    forall k :: 0 <= k < |steps| && steps[k].FailedTry? ==> steps[k].base <= limit
  }

  lemma AttemptKeepsBase(r: Round, current: ClockTime, base: Word64, mode: Mode, limit: nat)
    requires BaseInv(r, current, limit) && mode.BasePad? && base <= limit
    ensures var (after, ok) := Attempt(r.pads, current, base, mode);
            && BaseInv(r.(pads := after), current, limit)
            && (ok ==> forall i :: 0 <= i < |after| ==> BaseChoice(after[i], r.history[i], current, base, limit))
  {
    hide Attempt, UpdatePad, BaseTracks, BaseChoice, HeadIsStale;
    var (after, ok) := Attempt(r.pads, current, base, mode);
    var failed := AttemptShape(r.pads, current, base, mode);
    forall i | 0 <= i < |r.pads|
      ensures BaseTracks(after[i], r.history[i], current, limit)
      ensures ok ==> BaseChoice(after[i], r.history[i], current, base, limit)
    {
      BaseTracksUpdate(r.pads[i], r.history[i], current, base, mode, limit);
    }
  }

  lemma {:induction false} RoundKeepsBase(r: Round, steps: seq<Step>, current: ClockTime, mode: Mode, limit: nat)
    requires BaseInv(r, current, limit) && mode.BasePad? && Legal(r, steps, current, mode) && Within(steps, limit)
    ensures BaseInv(Final(r, steps, current, mode), current, limit)
    decreases |steps|
  {
    hide BaseTracks, Attempt, Held;
    if steps != [] {
      match steps[0] {
        case Arrival(i, b) => BaseTracksArrival(r.pads[i], r.history[i], current, limit, b);
        case FailedTry(base) => AttemptKeepsBase(r, current, base, mode, limit);
      }
      RoundKeepsBase(After(r, steps[0], current, mode), steps[1..], current, mode, limit);
    }
  }

  /**
   Every round in base pad mode, whatever the interleaving of arrivals and failures: when an
   attempt succeeds, each pad contributes the buffer it has reached in its history. That buffer
   lies at most the largest base distance ahead of the current time, unless it is the first one
   the pad had in the round; and it is older than the current time only if the next buffer is
   missing or lies beyond the base distance.
   */
  lemma BasePadRound(pads: seq<Pad>, steps: seq<Step>, current: ClockTime, base: Word64, mode: Mode, limit: nat)
    requires mode.BasePad? && base <= limit && Within(steps, limit)
    requires Legal(Start(pads), steps, current, mode)
    requires Attempt(Final(Start(pads), steps, current, mode).pads, current, base, mode).1
    ensures var q := Final(Start(pads), steps, current, mode);
            var (after, _) := Attempt(q.pads, current, base, mode);
            && |q.history| == |after|
            && forall i :: 0 <= i < |after| ==> BaseChoice(after[i], q.history[i], current, base, limit)
  {
    hide Attempt, Legal, Final;
    var r := Start(pads);
    assert BaseInv(r, current, limit);
    RoundKeepsBase(r, steps, current, mode, limit);
    AttemptKeepsBase(Final(r, steps, current, mode), current, base, mode, limit);
  }
}
