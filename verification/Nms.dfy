/**
 Non-maximum suppression of detected boxes. The overlap measure is a parameter, so every
 result holds for the source's intersection over union and for any other measure.
 */
module Nms {
  import opened Sorting

  datatype Detection = Detection(valid: bool, classId: int, x: int, y: int, width: int, height: int,
                                 prob: real, trackingId: int)

  type Overlap = (Detection, Detection) -> real

  predicate TooClose(overlap: Overlap, threshold: real, a: Detection, b: Detection)
  {
    overlap(a, b) > threshold
  }

  /** Larger probabilities first. */
  predicate Descending(s: seq<Detection>)
  {
    forall i, j :: 0 <= i < j < |s| ==> s[i].prob >= s[j].prob
  }

  /** No box of the list is too close to an earlier one. */
  predicate Separated(s: seq<Detection>, overlap: Overlap, threshold: real)
  {
    forall i, j :: 0 <= i < j < |s| ==> !TooClose(overlap, threshold, s[i], s[j])
  }

  lemma ConsSeparated(d: Detection, s: seq<Detection>, overlap: Overlap, threshold: real)
    requires Separated(s, overlap, threshold) && forall b :: b in s ==> !TooClose(overlap, threshold, d, b)
    ensures Separated([d] + s, overlap, threshold)
  {
  }

  lemma ConsDescending(d: Detection, s: seq<Detection>)
    requires Descending(s) && forall b :: b in s ==> d.prob >= b.prob
    ensures Descending([d] + s)
  {
  }

  // ----- the simple form -----

  /** The boxes of `s` that do, or do not, overlap `a` above the threshold. */
  function Near(a: Detection, s: seq<Detection>, overlap: Overlap, threshold: real): seq<Detection>
  {
    if s == [] then []
    else if TooClose(overlap, threshold, a, s[0]) then [s[0]] + Near(a, s[1..], overlap, threshold)
    else Near(a, s[1..], overlap, threshold)
  }

  function Apart(a: Detection, s: seq<Detection>, overlap: Overlap, threshold: real): (r: seq<Detection>)
    ensures |r| <= |s|
  {
    if s == [] then []
    else if TooClose(overlap, threshold, a, s[0]) then Apart(a, s[1..], overlap, threshold)
    else [s[0]] + Apart(a, s[1..], overlap, threshold)
  }

  /** Take the best box, drop what overlaps it, go on with the rest. */
  function Select(s: seq<Detection>, overlap: Overlap, threshold: real): seq<Detection>
    decreases |s|
  {
    if s == [] then []
    else [s[0]] + Select(Apart(s[0], s[1..], overlap, threshold), overlap, threshold)
  }

  /** What `Select` drops. */
  function Dropped(s: seq<Detection>, overlap: Overlap, threshold: real): seq<Detection>
    decreases |s|
  {
    if s == [] then []
    else
      Near(s[0], s[1..], overlap, threshold)
      + Dropped(Apart(s[0], s[1..], overlap, threshold), overlap, threshold)
  }

  /** The two lists together are the input. */
  lemma {:induction false} NearApartConserve(a: Detection, s: seq<Detection>, overlap: Overlap, threshold: real)
    ensures multiset(Near(a, s, overlap, threshold)) + multiset(Apart(a, s, overlap, threshold)) == multiset(s)
  {
    if s != [] {
      NearApartConserve(a, s[1..], overlap, threshold);
      var near, apart := Near(a, s[1..], overlap, threshold), Apart(a, s[1..], overlap, threshold);
      assert s == [s[0]] + s[1..];
      assert multiset(s) == multiset{s[0]} + multiset(s[1..]);
      assert multiset([s[0]] + near) == multiset{s[0]} + multiset(near);
      assert multiset([s[0]] + apart) == multiset{s[0]} + multiset(apart);
    }
  }

  lemma {:induction false} NearApart(a: Detection, s: seq<Detection>, overlap: Overlap, threshold: real)
    ensures forall b :: b in Near(a, s, overlap, threshold) ==> b in s && TooClose(overlap, threshold, a, b)
    ensures forall b :: b in Apart(a, s, overlap, threshold) ==> b in s && !TooClose(overlap, threshold, a, b)
  {
    hide TooClose;
    if s != [] {
      NearApart(a, s[1..], overlap, threshold);
      assert s == [s[0]] + s[1..];
    }
  }

  lemma {:induction false} ApartDescending(a: Detection, s: seq<Detection>, overlap: Overlap, threshold: real)
    requires Descending(s)
    ensures Descending(Apart(a, s, overlap, threshold))
  {
    if s != [] {
      ApartDescending(a, s[1..], overlap, threshold);
      NearApart(a, s[1..], overlap, threshold);
      var rest := Apart(a, s[1..], overlap, threshold);
      forall b | b in rest ensures s[0].prob >= b.prob {
        assert b in s[1..];
      }
      ConsDescending(s[0], rest);
    }
  }

  lemma SelectStep(s: seq<Detection>, overlap: Overlap, threshold: real)
    requires s != []
    ensures var rest := Apart(s[0], s[1..], overlap, threshold);
            && Select(s, overlap, threshold) == [s[0]] + Select(rest, overlap, threshold)
            && Dropped(s, overlap, threshold)
               == Near(s[0], s[1..], overlap, threshold) + Dropped(rest, overlap, threshold)
  {
  }

  lemma Split<T>(a: T, kept: seq<T>, near: seq<T>, dropped: seq<T>, rest: seq<T>, tail: seq<T>)
    requires multiset(kept) + multiset(dropped) == multiset(rest)
    requires multiset(near) + multiset(rest) == multiset(tail)
    ensures multiset([a] + kept) + multiset(near + dropped) == multiset([a] + tail)
  {
  }

  /** Survivors and dropped boxes together are the input. */
  lemma {:induction false} SelectConserves(s: seq<Detection>, overlap: Overlap, threshold: real)
    ensures multiset(Select(s, overlap, threshold)) + multiset(Dropped(s, overlap, threshold)) == multiset(s)
    decreases |s|
  {
    if s != [] {
      var rest := Apart(s[0], s[1..], overlap, threshold);
      hide Near, Apart, Select, Dropped;
      var kept, near, dropped :=
        Select(rest, overlap, threshold), Near(s[0], s[1..], overlap, threshold), Dropped(rest, overlap, threshold);
      SelectConserves(rest, overlap, threshold);
      NearApartConserve(s[0], s[1..], overlap, threshold);
      SelectStep(s, overlap, threshold);
      Split(s[0], kept, near, dropped, rest, s[1..]);
      assert s == [s[0]] + s[1..];
    }
  }

  lemma SelectWithin(s: seq<Detection>, overlap: Overlap, threshold: real, b: Detection)
    requires b in Select(s, overlap, threshold)
    ensures b in s
  {
    SelectConserves(s, overlap, threshold);
    assert b in multiset(Select(s, overlap, threshold));
    assert b in multiset(s);
  }

  /** Survivors stay sorted, and no survivor overlaps an earlier one above the threshold. */
  lemma {:induction false} SelectSeparated(s: seq<Detection>, overlap: Overlap, threshold: real)
    requires Descending(s)
    ensures Descending(Select(s, overlap, threshold))
    ensures Separated(Select(s, overlap, threshold), overlap, threshold)
    decreases |s|
  {
    if s != [] {
      var rest := Apart(s[0], s[1..], overlap, threshold);
      NearApart(s[0], s[1..], overlap, threshold);
      ApartDescending(s[0], s[1..], overlap, threshold);
      SelectSeparated(rest, overlap, threshold);
      var tail := Select(rest, overlap, threshold);
      forall b | b in tail ensures b in s[1..] && !TooClose(overlap, threshold, s[0], b) {
        SelectWithin(rest, overlap, threshold, b);
      }
      ConsDescending(s[0], tail);
      ConsSeparated(s[0], tail, overlap, threshold);
    }
  }

  /** Every dropped box overlaps a survivor that is at least as probable. */
  lemma {:induction false} DroppedHasReason(s: seq<Detection>, overlap: Overlap, threshold: real, b: Detection)
    requires Descending(s) && b in Dropped(s, overlap, threshold)
    ensures exists a :: a in Select(s, overlap, threshold) && a.prob >= b.prob && TooClose(overlap, threshold, a, b)
    decreases |s|
  {
    var rest := Apart(s[0], s[1..], overlap, threshold);
    NearApart(s[0], s[1..], overlap, threshold);
    if b in Near(s[0], s[1..], overlap, threshold) {
      assert b in s[1..] && s[0] in Select(s, overlap, threshold);
    } else {
      ApartDescending(s[0], s[1..], overlap, threshold);
      DroppedHasReason(rest, overlap, threshold, b);
      var a :| a in Select(rest, overlap, threshold) && a.prob >= b.prob && TooClose(overlap, threshold, a, b);
      assert a in Select(s, overlap, threshold);
    }
  }

  // ----- the flags of the source -----

  function ValidOnly(s: seq<Detection>): seq<Detection>
  {
    if s == [] then [] else if s[0].valid then [s[0]] + ValidOnly(s[1..]) else ValidOnly(s[1..])
  }

  /** One pass of the inner loop: clear the flag of every valid box too close to `a`. */
  function Suppress(a: Detection, s: seq<Detection>, overlap: Overlap, threshold: real): (r: seq<Detection>)
    ensures |r| == |s|
    ensures forall k :: 0 <= k < |s| ==>
      r[k] == if s[k].valid && TooClose(overlap, threshold, a, s[k]) then s[k].(valid := false) else s[k]
  {
    seq(|s|, k requires 0 <= k < |s| =>
      if s[k].valid && TooClose(overlap, threshold, a, s[k]) then s[k].(valid := false) else s[k])
  }

  /** All passes of the outer loop. */
  function Mark(s: seq<Detection>, overlap: Overlap, threshold: real): (r: seq<Detection>)
    ensures |r| == |s|
    decreases |s|
  {
    if s == [] then []
    else if s[0].valid then [s[0]] + Mark(Suppress(s[0], s[1..], overlap, threshold), overlap, threshold)
    else [s[0]] + Mark(s[1..], overlap, threshold)
  }

  lemma {:induction false} ValidAfterSuppress(a: Detection, s: seq<Detection>, overlap: Overlap, threshold: real)
    ensures ValidOnly(Suppress(a, s, overlap, threshold)) == Apart(a, ValidOnly(s), overlap, threshold)
  {
    if s != [] {
      ValidAfterSuppress(a, s[1..], overlap, threshold);
      assert Suppress(a, s, overlap, threshold)[1..] == Suppress(a, s[1..], overlap, threshold);
      var v := ValidOnly(s[1..]);
      if s[0].valid {
        assert ValidOnly(s) == [s[0]] + v && ([s[0]] + v)[1..] == v;
      }
    }
  }

  /** Flagging in place refines the simple form. */
  lemma {:induction false} MarkRefinesSelect(s: seq<Detection>, overlap: Overlap, threshold: real)
    ensures ValidOnly(Mark(s, overlap, threshold)) == Select(ValidOnly(s), overlap, threshold)
    decreases |s|
  {
    if s != [] {
      var m, v := Mark(s, overlap, threshold), ValidOnly(s[1..]);
      if s[0].valid {
        var t := Suppress(s[0], s[1..], overlap, threshold);
        MarkRefinesSelect(t, overlap, threshold);
        ValidAfterSuppress(s[0], s[1..], overlap, threshold);
        assert m[1..] == Mark(t, overlap, threshold);
        assert ValidOnly(s) == [s[0]] + v && ([s[0]] + v)[1..] == v;
      } else {
        MarkRefinesSelect(s[1..], overlap, threshold);
        assert m[1..] == Mark(s[1..], overlap, threshold);
      }
    }
  }

  /** `g_array_sort`: descending probability; equal probabilities may end up in any order. */
  method SortResults(s: seq<Detection>) returns (r: seq<Detection>)
    ensures Descending(r) && multiset(r) == multiset(s)
  {
    r := SortBy(s, (d: Detection) => -d.prob);
  }

  class Results {
    var items: seq<Detection>

    constructor (items: seq<Detection>)
      ensures this.items == items
    {
      this.items := items;
    }

    /** `nms`: sort, flag, remove. The survivors are the simple selection from the valid boxes. */
    method Suppression(overlap: Overlap, threshold: real) returns (ghost sorted: seq<Detection>)
      modifies this
      ensures Descending(sorted) && multiset(sorted) == multiset(old(items))
      ensures items == Select(ValidOnly(sorted), overlap, threshold)
    {
      var size := |items|;
      if size == 0 {
        sorted := items;
        return;
      }
      items := SortResults(items);
      sorted := items;
      LengthKept(sorted, old(items));
      MarkAll(overlap, threshold);
      MarkRefinesSelect(sorted, overlap, threshold);
      RemoveInvalid();
    }

    /** The nested loops. */
    method MarkAll(overlap: Overlap, threshold: real)
      modifies this
      ensures items == Mark(old(items), overlap, threshold)
    {
      hide Suppress, Mark;
      var size := |items|;
      ghost var goal := Mark(items, overlap, threshold);
      assert items[..0] == [] && items[0..] == items && [] + goal == goal;
      for i := 0 to size
        invariant |items| == size
        invariant items[..i] + Mark(items[i..], overlap, threshold) == goal
      {
        ghost var before := items;
        assert before[i..][0] == before[i] && before[i..][1..] == before[i + 1..];
        MarkStep(before[i..], overlap, threshold);
        if items[i].valid {
          MarkFrom(i, overlap, threshold);
        }
        ghost var rest := Mark(items[i + 1..], overlap, threshold);
        assert items[..i + 1] == before[..i] + [before[i]];
        assert before[..i] + ([before[i]] + rest) == before[..i] + [before[i]] + rest;
      }
      assert items[size..] == [] && items[..size] == items;
      MarkStep([], overlap, threshold);
      assert items + [] == items;
    }

    /** The inner loop for box `i`. */
    method MarkFrom(i: nat, overlap: Overlap, threshold: real)
      requires i < |items|
      modifies this
      ensures |items| == |old(items)| && items[..i + 1] == old(items)[..i + 1]
      ensures items[i + 1..] == Suppress(old(items)[i], old(items)[i + 1..], overlap, threshold)
    {
      var a := items[i];
      for j := i + 1 to |items|
        invariant |items| == |old(items)|
        invariant forall k :: 0 <= k <= i || j <= k < |items| ==> items[k] == old(items)[k]
        invariant forall k :: i < k < j ==>
          items[k] == if old(items)[k].valid && TooClose(overlap, threshold, a, old(items)[k])
                      then old(items)[k].(valid := false) else old(items)[k]
      {
        var b := items[j];
        if b.valid {
          if TooClose(overlap, threshold, a, b) {
            items := items[j := b.(valid := false)];
          }
        }
      }
    }

    /** The removal loop, testing after each round as the source does. */
    method RemoveInvalid()
      requires items != []
      modifies this
      ensures items == ValidOnly(old(items))
    {
      hide ValidOnly;
      var i := 0;
      ghost var goal := ValidOnly(items);
      assert items[0..] == items && items[..0] == [] && [] + goal == goal;
      while true
        invariant 0 <= i < |items|
        invariant items[..i] + ValidOnly(items[i..]) == goal
        decreases |items| - i
      {
        ghost var before := items;
        ValidStep(before[i..]);
        assert before[i..][1..] == before[i + 1..] && before[i..][0] == before[i];
        if !items[i].valid {
          items := items[..i] + items[i + 1..];
          assert items[..i] == before[..i] && items[i..] == before[i + 1..];
        } else {
          assert before[..i] + ([before[i]] + ValidOnly(before[i + 1..]))
              == before[..i] + [before[i]] + ValidOnly(before[i + 1..]);
          assert before[..i + 1] == before[..i] + [before[i]];
          i := i + 1;
        }
        if i >= |items| {
          break;
        }
      }
      ValidStep([]);
      assert items[i..] == [] && items[..i] == items && items + [] == items;
    }
  }

  lemma LengthKept(a: seq<Detection>, b: seq<Detection>)
    requires multiset(a) == multiset(b)
    ensures |a| == |b|
  {
    assert |a| == |multiset(a)|;
    assert |b| == |multiset(b)|;
  }

  lemma MarkStep(s: seq<Detection>, overlap: Overlap, threshold: real)
    ensures s == [] ==> Mark(s, overlap, threshold) == []
    ensures s != [] ==>
              Mark(s, overlap, threshold) == [s[0]] + Mark(
                if s[0].valid then Suppress(s[0], s[1..], overlap, threshold) else s[1..], overlap, threshold)
  {
  }

  lemma ValidStep(s: seq<Detection>)
    ensures s == [] ==> ValidOnly(s) == []
    ensures s != [] ==> ValidOnly(s) == if s[0].valid then [s[0]] + ValidOnly(s[1..]) else ValidOnly(s[1..])
  {
  }

  // ----- the result, stated for every list, measure and threshold -----

  lemma {:induction false} ValidOnlyDescending(s: seq<Detection>)
    requires Descending(s)
    ensures Descending(ValidOnly(s))
    ensures forall b :: b in ValidOnly(s) <==> b in s && b.valid
  {
    if s != [] {
      ValidOnlyDescending(s[1..]);
      forall b | b in ValidOnly(s[1..]) ensures s[0].prob >= b.prob {
        assert b in s[1..];
      }
      ConsDescending(s[0], ValidOnly(s[1..]));
      assert s == [s[0]] + s[1..];
    }
  }

  /**
   Survivors are valid input boxes in descending order of probability, no two of them overlap
   above the threshold, and every other valid box overlaps a survivor of at least its probability.
   */
  lemma SuppressionCorrect(sorted: seq<Detection>, overlap: Overlap, threshold: real, r: seq<Detection>)
    requires Descending(sorted) && r == Select(ValidOnly(sorted), overlap, threshold)
    ensures Descending(r)
    ensures multiset(r) <= multiset(ValidOnly(sorted))
    ensures forall b :: b in r ==> b in sorted && b.valid
    ensures forall i, j :: 0 <= i < j < |r| ==> overlap(r[i], r[j]) <= threshold
    ensures forall b :: b in multiset(ValidOnly(sorted)) - multiset(r) ==>
              exists a :: a in r && a.prob >= b.prob && overlap(a, b) > threshold
    ensures forall b :: b in sorted && b.valid ==>
              b in r || exists a :: a in r && a.prob >= b.prob && overlap(a, b) > threshold
  {
    hide Select, Dropped, ValidOnly;
    var v := ValidOnly(sorted);
    ValidOnlyDescending(sorted);
    SelectSeparated(v, overlap, threshold);
    assert forall i, j :: 0 <= i < j < |r| ==> !TooClose(overlap, threshold, r[i], r[j]);
    SelectConserves(v, overlap, threshold);
    var dropped := Dropped(v, overlap, threshold);
    forall b | b in multiset(v) - multiset(r)
      ensures exists a :: a in r && a.prob >= b.prob && overlap(a, b) > threshold
    {
      assert b in multiset(dropped);
      DroppedHasReason(v, overlap, threshold, b);
      var a :| a in r && a.prob >= b.prob && TooClose(overlap, threshold, a, b);
      assert overlap(a, b) > threshold;
    }
    forall b | b in r ensures b in sorted && b.valid {
      SelectWithin(v, overlap, threshold, b);
    }
    forall b | b in sorted && b.valid && b !in r
      ensures b in multiset(v) - multiset(r)
    {
      assert b in multiset(v) && b !in multiset(r);
    }
  }
}
