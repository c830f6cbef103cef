/** The centroid tracker of the bounding box decoder: identities for boxes over a run of frames. */
module Tracker {
  import opened Bytes
  import opened Nms
  import opened Options

  const MAX_CENTROIDS: nat := 100
  const DISAPPEAR_THRESHOLD: nat := 100

  datatype Centroid = Centroid(id: nat, matchedBox: Option<nat>, cx: int, cy: int, disappeared: nat)

  /** An entry of the distance table. */
  datatype Pair = Pair(centroid: nat, box: nat, distance: nat)

  predicate InRange(table: seq<Pair>, centroids: nat, boxes: nat)
  {
    forall k :: 0 <= k < |table| ==> table[k].centroid < centroids && table[k].box < boxes
  }

  predicate DistinctIds(cs: seq<Centroid>)
  {
    forall i, j :: 0 <= i < j < |cs| ==> cs[i].id != cs[j].id
  }

  predicate IdsBelow(cs: seq<Centroid>, lastId: nat)
  {
    forall i :: 0 <= i < |cs| ==> 1 <= cs[i].id <= lastId
  }

  // ----- the matching pass -----

  /**
   `picks` are the table positions at which a match was made, in order: pairs that share a
   centroid or a box are never both picked, and a pair is passed over only because an earlier
   pick took its centroid or its box.
   */
  ghost predicate Greedy(table: seq<Pair>, upTo: nat, picks: seq<nat>)
  {
    && upTo <= |table|
    && (forall i :: 0 <= i < |picks| ==> picks[i] < upTo)
    && (forall i, j :: 0 <= i < j < |picks| ==>
          && picks[i] < picks[j]
          && table[picks[i]].centroid != table[picks[j]].centroid
          && table[picks[i]].box != table[picks[j]].box)
    && (forall k :: 0 <= k < upTo ==> Settled(table, picks, k))
  }

  /** Position `k` is picked, or an earlier pick took one of its members. */
  ghost predicate Settled(table: seq<Pair>, picks: seq<nat>, k: nat)
    requires k < |table| && forall i :: 0 <= i < |picks| ==> picks[i] < |table|
  {
    exists i :: 0 <= i < |picks| && picks[i] <= k
      && (table[picks[i]].centroid == table[k].centroid || table[picks[i]].box == table[k].box)
  }

  /** Centroids and boxes carry exactly the picked matches, and are otherwise untouched. */
  ghost predicate Carries(cs: seq<Centroid>, bs: seq<Detection>, cs0: seq<Centroid>, bs0: seq<Detection>,
                          table: seq<Pair>, picks: seq<nat>)
    requires InRange(table, |cs0|, |bs0|) && forall i :: 0 <= i < |picks| ==> picks[i] < |table|
  {
    && |cs| == |cs0| && |bs| == |bs0|
    && (forall c :: 0 <= c < |cs| ==>
          cs[c] == if cs[c].matchedBox.Some? then cs0[c].(matchedBox := cs[c].matchedBox, disappeared := 0) else cs0[c])
    && (forall i :: 0 <= i < |picks| ==> Agrees(cs, bs, table[picks[i]]))
    && (forall c :: 0 <= c < |cs| && cs[c].matchedBox.Some? ==> PickedCentroid(table, picks, c))
    && (forall b :: 0 <= b < |bs| && bs[b].trackingId != 0 ==> PickedBox(table, picks, b))
    && (forall b :: 0 <= b < |bs| ==> bs[b] == bs0[b].(trackingId := bs[b].trackingId))
  }

  ghost predicate Agrees(cs: seq<Centroid>, bs: seq<Detection>, p: Pair)
  {
    p.centroid < |cs| && p.box < |bs|
    && cs[p.centroid].matchedBox == Some(p.box) && bs[p.box].trackingId == cs[p.centroid].id
  }

  ghost predicate PickedCentroid(table: seq<Pair>, picks: seq<nat>, c: nat)
    requires forall i :: 0 <= i < |picks| ==> picks[i] < |table|
  {
    exists i :: 0 <= i < |picks| && table[picks[i]].centroid == c
  }

  ghost predicate PickedBox(table: seq<Pair>, picks: seq<nat>, b: nat)
    requires forall i :: 0 <= i < |picks| ==> picks[i] < |table|
  {
    exists i :: 0 <= i < |picks| && table[picks[i]].box == b
  }

  lemma GreedySkip(table: seq<Pair>, k: nat, picks: seq<nat>, i: nat)
    requires k < |table| && Greedy(table, k, picks) && i < |picks|
    requires table[picks[i]].centroid == table[k].centroid || table[picks[i]].box == table[k].box
    ensures Greedy(table, k + 1, picks)
  {
  }

  lemma GreedyPick(table: seq<Pair>, k: nat, picks: seq<nat>)
    requires k < |table| && Greedy(table, k, picks)
    requires forall i :: 0 <= i < |picks| ==>
      table[picks[i]].centroid != table[k].centroid && table[picks[i]].box != table[k].box
    ensures Greedy(table, k + 1, picks + [k])
  {
    var more := picks + [k];
    forall j | 0 <= j < k + 1 ensures Settled(table, more, j) {
      if j == k {
        assert more[|picks|] == k;
      } else {
        assert Settled(table, picks, j);
        var i :| 0 <= i < |picks| && picks[i] <= j
          && (table[picks[i]].centroid == table[j].centroid || table[picks[i]].box == table[j].box);
        assert more[i] == picks[i];
      }
    }
  }

  /** A match made at position `k` extends what is carried. */
  lemma CarriesPick(cs: seq<Centroid>, bs: seq<Detection>, cs0: seq<Centroid>, bs0: seq<Detection>,
                    table: seq<Pair>, picks: seq<nat>, k: nat, c: Centroid, b: Detection)
    requires InRange(table, |cs0|, |bs0|) && k < |table| && forall i :: 0 <= i < |picks| ==> picks[i] < |table|
    requires Carries(cs, bs, cs0, bs0, table, picks)
    requires var p := table[k];
             && (forall i :: 0 <= i < |picks| ==>
                   table[picks[i]].centroid != p.centroid && table[picks[i]].box != p.box)
             && c == cs0[p.centroid].(matchedBox := Some(p.box), disappeared := 0)
             && b == bs[p.box].(trackingId := c.id)
    ensures var p := table[k];
            Carries(cs[p.centroid := c], bs[p.box := b], cs0, bs0, table, picks + [k])
  {
    var p, more := table[k], picks + [k];
    var cs1, bs1 := cs[p.centroid := c], bs[p.box := b];
    forall i | 0 <= i < |more| ensures Agrees(cs1, bs1, table[more[i]]) {
      if i < |picks| {
        assert Agrees(cs, bs, table[picks[i]]);
      }
    }
    forall d | 0 <= d < |cs1| && cs1[d].matchedBox.Some? ensures PickedCentroid(table, more, d) {
      if d == p.centroid {
        assert table[more[|picks|]].centroid == d;
      } else {
        assert PickedCentroid(table, picks, d);
        var i :| 0 <= i < |picks| && table[picks[i]].centroid == d;
        assert table[more[i]].centroid == d;
      }
    }
    forall d | 0 <= d < |bs1| && bs1[d].trackingId != 0 ensures PickedBox(table, more, d) {
      if d == p.box {
        assert table[more[|picks|]].box == d;
      } else {
        assert PickedBox(table, picks, d);
        var i :| 0 <= i < |picks| && table[picks[i]].box == d;
        assert table[more[i]].box == d;
      }
    }
  }

  /** Lines 529-556: from the nearest pair on, match what is still free. */
  method MatchPass(cs0: seq<Centroid>, bs0: seq<Detection>, table: seq<Pair>)
    returns (cs: seq<Centroid>, bs: seq<Detection>)
    requires InRange(table, |cs0|, |bs0|)
    requires forall c :: 0 <= c < |cs0| ==> cs0[c].matchedBox == None && cs0[c].id != 0
    requires forall b :: 0 <= b < |bs0| ==> bs0[b].trackingId == 0
    ensures exists picks: seq<nat> ::
              && Greedy(table, |table|, picks) && (forall i :: 0 <= i < |picks| ==> picks[i] < |table|)
              && Carries(cs, bs, cs0, bs0, table, picks)
  {
    hide Greedy;
    ghost var picks: seq<nat> := [];
    cs, bs := cs0, bs0;
    assert Greedy(table, 0, picks) by { GreedyStarts(table); }
    for k := 0 to |table|
      invariant Greedy(table, k, picks)
      invariant forall i :: 0 <= i < |picks| ==> picks[i] < |table|
      invariant Carries(cs, bs, cs0, bs0, table, picks)
    {
      var p := table[k];
      var c, box := cs[p.centroid], bs[p.box];
      if c.id == 0 {
        continue;
      }
      if box.trackingId != 0 {
        assert PickedBox(table, picks, p.box);
        ghost var i :| 0 <= i < |picks| && table[picks[i]].box == p.box;
        GreedySkip(table, k, picks, i);
        continue;
      }
      if c.matchedBox != None {
        assert PickedCentroid(table, picks, p.centroid);
        ghost var i :| 0 <= i < |picks| && table[picks[i]].centroid == p.centroid;
        GreedySkip(table, k, picks, i);
        continue;
      }
      FreeMembers(cs, bs, cs0, bs0, table, picks, k);
      GreedyPick(table, k, picks);
      var c1, b1 := c.(matchedBox := Some(p.box), disappeared := 0), box.(trackingId := c.id);
      CarriesPick(cs, bs, cs0, bs0, table, picks, k, c1, b1);
      cs, bs, picks := cs[p.centroid := c1], bs[p.box := b1], picks + [k];
    }
  }

  lemma GreedyStarts(table: seq<Pair>)
    ensures Greedy(table, 0, [])
  {
  }

  lemma FreeMembers(cs: seq<Centroid>, bs: seq<Detection>, cs0: seq<Centroid>, bs0: seq<Detection>,
                    table: seq<Pair>, picks: seq<nat>, k: nat)
    requires InRange(table, |cs0|, |bs0|) && k < |table| && forall i :: 0 <= i < |picks| ==> picks[i] < |table|
    requires Carries(cs, bs, cs0, bs0, table, picks)
    requires cs[table[k].centroid].matchedBox == None && bs[table[k].box].trackingId == 0
    requires forall c :: 0 <= c < |cs0| ==> cs0[c].id != 0
    ensures forall i :: 0 <= i < |picks| ==>
      table[picks[i]].centroid != table[k].centroid && table[picks[i]].box != table[k].box
  {
  }

  // ----- frames -----

  function Survivors(cs: seq<Centroid>): seq<Centroid>
  {
    if cs == [] then []
    else if cs[0].disappeared >= DISAPPEAR_THRESHOLD then Survivors(cs[1..])
    else [cs[0]] + Survivors(cs[1..])
  }

  function Ids(cs: seq<Centroid>): set<nat>
  {
    set c | c in cs :: c.id
  }

  lemma {:induction false} SurvivorsSubset(cs: seq<Centroid>)
    ensures forall c :: c in Survivors(cs) ==> c in cs
    ensures DistinctIds(cs) ==> DistinctIds(Survivors(cs))
    ensures |Survivors(cs)| <= |cs|
  {
    if cs != [] {
      SurvivorsSubset(cs[1..]);
      var rest := Survivors(cs[1..]);
      if DistinctIds(cs) {
        forall c | c in rest ensures c.id != cs[0].id {
          assert c in cs[1..];
        }
      }
    }
  }

  /** Exactly the centroids that were missing in fewer than a hundred frames survive. */
  lemma {:induction false} SurvivorsIff(cs: seq<Centroid>, c: Centroid)
    ensures c in Survivors(cs) <==> c in cs && c.disappeared < 100
  {
    if cs != [] {
      SurvivorsIff(cs[1..], c);
      assert cs == [cs[0]] + cs[1..];
    }
  }

  /** Removes the centroids that disappeared too long ago, in place. */
  method RemoveDisappeared(cs0: seq<Centroid>) returns (cs: seq<Centroid>)
    ensures cs == Survivors(cs0)
  {
    hide Survivors;
    cs := cs0;
    var i := 0;
    SurvivorsStep([]);
    assert cs[0..] == cs && [] + Survivors(cs) == Survivors(cs);
    while i < |cs|
      invariant 0 <= i <= |cs|
      invariant cs[..i] + Survivors(cs[i..]) == Survivors(cs0)
      decreases |cs| - i
    {
      ghost var before := cs;
      SurvivorsStep(before[i..]);
      assert before[i..][1..] == before[i + 1..] && before[i..][0] == before[i];
      if cs[i].disappeared >= DISAPPEAR_THRESHOLD {
        cs := cs[..i] + cs[i + 1..];
        assert cs[..i] == before[..i] && cs[i..] == before[i + 1..];
      } else {
        Associative(before[..i], [before[i]], Survivors(before[i + 1..]));
        assert before[..i + 1] == before[..i] + [before[i]];
        i := i + 1;
      }
    }
    assert cs[i..] == [] && cs[..i] == cs && cs + [] == cs;
  }

  lemma SurvivorsStep(cs: seq<Centroid>)
    ensures cs == [] ==> Survivors(cs) == []
    ensures cs != [] ==>
              Survivors(cs) == if cs[0].disappeared >= DISAPPEAR_THRESHOLD then Survivors(cs[1..])
                               else [cs[0]] + Survivors(cs[1..])
  {
  }

  /** `n / 2` in C: what is left over has the sign of `n`. */
  function Half(n: int): (h: int)
    ensures if n >= 0 then 0 <= n - 2 * h <= 1 else -1 <= n - 2 * h <= 0
  {
    if n < 0 then -(-n / 2) else n / 2
  }

  /** Every box has an identity, and no two boxes share one. */
  predicate Identified(bs: seq<Detection>)
  {
    && (forall b :: 0 <= b < |bs| ==> bs[b].trackingId != 0)
    && (forall a, b :: 0 <= a < b < |bs| ==> bs[a].trackingId != bs[b].trackingId)
  }

  /** Identities of boxes so far: none, or one of `ids`, never shared. */
  ghost predicate PartlyIdentified(bs: seq<Detection>, ids: set<nat>)
  {
    && (forall b :: 0 <= b < |bs| && bs[b].trackingId != 0 ==> bs[b].trackingId >= 0 && bs[b].trackingId in ids)
    && (forall a, b :: 0 <= a < b < |bs| && bs[a].trackingId != 0 ==> bs[a].trackingId != bs[b].trackingId)
  }

  /** Matching identifies boxes by different centroids. */
  lemma MatchesIdentify(cs: seq<Centroid>, bs: seq<Detection>, cs0: seq<Centroid>, bs0: seq<Detection>,
                        table: seq<Pair>, picks: seq<nat>)
    requires InRange(table, |cs0|, |bs0|) && Greedy(table, |table|, picks)
    requires Carries(cs, bs, cs0, bs0, table, picks) && DistinctIds(cs0)
    ensures PartlyIdentified(bs, Ids(cs0))
  {
  }

  /** A centroid in the middle of box number `k`. */
  function NewCentroid(id: nat, k: nat, box: Detection): Centroid
  {
    Centroid(id, Some(k), box.x + Half(box.width), box.y + Half(box.height), 0)
  }

  /** New centroids for the boxes without identity, in order, with the identities after `lastId`. */
  function Newcomers(bs: seq<Detection>, lastId: nat): (r: seq<Centroid>)
    ensures |r| <= |bs|
    ensures forall k :: 0 <= k < |r| ==> r[k].id == lastId + 1 + k
  {
    if bs == [] then []
    else
      var n := |bs| - 1;
      var before, box := Newcomers(bs[..n], lastId), bs[n];
      if box.trackingId != 0 then before
      else before + [NewCentroid(lastId + |before| + 1, n, box)]
  }

  /** A box keeps its identity, or gets the one of its newcomer. */
  predicate Named(bs: seq<Detection>, bs0: seq<Detection>, lastId: nat, upTo: nat)
  {
    && upTo <= |bs0| == |bs|
    && forall b :: 0 <= b < upTo ==>
         bs[b] == if bs0[b].trackingId != 0 then bs0[b]
                  else bs0[b].(trackingId := lastId + |Newcomers(bs0[..b + 1], lastId)|)
  }

  /** A surviving centroid after a frame: its match and a cleared counter, or one more missing frame. */
  function Aged(c: Centroid, match': Option<nat>): Centroid
  {
    c.(matchedBox := match', disappeared := if match'.Some? then 0 else c.disappeared + 1)
  }

  function MissedAll(cs: seq<Centroid>): (r: seq<Centroid>)
    ensures |r| == |cs|
    ensures forall c :: 0 <= c < |cs| ==> r[c] == cs[c].(disappeared := cs[c].disappeared + 1)
  {
    seq(|cs|, c requires 0 <= c < |cs| => cs[c].(disappeared := cs[c].disappeared + 1))
  }

  /** `n` frames without boxes. */
  function EmptyFrames(cs: seq<Centroid>, n: nat): seq<Centroid>
  {
    if n == 0 then cs else MissedAll(Survivors(EmptyFrames(cs, n - 1)))
  }

  lemma {:induction false} AllSurvive(cs: seq<Centroid>)
    requires forall c :: 0 <= c < |cs| ==> cs[c].disappeared < 100
    ensures Survivors(cs) == cs
  {
    if cs != [] {
      AllSurvive(cs[1..]);
    }
  }

  lemma {:induction false} NoneSurvives(cs: seq<Centroid>)
    requires forall c :: 0 <= c < |cs| ==> cs[c].disappeared >= 100
    ensures Survivors(cs) == []
  {
    if cs != [] {
      NoneSurvives(cs[1..]);
    }
  }

  /** A centroid that is seen and then never again lives for exactly a hundred empty frames. */
  lemma {:induction false} ForgottenAfterHundred(cs: seq<Centroid>, n: nat)
    requires forall c :: 0 <= c < |cs| ==> cs[c].disappeared == 0
    ensures n <= 100 ==> |EmptyFrames(cs, n)| == |cs|
    ensures n <= 100 ==> forall c :: 0 <= c < |cs| ==> EmptyFrames(cs, n)[c] == cs[c].(disappeared := n)
    ensures n > 100 ==> EmptyFrames(cs, n) == []
  {
    hide Survivors;
    if n > 0 {
      ForgottenAfterHundred(cs, n - 1);
      if n <= 100 {
        AllSurvive(EmptyFrames(cs, n - 1));
      } else {
        NoneSurvives(EmptyFrames(cs, n - 1));
      }
    }
  }

  /**
   In a frame with boxes an unmatched centroid ages as in an empty frame; a matched one starts
   anew and, if it is never seen again, lives for another hundred empty frames. Its place and its
   identity stay as they are.
   */
  lemma AgedMeaning(c: Centroid, b: nat, n: nat)
    ensures Aged(c, None) == MissedAll([c])[0].(matchedBox := None)
    ensures Aged(c, Some(b)).matchedBox == Some(b)
    ensures Aged(c, Some(b)).id == c.id && Aged(c, Some(b)).cx == c.cx && Aged(c, Some(b)).cy == c.cy
    ensures |EmptyFrames([Aged(c, Some(b))], n)| == if n <= 100 then 1 else 0
  {
    ForgottenAfterHundred([Aged(c, Some(b))], n);
  }

  /** The state after a frame with boxes and centroids, in terms of the picked matches. */
  ghost predicate FrameResult(survivors: seq<Centroid>, boxes: seq<Detection>, lastId: nat, table: seq<Pair>,
                              picks: seq<nat>, matched: seq<Detection>, cs: seq<Centroid>, bs: seq<Detection>)
    requires InRange(table, |survivors|, |boxes|)
  {
    && Greedy(table, |table|, picks)
    && |matched| == |boxes| && |survivors| <= |cs|
    // centroids
    && (forall i :: 0 <= i < |picks| ==>
          var p := table[picks[i]];
          && cs[p.centroid] == Aged(survivors[p.centroid], Some(p.box))
          && matched[p.box].trackingId == survivors[p.centroid].id)
    && (forall c :: 0 <= c < |survivors| && !PickedCentroid(table, picks, c) ==> cs[c] == Aged(survivors[c], None))
    // boxes
    && (forall b :: 0 <= b < |boxes| ==> matched[b] == boxes[b].(trackingId := matched[b].trackingId))
    && (forall b :: 0 <= b < |boxes| && !PickedBox(table, picks, b) ==> matched[b].trackingId == 0)
    && cs[|survivors|..] == Newcomers(matched, lastId)
    && Named(bs, matched, lastId, |bs|)
  }

  /** The first `k` boxes are registered. */
  ghost predicate Registering(cs: seq<Centroid>, lastId: nat, bs: seq<Detection>,
                              cs0: seq<Centroid>, lastId0: nat, bs0: seq<Detection>, k: nat)
  {
    && k <= |bs0| == |bs|
    && cs == cs0 + Newcomers(bs0[..k], lastId0) && lastId == lastId0 + |Newcomers(bs0[..k], lastId0)|
    && PartlyIdentified(bs, Ids(cs)) && Named(bs, bs0, lastId0, k)
    && (forall b :: 0 <= b < k ==> bs[b].trackingId != 0)
    && (forall b :: k <= b < |bs| ==> bs[b] == bs0[b])
  }

  lemma RegisterStarts(cs0: seq<Centroid>, lastId0: nat, bs0: seq<Detection>)
    requires PartlyIdentified(bs0, Ids(cs0))
    ensures Registering(cs0, lastId0, bs0, cs0, lastId0, bs0, 0)
  {
    hide PartlyIdentified, Ids;
    assert Newcomers(bs0[..0], lastId0) == [] && cs0 + [] == cs0;
  }

  lemma RegisterNew(cs: seq<Centroid>, lastId: nat, bs: seq<Detection>,
                    cs0: seq<Centroid>, lastId0: nat, bs0: seq<Detection>, k: nat)
    requires Registering(cs, lastId, bs, cs0, lastId0, bs0, k) && k < |bs0| && bs[k].trackingId == 0
    requires DistinctIds(cs) && IdsBelow(cs, lastId)
    ensures Registering(cs + [NewCentroid(lastId + 1, k, bs[k])], lastId + 1, bs[k := bs[k].(trackingId := lastId + 1)],
                        cs0, lastId0, bs0, k + 1)
  {
    hide Ids, IdsBelow, DistinctIds, Newcomers, Named, PartlyIdentified, NewCentroid;
    var c, box := NewCentroid(lastId + 1, k, bs[k]), bs[k].(trackingId := lastId + 1);
    NextNewcomer(bs0, lastId0, k);
    IdsAreOld(cs, lastId);
    NewCentroidId(lastId + 1, k, bs[k]);
    AddCentroid(cs, lastId, c);
    Associative(cs0, Newcomers(bs0[..k], lastId0), [c]);
    IdentifyOne(bs, Ids(cs), k, lastId + 1);
    NamedFrame(bs, bs0, lastId0, k, box);
    NamedStep(bs[k := box], bs0, lastId0, k);
  }

  lemma NewCentroidId(id: nat, k: nat, box: Detection)
    ensures NewCentroid(id, k, box).id == id
  {
  }

  lemma RegisterOld(cs: seq<Centroid>, lastId: nat, bs: seq<Detection>,
                    cs0: seq<Centroid>, lastId0: nat, bs0: seq<Detection>, k: nat)
    requires Registering(cs, lastId, bs, cs0, lastId0, bs0, k) && k < |bs0| && bs[k].trackingId != 0
    ensures Registering(cs, lastId, bs, cs0, lastId0, bs0, k + 1)
  {
    hide Ids, Newcomers, Named, PartlyIdentified;
    NextNewcomer(bs0, lastId0, k);
    NamedStep(bs, bs0, lastId0, k);
  }

  lemma RegisterDone(cs: seq<Centroid>, lastId: nat, bs: seq<Detection>,
                     cs0: seq<Centroid>, lastId0: nat, bs0: seq<Detection>)
    requires |bs| == |bs0| && Registering(cs, lastId, bs, cs0, lastId0, bs0, |bs0|)
    ensures cs == cs0 + Newcomers(bs0, lastId0) && lastId == lastId0 + |Newcomers(bs0, lastId0)|
    ensures Named(bs, bs0, lastId0, |bs0|) && Identified(bs) && Ids(cs) >= Ids(cs0)
    ensures forall id :: id in Ids(cs) ==> id in Ids(cs0) || lastId0 < id <= lastId
    ensures forall b :: 0 <= b < |bs| ==> bs[b].trackingId >= 0 && bs[b].trackingId in Ids(cs)
  {
    hide Ids, Newcomers, Named, PartlyIdentified, Identified;
    assert bs0[..|bs0|] == bs0;
    NewcomerIds(cs0, bs0, lastId0);
    AllIdentified(bs, Ids(cs));
  }

  class CentroidTracker {
    var centroids: seq<Centroid>
    var lastId: nat
    /** Identities of removed centroids. */
    ghost var retired: set<nat>

    ghost predicate Valid()
      reads this
    {
      && DistinctIds(centroids) && IdsBelow(centroids, lastId)
      && (forall id :: id in retired ==> 1 <= id <= lastId)
      && retired !! Ids(centroids)
    }

    constructor ()
      ensures Valid() && lastId == 0 && centroids == [] && retired == {}
    {
      centroids, lastId, retired := [], 0, {};
    }

    /** Registers every box without identity as a new centroid. */
    method Register(bs0: seq<Detection>) returns (bs: seq<Detection>)
      requires Valid() && PartlyIdentified(bs0, Ids(centroids))
      modifies this`centroids, this`lastId
      ensures Valid()
      ensures centroids == old(centroids) + Newcomers(bs0, old(lastId))
      ensures lastId == old(lastId) + |Newcomers(bs0, old(lastId))|
      ensures Named(bs, bs0, old(lastId), |bs0|) && Identified(bs)
      ensures Ids(centroids) >= Ids(old(centroids))
      ensures forall id :: id in Ids(centroids) ==> id in Ids(old(centroids)) || old(lastId) < id <= lastId
      ensures forall b :: 0 <= b < |bs| ==> bs[b].trackingId >= 0 && bs[b].trackingId in Ids(centroids)
    {
      hide Ids, IdsBelow, DistinctIds, Registering, Identified;
      ghost var cs0, id0 := centroids, lastId;
      bs := bs0;
      RegisterStarts(cs0, id0, bs0);
      for k := 0 to |bs0|
        invariant Valid() && retired == old(retired)
        invariant |bs| == |bs0| && Registering(centroids, lastId, bs, cs0, id0, bs0, k)
      {
        var box := bs[k];
        if box.trackingId == 0 {
          RegisterNew(centroids, lastId, bs, cs0, id0, bs0, k);
          IdsAreOld(centroids, lastId);
          lastId := lastId + 1;
          var c := NewCentroid(lastId, k, box);
          AddCentroid(centroids, lastId - 1, c);
          centroids := centroids + [c];
          bs := bs[k := box.(trackingId := lastId)];
        } else {
          RegisterOld(centroids, lastId, bs, cs0, id0, bs0, k);
        }
      }
      RegisterDone(centroids, lastId, bs, cs0, id0, bs0);
    }

    /**
     `BoundingBox::updateCentroids` for one frame. `table` is the sorted distance table; it is
     consulted only when there are both boxes and centroids left.
     */
    method UpdateCentroids(boxes: seq<Detection>, table: seq<Pair>) returns (bs: seq<Detection>, processed: bool)
      requires Valid()
      requires forall b :: 0 <= b < |boxes| ==> boxes[b].trackingId == 0
      requires InRange(table, |Survivors(centroids)|, |boxes|)
      modifies this
      ensures Valid() && lastId >= old(lastId) && retired >= old(retired)
      ensures processed <==> |boxes| <= 100 && |Survivors(old(centroids))| <= 100
      ensures !processed ==> bs == boxes
      ensures processed ==> |bs| == |boxes| && Identified(bs)
      ensures processed ==> forall b :: 0 <= b < |bs| ==>
                && bs[b] == boxes[b].(trackingId := bs[b].trackingId)
                && bs[b].trackingId >= 0 && bs[b].trackingId in Ids(centroids)
                && bs[b].trackingId !in retired
                && (bs[b].trackingId in Ids(old(centroids)) || bs[b].trackingId > old(lastId))
      ensures forall id :: id in Ids(centroids) ==> id in Ids(old(centroids)) || old(lastId) < id <= lastId
      // the new state, case by case
      ensures |boxes| > MAX_CENTROIDS ==> centroids == old(centroids)
      ensures |boxes| <= MAX_CENTROIDS < |Survivors(old(centroids))| ==> centroids == Survivors(old(centroids))
      ensures processed && boxes == [] ==> centroids == MissedAll(Survivors(old(centroids))) && lastId == old(lastId)
      ensures processed && boxes != [] && Survivors(old(centroids)) == [] ==>
                centroids == Newcomers(boxes, old(lastId)) && Named(bs, boxes, old(lastId), |bs|)
      ensures processed && boxes != [] && Survivors(old(centroids)) != [] ==>
                exists picks: seq<nat>, matched: seq<Detection> ::
                  FrameResult(Survivors(old(centroids)), boxes, old(lastId), table, picks, matched, centroids, bs)
    {
      hide Ids, IdsBelow, DistinctIds, Survivors, Greedy, Newcomers, FrameResult;
      bs := boxes;
      if |boxes| > MAX_CENTROIDS {
        return bs, false;
      }
      ghost var start := lastId;
      var alive := RemoveDisappeared(centroids);
      retired := retired + (Ids(centroids) - Ids(alive));
      RemovalKeeps(centroids, alive, lastId, old(retired));
      centroids := alive;
      if |centroids| > MAX_CENTROIDS {
        return bs, false;
      }
      processed := true;
      if |boxes| == 0 {
        CountMissing(true);
        assert centroids == MissedAll(alive);
        return;
      }
      if |centroids| == 0 {
        NoneIdentified(boxes, Ids(centroids));
        bs := Register(boxes);
        assert centroids == Newcomers(boxes, start);
        return;
      }
      ghost var cs0 := ClearMatches();
      ghost var cleared := centroids;
      var cs, matched := MatchPass(centroids, boxes, table);
      ghost var picks: seq<nat> :|
        && Greedy(table, |table|, picks) && (forall i :: 0 <= i < |picks| ==> picks[i] < |table|)
        && Carries(cs, matched, centroids, boxes, table, picks);
      MatchesIdentify(cs, matched, centroids, boxes, table, picks);
      SameIds(centroids, cs, lastId);
      centroids := cs;
      CountMissing(false);
      ghost var aged := centroids;
      bs := Register(matched);
      FrameDone(alive, boxes, start, table, picks, cleared, cs, matched, aged, centroids, bs);
      assert FrameResult(alive, boxes, start, table, picks, matched, centroids, bs);
    }

    /** Resets the match of every centroid. */
    method ClearMatches() returns (ghost was: seq<Centroid>)
      requires Valid()
      modifies this`centroids
      ensures Valid() && was == old(centroids)
      ensures |centroids| == |was| && Ids(centroids) == Ids(was)
      ensures forall c :: 0 <= c < |was| ==> centroids[c] == was[c].(matchedBox := None)
      ensures forall c :: 0 <= c < |was| ==> centroids[c].id != 0
    {
      hide Ids;
      was := centroids;
      var cs := centroids;
      for i := 0 to |cs|
        invariant |cs| == |was|
        invariant forall c :: 0 <= c < i ==> cs[c] == was[c].(matchedBox := None)
        invariant forall c :: i <= c < |cs| ==> cs[c] == was[c]
      {
        cs := cs[i := cs[i].(matchedBox := None)];
      }
      SameIds(was, cs, lastId);
      centroids := cs;
    }

    /** Counts another missing frame for unmatched centroids, or for all of them. */
    method CountMissing(all: bool)
      requires Valid()
      modifies this`centroids
      ensures Valid() && |centroids| == |old(centroids)| && Ids(centroids) == Ids(old(centroids))
      ensures forall c :: 0 <= c < |centroids| ==>
                var was := old(centroids)[c];
                centroids[c] == if all || was.matchedBox == None then was.(disappeared := was.disappeared + 1) else was
    {
      hide Ids;
      ghost var was := centroids;
      var cs := centroids;
      for i := 0 to |cs|
        invariant |cs| == |was|
        invariant forall c :: i <= c < |cs| ==> cs[c] == was[c]
        invariant forall c :: 0 <= c < i ==>
          cs[c] == if all || was[c].matchedBox == None then was[c].(disappeared := was[c].disappeared + 1) else was[c]
      {
        if cs[i].id == 0 {
          continue;
        }
        if all || cs[i].matchedBox == None {
          cs := cs[i := cs[i].(disappeared := cs[i].disappeared + 1)];
        }
      }
      SameIds(was, cs, lastId);
      centroids := cs;
    }
  }

  lemma NoneIdentified(bs: seq<Detection>, ids: set<nat>)
    requires forall b :: 0 <= b < |bs| ==> bs[b].trackingId == 0
    ensures PartlyIdentified(bs, ids)
  {
  }

  lemma IdsAreOld(cs: seq<Centroid>, lastId: nat)
    requires IdsBelow(cs, lastId)
    ensures forall id :: id in Ids(cs) ==> 1 <= id <= lastId
  {
  }

  lemma AddCentroid(cs: seq<Centroid>, lastId: nat, c: Centroid)
    requires DistinctIds(cs) && IdsBelow(cs, lastId) && c.id == lastId + 1
    ensures DistinctIds(cs + [c]) && IdsBelow(cs + [c], lastId + 1)
    ensures Ids(cs + [c]) == Ids(cs) + {c.id}
  {
  }

  /** Centroids that keep their identities position by position keep every identity fact. */
  lemma SameIds(a: seq<Centroid>, b: seq<Centroid>, lastId: nat)
    requires |a| == |b| && forall c :: 0 <= c < |a| ==> a[c].id == b[c].id
    ensures Ids(a) == Ids(b)
    ensures DistinctIds(a) ==> DistinctIds(b)
    ensures IdsBelow(a, lastId) ==> IdsBelow(b, lastId)
  {
  }

  lemma RemovalKeeps(cs: seq<Centroid>, alive: seq<Centroid>, lastId: nat, retired: set<nat>)
    requires alive == Survivors(cs) && DistinctIds(cs) && IdsBelow(cs, lastId)
    requires (forall id :: id in retired ==> 1 <= id <= lastId) && retired !! Ids(cs)
    ensures DistinctIds(alive) && IdsBelow(alive, lastId) && Ids(alive) <= Ids(cs)
    ensures var gone := retired + (Ids(cs) - Ids(alive));
            (forall id :: id in gone ==> 1 <= id <= lastId) && gone !! Ids(alive)
  {
    hide Survivors;
    SurvivorsSubset(cs);
    IdsAreOld(cs, lastId);
    forall i | 0 <= i < |alive| ensures 1 <= alive[i].id <= lastId {
      assert alive[i] in cs;
    }
  }

  lemma NewcomerIds(cs: seq<Centroid>, bs: seq<Detection>, lastId: nat)
    ensures var all := cs + Newcomers(bs, lastId);
            && Ids(cs) <= Ids(all)
            && forall id :: id in Ids(all) ==> id in Ids(cs) || lastId < id <= lastId + |Newcomers(bs, lastId)|
  {
  }

  lemma NamedFrame(bs: seq<Detection>, bs0: seq<Detection>, lastId: nat, k: nat, box: Detection)
    requires Named(bs, bs0, lastId, k) && k < |bs|
    ensures Named(bs[k := box], bs0, lastId, k)
  {
  }

  lemma NamedStep(bs: seq<Detection>, bs0: seq<Detection>, lastId: nat, k: nat)
    requires Named(bs, bs0, lastId, k) && k < |bs0|
    requires bs[k] == if bs0[k].trackingId != 0 then bs0[k]
                      else bs0[k].(trackingId := lastId + |Newcomers(bs0[..k + 1], lastId)|)
    ensures Named(bs, bs0, lastId, k + 1)
  {
  }

  lemma IdentifyOne(bs: seq<Detection>, ids: set<nat>, k: nat, id: nat)
    requires PartlyIdentified(bs, ids) && k < |bs| && bs[k].trackingId == 0 && id != 0 && id !in ids
    ensures PartlyIdentified(bs[k := bs[k].(trackingId := id)], ids + {id})
  {
  }

  lemma AllIdentified(bs: seq<Detection>, ids: set<nat>)
    requires PartlyIdentified(bs, ids) && forall b :: 0 <= b < |bs| ==> bs[b].trackingId != 0
    ensures Identified(bs)
    ensures forall b :: 0 <= b < |bs| ==> bs[b].trackingId >= 0 && bs[b].trackingId in ids
  {
  }

  lemma NextNewcomer(bs: seq<Detection>, lastId: nat, k: nat)
    requires k < |bs|
    ensures var before := Newcomers(bs[..k], lastId);
            Newcomers(bs[..k + 1], lastId)
            == if bs[k].trackingId != 0 then before
               else before + [NewCentroid(lastId + |before| + 1, k, bs[k])]
  {
    assert bs[..k + 1][..k] == bs[..k];
  }

  /** The stages of a frame together give its result. */
  lemma FrameDone(alive: seq<Centroid>, boxes: seq<Detection>, lastId: nat, table: seq<Pair>, picks: seq<nat>,
                  cleared: seq<Centroid>, cs: seq<Centroid>, matched: seq<Detection>, aged: seq<Centroid>,
                  final: seq<Centroid>, bs: seq<Detection>)
    requires InRange(table, |alive|, |boxes|) && Greedy(table, |table|, picks)
    requires |cleared| == |alive| && forall c :: 0 <= c < |alive| ==> cleared[c] == alive[c].(matchedBox := None)
    requires forall b :: 0 <= b < |boxes| ==> boxes[b].trackingId == 0
    requires Carries(cs, matched, cleared, boxes, table, picks)
    requires |aged| == |cs| && forall c :: 0 <= c < |cs| ==>
      aged[c] == if cs[c].matchedBox == None then cs[c].(disappeared := cs[c].disappeared + 1) else cs[c]
    requires final == aged + Newcomers(matched, lastId) && Named(bs, matched, lastId, |matched|)
    ensures FrameResult(alive, boxes, lastId, table, picks, matched, final, bs)
  {
  }
}
