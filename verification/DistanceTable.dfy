/**
 The distance table of the tracker, and whole frames: fill the table, sort it, match. Where the
 table is complete, every centroid finds a box, and no pair is passed over for a worse one.
 */
module DistanceTable {
  import opened Integers
  import opened Nms
  import opened Options
  import opened Sorting
  import opened Tracker

  const TABLE_CAPACITY: nat := MAX_CENTROIDS * MAX_CENTROIDS

  /** The squared distance of a centroid and the middle of a box. */
  function Distance(c: Centroid, b: Detection): nat
  {
    var dx, dy := c.cx - (b.x + Half(b.width)), c.cy - (b.y + Half(b.height));
    SquareNonNegative(dx);
    SquareNonNegative(dy);
    dx * dx + dy * dy
  }

  lemma SquareNonNegative(x: int)
    ensures x * x >= 0
  {
  }

  /** Position `p` of the table is filled in: rows start at multiples of the number of centroids. */
  ghost predicate Written(centroids: nat, boxes: nat, p: nat)
  {
    exists i, j :: 0 <= i < centroids && 0 <= j < boxes && At(centroids, i, j) == p
  }

  function At(centroids: nat, i: nat, j: nat): nat
  {
    i * centroids + j
  }

  /** In a square or a single row, row and column of a position are its quotient and remainder. */
  lemma Locate(centroids: nat, boxes: nat, p: nat) returns (i: nat, j: nat)
    requires boxes > 0 && (centroids == 1 || centroids == boxes) && p < centroids * boxes
    ensures i == p / boxes < centroids && j == p % boxes < boxes && At(centroids, i, j) == p
    ensures Written(centroids, boxes, p)
  {
    i, j := p / boxes, p % boxes;
    QuotientBelow(p, boxes, centroids);
    assert p == i * boxes + j;
  }

  /** Fewer boxes than centroids: the entry right after the first row is skipped. */
  lemma GapAfterFirstRow(centroids: nat, boxes: nat)
    requires 0 < boxes < centroids
    ensures boxes < centroids * boxes && !Written(centroids, boxes, boxes)
  {
    AtLeast(centroids, 2, boxes);
    forall i, j | 0 <= i < centroids && 0 <= j < boxes ensures At(centroids, i, j) != boxes {
      if i > 0 {
        AtLeast(i, 1, centroids);
      }
    }
  }

  /** More boxes than centroids: rows overlap and the last entry is never reached. */
  lemma LastEntryMissed(centroids: nat, boxes: nat)
    requires 1 < centroids < boxes
    ensures centroids * boxes > 0 && !Written(centroids, boxes, centroids * boxes - 1)
  {
    var n, d := centroids - 1, boxes - centroids;
    assert n * d > 0;
    assert n * boxes == n * centroids + n * d;
    assert n * boxes == centroids * boxes - boxes;
    AtLeast(centroids, 1, boxes);
    forall i, j | 0 <= i < centroids && 0 <= j < boxes ensures At(centroids, i, j) < centroids * boxes - 1 {
      AtLeast(n, i, centroids);
    }
  }

  /**
   The table is meant to list every pair of a centroid and a box. Since rows are strided by the
   number of centroids and not of boxes, all its entries are filled in exactly when there is a
   single centroid or as many centroids as boxes.
   */
  lemma TableCompleteIff(centroids: nat, boxes: nat)
    requires centroids > 0 && boxes > 0
    ensures (forall p :: 0 <= p < centroids * boxes ==> Written(centroids, boxes, p))
            <==> (centroids == 1 || centroids == boxes)
  {
    hide Written;
    if centroids == 1 || centroids == boxes {
      forall p | 0 <= p < centroids * boxes ensures Written(centroids, boxes, p) {
        var i, j := Locate(centroids, boxes, p);
      }
    } else if boxes < centroids {
      GapAfterFirstRow(centroids, boxes);
    } else {
      LastEntryMissed(centroids, boxes);
    }
  }

  lemma AtLeast(i: int, k: int, c: nat)
    requires i >= k
    ensures i * c >= k * c
  {
  }

  lemma QuotientBelow(p: nat, d: nat, n: nat)
    requires d > 0 && p < n * d
    ensures p / d < n
  {
  }

  /** The pair of a row and a column with its distance. */
  function Entry(cs: seq<Centroid>, bs: seq<Detection>, i: nat, j: nat): Pair
    requires i < |cs| && j < |bs|
  {
    Pair(i, j, Distance(cs[i], bs[j]))
  }

  /** The pair stands at its position. */
  predicate Stands(t: seq<Pair>, cs: seq<Centroid>, bs: seq<Detection>, i: nat, j: nat)
    requires i < |cs| && j < |bs|
  {
    At(|cs|, i, j) < |t| && t[At(|cs|, i, j)] == Entry(cs, bs, i, j)
  }

  /** The first `cols` pairs of row `i` stand where the row starts. */
  predicate RowDone(t: seq<Pair>, cs: seq<Centroid>, bs: seq<Detection>, i: nat, cols: nat)
    requires i < |cs| && cols <= |bs|
  {
    forall j :: 0 <= j < cols ==> Stands(t, cs, bs, i, j)
  }

  /** Of the rows before `rows` stands what later rows do not overwrite. */
  predicate RowsDone(t: seq<Pair>, cs: seq<Centroid>, bs: seq<Detection>, rows: nat)
    requires rows <= |cs|
  {
    forall i, j :: 0 <= i < rows && 0 <= j < |bs| && j < |cs| ==> Stands(t, cs, bs, i, j)
  }

  predicate PairInRange(p: Pair, centroids: nat, boxes: nat)
  {
    p.centroid < centroids && p.box < boxes
  }

  /** A pair of the frame with its distance. */
  predicate IsEntry(p: Pair, cs: seq<Centroid>, bs: seq<Detection>)
  {
    PairInRange(p, |cs|, |bs|) && p == Entry(cs, bs, p.centroid, p.box)
  }

  /** What a position holds after resizing from `len` to `newLen` entries: new ones and the terminator are cleared. */
  function Resized(was: Pair, len: nat, newLen: nat, p: nat): Pair
  {
    if len <= p < newLen || p == newLen then Pair(0, 0, 0) else was
  }

  /**
   Resizes the table, which held `len` entries, and fills it in place. All columns of the last
   row are there, and of every other row those that the next row does not overwrite; positions
   that are not written are as the resizing left them.
   */
  method FillTable(entries: array<Pair>, len: nat, cs: seq<Centroid>, bs: seq<Detection>)
    requires entries.Length == TABLE_CAPACITY + 1 && len <= TABLE_CAPACITY
    requires 0 < |cs| <= MAX_CENTROIDS && 0 < |bs| <= MAX_CENTROIDS
    modifies entries
    ensures RowsDone(entries[..], cs, bs, |cs|) && RowDone(entries[..], cs, bs, |cs| - 1, |bs|)
    ensures forall p :: 0 <= p < entries.Length && !Written(|cs|, |bs|, p) ==>
              entries[p] == Resized(old(entries[p]), len, |cs| * |bs|, p)
    ensures forall p :: 0 <= p < entries.Length ==>
              IsEntry(entries[p], cs, bs) || entries[p] == Resized(old(entries[p]), len, |cs| * |bs|, p)
  {
    hide Distance, Written, At, Resized;
    SetSize(entries, len, |cs| * |bs|);
    ghost var resized := entries[..];
    for i := 0 to |cs|
      invariant RowsDone(entries[..], cs, bs, i) && (i > 0 ==> RowDone(entries[..], cs, bs, i - 1, |bs|))
      invariant forall p :: 0 <= p < entries.Length && !Written(|cs|, |bs|, p) ==> entries[p] == resized[p]
      invariant forall p :: 0 <= p < entries.Length ==>
                  IsEntry(entries[p], cs, bs) || entries[p] == resized[p]
    {
      for j := 0 to |bs|
        invariant RowsDone(entries[..], cs, bs, i) && RowDone(entries[..], cs, bs, i, j)
        invariant forall p :: 0 <= p < entries.Length && !Written(|cs|, |bs|, p) ==> entries[p] == resized[p]
        invariant forall p :: 0 <= p < entries.Length ==>
                    IsEntry(entries[p], cs, bs) || entries[p] == resized[p]
      {
        AtInside(|cs|, |bs|, i, j);
        var at := At(|cs|, i, j);
        ghost var before := entries[..];
        entries[at] := Entry(cs, bs, i, j);
        WriteKeeps(before, entries[..], cs, bs, i, j);
      }
      RowAdded(entries[..], cs, bs, i);
    }
  }

  lemma RowAdded(t: seq<Pair>, cs: seq<Centroid>, bs: seq<Detection>, i: nat)
    requires i < |cs| <= MAX_CENTROIDS && |bs| <= MAX_CENTROIDS && |t| > TABLE_CAPACITY
    requires RowsDone(t, cs, bs, i) && RowDone(t, cs, bs, i, |bs|)
    ensures RowsDone(t, cs, bs, i + 1)
  {
    hide At;
  }

  /** Writing the next pair of a row leaves alone what is in front of the row. */
  lemma WriteKeeps(before: seq<Pair>, after: seq<Pair>, cs: seq<Centroid>, bs: seq<Detection>, i: nat, j: nat)
    requires i < |cs| <= MAX_CENTROIDS && j < |bs| <= MAX_CENTROIDS && |after| == |before| > TABLE_CAPACITY
    requires At(|cs|, i, j) < |before| && after == before[At(|cs|, i, j) := Entry(cs, bs, i, j)]
    requires RowsDone(before, cs, bs, i) && RowDone(before, cs, bs, i, j)
    ensures RowsDone(after, cs, bs, i) && RowDone(after, cs, bs, i, j + 1)
  {
    hide Distance;
    forall r, q | 0 <= r < i && 0 <= q < |bs| && q < |cs| ensures Stands(after, cs, bs, r, q) {
      assert Stands(before, cs, bs, r, q);
      AtLeast(i, r + 1, |cs|);
      assert (r + 1) * |cs| == r * |cs| + |cs|;
    }
    forall q | 0 <= q < j + 1 ensures Stands(after, cs, bs, i, q) {
      assert q < j ==> Stands(before, cs, bs, i, q);
    }
  }

  /** `g_array_set_size` on a zero-terminated array that clears new elements. */
  method SetSize(entries: array<Pair>, len: nat, newLen: nat)
    requires len < entries.Length && newLen < entries.Length
    modifies entries
    ensures forall p :: 0 <= p < entries.Length ==> entries[p] == Resized(old(entries[p]), len, newLen, p)
  {
    for k := len to if len < newLen then newLen else len
      invariant forall p :: 0 <= p < entries.Length ==>
                  entries[p] == if len <= p < k then Pair(0, 0, 0) else old(entries[p])
    {
      entries[k] := Pair(0, 0, 0);
    }
    entries[newLen] := Pair(0, 0, 0);
  }

  lemma AtInside(centroids: nat, boxes: nat, i: nat, j: nat)
    requires centroids <= MAX_CENTROIDS && boxes <= MAX_CENTROIDS && i < centroids && j < boxes
    ensures At(centroids, i, j) < TABLE_CAPACITY && Written(centroids, boxes, At(centroids, i, j))
  {
    AtLeast(centroids - 1, i, centroids);
    AtLeast(MAX_CENTROIDS - 1, centroids - 1, centroids);
  }

  // ----- complete tables -----

  /** With a complete table, every entry is the pair belonging to its position. */
  predicate ListsAllPairs(t: seq<Pair>, cs: seq<Centroid>, bs: seq<Detection>, upTo: nat)
    requires |bs| > 0
  {
    upTo <= |t| && forall p :: 0 <= p < upTo ==> EntryRight(t[p], cs, bs, p)
  }

  predicate EntryRight(e: Pair, cs: seq<Centroid>, bs: seq<Detection>, p: nat)
    requires |bs| > 0
  {
    var i, j := p / |bs|, p % |bs|;
    i < |cs| && e == Entry(cs, bs, i, j)
  }

  lemma CompleteIsFilled(t: seq<Pair>, cs: seq<Centroid>, bs: seq<Detection>)
    requires 0 < |cs| <= MAX_CENTROIDS && 0 < |bs| <= MAX_CENTROIDS && |t| > TABLE_CAPACITY
    requires |cs| == 1 || |cs| == |bs|
    requires RowsDone(t, cs, bs, |cs|) && RowDone(t, cs, bs, |cs| - 1, |bs|)
    ensures ListsAllPairs(t, cs, bs, |cs| * |bs|)
  {
    hide Entry, At, Written;
    AtLeast(MAX_CENTROIDS, |cs|, |bs|);
    forall p | 0 <= p < |cs| * |bs| ensures EntryRight(t[p], cs, bs, p) {
      var i, j := Locate(|cs|, |bs|, p);
      assert Stands(t, cs, bs, i, j);
    }
  }

  /** Whatever the sort does to a complete table, the matching pass stays in range. */
  lemma SortedTableInRange(filled: seq<Pair>, cs: seq<Centroid>, bs: seq<Detection>, sorted: seq<Pair>)
    requires |bs| > 0 && ListsAllPairs(filled, cs, bs, |filled|) && multiset(sorted) == multiset(filled)
    ensures InRange(sorted, |cs|, |bs|)
  {
    forall k | 0 <= k < |sorted| ensures sorted[k].centroid < |cs| && sorted[k].box < |bs| {
      assert sorted[k] in multiset(sorted) && sorted[k] in multiset(filled);
      var p :| 0 <= p < |filled| && filled[p] == sorted[k];
      assert EntryRight(filled[p], cs, bs, p);
    }
  }

  /** Two centroids and one box: the entry of the second centroid is never written. */
  lemma IncompleteWitness()
    ensures !Written(2, 1, 1)
    ensures !forall p :: 0 <= p < 2 * 1 ==> Written(2, 1, p)
  {
    GapAfterFirstRow(2, 1);
  }

  // ----- sorting -----

  predicate Ascending(t: seq<Pair>)
  {
    forall i, j :: 0 <= i < j < |t| ==> t[i].distance <= t[j].distance
  }

  /** `g_array_sort`: any ascending order of the entries. */
  method SortTable(t: seq<Pair>) returns (r: seq<Pair>)
    ensures Ascending(r) && multiset(r) == multiset(t)
  {
    r := SortBy(t, (p: Pair) => p.distance as real);
  }

  // ----- counting matches -----

  function Below(n: nat): (r: set<nat>)
    ensures |r| == n && forall k: nat :: k in r <==> k < n
  {
    if n == 0 then {} else Below(n - 1) + {n - 1}
  }

  function Elements(s: seq<nat>): set<nat>
  {
    set x | x in s
  }

  lemma {:induction false} ElementsSize(s: seq<nat>)
    ensures |Elements(s)| <= |s|
    ensures (forall i, j :: 0 <= i < j < |s| ==> s[i] != s[j]) ==> |Elements(s)| == |s|
  {
    if s != [] {
      var n := |s| - 1;
      ElementsSize(s[..n]);
      assert s == s[..n] + [s[n]];
      assert Elements(s) == Elements(s[..n]) + {s[n]};
    }
  }

  lemma SubsetSize(a: set<nat>, b: set<nat>)
    requires a <= b
    ensures |a| <= |b|
  {
    assert b == a + (b - a);
  }

  /** Different numbers below `n`, one of them missing, are fewer than `n`. */
  lemma OneMissing(s: seq<nat>, n: nat, missing: nat)
    requires (forall i, j :: 0 <= i < j < |s| ==> s[i] != s[j]) && (forall i :: 0 <= i < |s| ==> s[i] < n)
    requires missing < n && missing !in s
    ensures |s| < n
  {
    ElementsSize(s);
    SubsetSize(Elements(s) + {missing}, Below(n));
  }

  lemma AllPresent(s: seq<nat>, n: nat)
    requires forall k :: 0 <= k < n ==> k in s
    ensures |s| >= n
  {
    ElementsSize(s);
    SubsetSize(Below(n), Elements(s));
  }

  function PickedCentroids(table: seq<Pair>, picks: seq<nat>): (r: seq<nat>)
    requires forall i :: 0 <= i < |picks| ==> picks[i] < |table|
    ensures |r| == |picks| && forall i :: 0 <= i < |picks| ==> r[i] == table[picks[i]].centroid
  {
    seq(|picks|, i requires 0 <= i < |picks| => table[picks[i]].centroid)
  }

  function PickedBoxes(table: seq<Pair>, picks: seq<nat>): (r: seq<nat>)
    requires forall i :: 0 <= i < |picks| ==> picks[i] < |table|
    ensures |r| == |picks| && forall i :: 0 <= i < |picks| ==> r[i] == table[picks[i]].box
  {
    seq(|picks|, i requires 0 <= i < |picks| => table[picks[i]].box)
  }

  ghost predicate Listed(table: seq<Pair>, c: nat, b: nat)
  {
    exists k :: 0 <= k < |table| && table[k].centroid == c && table[k].box == b
  }

  ghost predicate ListsEvery(table: seq<Pair>, centroids: nat, boxes: nat)
  {
    forall c, b :: 0 <= c < centroids && 0 <= b < boxes ==> Listed(table, c, b)
  }

  /** Where both members of a listed pair are free, the pair would have been picked. */
  lemma OneMemberPicked(table: seq<Pair>, picks: seq<nat>, c: nat, b: nat)
    requires Greedy(table, |table|, picks) && Listed(table, c, b)
    ensures c in PickedCentroids(table, picks) || b in PickedBoxes(table, picks)
  {
    var k :| 0 <= k < |table| && table[k].centroid == c && table[k].box == b;
    assert Settled(table, picks, k);
    var i :| 0 <= i < |picks| && picks[i] <= k && (table[picks[i]].centroid == c || table[picks[i]].box == b);
    assert PickedCentroids(table, picks)[i] == table[picks[i]].centroid;
    assert PickedBoxes(table, picks)[i] == table[picks[i]].box;
  }

  /** When every pair is listed, all of the less numerous side is matched. */
  lemma FewerAllMatched(table: seq<Pair>, picks: seq<nat>, centroids: nat, boxes: nat)
    requires InRange(table, centroids, boxes) && Greedy(table, |table|, picks) && ListsEvery(table, centroids, boxes)
    ensures centroids <= boxes ==> forall c :: 0 <= c < centroids ==> c in PickedCentroids(table, picks)
    ensures boxes <= centroids ==> forall b :: 0 <= b < boxes ==> b in PickedBoxes(table, picks)
  {
    hide Listed;
    var cs, bs := PickedCentroids(table, picks), PickedBoxes(table, picks);
    forall c | 0 <= c < centroids && c !in cs ensures centroids > boxes {
      forall b | 0 <= b < boxes ensures b in bs {
        assert Listed(table, c, b);
        OneMemberPicked(table, picks, c, b);
      }
      AllPresent(bs, boxes);
      OneMissing(cs, centroids, c);
    }
    forall b | 0 <= b < boxes && b !in bs ensures boxes > centroids {
      forall c | 0 <= c < centroids ensures c in cs {
        assert Listed(table, c, b);
        OneMemberPicked(table, picks, c, b);
      }
      AllPresent(cs, centroids);
      OneMissing(bs, boxes, b);
    }
  }

  // ----- whole frames -----

  /** The sorted table of a frame: all pairs with their distances, nearest first. */
  ghost predicate FullTable(table: seq<Pair>, cs: seq<Centroid>, bs: seq<Detection>)
  {
    && InRange(table, |cs|, |bs|) && ListsEvery(table, |cs|, |bs|) && Ascending(table)
    && forall k :: 0 <= k < |table| ==> table[k].distance == Distance(cs[table[k].centroid], bs[table[k].box])
  }

  /** Where the pair of a centroid and a box stands before the sort. */
  lemma FilledAt(filled: seq<Pair>, cs: seq<Centroid>, bs: seq<Detection>, c: nat, b: nat) returns (p: nat)
    requires c < |cs| && b < |bs| && |filled| == |cs| * |bs| && ListsAllPairs(filled, cs, bs, |filled|)
    ensures p < |filled| && filled[p].centroid == c && filled[p].box == b
  {
    hide Distance;
    p := c * |bs| + b;
    DivUnique(p, |bs|, c);
    AtLeast(|cs| - 1, c, |bs|);
    assert (|cs| - 1) * |bs| == |cs| * |bs| - |bs|;
    assert EntryRight(filled[p], cs, bs, p) && p % |bs| == b;
  }

  lemma SortedIsFull(filled: seq<Pair>, cs: seq<Centroid>, bs: seq<Detection>, sorted: seq<Pair>)
    requires |bs| > 0 && |filled| == |cs| * |bs| && ListsAllPairs(filled, cs, bs, |filled|)
    requires multiset(sorted) == multiset(filled) && Ascending(sorted)
    ensures FullTable(sorted, cs, bs)
  {
    hide Distance, Ascending;
    SortedTableInRange(filled, cs, bs, sorted);
    forall k | 0 <= k < |sorted|
      ensures sorted[k].distance == Distance(cs[sorted[k].centroid], bs[sorted[k].box])
    {
      assert sorted[k] in multiset(sorted) && sorted[k] in multiset(filled);
      var p :| 0 <= p < |filled| && filled[p] == sorted[k];
      assert EntryRight(filled[p], cs, bs, p);
    }
    SortedListsEvery(filled, cs, bs, sorted);
  }

  lemma SortedListsEvery(filled: seq<Pair>, cs: seq<Centroid>, bs: seq<Detection>, sorted: seq<Pair>)
    requires |bs| > 0 && |filled| == |cs| * |bs| && ListsAllPairs(filled, cs, bs, |filled|)
    requires multiset(sorted) == multiset(filled)
    ensures ListsEvery(sorted, |cs|, |bs|)
  {
    hide ListsAllPairs, Listed;
    forall c, b | 0 <= c < |cs| && 0 <= b < |bs| ensures Listed(sorted, c, b) {
      var p := FilledAt(filled, cs, bs, c, b);
      PermutationLists(filled, sorted, p);
    }
  }

  lemma PermutationLists(filled: seq<Pair>, sorted: seq<Pair>, p: nat)
    requires multiset(sorted) == multiset(filled) && p < |filled|
    ensures Listed(sorted, filled[p].centroid, filled[p].box)
  {
    assert filled[p] in multiset(filled) && filled[p] in multiset(sorted);
    var k :| 0 <= k < |sorted| && sorted[k] == filled[p];
  }

  /** A match that involves the centroid or the box and is at least as near as the pair of both. */
  ghost predicate Outdone(survivors: seq<Centroid>, boxes: seq<Detection>, cs: seq<Centroid>, c: nat, b: nat)
    requires c < |survivors| <= |cs| && b < |boxes|
  {
    exists c', b' :: 0 <= c' < |survivors| && 0 <= b' < |boxes| && cs[c'].matchedBox == Some(b')
      && (c' == c || b' == b) && Distance(survivors[c'], boxes[b']) <= Distance(survivors[c], boxes[b])
  }

  /** All survivors are matched, and no pair is passed over for a match that is farther apart. */
  ghost predicate NearestMatched(survivors: seq<Centroid>, boxes: seq<Detection>, cs: seq<Centroid>)
  {
    && |survivors| <= |cs|
    && (forall c :: 0 <= c < |survivors| ==> cs[c].matchedBox.Some?)
    && forall c, b :: 0 <= c < |survivors| && 0 <= b < |boxes| ==> Outdone(survivors, boxes, cs, c, b)
  }

  lemma FrameMatchesNearest(survivors: seq<Centroid>, boxes: seq<Detection>, lastId: nat, table: seq<Pair>,
                            picks: seq<nat>, matched: seq<Detection>, cs: seq<Centroid>, bs: seq<Detection>)
    requires FullTable(table, survivors, boxes) && |survivors| <= |boxes|
    requires FrameResult(survivors, boxes, lastId, table, picks, matched, cs, bs)
    ensures NearestMatched(survivors, boxes, cs)
  {
    hide Distance, Newcomers, Named, ListsEvery, PickedCentroid, PickedBox;
    FewerAllMatched(table, picks, |survivors|, |boxes|);
    forall c | 0 <= c < |survivors| ensures cs[c].matchedBox.Some? {
      assert c in PickedCentroids(table, picks);
      var i :| 0 <= i < |picks| && PickedCentroids(table, picks)[i] == c;
      assert cs[table[picks[i]].centroid] == Aged(survivors[c], Some(table[picks[i]].box));
    }
    forall c, b | 0 <= c < |survivors| && 0 <= b < |boxes| ensures Outdone(survivors, boxes, cs, c, b) {
      assert Listed(table, c, b) by { ListedPair(table, |survivors|, |boxes|, c, b); }
      var k :| 0 <= k < |table| && table[k].centroid == c && table[k].box == b;
      assert Settled(table, picks, k);
      var i :| 0 <= i < |picks| && picks[i] <= k && (table[picks[i]].centroid == c || table[picks[i]].box == b);
      var p := table[picks[i]];
      assert p.distance <= table[k].distance;
      assert cs[p.centroid] == Aged(survivors[p.centroid], Some(p.box));
      assert Distance(survivors[p.centroid], boxes[p.box]) <= Distance(survivors[c], boxes[b]);
    }
  }

  lemma ListedPair(table: seq<Pair>, centroids: nat, boxes: nat, c: nat, b: nat)
    requires ListsEvery(table, centroids, boxes) && c < centroids && b < boxes
    ensures Listed(table, c, b)
  {
  }

  lemma {:induction false} NoNewcomersLeft(bs: seq<Detection>, lastId: nat)
    requires forall b :: 0 <= b < |bs| ==> bs[b].trackingId != 0
    ensures Newcomers(bs, lastId) == []
  {
    if bs != [] {
      NoNewcomersLeft(bs[..|bs| - 1], lastId);
    }
  }

  /** With as many boxes as centroids nobody is new: every box continues a centroid. */
  lemma FrameContinues(survivors: seq<Centroid>, boxes: seq<Detection>, lastId: nat, table: seq<Pair>,
                       picks: seq<nat>, matched: seq<Detection>, cs: seq<Centroid>, bs: seq<Detection>)
    requires FullTable(table, survivors, boxes) && |survivors| == |boxes|
    requires FrameResult(survivors, boxes, lastId, table, picks, matched, cs, bs)
    requires IdsBelow(survivors, lastId)
    ensures |cs| == |survivors| && |bs| == |boxes|
    ensures forall b :: 0 <= b < |bs| ==> bs[b].trackingId >= 0 && bs[b].trackingId in Ids(survivors)
  {
    hide Distance, ListsEvery, PickedCentroid, PickedBox, Newcomers, Ascending;
    FewerAllMatched(table, picks, |survivors|, |boxes|);
    forall b | 0 <= b < |boxes|
      ensures matched[b].trackingId > 0 && matched[b].trackingId in Ids(survivors)
    {
      assert b in PickedBoxes(table, picks);
      var i :| 0 <= i < |picks| && PickedBoxes(table, picks)[i] == b;
      var p := table[picks[i]];
      assert matched[p.box].trackingId == survivors[p.centroid].id;
      assert survivors[p.centroid] in survivors;
    }
    NoNewcomersLeft(matched, lastId);
    assert cs == cs[..|survivors|] + cs[|survivors|..];
  }

  /** The table lists every pair. */
  predicate Complete(survivors: nat, boxes: nat)
  {
    survivors == 1 || survivors == boxes
  }

  /** The entries left over from earlier frames name centroids and boxes of this frame. */
  predicate OldInRange(old': seq<Pair>, survivors: nat, boxes: nat)
  {
    forall p :: 0 <= p < |old'| ==> PairInRange(old'[p], survivors, boxes)
  }

  /**
   A frame from removal to registration. The source reads outside its arrays when entries left
   over from earlier frames are out of range; in all other frames the boxes of a processed frame
   get distinct identities. When the table is complete, every surviving centroid is matched, no
   pair is passed over for a match that is farther apart, and with as many boxes as centroids
   every box continues a centroid.
   */
  method TrackFrame(tracker: CentroidTracker, entries: array<Pair>, len: nat, boxes: seq<Detection>)
    returns (bs: seq<Detection>, processed: bool, ghost table: seq<Pair>)
    requires tracker.Valid() && entries.Length == TABLE_CAPACITY + 1 && len <= TABLE_CAPACITY
    requires forall b :: 0 <= b < |boxes| ==> boxes[b].trackingId == 0
    requires var survivors := |Survivors(tracker.centroids)|;
             || |boxes| == 0 || survivors == 0
             || Complete(survivors, |boxes|) || OldInRange(entries[..len], survivors, |boxes|)
    modifies tracker, entries
    ensures tracker.Valid() && InRange(table, |Survivors(old(tracker.centroids))|, |boxes|)
    ensures processed <==> |boxes| <= MAX_CENTROIDS && |Survivors(old(tracker.centroids))| <= MAX_CENTROIDS
    ensures processed ==> |bs| == |boxes| && Identified(bs)
    ensures processed && boxes != [] && Complete(|Survivors(old(tracker.centroids))|, |boxes|) ==>
              var survivors := Survivors(old(tracker.centroids));
              && NearestMatched(survivors, boxes, tracker.centroids)
              && (|survivors| == |boxes| ==>
                    && |tracker.centroids| == |survivors|
                    && forall b :: 0 <= b < |bs| ==> bs[b].trackingId >= 0 && bs[b].trackingId in Ids(survivors))
    ensures processed && boxes != [] && Survivors(old(tracker.centroids)) != [] ==>
              var survivors := Survivors(old(tracker.centroids));
              && Ascending(table) && |table| == |survivors| * |boxes|
              && (Complete(|survivors|, |boxes|) ==> FullTable(table, survivors, boxes))
              && (len == 0 ==> FreshTable(table, survivors, boxes))
              && exists picks: seq<nat>, matched: seq<Detection> ::
                   FrameResult(survivors, boxes, old(tracker.lastId), table, picks, matched, tracker.centroids, bs)
  {
    hide Ids, DistinctIds, IdsBelow, Survivors, FrameResult, FullTable, NearestMatched, InRange, RowsDone, RowDone;
    hide Written, Distance;
    ghost var lastId := tracker.lastId;
    var alive := RemoveDisappeared(tracker.centroids);
    SurvivorsBelow(tracker.centroids, lastId);
    var sorted: seq<Pair> := [];
    if 0 < |alive| <= MAX_CENTROIDS && 0 < |boxes| <= MAX_CENTROIDS {
      sorted := MakeTable(entries, len, alive, boxes);
    } else {
      EmptyInRange(|alive|, |boxes|);
    }
    table := sorted;
    bs, processed := tracker.UpdateCentroids(boxes, sorted);
    if processed && boxes != [] && alive != [] {
      ghost var picks: seq<nat>, matched: seq<Detection> :|
        FrameResult(alive, boxes, lastId, table, picks, matched, tracker.centroids, bs);
      if Complete(|alive|, |boxes|) {
        FrameMatchesNearest(alive, boxes, lastId, table, picks, matched, tracker.centroids, bs);
      }
      if |alive| == |boxes| {
        FrameContinues(alive, boxes, lastId, table, picks, matched, tracker.centroids, bs);
      }
    }
  }

  /** The table of a frame, filled and sorted. */
  method MakeTable(entries: array<Pair>, len: nat, cs: seq<Centroid>, bs: seq<Detection>) returns (table: seq<Pair>)
    requires entries.Length == TABLE_CAPACITY + 1 && len <= TABLE_CAPACITY
    requires 0 < |cs| <= MAX_CENTROIDS && 0 < |bs| <= MAX_CENTROIDS
    requires Complete(|cs|, |bs|) || OldInRange(entries[..len], |cs|, |bs|)
    modifies entries
    ensures InRange(table, |cs|, |bs|) && Ascending(table) && |table| == |cs| * |bs|
    ensures Complete(|cs|, |bs|) ==> FullTable(table, cs, bs)
    ensures len == 0 ==> FreshTable(table, cs, bs)
  {
    hide FullTable, RowsDone, RowDone, Written, Distance;
    ghost var before := entries[..];
    FillTable(entries, len, cs, bs);
    AtLeast(MAX_CENTROIDS, |cs|, |bs|);
    AtLeast(|cs|, 1, |bs|);
    var filled := entries[..|cs| * |bs|];
    table := SortTable(filled);
    SameLength(table, filled);
    if Complete(|cs|, |bs|) {
      CompleteIsFilled(entries[..], cs, bs);
      assert ListsAllPairs(filled, cs, bs, |filled|);
      SortedIsFull(filled, cs, bs, table);
      FullInRange(table, cs, bs);
    } else {
      forall p | 0 <= p < |filled| ensures PairInRange(filled[p], |cs|, |bs|) {
        assert p < len ==> before[..len][p] == before[p];
      }
      PermutationInRange(filled, table, |cs|, |bs|);
    }
    if len == 0 {
      PermutationFresh(filled, table, cs, bs);
    }
  }

  /** Every entry is a pair of the frame or cleared, and the last one is cleared unless it is written. */
  ghost predicate FreshTable(table: seq<Pair>, cs: seq<Centroid>, bs: seq<Detection>)
  {
    && (forall k :: 0 <= k < |table| ==> IsEntry(table[k], cs, bs) || table[k] == Pair(0, 0, 0))
    && (|table| > 0 && !Written(|cs|, |bs|, |table| - 1) ==> Pair(0, 0, 0) in table)
  }

  lemma PermutationFresh(filled: seq<Pair>, table: seq<Pair>, cs: seq<Centroid>, bs: seq<Detection>)
    requires multiset(table) == multiset(filled) && |table| == |filled|
    requires forall p :: 0 <= p < |filled| ==> IsEntry(filled[p], cs, bs) || filled[p] == Pair(0, 0, 0)
    requires |filled| > 0 && !Written(|cs|, |bs|, |filled| - 1) ==> filled[|filled| - 1] == Pair(0, 0, 0)
    ensures FreshTable(table, cs, bs)
  {
    hide Written, IsEntry;
    forall k | 0 <= k < |table| ensures IsEntry(table[k], cs, bs) || table[k] == Pair(0, 0, 0) {
      assert table[k] in multiset(table) && table[k] in multiset(filled);
    }
    if |filled| > 0 && !Written(|cs|, |bs|, |filled| - 1) {
      assert Pair(0, 0, 0) in multiset(filled) && Pair(0, 0, 0) in multiset(table);
    }
  }

  lemma SameLength(a: seq<Pair>, b: seq<Pair>)
    requires multiset(a) == multiset(b)
    ensures |a| == |b|
  {
    assert |multiset(a)| == |a| && |multiset(b)| == |b|;
  }

  lemma PermutationInRange(filled: seq<Pair>, sorted: seq<Pair>, centroids: nat, boxes: nat)
    requires multiset(sorted) == multiset(filled)
    requires forall p :: 0 <= p < |filled| ==> PairInRange(filled[p], centroids, boxes)
    ensures InRange(sorted, centroids, boxes)
  {
    forall k | 0 <= k < |sorted| ensures PairInRange(sorted[k], centroids, boxes) {
      assert sorted[k] in multiset(sorted) && sorted[k] in multiset(filled);
    }
  }

  lemma EmptyInRange(centroids: nat, boxes: nat)
    ensures InRange([], centroids, boxes)
  {
  }

  // ----- what is measured -----

  /** A new centroid stands in the middle of its box, up to the half that the division drops. */
  lemma NewCentroidInMiddle(id: nat, k: nat, box: Detection)
    ensures var c := NewCentroid(id, k, box);
            && c.id == id && c.matchedBox == Some(k) && c.disappeared == 0
            && Abs(2 * (c.cx - box.x) - box.width) <= 1 && Abs(2 * (c.cy - box.y) - box.height) <= 1
            && (box.width >= 0 ==> 2 * (c.cx - box.x) <= box.width)
            && (box.height >= 0 ==> 2 * (c.cy - box.y) <= box.height)
  {
    hide Half;
  }

  /**
   The distance is the square of the Euclidean one between the centroid and the place where a
   new centroid of the box would stand. In particular it vanishes exactly there, and a box
   matters only through that place.
   */
  lemma DistanceMeaning(c: Centroid, b: Detection, id: nat, k: nat)
    ensures var m := NewCentroid(id, k, b);
            && Distance(c, b) == (c.cx - m.cx) * (c.cx - m.cx) + (c.cy - m.cy) * (c.cy - m.cy)
            && (Distance(c, b) == 0 <==> c.cx == m.cx && c.cy == m.cy)
  {
    hide Half;
    var m := NewCentroid(id, k, b);
    var dx, dy := c.cx - m.cx, c.cy - m.cy;
    assert dx != 0 ==> dx * dx > 0;
    assert dy != 0 ==> dy * dy > 0;
  }

  // ----- boxes that stand still -----

  /** All boxes of a first frame become centroids, in order. */
  lemma {:induction false} NewcomersAll(boxes: seq<Detection>, lastId: nat)
    requires forall b :: 0 <= b < |boxes| ==> boxes[b].trackingId == 0
    ensures var cs := Newcomers(boxes, lastId);
            |cs| == |boxes| && forall b :: 0 <= b < |cs| ==> cs[b] == NewCentroid(lastId + 1 + b, b, boxes[b])
  {
    if boxes != [] {
      NewcomersAll(boxes[..|boxes| - 1], lastId);
    }
  }

  lemma {:induction false} NobodyRemoved(cs: seq<Centroid>)
    requires forall c :: 0 <= c < |cs| ==> cs[c].disappeared < DISAPPEAR_THRESHOLD
    ensures Survivors(cs) == cs
  {
    if cs != [] {
      NobodyRemoved(cs[1..]);
    }
  }

  /** No two boxes have the same middle. */
  predicate MiddlesApart(boxes: seq<Detection>)
  {
    forall i, j :: 0 <= i < j < |boxes| ==>
      var a, b := NewCentroid(0, 0, boxes[i]), NewCentroid(0, 0, boxes[j]);
      a.cx != b.cx || a.cy != b.cy
  }

  /** Only the pairs of a centroid with its own box are at distance zero. */
  lemma OwnBoxOnly(boxes: seq<Detection>, cs: seq<Centroid>, i: nat, j: nat)
    requires MiddlesApart(boxes) && |cs| == |boxes| && i < |boxes| && j < |boxes|
    requires forall b :: 0 <= b < |cs| ==> cs[b].cx == NewCentroid(0, 0, boxes[b]).cx
    requires forall b :: 0 <= b < |cs| ==> cs[b].cy == NewCentroid(0, 0, boxes[b]).cy
    ensures Distance(cs[i], boxes[j]) == 0 <==> i == j
  {
    hide Distance, NewCentroid;
    DistanceMeaning(cs[i], boxes[j], 0, 0);
  }

  /** A frame with the boxes of the frame that made the centroids: every box goes to its own centroid. */
  lemma StillFrame(boxes: seq<Detection>, survivors: seq<Centroid>, lastId: nat, table: seq<Pair>, picks: seq<nat>,
                   matched: seq<Detection>, cs: seq<Centroid>, bs: seq<Detection>, i: nat)
    requires MiddlesApart(boxes) && |survivors| == |boxes| && i < |boxes|
    requires forall b :: 0 <= b < |boxes| ==> survivors[b].cx == NewCentroid(0, 0, boxes[b]).cx
    requires forall b :: 0 <= b < |boxes| ==> survivors[b].cy == NewCentroid(0, 0, boxes[b]).cy
    requires FullTable(table, survivors, boxes)
    requires FrameResult(survivors, boxes, lastId, table, picks, matched, cs, bs)
    ensures i < |cs| && cs[i].matchedBox == Some(i) && i < |matched| && matched[i].trackingId == survivors[i].id
  {
    hide Distance, NewCentroid, Newcomers, Named, PickedCentroid, PickedBox, MiddlesApart;
    ListedPair(table, |survivors|, |boxes|, i, i);
    var k :| 0 <= k < |table| && table[k].centroid == i && table[k].box == i;
    assert Settled(table, picks, k);
    var q :| 0 <= q < |picks| && picks[q] <= k && (table[picks[q]].centroid == i || table[picks[q]].box == i);
    var p := table[picks[q]];
    OwnBoxOnly(boxes, survivors, i, i);
    OwnBoxOnly(boxes, survivors, p.centroid, p.box);
    assert p.distance <= table[k].distance;
    assert cs[p.centroid] == Aged(survivors[p.centroid], Some(p.box));
    assert matched[p.box].trackingId == survivors[p.centroid].id;
  }

  /** An identity given to a box stays with it. */
  lemma NamedKeeps(bs: seq<Detection>, matched: seq<Detection>, lastId: nat, i: nat)
    requires Named(bs, matched, lastId, |bs|) && i < |matched| && matched[i].trackingId != 0
    ensures i < |bs| && bs[i].trackingId == matched[i].trackingId
  {
  }

  lemma NamedFresh(bs: seq<Detection>, boxes: seq<Detection>, lastId: nat, i: nat)
    requires Named(bs, boxes, lastId, |bs|) && i < |boxes|
    requires forall b :: 0 <= b < |boxes| ==> boxes[b].trackingId == 0
    ensures i < |bs| && bs[i].trackingId == lastId + 1 + i
  {
    NewcomersAll(boxes[..i + 1], lastId);
  }

  /**
   Boxes that stand still keep their identities: a second frame with the boxes of the first,
   whose middles are pairwise different, gives every box the identity it had.
   */
  method StandStill(boxes: seq<Detection>, entries: array<Pair>, len: nat)
    returns (first: seq<Detection>, second: seq<Detection>)
    requires 0 < |boxes| <= MAX_CENTROIDS && MiddlesApart(boxes)
    requires forall b :: 0 <= b < |boxes| ==> boxes[b].trackingId == 0
    requires entries.Length == TABLE_CAPACITY + 1 && len <= TABLE_CAPACITY
    modifies entries
    ensures |first| == |second| == |boxes|
    ensures forall b :: 0 <= b < |boxes| ==> second[b].trackingId == first[b].trackingId == 1 + b
  {
    hide Newcomers, Survivors, FrameResult, FullTable, NearestMatched, Distance, Ids, InRange, NewCentroid;
    hide MiddlesApart, Named, Ascending;
    var tracker := new CentroidTracker();
    NoSurvivors(|boxes|);
    var processed;
    first, processed := tracker.UpdateCentroids(boxes, []);
    ghost var cs, lastId := tracker.centroids, tracker.lastId;
    NewcomersAll(boxes, 0);
    forall b | 0 <= b < |boxes|
      ensures first[b].trackingId == 1 + b && cs[b].id == 1 + b && cs[b].disappeared < DISAPPEAR_THRESHOLD
      ensures cs[b].cx == NewCentroid(0, 0, boxes[b]).cx && cs[b].cy == NewCentroid(0, 0, boxes[b]).cy
    {
      NamedFresh(first, boxes, 0, b);
      SamePlace(1 + b, b, boxes[b]);
    }
    NobodyRemoved(cs);
    ghost var table;
    second, processed, table := TrackFrame(tracker, entries, len, boxes);
    ghost var picks: seq<nat>, matched: seq<Detection> :|
      FrameResult(cs, boxes, lastId, table, picks, matched, tracker.centroids, second);
    forall b | 0 <= b < |boxes| ensures second[b].trackingId == 1 + b {
      StillFrame(boxes, cs, lastId, table, picks, matched, tracker.centroids, second, b);
      FrameNamed(cs, boxes, lastId, table, picks, matched, tracker.centroids, second);
      NamedKeeps(second, matched, lastId, b);
    }
  }

  lemma SamePlace(id: nat, k: nat, box: Detection)
    ensures NewCentroid(id, k, box).cx == NewCentroid(0, 0, box).cx
    ensures NewCentroid(id, k, box).cy == NewCentroid(0, 0, box).cy
    ensures NewCentroid(id, k, box).id == id && NewCentroid(id, k, box).disappeared == 0
  {
  }

  lemma FrameNamed(survivors: seq<Centroid>, boxes: seq<Detection>, lastId: nat, table: seq<Pair>, picks: seq<nat>,
                   matched: seq<Detection>, cs: seq<Centroid>, bs: seq<Detection>)
    requires InRange(table, |survivors|, |boxes|)
    requires FrameResult(survivors, boxes, lastId, table, picks, matched, cs, bs)
    ensures Named(bs, matched, lastId, |bs|)
  {
  }

  // ----- a frame that is not matched nearest first -----

  /** The nearest listed pair is always matched. */
  lemma FirstIsPicked(survivors: seq<Centroid>, boxes: seq<Detection>, lastId: nat, table: seq<Pair>, picks: seq<nat>,
                      matched: seq<Detection>, cs: seq<Centroid>, bs: seq<Detection>)
    requires table != [] && InRange(table, |survivors|, |boxes|)
    requires FrameResult(survivors, boxes, lastId, table, picks, matched, cs, bs)
    ensures table[0].centroid < |cs| && cs[table[0].centroid].matchedBox == Some(table[0].box)
  {
    hide Newcomers, Named, PickedCentroid, PickedBox;
    assert Settled(table, picks, 0);
    var i :| 0 <= i < |picks| && picks[i] <= 0;
    assert table[picks[i]] == table[0];
    assert cs[table[picks[i]].centroid] == Aged(survivors[table[picks[i]].centroid], Some(table[picks[i]].box));
  }

  function BoxAt(x: int, y: int): Detection
  {
    Detection(true, 0, x, y, 0, 0, 0.5, 0)
  }

  /**
   Two centroids and three boxes with a fresh table: the entry that is never written is cleared,
   sorts first, and makes the first centroid take the first box, however far away it is.
   */
  method StrayMatch() returns (tracker: CentroidTracker, first: seq<Detection>, second: seq<Detection>)
    ensures fresh(tracker) && tracker.Valid()
    ensures first == [BoxAt(0, 0), BoxAt(500, 500)] && second == [BoxAt(1000, 1000), BoxAt(1, 0), BoxAt(2000, 2000)]
    ensures StrayFrame(Newcomers(first, 0), second)
    ensures |tracker.centroids| >= 2 && tracker.centroids[0].matchedBox == Some(0)
    ensures !NearestMatched(Newcomers(first, 0), second, tracker.centroids)
  {
    hide Newcomers, Survivors, FrameResult, FreshTable, NearestMatched, Written, Distance, Ids, InRange, NewCentroid;
    hide StrayFrame, Ascending;
    first, second := [BoxAt(0, 0), BoxAt(500, 500)], [BoxAt(1000, 1000), BoxAt(1, 0), BoxAt(2000, 2000)];
    tracker := new CentroidTracker();
    NoSurvivors(2);
    var bs, processed := tracker.UpdateCentroids(first, []);
    var entries := new Pair[TABLE_CAPACITY + 1](_ => Pair(0, 0, 0));
    ghost var cs, lastId := tracker.centroids, tracker.lastId;
    TwoNewcomers(first[0], first[1]);
    StrayDistances();
    ghost var table;
    bs, processed, table := TrackFrame(tracker, entries, 0, second);
    StrayResult(cs, second, lastId, table, tracker.centroids, bs);
  }

  /** What becomes of such a frame. */
  lemma StrayResult(survivors: seq<Centroid>, boxes: seq<Detection>, lastId: nat, table: seq<Pair>,
                    cs: seq<Centroid>, bs: seq<Detection>)
    requires StrayFrame(survivors, boxes) && InRange(table, 2, 3)
    requires |table| == 2 * 3 && Ascending(table) && FreshTable(table, survivors, boxes)
    requires exists picks: seq<nat>, matched: seq<Detection> ::
               FrameResult(survivors, boxes, lastId, table, picks, matched, cs, bs)
    ensures |cs| >= 2 && cs[0].matchedBox == Some(0) && !NearestMatched(survivors, boxes, cs)
  {
    hide FrameResult, FreshTable, NearestMatched, InRange, Distance;
    var picks: seq<nat>, matched: seq<Detection> :|
      FrameResult(survivors, boxes, lastId, table, picks, matched, cs, bs);
    StrayFirst(table, survivors, boxes);
    FirstIsPicked(survivors, boxes, lastId, table, picks, matched, cs, bs);
    FrameLength(survivors, boxes, lastId, table, picks, matched, cs, bs);
    StrayIsNotNearest(survivors, boxes, cs);
  }

  lemma NoSurvivors(boxes: nat)
    ensures Survivors([]) == [] && InRange([], |Survivors([])|, boxes)
  {
  }

  /** The two centroids of a first frame, none of which has disappeared. */
  lemma TwoNewcomers(a: Detection, b: Detection)
    requires a.trackingId == 0 && b.trackingId == 0
    ensures Newcomers([a, b], 0) == [NewCentroid(1, 0, a), NewCentroid(2, 1, b)]
    ensures Survivors([NewCentroid(1, 0, a), NewCentroid(2, 1, b)]) == [NewCentroid(1, 0, a), NewCentroid(2, 1, b)]
  {
    hide Survivors, Half;
    assert [a, b][..1] == [a] && [a][..0] == [];
    assert Newcomers([a], 0) == [NewCentroid(1, 0, a)];
    var c, d := NewCentroid(1, 0, a), NewCentroid(2, 1, b);
    assert [c, d][1..] == [d] && [d][1..] == [];
    SurvivorsStep([c, d]);
    SurvivorsStep([d]);
    SurvivorsStep([]);
  }

  lemma DistanceOfBoxes(id: nat, k: nat, cx: int, cy: int, x: int, y: int)
    ensures Distance(NewCentroid(id, k, BoxAt(cx, cy)), BoxAt(x, y)) == (cx - x) * (cx - x) + (cy - y) * (cy - y)
  {
  }

  /** The distances of the two centroids to the three boxes. */
  predicate StrayFrame(cs: seq<Centroid>, bs: seq<Detection>)
  {
    && |cs| == 2 && |bs| == 3
    && Distance(cs[0], bs[0]) == 2_000_000 && Distance(cs[0], bs[1]) == 1
    && (forall c, b :: 0 <= c < 2 && 0 <= b < 3 ==> Distance(cs[c], bs[b]) > 0) && Distance(cs[1], bs[1]) > 1
  }

  lemma StrayDistances()
    ensures StrayFrame([NewCentroid(1, 0, BoxAt(0, 0)), NewCentroid(2, 1, BoxAt(500, 500))],
                       [BoxAt(1000, 1000), BoxAt(1, 0), BoxAt(2000, 2000)])
  {
    hide Distance, NewCentroid, BoxAt;
    DistanceOfBoxes(1, 0, 0, 0, 1000, 1000);
    DistanceOfBoxes(1, 0, 0, 0, 1, 0);
    DistanceOfBoxes(1, 0, 0, 0, 2000, 2000);
    DistanceOfBoxes(2, 1, 500, 500, 1000, 1000);
    DistanceOfBoxes(2, 1, 500, 500, 1, 0);
    DistanceOfBoxes(2, 1, 500, 500, 2000, 2000);
  }

  /** All real distances are positive, so the cleared entry comes first. */
  lemma StrayFirst(table: seq<Pair>, cs: seq<Centroid>, bs: seq<Detection>)
    requires |cs| == 2 && |bs| == 3 && |table| == 6 && Ascending(table) && FreshTable(table, cs, bs)
    requires forall c, b :: 0 <= c < 2 && 0 <= b < 3 ==> Distance(cs[c], bs[b]) > 0
    ensures table[0] == Pair(0, 0, 0)
  {
    hide Distance, Written;
    LastEntryMissed(2, 3);
    var k :| 0 <= k < |table| && table[k] == Pair(0, 0, 0);
    assert table[0].distance <= table[k].distance;
  }

  lemma FrameLength(survivors: seq<Centroid>, boxes: seq<Detection>, lastId: nat, table: seq<Pair>, picks: seq<nat>,
                    matched: seq<Detection>, cs: seq<Centroid>, bs: seq<Detection>)
    requires InRange(table, |survivors|, |boxes|)
    requires FrameResult(survivors, boxes, lastId, table, picks, matched, cs, bs)
    ensures |survivors| <= |cs|
  {
  }

  /** The first centroid is matched farther away than its distance to the second box, which no other match beats. */
  lemma StrayIsNotNearest(survivors: seq<Centroid>, boxes: seq<Detection>, cs: seq<Centroid>)
    requires |survivors| == 2 <= |cs| && |boxes| == 3 && cs[0].matchedBox == Some(0)
    requires Distance(survivors[0], boxes[0]) > 1 == Distance(survivors[0], boxes[1])
    requires Distance(survivors[1], boxes[1]) > 1
    ensures !NearestMatched(survivors, boxes, cs)
  {
    hide Distance;
    assert !Outdone(survivors, boxes, cs, 0, 1);
  }
  lemma FullInRange(table: seq<Pair>, cs: seq<Centroid>, bs: seq<Detection>)
    requires table == [] || FullTable(table, cs, bs)
    ensures InRange(table, |cs|, |bs|)
  {
  }

  lemma SurvivorsBelow(cs: seq<Centroid>, lastId: nat)
    requires IdsBelow(cs, lastId)
    ensures IdsBelow(Survivors(cs), lastId)
  {
    SurvivorsSubset(cs);
    forall i | 0 <= i < |Survivors(cs)| ensures 1 <= Survivors(cs)[i].id <= lastId {
      assert Survivors(cs)[i] in cs;
    }
  }
}
