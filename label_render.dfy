/** The tail of runWatershed: the marker matrix left by the watershed is
    scanned row by row into a colour image. Boundary cells (-1) are painted
    white, each region label (above 1) gets a colour the first time the scan
    meets it, cached and reused for the rest of the scan, and every other
    cell stays black. The number of colours drawn is returned with the image. */
module LabelRender {
  import opened Raster

  /** No value occurs twice. */
  predicate Distinct(d: seq<int32>) {
    forall i, j :: 0 <= i < j < |d| ==> d[i] != d[j]
  }

  /** The region labels of s in the order a left-to-right scan first meets them. */
  function Discovered(s: seq<int32>): (d: seq<int32>)
    ensures |d| <= |s|
  {
    if s == [] then []
    else
      var d := Discovered(s[..|s| - 1]);
      var x := s[|s| - 1];
      if x > 1 && x !in d then d + [x] else d
  }

  /** No label is discovered twice. */
  lemma {:induction false} DiscoveredDistinct(s: seq<int32>)
    ensures Distinct(Discovered(s))
  {
    if s != [] {
      var p := s[..|s| - 1];
      DiscoveredDistinct(p);
    }
  }

  /** The discovered labels are exactly the values above 1 that occur in s. */
  lemma {:induction false} DiscoveredMembers(s: seq<int32>)
    ensures forall x :: x in Discovered(s) <==> x in s && x > 1
  {
    if s != [] {
      var p := s[..|s| - 1];
      assert s == p + [s[|s| - 1]];
      DiscoveredMembers(p);
    }
  }

  /** The position of the first occurrence of x in s. */
  function FirstIndex(s: seq<int32>, x: int32): (i: nat)
    requires x in s
    ensures i < |s| && s[i] == x && x !in s[..i]
  {
    if s[0] == x then 0 else 1 + FirstIndex(s[1..], x)
  }

  /** A position that holds x with no x before it is the first index. */
  lemma FirstIndexUnique(s: seq<int32>, x: int32, i: nat)
    requires i < |s| && s[i] == x && x !in s[..i]
    ensures FirstIndex(s, x) == i
  {
  }

  /** Cells appended after x's first occurrence do not move it. */
  lemma FirstIndexSnoc(s: seq<int32>, y: int32, x: int32)
    requires x in s
    ensures x in s + [y] && FirstIndex(s + [y], x) == FirstIndex(s, x)
  {
    var i := FirstIndex(s, x);
    assert (s + [y])[..i] == s[..i];
    FirstIndexUnique(s + [y], x, i);
  }

  /** The k-th discovered label is the k-th distinct region label met by the
      scan: of two discovered labels, the earlier one occurs first in s. */
  lemma {:induction false} DiscoveredInScanOrder(s: seq<int32>, i: nat, j: nat)
    requires i < j < |Discovered(s)|
    ensures Discovered(s)[i] in s && Discovered(s)[j] in s
    ensures FirstIndex(s, Discovered(s)[i]) < FirstIndex(s, Discovered(s)[j])
  {
    var d := Discovered(s);
    DiscoveredMembers(s);
    assert d[i] in d && d[j] in d;
    var p, x := s[..|s| - 1], s[|s| - 1];
    assert s == p + [x];
    var dp := Discovered(p);
    DiscoveredMembers(p);
    assert d[..|dp|] == dp && (|d| == |dp| || d == dp + [x]);
    assert dp[i] in dp;
    FirstIndexSnoc(p, x, dp[i]);
    if j < |dp| {
      DiscoveredInScanOrder(p, i, j);
      assert dp[j] in dp;
      FirstIndexSnoc(p, x, dp[j]);
    } else {
      assert d[j] == x && x !in p;
      assert s[..|p|] == p;
      FirstIndexUnique(s, x, |p|);
    }
  }

  /** The set of a distinct sequence has one element per position. */
  lemma {:induction false} DistinctSize(d: seq<int32>)
    requires Distinct(d)
    ensures |set x | x in d| == |d|
  {
    if d != [] {
      var p, x := d[..|d| - 1], d[|d| - 1];
      assert d == p + [x];
      DistinctSize(p);
      assert (set y | y in d) == (set y | y in p) + {x};
      assert x !in p;
    }
  }

  /** The number of discovered labels is the number of distinct region labels. */
  lemma CountIsDistinctLabels(s: seq<int32>)
    ensures |Discovered(s)| == |RegionLabels(s)|
  {
    var d := Discovered(s);
    DiscoveredMembers(s);
    DiscoveredDistinct(s);
    DistinctSize(d);
    assert (set x | x in d) == RegionLabels(s);
  }

  /** A rows x cols matrix has at most rows * cols regions, and none exactly
      when no cell holds a label above 1. */
  lemma CountBounds(g: Grid<int32>, rows: nat, cols: nat)
    requires IsRect(g, rows, cols)
    ensures |Discovered(Flatten(g))| <= rows * cols
    ensures |Discovered(Flatten(g))| == 0 <==> forall r, c :: 0 <= r < rows && 0 <= c < cols ==> g[r][c] <= 1
  {
    var flat := Flatten(g);
    FlattenSize(g, rows, cols);
    DiscoveredMembers(flat);
    if |Discovered(flat)| == 0 {
      forall r, c | 0 <= r < rows && 0 <= c < cols
        ensures g[r][c] <= 1
      {
        FlattenMember(g, g[r][c]);
      }
    } else {
      var x := Discovered(flat)[0];
      assert x in Discovered(flat);
      FlattenMember(g, x);
    }
  }

  /** The k-th colour drawn: three rand() results, each taken modulo 256, go to
      the blue, green and red channels. rand is the sequence of values rand()
      returns during the scan. */
  function DrawColor(rand: nat -> nat, k: nat): Pixel {
    Pixel((rand(3 * k) % 256) as byte, (rand(3 * k + 1) % 256) as byte, (rand(3 * k + 2) % 256) as byte)
  }

  /** Colour k consumes the draws 3k, 3k+1 and 3k+2: draw 3k+ch, reduced modulo
      256, is channel ch (blue, green, red). */
  lemma DrawChannels(rand: nat -> nat, k: nat)
    ensures forall ch :: 0 <= ch < 3 ==> Channel(DrawColor(rand, k), ch) as int == rand(3 * k + ch) % 256
  {
  }

  /** The colour of a region label: the colour drawn when the scan met it, that
      is, colour number i for the label at position i of the discovery order. */
  function RegionColor(order: seq<int32>, x: int32, rand: nat -> nat): (color: Pixel)
    requires x in order
  {
    DrawColor(rand, FirstIndex(order, x))
  }

  /** In an order without repeats, the label at position k has colour number k. */
  lemma RegionColorAt(order: seq<int32>, k: nat, rand: nat -> nat)
    requires Distinct(order) && k < |order|
    ensures order[k] in order
    ensures RegionColor(order, order[k], rand) == DrawColor(rand, k)
  {
    assert order[k] !in order[..k];
    FirstIndexUnique(order, order[k], k);
  }

  /** The label discovered k-th gets the k-th colour drawn. */
  lemma KthRegionKthColor(s: seq<int32>, k: nat, rand: nat -> nat)
    requires k < |Discovered(s)|
    ensures Discovered(s)[k] in Discovered(s)
    ensures RegionColor(Discovered(s), Discovered(s)[k], rand) == DrawColor(rand, k)
  {
    DiscoveredDistinct(s);
    RegionColorAt(Discovered(s), k, rand);
  }

  /** The colour runWatershed paints a cell with the given marker. */
  function CellColor(idx: int32, order: seq<int32>, rand: nat -> nat): Pixel {
    if idx == -1 then White
    else if idx > 1 && idx in order then RegionColor(order, idx, rand)
    else Black
  }

  /** The three outcomes for a cell, given a discovery order without repeats:
      a boundary is white, a label at position k of the order has colour number
      k, and anything else is black. */
  lemma CellColorCases(idx: int32, order: seq<int32>, rand: nat -> nat)
    requires Distinct(order)
    ensures idx == -1 ==> CellColor(idx, order, rand) == White
    ensures idx != -1 && (idx <= 1 || idx !in order) ==> CellColor(idx, order, rand) == Black
    ensures forall k :: 0 <= k < |order| && order[k] == idx && idx > 1 ==> CellColor(idx, order, rand) == DrawColor(rand, k)
  {
    forall k | 0 <= k < |order| && order[k] == idx && idx > 1
      ensures CellColor(idx, order, rand) == DrawColor(rand, k)
    {
      RegionColorAt(order, k, rand);
    }
  }

  /** One step of the scan over s: a label above 1 not met before is appended to
      the discovery order; any other cell leaves the order as it is. */
  lemma ScanStep(s: seq<int32>, n: nat)
    requires n < |s|
    ensures var d, d' := Discovered(s[..n]), Discovered(s[..n + 1]);
      if s[n] > 1 && s[n] !in d then d' == d + [s[n]] else d' == d
  {
    assert s[..n + 1][..n] == s[..n];
  }

  /** Scanning further cells only appends to what has been discovered: the
      discovery order of a prefix is a prefix of the whole discovery order. */
  lemma {:induction false} DiscoveredTake(s: seq<int32>, n: nat)
    requires n <= |s|
    ensures Discovered(s[..n]) <= Discovered(s)
    decreases |s| - n
  {
    if n < |s| {
      DiscoveredTake(s, n + 1);
      ScanStep(s, n);
      var a, b, c := Discovered(s[..n]), Discovered(s[..n + 1]), Discovered(s);
      assert a <= b;
      assert c[..|b|][..|a|] == c[..|a|];
    } else {
      assert s[..n] == s;
    }
  }

  /** The contents of a marker matrix as rows. */
  ghost function Labels(markers: array2<int32>): (g: Grid<int32>)
    reads markers
    ensures IsRect(g, markers.Length0, markers.Length1)
    ensures forall r, c :: 0 <= r < markers.Length0 && 0 <= c < markers.Length1 ==> g[r][c] == markers[r, c]
  {
    seq(markers.Length0, r requires 0 <= r < markers.Length0 reads markers =>
      seq(markers.Length1, c requires 0 <= c < markers.Length1 reads markers => markers[r, c]))
  }

  /** The region labels of a marker matrix in row-major discovery order. */
  ghost function ScanOrder(markers: array2<int32>): (d: seq<int32>)
    reads markers
  {
    Discovered(Flatten(Labels(markers)))
  }

  /** The result of runWatershed: the colour image and the region count. */
  datatype WatershedOutput = WatershedOutput(watershedOutImg: array2<Pixel>, count: nat)

  /** The colour cache after the scan has discovered the labels d, in that order,
      when the whole discovery order is all: each label of d with its colour in
      the whole scan. */
  ghost function CacheOf(d: seq<int32>, all: seq<int32>, rand: nat -> nat): map<int32, Pixel>
    requires d <= all
  {
    if d == [] then map[]
    else
      var x := d[|d| - 1];
      assert all[|d| - 1] == x;
      CacheOf(d[..|d| - 1], all, rand)[x := RegionColor(all, x, rand)]
  }

  /** The cache holds exactly the labels discovered so far, each with its colour. */
  lemma {:induction false} CacheOfAt(d: seq<int32>, all: seq<int32>, rand: nat -> nat)
    requires d <= all
    ensures forall x :: x in CacheOf(d, all, rand) <==> x in d
    ensures forall x :: x in d ==> x in all && CacheOf(d, all, rand)[x] == RegionColor(all, x, rand)
  {
    if d != [] {
      var init := d[..|d| - 1];
      CacheOfAt(init, all, rand);
      assert d == init + [d[|d| - 1]];
      forall x ensures x in d <==> x in init || x == d[|d| - 1] {
        assert x in init + [d[|d| - 1]] <==> x in init || x in [d[|d| - 1]];
      }
    }
  }

  /** Inserting the label discovered next with the next colour drawn gives the
      cache of the longer discovery order. */
  lemma CacheInsert(d: seq<int32>, all: seq<int32>, x: int32, rand: nat -> nat)
    requires Distinct(all) && d + [x] <= all
    ensures d <= all
    ensures CacheOf(d + [x], all, rand) == CacheOf(d, all, rand)[x := DrawColor(rand, |d|)]
  {
    assert all[|d|] == (d + [x])[|d|] == x;
    assert (d + [x])[..|d|] == d;
    RegionColorAt(all, |d|, rand);
  }

  /** What the scan holds between cells: the colour cache and the region count. */
  datatype ScanAcc = ScanAcc(colorMap: map<int32, Pixel>, count: nat)

  /** The cache and the count after the scan has met the first n cells of flat,
      as a fold: a label above 1 that is not cached yet is cached with the next
      colour drawn and counted; every other cell leaves both alone. */
  function ScanAfter(flat: seq<int32>, n: nat, rand: nat -> nat): ScanAcc
    requires n <= |flat|
  {
    if n == 0 then ScanAcc(map[], 0)
    else
      var acc, x := ScanAfter(flat, n - 1, rand), flat[n - 1];
      if x > 1 && x !in acc.colorMap then ScanAcc(acc.colorMap[x := DrawColor(rand, acc.count)], acc.count + 1)
      else acc
  }

  /** After any prefix of the scan the cache holds exactly the labels discovered
      so far, each with its colour in the whole scan, and the count is their
      number. */
  lemma {:induction false} ScanAfterIsCache(flat: seq<int32>, n: nat, rand: nat -> nat)
    requires n <= |flat|
    ensures Discovered(flat[..n]) <= Discovered(flat)
    ensures ScanAfter(flat, n, rand) == ScanAcc(CacheOf(Discovered(flat[..n]), Discovered(flat), rand), |Discovered(flat[..n])|)
  {
    DiscoveredTake(flat, n);
    if n > 0 {
      var m := n - 1;
      ScanAfterIsCache(flat, m, rand);
      var x, d, all := flat[m], Discovered(flat[..m]), Discovered(flat);
      ScanStep(flat, m);
      CacheOfAt(d, all, rand);
      if x > 1 && x !in d {
        DiscoveredDistinct(flat);
        CacheInsert(d, all, x, rand);
      }
    }
  }

  /** Once the scan has met a cell holding a label above 1, the cache holds that
      label with the colour CellColor gives it over the whole scan. */
  lemma CachedColor(flat: seq<int32>, n: nat, rand: nat -> nat)
    requires n < |flat| && flat[n] > 1
    ensures flat[n] in ScanAfter(flat, n + 1, rand).colorMap
    ensures ScanAfter(flat, n + 1, rand).colorMap[flat[n]] == CellColor(flat[n], Discovered(flat), rand)
  {
    var d := Discovered(flat[..n + 1]);
    ScanAfterIsCache(flat, n + 1, rand);
    CacheOfAt(d, Discovered(flat), rand);
    ScanStep(flat, n);
  }

  /** One pass of the inner loop body: cell (r, c) of the markers, which sits at
      position n of the row-major sequence flat, is painted. A boundary (-1) turns
      white; a region label is looked up in the colour cache and, when it is not
      there yet, gets the next colour drawn and is counted; any other marker
      leaves the cell black. */
  method ScanCell(markers: array2<int32>, output: array2<Pixel>, r: nat, c: nat, rand: nat -> nat,
                  colorMap: map<int32, Pixel>, count: nat, ghost flat: seq<int32>, ghost n: nat)
      returns (colorMap': map<int32, Pixel>, count': nat)
    requires r < markers.Length0 && c < markers.Length1
    requires output.Length0 == markers.Length0 && output.Length1 == markers.Length1
    requires n < |flat| && flat[n] == markers[r, c]
    requires ScanAfter(flat, n, rand) == ScanAcc(colorMap, count)
    requires output[r, c] == Black
    modifies output
    ensures ScanAfter(flat, n + 1, rand) == ScanAcc(colorMap', count')
    ensures output[r, c] == CellColor(markers[r, c], Discovered(flat), rand)
    ensures forall rr, cc :: 0 <= rr < markers.Length0 && 0 <= cc < markers.Length1 && (rr != r || cc != c) ==>
              output[rr, cc] == old(output[rr, cc])
  {
    var idx := markers[r, c];
    if idx > 1 {
      CachedColor(flat, n, rand);
    }
    colorMap', count' := colorMap, count;
    if idx == -1 {
      output[r, c] := White;
    } else if idx > 1 {
      if idx !in colorMap' {
        colorMap' := colorMap'[idx := DrawColor(rand, count')];
        count' := count' + 1;
      }
      output[r, c] := colorMap'[idx];
    }
  }

  /** The inner loop: row r of the markers is scanned left to right. flat is the
      whole matrix in row-major order and k the number of cells in rows 0 .. r-1.
      The cache and the count go from their state after flat[..k] to their state
      after row r; row r of the output gets its final colours and the other rows
      are left as they were. */
  method ScanRow(markers: array2<int32>, output: array2<Pixel>, r: nat, rand: nat -> nat,
                 colorMap: map<int32, Pixel>, count: nat,
                 ghost flat: seq<int32>, ghost k: nat)
      returns (colorMap': map<int32, Pixel>, count': nat)
    requires r < markers.Length0
    requires output.Length0 == markers.Length0 && output.Length1 == markers.Length1
    requires k + markers.Length1 <= |flat|
    requires forall c :: 0 <= c < markers.Length1 ==> flat[k + c] == markers[r, c]
    requires ScanAfter(flat, k, rand) == ScanAcc(colorMap, count)
    requires forall c :: 0 <= c < markers.Length1 ==> output[r, c] == Black
    modifies output
    ensures ScanAfter(flat, k + markers.Length1, rand) == ScanAcc(colorMap', count')
    ensures forall rr, c :: 0 <= rr < markers.Length0 && 0 <= c < markers.Length1 ==>
              output[rr, c] == if rr == r then CellColor(markers[r, c], Discovered(flat), rand) else old(output[rr, c])
  {
    ghost var all := Discovered(flat);
    colorMap', count' := colorMap, count;
    var c := 0;
    ghost var n := k;
    while c < markers.Length1
      invariant 0 <= c <= markers.Length1 && n == k + c
      invariant ScanAfter(flat, n, rand) == ScanAcc(colorMap', count')
      invariant forall rr, cc :: 0 <= rr < markers.Length0 && 0 <= cc < markers.Length1 ==>
                  output[rr, cc] == if rr != r then old(output[rr, cc])
                                    else if cc < c then CellColor(markers[r, cc], all, rand)
                                    else Black
    {
      assert flat[k + c] == markers[r, c];
      colorMap', count' := ScanCell(markers, output, r, c, rand, colorMap', count', flat, n);
      c, n := c + 1, n + 1;
    }
    assert n == k + markers.Length1;
  }

  /** Every region label of the markers is in their discovery order. */
  lemma ScanOrderCovers(markers: array2<int32>)
    ensures forall r, c :: 0 <= r < markers.Length0 && 0 <= c < markers.Length1 && markers[r, c] > 1 ==>
              markers[r, c] in ScanOrder(markers)
  {
    var g := Labels(markers);
    DiscoveredMembers(Flatten(g));
    forall r, c | 0 <= r < markers.Length0 && 0 <= c < markers.Length1 && markers[r, c] > 1
      ensures markers[r, c] in ScanOrder(markers)
    {
      FlattenMember(g, markers[r, c]);
    }
  }

  /** Row r of the markers occupies markers.Length1 consecutive positions of
      their row-major sequence, right after the cells of rows 0 .. r-1. */
  lemma MarkersRow(markers: array2<int32>, g: Grid<int32>, r: nat)
    requires r < markers.Length0 && IsRect(g, markers.Length0, markers.Length1)
    requires forall rr, c :: 0 <= rr < markers.Length0 && 0 <= c < markers.Length1 ==> g[rr][c] == markers[rr, c]
    ensures |Flatten(g[..r + 1])| == |Flatten(g[..r])| + markers.Length1 <= |Flatten(g)|
    ensures forall c :: 0 <= c < markers.Length1 ==> Flatten(g)[|Flatten(g[..r])| + c] == markers[r, c]
  {
    FlattenRow(g, r);
    forall c | 0 <= c < markers.Length1
      ensures Flatten(g)[|Flatten(g[..r])| + c] == markers[r, c]
    {
      assert Flatten(g)[|Flatten(g[..r])| + c] == g[r][c];
    }
  }

  /** The outer loop: all rows of the markers, top to bottom, are scanned into
      output, which starts black. The count ends as the number of region labels
      and every cell gets its colour. */
  method ScanRows(markers: array2<int32>, output: array2<Pixel>, rand: nat -> nat,
                  ghost g: Grid<int32>, ghost flat: seq<int32>)
      returns (count: nat)
    requires output.Length0 == markers.Length0 && output.Length1 == markers.Length1
    requires IsRect(g, markers.Length0, markers.Length1)
    requires forall r, c :: 0 <= r < markers.Length0 && 0 <= c < markers.Length1 ==> g[r][c] == markers[r, c]
    requires flat == Flatten(g)
    requires forall r, c :: 0 <= r < markers.Length0 && 0 <= c < markers.Length1 ==> output[r, c] == Black
    modifies output
    ensures count == |Discovered(flat)|
    ensures forall r, c :: 0 <= r < markers.Length0 && 0 <= c < markers.Length1 ==>
              output[r, c] == CellColor(markers[r, c], Discovered(flat), rand)
  {
    ghost var all := Discovered(flat);
    var colorMap: map<int32, Pixel> := map[];
    count := 0;
    ghost var k: nat := 0;
    var r := 0;
    while r < markers.Length0
      invariant 0 <= r <= markers.Length0
      invariant k == |Flatten(g[..r])| <= |flat|
      invariant ScanAfter(flat, k, rand) == ScanAcc(colorMap, count)
      invariant forall rr, cc :: 0 <= rr < markers.Length0 && 0 <= cc < markers.Length1 ==>
                  output[rr, cc] == if rr < r then CellColor(markers[rr, cc], all, rand) else Black
    {
      ghost var next := k + markers.Length1;
      MarkersRow(markers, g, r);
      colorMap, count := ScanRow(markers, output, r, rand, colorMap, count, flat, k);
      k := next;
      r := r + 1;
    }
    assert g[..markers.Length0] == g;
    assert flat[..k] == flat;
    ScanAfterIsCache(flat, k, rand);
  }

  /** The output scan of runWatershed over the markers the watershed produced:
      the image has the markers' size, the count is the number of labels in the
      discovery order, boundaries are white, the label met i-th gets the i-th
      colour drawn, and every other cell is black. */
  method RenderLabels(markers: array2<int32>, rand: nat -> nat) returns (out: WatershedOutput)
    ensures fresh(out.watershedOutImg)
    ensures out.watershedOutImg.Length0 == markers.Length0 && out.watershedOutImg.Length1 == markers.Length1
    ensures out.count == |ScanOrder(markers)|
    ensures out.count == |RegionLabels(Flatten(Labels(markers)))| <= markers.Length0 * markers.Length1
    ensures forall r, c :: 0 <= r < markers.Length0 && 0 <= c < markers.Length1 && markers[r, c] > 1 ==>
              markers[r, c] in ScanOrder(markers)
    ensures forall r, c :: 0 <= r < markers.Length0 && 0 <= c < markers.Length1 && markers[r, c] == -1 ==>
              out.watershedOutImg[r, c] == White
    ensures forall r, c :: 0 <= r < markers.Length0 && 0 <= c < markers.Length1 && markers[r, c] > 1 ==>
              out.watershedOutImg[r, c] == RegionColor(ScanOrder(markers), markers[r, c], rand)
    ensures forall r, c :: 0 <= r < markers.Length0 && 0 <= c < markers.Length1 && markers[r, c] != -1 && markers[r, c] <= 1 ==>
              out.watershedOutImg[r, c] == Black
  {
    var output := new Pixel[markers.Length0, markers.Length1]((_, _) => Black);
    ghost var g := Labels(markers);
    var count := ScanRows(markers, output, rand, g, Flatten(g));
    ScanOrderCovers(markers);
    CountIsDistinctLabels(Flatten(g));
    CountBounds(g, markers.Length0, markers.Length1);
    out := WatershedOutput(output, count);
  }
}
