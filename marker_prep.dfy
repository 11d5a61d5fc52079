/** Marker preparation in runWatershed: the connected-component ids are
    shifted up by one (`markers += 1`) so that background 0 becomes 1, and
    every cell flagged in the unknown mask is then reset to 0
    (`markers.setTo(0, unknown)`). */
module MarkerPrep {
  import opened Raster

  /** `+= 1` on one CV_32S cell. For a CV_32S result OpenCV's add does not
      saturate: the sum is taken modulo 2^32 into the signed 32-bit range, so
      the largest id wraps to the smallest value. */
  function Shift(id: int32): (shifted: int32)
    ensures shifted as int % 0x1_0000_0000 == (id as int + 1) % 0x1_0000_0000
    ensures id < Int32Max ==> shifted as int == id as int + 1
  {
    if id < Int32Max then id + 1 else -0x8000_0000
  }

  /** markers += 1 over the whole matrix. */
  function ShiftAll(components: Grid<int32>): (markers: Grid<int32>)
    ensures SameShape(markers, components)
    ensures forall r, c :: 0 <= r < |components| && 0 <= c < |components[r]| ==>
              markers[r][c] as int % 0x1_0000_0000 == (components[r][c] as int + 1) % 0x1_0000_0000
    ensures forall r, c :: 0 <= r < |components| && 0 <= c < |components[r]| && components[r][c] < Int32Max ==>
              markers[r][c] as int == components[r][c] as int + 1
  {
    seq(|components|, r requires 0 <= r < |components| =>
      seq(|components[r]|, c requires 0 <= c < |components[r]| => Shift(components[r][c])))
  }

  /** markers.setTo(0, unknown). An empty matrix is returned as it is; an empty
      mask selects every cell; otherwise cells whose mask byte is non-zero become
      0, and a mask of another size is an OpenCV error (None). */
  function MaskOut(markers: Grid<int32>, unknown: Grid<byte>): (masked: Option<Grid<int32>>)
    ensures masked.None? <==> !Empty(markers) && !Empty(unknown) && !SameShape(markers, unknown)
    ensures masked.Some? ==> SameShape(masked.value, markers)
    ensures Empty(markers) ==> masked == Some(markers)
    ensures !Empty(markers) && Empty(unknown) ==>
              forall r, c :: 0 <= r < |markers| && 0 <= c < |markers[r]| ==> masked.value[r][c] == 0
    ensures SameShape(markers, unknown) ==> forall r, c :: 0 <= r < |markers| && 0 <= c < |markers[r]| ==>
              masked.value[r][c] == if unknown[r][c] != 0 then 0 else markers[r][c]
  {
    if Empty(markers) then Some(markers)
    else if Empty(unknown) then
      Some(seq(|markers|, r requires 0 <= r < |markers| => seq(|markers[r]|, c => 0 as int32)))
    else if !SameShape(markers, unknown) then None
    else Some(seq(|markers|, r requires 0 <= r < |markers| =>
                seq(|markers[r]|, c requires 0 <= c < |markers[r]| =>
                  if unknown[r][c] != 0 then 0 else markers[r][c])))
  }

  /** The two steps in source order. */
  function PrepareMarkers(components: Grid<int32>, unknown: Grid<byte>): (markers: Option<Grid<int32>>)
    ensures markers.None? <==> !Empty(components) && !Empty(unknown) && !SameShape(components, unknown)
    ensures markers.Some? ==> SameShape(markers.value, components)
    ensures !Empty(components) && Empty(unknown) ==>
              forall r, c :: 0 <= r < |components| && 0 <= c < |components[r]| ==> markers.value[r][c] == 0
    ensures SameShape(components, unknown) ==> forall r, c :: 0 <= r < |components| && 0 <= c < |components[r]| ==>
              (unknown[r][c] != 0 ==> markers.value[r][c] == 0) &&
              (unknown[r][c] == 0 && components[r][c] < Int32Max ==> markers.value[r][c] as int == components[r][c] as int + 1)
  {
    MaskOut(ShiftAll(components), unknown)
  }

  /** connectedComponents numbers the background 0 and the blobs 1, 2, ...;
      each id is below the pixel count and hence below the 32-bit maximum. */
  predicate ComponentIds(components: Grid<int32>) {
    forall r, c :: 0 <= r < |components| && 0 <= c < |components[r]| ==> 0 <= components[r][c] < Int32Max
  }

  /** On connectedComponents output the prepared markers partition the cells:
      0 exactly where the mask is set, 1 exactly on known background, a value of
      at least 2 exactly on known object cells, and never a negative value. */
  lemma MarkerClasses(components: Grid<int32>, unknown: Grid<byte>)
    requires SameShape(components, unknown) && ComponentIds(components)
    ensures var m := PrepareMarkers(components, unknown).value;
      forall r, c :: 0 <= r < |components| && 0 <= c < |components[r]| ==>
        m[r][c] >= 0 &&
        (m[r][c] == 0 <==> unknown[r][c] != 0) &&
        (m[r][c] == 1 <==> unknown[r][c] == 0 && components[r][c] == 0) &&
        (m[r][c] >= 2 <==> unknown[r][c] == 0 && components[r][c] >= 1)
  {
  }

  /** The object ids (at least 1) that own at least one cell outside the unknown mask. */
  ghost function SurvivingObjects(components: Grid<int32>, unknown: Grid<byte>): set<int32>
    requires SameShape(components, unknown)
  {
    set r, c | 0 <= r < |components| && 0 <= c < |components[r]| && unknown[r][c] == 0 && components[r][c] >= 1
      :: components[r][c]
  }

  /** Every region label of the prepared markers is a surviving object id shifted by one. */
  lemma PreparedRegionsSurvive(components: Grid<int32>, unknown: Grid<byte>)
    requires SameShape(components, unknown) && ComponentIds(components)
    ensures var m := PrepareMarkers(components, unknown).value;
      RegionLabels(Flatten(m)) <= set id | id in SurvivingObjects(components, unknown) :: Shift(id)
  {
    var m := PrepareMarkers(components, unknown).value;
    var objects := SurvivingObjects(components, unknown);
    MarkerClasses(components, unknown);
    forall x | x in RegionLabels(Flatten(m))
      ensures x in set id | id in objects :: Shift(id)
    {
      FlattenMember(m, x);
      var r, c :| 0 <= r < |m| && 0 <= c < |m[r]| && m[r][c] == x;
      assert components[r][c] in objects;
      assert Shift(components[r][c]) == x;
    }
  }

  /** Every surviving object id, shifted by one, is a region label of the prepared markers. */
  lemma SurvivorsArePrepared(components: Grid<int32>, unknown: Grid<byte>)
    requires SameShape(components, unknown) && ComponentIds(components)
    ensures var m := PrepareMarkers(components, unknown).value;
      (set id | id in SurvivingObjects(components, unknown) :: Shift(id)) <= RegionLabels(Flatten(m))
  {
    var m := PrepareMarkers(components, unknown).value;
    var objects := SurvivingObjects(components, unknown);
    MarkerClasses(components, unknown);
    forall x | x in set id | id in objects :: Shift(id)
      ensures x in RegionLabels(Flatten(m))
    {
      var id :| id in objects && x == Shift(id);
      var r, c :| 0 <= r < |components| && 0 <= c < |components[r]| && unknown[r][c] == 0 &&
                  components[r][c] >= 1 && components[r][c] == id;
      assert m[r][c] == x;
      FlattenMember(m, x);
    }
  }

  /** The region labels of the prepared markers are the surviving object ids, each
      shifted up by one: preparation neither invents nor merges regions. */
  lemma PreparedRegions(components: Grid<int32>, unknown: Grid<byte>)
    requires SameShape(components, unknown) && ComponentIds(components)
    ensures var m := PrepareMarkers(components, unknown).value;
      RegionLabels(Flatten(m)) == set id | id in SurvivingObjects(components, unknown) :: Shift(id)
  {
    PreparedRegionsSurvive(components, unknown);
    SurvivorsArePrepared(components, unknown);
  }
}
