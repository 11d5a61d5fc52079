/** showBlueChannelOnly: copy the image, split it into its three channel
    planes, replace the green and red planes by zero planes of the same size,
    and merge the planes back into one image. */
module BlueChannel {
  import opened Raster

  /** One channel plane of an image. */
  function Plane(img: Grid<Pixel>, ch: nat): (plane: Grid<byte>)
    requires ch < 3
    ensures SameShape(plane, img)
    ensures forall r, c :: 0 <= r < |img| && 0 <= c < |img[r]| ==> plane[r][c] == Channel(img[r][c], ch)
  {
    seq(|img|, r requires 0 <= r < |img| => seq(|img[r]|, c requires 0 <= c < |img[r]| => Channel(img[r][c], ch)))
  }

  /** split: the blue, green and red planes of an image, in that order. */
  function Split(img: Grid<Pixel>): (planes: seq<Grid<byte>>)
    ensures |planes| == 3
    ensures forall ch :: 0 <= ch < 3 ==> SameShape(planes[ch], img)
  {
    [Plane(img, 0), Plane(img, 1), Plane(img, 2)]
  }

  /** Mat::zeros with the size of an existing plane. */
  function ZerosLike(plane: Grid<byte>): (z: Grid<byte>)
    ensures SameShape(z, plane)
    ensures forall r, c :: 0 <= r < |z| && 0 <= c < |z[r]| ==> z[r][c] == 0
  {
    seq(|plane|, r requires 0 <= r < |plane| => seq(|plane[r]|, c => 0))
  }

  /** merge: three planes of one size become one three-channel image. */
  function Merge(planes: seq<Grid<byte>>): (img: Grid<Pixel>)
    requires |planes| == 3
    requires SameShape(planes[1], planes[0]) && SameShape(planes[2], planes[0])
    ensures SameShape(img, planes[0])
    ensures forall r, c :: 0 <= r < |img| && 0 <= c < |img[r]| ==>
              Channel(img[r][c], 0) == planes[0][r][c] &&
              Channel(img[r][c], 1) == planes[1][r][c] &&
              Channel(img[r][c], 2) == planes[2][r][c]
  {
    var p := planes[0];
    seq(|p|, r requires 0 <= r < |p| =>
      seq(|p[r]|, c requires 0 <= c < |p[r]| => Pixel(p[r][c], planes[1][r][c], planes[2][r][c])))
  }

  /** Merging the planes that splitting produced gives back the image. */
  lemma MergeSplit(img: Grid<Pixel>)
    ensures Merge(Split(img)) == img
  {
    var m := Merge(Split(img));
    assert |m| == |img|;
    forall r | 0 <= r < |img|
      ensures m[r] == img[r]
    {
      assert |m[r]| == |img[r]|;
      forall c | 0 <= c < |img[r]|
        ensures m[r][c] == img[r][c]
      {
        assert Channel(m[r][c], 0) == Channel(img[r][c], 0);
        assert Channel(m[r][c], 1) == Channel(img[r][c], 1);
        assert Channel(m[r][c], 2) == Channel(img[r][c], 2);
      }
    }
  }

  /** The image with green and red zeroed and blue kept, pixel by pixel. */
  function ShowBlueChannelOnly(img: Grid<Pixel>): (blueOnly: Grid<Pixel>)
    ensures SameShape(blueOnly, img)
    ensures forall r, c :: 0 <= r < |img| && 0 <= c < |img[r]| ==>
              blueOnly[r][c].blue == img[r][c].blue &&
              blueOnly[r][c].green == 0 &&
              blueOnly[r][c].red == 0
  {
    var channels := Split(img);
    Merge([channels[0], ZerosLike(channels[1]), ZerosLike(channels[2])])
  }

  /** Applying the filter a second time changes nothing. */
  lemma BlueOnlyIdempotent(img: Grid<Pixel>)
    ensures ShowBlueChannelOnly(ShowBlueChannelOnly(img)) == ShowBlueChannelOnly(img)
  {
    var once := ShowBlueChannelOnly(img);
    var twice := ShowBlueChannelOnly(once);
    assert |twice| == |once|;
    forall r | 0 <= r < |once|
      ensures twice[r] == once[r]
    {
      assert |twice[r]| == |once[r]|;
    }
  }

  /** The filter leaves an image unchanged exactly when it has no green and no red. */
  lemma BlueOnlyFixedPoint(img: Grid<Pixel>)
    ensures ShowBlueChannelOnly(img) == img <==>
            forall r, c :: 0 <= r < |img| && 0 <= c < |img[r]| ==> img[r][c].green == 0 && img[r][c].red == 0
  {
    var out := ShowBlueChannelOnly(img);
    if forall r, c :: 0 <= r < |img| && 0 <= c < |img[r]| ==> img[r][c].green == 0 && img[r][c].red == 0 {
      forall r | 0 <= r < |img|
        ensures out[r] == img[r]
      {
        assert |out[r]| == |img[r]|;
      }
    }
  }
}
