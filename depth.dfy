/** The depth observation handler: its observation space, its text form,
    `|`, and from_hero, which reads the whole buffer as float32 values and
    turns them into an (H, W, 1) depth image with row 0 at the top. */
module Depth {
  import opened Common
  import opened Wire
  import opened Images

  /** `DepthObservation(video_resolution)`; video_resolution is (width, height). */
  datatype DepthObservation = DepthObservation(videoResolution: (nat, nat)) {

    function VideoWidth(): nat { videoResolution.0 }

    function VideoHeight(): nat { videoResolution.1 }

    /** The space built in __init__: shape (height, width, 1), float32. */
    function ObservationSpace(): (s: Space)
      ensures s == Box(0.0, 255.0, [VideoHeight(), VideoWidth(), 1], Float32)
    {
      var hw := Reversed([videoResolution.0, videoResolution.1]);
      assert hw + [1] == [VideoHeight(), VideoWidth(), 1] by {
        assert |hw| == 2 && hw[0] == videoResolution.1 && hw[1] == videoResolution.0;
      }
      Box(0.0, 255.0, hw + [1], Float32)
    }

    /** to_string: the handler's key, a non-empty name with no ':' in it, so
        it is exactly what follows the last ':' of the repr. */
    function ToString(): (s: string)
      ensures |s| > 0 && ':' !in s
    {
      "depth"
    }

    function Repr(): (s: string)
      ensures EndsWith(s, ":depth")
      ensures EndsWith(s, ":" + ToString())
    {
      var closed := "DepthObservation(video_resolution=" + ResolutionRepr(videoResolution) + ")";
      closed + ":" + ToString()
    }

    /** from_hero: `np.frombuffer(byte_array, dtype=np.float32)` reads the
        whole buffer, which must be a multiple of 4 bytes long; no floats
        give zeros; otherwise exactly H*W floats are reshaped row-major and
        their rows flipped, and any other count is a reshape error. */
    function FromHero(bytes: seq<byte>): (r: Result<Image<Float>, PyError>)
      ensures r.Ok? <==> |bytes| % 4 == 0 && (|bytes| == 0 || |bytes| == 4 * (VideoHeight() * VideoWidth()))
      ensures r.Ok? ==> HasShape(r.value, VideoHeight(), VideoWidth(), 1)
    {
      if |bytes| % 4 != 0 then Err(SizeNotMultipleOfItem)
      else
        var depth := FloatsAt(bytes, 0, |bytes| / 4);
        if |depth| == 0 then Ok(Zeros(VideoHeight(), VideoWidth(), 1, ZeroFloat))
        else if |depth| != VideoHeight() * VideoWidth() * 1 then Err(CannotReshape)
        else Ok(FlipRows(Reshape(depth, VideoHeight(), VideoWidth(), 1)))
    }

    /** `self | other`: a depth observation of the same resolution when other
        is one with an equal video_resolution, else ValueError. */
    function Merge(other: Peer<DepthObservation>): (r: Result<DepthObservation, PyError>)
      ensures r.Ok? <==> other.SameClass? && other.config.videoResolution == videoResolution
      ensures r.Ok? ==> r.value == this
      ensures r.Err? ==> r.error == IncompatibleObservables
    {
      if other.SameClass? && videoResolution == other.config.videoResolution
      then Ok(DepthObservation(videoResolution))
      else Err(IncompatibleObservables)
    }
  }

  /** Two depth observations with the same repr have the same resolution. */
  lemma ReprInjective(a: DepthObservation, b: DepthObservation)
    requires a.Repr() == b.Repr()
    ensures a == b
  {
    var prefix, tail := "DepthObservation(video_resolution=", ")" + ":depth";
    var ra, rb := ResolutionRepr(a.videoResolution), ResolutionRepr(b.videoResolution);
    assert a.Repr() == prefix + ra + tail && b.Repr() == prefix + rb + tail;
    MiddleOf(prefix, ra, tail);
    MiddleOf(prefix, rb, tail);
    ResolutionReprInjective(a.videoResolution, b.videoResolution);
  }

  /** For a non-empty buffer that decodes, the depth at pixel (r, c) is float
      number p of the buffer, p being pixel (H-1-r)*W + c of the readback. */
  lemma FromHeroPixelMap(o: DepthObservation, bytes: seq<byte>, r: nat, c: nat)
    requires o.FromHero(bytes).Ok? && |bytes| > 0
    requires r < o.VideoHeight() && c < o.VideoWidth()
    ensures var p := FlippedPixel(o.VideoHeight(), o.VideoWidth(), r, c);
      && 4 * p + 4 <= |bytes|
      && o.FromHero(bytes).value[r][c][0] == Dec(bytes[4 * p..4 * p + 4])
  {
    var h, w := o.VideoHeight(), o.VideoWidth();
    var depth := FloatsAt(bytes, 0, |bytes| / 4);
    assert o.FromHero(bytes).value == FlipRows(Reshape(depth, h, w, 1));
    var p := FlippedPixel(h, w, r, c);
    FlippedReshapeAt(depth, h, w, 1, r, c, 0);
    assert p * 1 + 0 == p;
  }

  /** A run of H*W encoded floats decodes to those floats, reshaped and
      flipped: from_hero inverts laying the floats out back to back. */
  lemma FromHeroOfEncoded(o: DepthObservation, fs: seq<Float>)
    requires |fs| == o.VideoHeight() * o.VideoWidth() > 0
    ensures o.FromHero(EncodeFloats(fs)) == Ok(FlipRows(Reshape(fs, o.VideoHeight(), o.VideoWidth(), 1)))
  {
    FloatsAtEncoded(fs);
    assert |EncodeFloats(fs)| / 4 == |fs|;
  }

  /** An empty buffer reads as no floats and decodes to an all-zero
      (H, W, 1) image. */
  lemma FromHeroEmptyBufferIsZeros(o: DepthObservation)
    ensures o.FromHero([]) == Ok(Zeros(o.VideoHeight(), o.VideoWidth(), 1, ZeroFloat))
  {
  }

  /** `a | b` succeeds exactly when `b | a` does, with the same result. */
  lemma MergeSymmetric(a: DepthObservation, b: DepthObservation)
    ensures a.Merge(SameClass(b)) == b.Merge(SameClass(a))
  {
  }
}
