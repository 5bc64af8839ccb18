/** The POV observation handler: its observation space, its text form,
    `|`, and from_hero, which cuts the producer's packed frame buffer into an
    RGB image and, with depth, a depth image and the two camera matrices. */
module Pov {
  import opened Common
  import opened Wire
  import opened Images

  /** What from_hero computes. Python returns `(rgb, depth)` with depth and
      `rgb` without; the two matrices are the locals it has read when it
      stops at its debugger breakpoint, kept here so that what it reads can
      be stated. */
  datatype PovDecoded = PovDecoded(
    rgb: Image<byte>,
    depth: Option<Image<Float>>,
    modelview: Option<seq<Float>>,
    projection: Option<seq<Float>>)

  const DepthFlag: string := ", include_depth=True"

  /** `POVObservation(video_resolution, include_depth)`; video_resolution is
      (width, height). */
  datatype PovObservation = PovObservation(videoResolution: (nat, nat), includeDepth: bool) {

    function VideoWidth(): nat { videoResolution.0 }

    function VideoHeight(): nat { videoResolution.1 }

    function Pixels(): nat { VideoHeight() * VideoWidth() }

    /** The space built in __init__: shapes are the resolution reversed,
        (height, width), plus the channel count. */
    function ObservationSpace(): (s: Space)
      ensures !includeDepth ==> s == Box(0.0, 255.0, [VideoHeight(), VideoWidth(), 3], UInt8)
      ensures includeDepth ==> s == TupleSpace([Box(0.0, 255.0, [VideoHeight(), VideoWidth(), 3], UInt8),
                                               Box(0.0, 1.0, [VideoHeight(), VideoWidth(), 1], Float32)])
    {
      var hw := Reversed([videoResolution.0, videoResolution.1]);
      assert hw + [3] == [VideoHeight(), VideoWidth(), 3] && hw + [1] == [VideoHeight(), VideoWidth(), 1] by {
        assert |hw| == 2 && hw[0] == videoResolution.1 && hw[1] == videoResolution.0;
      }
      if includeDepth then
        TupleSpace([Box(0.0, 255.0, hw + [3], UInt8), Box(0.0, 1.0, hw + [1], Float32)])
      else
        Box(0.0, 255.0, hw + [3], UInt8)
    }

    /** to_string: the handler's key, a non-empty name with no ':' in it, so
        it is exactly what follows the last ':' of the repr. */
    function ToString(): (s: string)
      ensures |s| > 0 && ':' !in s
    {
      "pov"
    }

    function Repr(): (s: string)
      ensures EndsWith(s, ":pov")
      ensures EndsWith(s, ":" + ToString())
    {
      var head := "POVObservation(video_resolution=" + ResolutionRepr(videoResolution);
      var flagged := if includeDepth then head + DepthFlag else head;
      var closed := flagged + ")";
      closed + ":" + ToString()
    }

    /** from_hero as written. Each `np.frombuffer` raises when the buffer is
        too short for its offset and count; an empty RGB array (only when
        width*height is 0) falls back to zeros; otherwise rows are reshaped
        row-major and flipped. */
    function FromHero(bytes: seq<byte>): (r: Result<PovDecoded, PyError>)
      ensures r.Ok? <==> |bytes| >= (if includeDepth then 7 * Pixels() + 80 else 3 * Pixels())
      ensures r.Ok? ==> && HasShape(r.value.rgb, VideoHeight(), VideoWidth(), 3)
                        && (r.value.depth.Some? <==> includeDepth)
                        && (includeDepth ==> HasShape(r.value.depth.value, VideoHeight(), VideoWidth(), 1))
    {
      var n := Pixels();
      var rgbError := FrombufferCheck(|bytes|, 0, n * 3, 1);
      var depthError := if includeDepth then FrombufferCheck(|bytes|, n * 3, n, 4) else None;
      if rgbError.Some? then Err(rgbError.value)
      else if depthError.Some? then Err(depthError.value)
      else
        var rgbFlat := bytes[..n * 3];
        var depthFlat := if includeDepth then FloatsAt(bytes, n * 3, n) else [];
        var rgb := if |rgbFlat| == 0 then Zeros(VideoHeight(), VideoWidth(), 3, 0 as byte)
                   else FlipRows(Reshape(rgbFlat, VideoHeight(), VideoWidth(), 3));
        if !includeDepth then Ok(PovDecoded(rgb, None, None, None))
        else
          var depth := if |rgbFlat| == 0 then Zeros(VideoHeight(), VideoWidth(), 1, ZeroFloat)
                       else FlipRows(Reshape(depthFlat, VideoHeight(), VideoWidth(), 1));
          var modelviewError := FrombufferCheck(|bytes|, n * 7, 16, 4);
          var projectionError := FrombufferCheck(|bytes|, n * 7 + 16, 16, 4);
          if modelviewError.Some? then Err(modelviewError.value)
          else if projectionError.Some? then Err(projectionError.value)
          else Ok(PovDecoded(rgb, Some(depth), Some(FloatsAt(bytes, n * 7, 16)), Some(FloatsAt(bytes, n * 7 + 16, 16))))
    }

    /** from_hero as evidently intended: an empty buffer gives zero images
        before any slicing, and the projection matrix is read at byte offset
        7n + 64, right after the sixteen model-view floats. */
    function FromHeroIntended(bytes: seq<byte>): (r: Result<PovDecoded, PyError>)
      ensures r.Ok? <==> |bytes| == 0 || |bytes| >= (if includeDepth then 7 * Pixels() + 128 else 3 * Pixels())
      ensures r.Ok? ==> && HasShape(r.value.rgb, VideoHeight(), VideoWidth(), 3)
                        && (r.value.depth.Some? <==> includeDepth)
                        && (includeDepth ==> HasShape(r.value.depth.value, VideoHeight(), VideoWidth(), 1))
    {
      var n := Pixels();
      if |bytes| == 0 then
        var rgb := Zeros(VideoHeight(), VideoWidth(), 3, 0 as byte);
        var depth := if includeDepth then Some(Zeros(VideoHeight(), VideoWidth(), 1, ZeroFloat)) else None;
        Ok(PovDecoded(rgb, depth, None, None))
      else
        var rgbError := FrombufferCheck(|bytes|, 0, n * 3, 1);
        var depthError := if includeDepth then FrombufferCheck(|bytes|, n * 3, n, 4) else None;
        if rgbError.Some? then Err(rgbError.value)
        else if depthError.Some? then Err(depthError.value)
        else
          var rgbFlat := bytes[..n * 3];
          var depthFlat := if includeDepth then FloatsAt(bytes, n * 3, n) else [];
          var rgb := if |rgbFlat| == 0 then Zeros(VideoHeight(), VideoWidth(), 3, 0 as byte)
                     else FlipRows(Reshape(rgbFlat, VideoHeight(), VideoWidth(), 3));
          if !includeDepth then Ok(PovDecoded(rgb, None, None, None))
          else
            var depth := if |rgbFlat| == 0 then Zeros(VideoHeight(), VideoWidth(), 1, ZeroFloat)
                         else FlipRows(Reshape(depthFlat, VideoHeight(), VideoWidth(), 1));
            var modelviewError := FrombufferCheck(|bytes|, n * 7, 16, 4);
            var projectionError := FrombufferCheck(|bytes|, n * 7 + 64, 16, 4);
            if modelviewError.Some? then Err(modelviewError.value)
            else if projectionError.Some? then Err(projectionError.value)
            else Ok(PovDecoded(rgb, Some(depth), Some(FloatsAt(bytes, n * 7, 16)), Some(FloatsAt(bytes, n * 7 + 64, 16))))
    }

    /** `self | other`: a POV observation of the same configuration when other
        is one with equal include_depth and video_resolution, else ValueError. */
    function Merge(other: Peer<PovObservation>): (r: Result<PovObservation, PyError>)
      ensures r.Ok? <==> other.SameClass? && other.config.includeDepth == includeDepth
                         && other.config.videoResolution == videoResolution
      ensures r.Ok? ==> r.value == this
      ensures r.Err? ==> r.error == IncompatibleObservables
    {
      if other.SameClass? && includeDepth == other.config.includeDepth
         && videoResolution == other.config.videoResolution
      then Ok(PovObservation(videoResolution, includeDepth))
      else Err(IncompatibleObservables)
    }
  }

  /** `, include_depth=True` appears in the repr exactly when depth is included. */
  lemma ReprMentionsDepthIffIncluded(o: PovObservation)
    ensures Contains(o.Repr(), DepthFlag) <==> o.includeDepth
  {
    var head := "POVObservation(video_resolution=" + ResolutionRepr(o.videoResolution);
    var s := o.Repr();
    if o.includeDepth {
      assert s == head + DepthFlag + ")" + ":pov";
      assert s[|head|..|head| + |DepthFlag|] == DepthFlag;
      assert OccursAt(s, DepthFlag, |head|);
    } else {
      assert s == head + ")" + ":pov";
      assert DepthFlag[14] == 'h';
      NotContainsByMissingChar(s, DepthFlag, 14);
    }
  }

  /** Two POV observations with the same repr have the same configuration. */
  lemma ReprInjective(a: PovObservation, b: PovObservation)
    requires a.Repr() == b.Repr()
    ensures a == b
  {
    ReprMentionsDepthIffIncluded(a);
    ReprMentionsDepthIffIncluded(b);
    var prefix := "POVObservation(video_resolution=";
    var tail := (if a.includeDepth then DepthFlag else "") + ")" + ":pov";
    var ra, rb := ResolutionRepr(a.videoResolution), ResolutionRepr(b.videoResolution);
    assert a.Repr() == prefix + ra + tail;
    assert b.Repr() == prefix + rb + tail;
    MiddleOf(prefix, ra, tail);
    MiddleOf(prefix, rb, tail);
    ResolutionReprInjective(a.videoResolution, b.videoResolution);
  }

  /** `a | b` succeeds exactly when `b | a` does, with the same result. */
  lemma MergeSymmetric(a: PovObservation, b: PovObservation)
    ensures a.Merge(SameClass(b)) == b.Merge(SameClass(a))
  {
  }

  /** The decoded images have the shapes the observation space declares. */
  lemma FromHeroConformsToSpace(o: PovObservation, bytes: seq<byte>)
    requires o.FromHero(bytes).Ok?
    ensures var d, s := o.FromHero(bytes).value, o.ObservationSpace();
      && (!o.includeDepth ==> HasShape(d.rgb, s.shape[0], s.shape[1], s.shape[2]))
      && (o.includeDepth ==>
            && HasShape(d.rgb, s.parts[0].shape[0], s.parts[0].shape[1], s.parts[0].shape[2])
            && d.depth.Some?
            && HasShape(d.depth.value, s.parts[1].shape[0], s.parts[1].shape[1], s.parts[1].shape[2]))
  {
    var h, w, n := o.VideoHeight(), o.VideoWidth(), o.Pixels();
    if n > 0 {
      FlippedReshapeShape(bytes[..n * 3], h, w, 3);
      if o.includeDepth {
        FlippedReshapeShape(FloatsAt(bytes, n * 3, n), h, w, 1);
      }
    }
  }

  /** For width*height = n > 0, a buffer that decodes is read as n*3 RGB bytes
      at offset 0 and, with depth, n floats at byte 3n and two runs of 16
      floats at bytes 7n and 7n + 16. */
  lemma FromHeroReads(o: PovObservation, bytes: seq<byte>)
    requires o.FromHero(bytes).Ok? && o.Pixels() > 0
    ensures var n, h, w := o.Pixels(), o.VideoHeight(), o.VideoWidth();
      && |bytes| >= 3 * n
      && o.FromHero(bytes).value.rgb == FlipRows(Reshape(bytes[..3 * n], h, w, 3))
      && (o.includeDepth ==>
            && |bytes| >= 7 * n + 80
            && o.FromHero(bytes).value
               == PovDecoded(FlipRows(Reshape(bytes[..3 * n], h, w, 3)),
                             Some(FlipRows(Reshape(FloatsAt(bytes, 3 * n, n), h, w, 1))),
                             Some(FloatsAt(bytes, 7 * n, 16)),
                             Some(FloatsAt(bytes, 7 * n + 16, 16))))
      && (!o.includeDepth ==> o.FromHero(bytes).value.depth.None?)
  {
  }

  /** The intended decoder reads a non-empty buffer the same way, except that
      the projection matrix is the 16 floats at byte 7n + 64. */
  lemma FromHeroIntendedReads(o: PovObservation, bytes: seq<byte>)
    requires o.FromHeroIntended(bytes).Ok? && o.Pixels() > 0 && |bytes| > 0
    ensures var n, h, w := o.Pixels(), o.VideoHeight(), o.VideoWidth();
      && |bytes| >= 3 * n
      && o.FromHeroIntended(bytes).value.rgb == FlipRows(Reshape(bytes[..3 * n], h, w, 3))
      && (o.includeDepth ==>
            && |bytes| >= 7 * n + 128
            && o.FromHeroIntended(bytes).value
               == PovDecoded(FlipRows(Reshape(bytes[..3 * n], h, w, 3)),
                             Some(FlipRows(Reshape(FloatsAt(bytes, 3 * n, n), h, w, 1))),
                             Some(FloatsAt(bytes, 7 * n, 16)),
                             Some(FloatsAt(bytes, 7 * n + 64, 16))))
      && (!o.includeDepth ==> o.FromHeroIntended(bytes).value.depth.None?)
  {
  }

  /** On a buffer both decoders accept, with width*height > 0, they agree on
      everything but the projection matrix. */
  lemma DecodersDifferOnlyInProjection(o: PovObservation, bytes: seq<byte>)
    requires o.FromHero(bytes).Ok? && o.FromHeroIntended(bytes).Ok? && o.Pixels() > 0
    ensures o.FromHeroIntended(bytes).value.rgb == o.FromHero(bytes).value.rgb
    ensures o.FromHeroIntended(bytes).value.depth == o.FromHero(bytes).value.depth
    ensures o.FromHeroIntended(bytes).value.modelview == o.FromHero(bytes).value.modelview
  {
    FromHeroReads(o, bytes);
    FromHeroIntendedReads(o, bytes);
  }

  /** For a buffer long enough to decode, with width*height > 0: pixel
      (r, c) channel ch of the RGB image is byte 3p + ch of the buffer, p
      being pixel (H-1-r)*W + c of the bottom-to-top readback. */
  lemma FromHeroRgbPixel(o: PovObservation, bytes: seq<byte>, r: nat, c: nat, ch: nat)
    requires o.FromHero(bytes).Ok? && o.Pixels() > 0
    requires r < o.VideoHeight() && c < o.VideoWidth() && ch < 3
    ensures var p := FlippedPixel(o.VideoHeight(), o.VideoWidth(), r, c);
      && p * 3 + ch < |bytes|
      && o.FromHero(bytes).value.rgb[r][c][ch] == bytes[p * 3 + ch]
  {
    var h, w, n := o.VideoHeight(), o.VideoWidth(), o.Pixels();
    FromHeroReads(o, bytes);
    FlippedReshapeAt(bytes[..3 * n], h, w, 3, r, c, ch);
  }

  /** Pixel (r, c) of the flipped (h, w, 1) image of the n floats at byte
      offset is float number p of the run, p = FlippedPixel(h, w, r, c). */
  lemma FloatRunPixel(bytes: seq<byte>, offset: nat, h: nat, w: nat, r: nat, c: nat)
    requires offset + 4 * (h * w) <= |bytes| && r < h && c < w
    ensures var p := FlippedPixel(h, w, r, c);
      && offset + 4 * p + 4 <= |bytes|
      && FlipRows(Reshape(FloatsAt(bytes, offset, h * w), h, w, 1))[r][c][0]
         == Dec(bytes[offset + 4 * p..offset + 4 * p + 4])
  {
    var flat := FloatsAt(bytes, offset, h * w);
    var p := FlippedPixel(h, w, r, c);
    FlippedReshapeAt(flat, h, w, 1, r, c, 0);
    assert p * 1 + 0 == p;
  }

  /** With depth, the depth of pixel (r, c) is float number p of the run that
      starts at byte 3n, p being pixel (H-1-r)*W + c of the readback. */
  lemma FromHeroDepthPixel(o: PovObservation, bytes: seq<byte>, r: nat, c: nat)
    requires o.FromHero(bytes).Ok? && o.Pixels() > 0 && o.includeDepth
    requires r < o.VideoHeight() && c < o.VideoWidth()
    ensures var p, n := FlippedPixel(o.VideoHeight(), o.VideoWidth(), r, c), o.Pixels();
      && 3 * n + 4 * p + 4 <= |bytes|
      && o.FromHero(bytes).value.depth.Some?
      && o.FromHero(bytes).value.depth.value[r][c][0] == Dec(bytes[3 * n + 4 * p..3 * n + 4 * p + 4])
  {
    FromHeroReads(o, bytes);
    FloatRunPixel(bytes, 3 * o.Pixels(), o.VideoHeight(), o.VideoWidth(), r, c);
  }

  /** As written, a buffer with no bytes is refused by the first
      `np.frombuffer` whenever width*height > 0: the zero fallback is never
      reached. */
  lemma FromHeroRefusesEmptyBuffer(o: PovObservation)
    requires o.Pixels() > 0
    ensures o.FromHero([]) == Err(BufferSmallerThanRequested)
  {
  }

  /** As intended, an empty buffer decodes to zero images of the declared shape. */
  lemma FromHeroIntendedEmptyBufferIsZeros(o: PovObservation)
    ensures var d := o.FromHeroIntended([]);
      && d.Ok?
      && d.value.rgb == Zeros(o.VideoHeight(), o.VideoWidth(), 3, 0 as byte)
      && (o.includeDepth <==> d.value.depth.Some?)
      && (o.includeDepth ==> d.value.depth.value == Zeros(o.VideoHeight(), o.VideoWidth(), 1, ZeroFloat))
  {
  }
}
