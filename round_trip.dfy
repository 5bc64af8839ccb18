/** The producer's packed frame buffer read back by the POV handler: what
    from_hero recovers from a buffer that getFrame has filled. */
module RoundTrip {
  import opened Common
  import opened Wire
  import opened Images
  import opened VideoProducer
  import opened Pov

  /** The POV handler configured for the producer's parameters. */
  function HandlerFor(p: VideoParams): (o: PovObservation)
    requires FitsJavaInt(p)
    ensures o.Pixels() == Pixels(p) && o.includeDepth == p.wantDepth
  {
    PovObservation((p.width, p.height), p.wantDepth)
  }

  /** The images from_hero should give for a readback: the rows that
      glReadPixels returns bottom to top, reshaped and flipped to top to bottom. */
  function ExpectedRgb(p: VideoParams, gl: GlReadback): Image<byte>
    requires FitsJavaInt(p) && ReadbackFits(p, gl)
  {
    FlipRows(Reshape(gl.rgb, p.height, p.width, 3))
  }

  function ExpectedDepth(p: VideoParams, gl: GlReadback): Image<Float>
    requires FitsJavaInt(p) && ReadbackFits(p, gl) && p.wantDepth
  {
    FlipRows(Reshape(gl.depth, p.height, p.width, 1))
  }

  /** Reading back the middle part of an overlay of pre + run + post, at the
      byte offset where run was put, gives run. */
  lemma RunAt(staged: seq<byte>, at: nat, pre: seq<Float>, run: seq<Float>, post: seq<Float>, off: nat)
    requires 4 * (at + |pre| + |run| + |post|) <= |staged| && off == 4 * (at + |pre|)
    ensures off + 4 * |run| <= |staged|
    ensures FloatsAt(Overlay(staged, at, pre + run + post), off, |run|) == run
  {
    var payload := pre + run + post;
    FloatsAtOverlay(staged, at, payload, |pre|, |run|);
    assert payload[|pre|..|pre| + |run|] == run;
  }

  /** The runs of an overlay of depth + modelview + projection that starts at
      byte 3n, read back at the byte offsets 3n, 7n, 7n + 16 and 7n + 64. */
  lemma PayloadRuns(staged: seq<byte>, at: nat, n: nat, depth: seq<Float>, modelview: seq<Float>, projection: seq<Float>)
    requires 4 * at == 3 * n && |depth| == n && |modelview| == 16 && |projection| == 16
    requires 4 * (at + n + 32) <= |staged|
    ensures var b := Overlay(staged, at, depth + modelview + projection);
      && FloatsAt(b, 3 * n, n) == depth
      && FloatsAt(b, 7 * n, 16) == modelview
      && FloatsAt(b, 7 * n + 16, 16) == modelview[4..] + projection[..4]
      && FloatsAt(b, 7 * n + 64, 16) == projection
  {
    var payload := depth + modelview + projection;
    assert [] + depth + (modelview + projection) == payload;
    RunAt(staged, at, [], depth, modelview + projection, 3 * n);
    RunAt(staged, at, depth, modelview, projection, 7 * n);
    assert (depth + modelview[..4]) + (modelview[4..] + projection[..4]) + projection[4..] == payload;
    RunAt(staged, at, depth + modelview[..4], modelview[4..] + projection[..4], projection[4..], 7 * n + 16);
    assert (depth + modelview) + projection + [] == payload;
    RunAt(staged, at, depth + modelview, projection, [], 7 * n + 64);
  }

  /** The four float runs of a depth frame of n pixels, n a multiple of 4. */
  lemma DepthFrameRuns(before: seq<byte>, p: VideoParams, gl: GlReadback)
    requires FitsJavaInt(p) && ReadbackFits(p, gl) && |before| >= RequiredBufferSize(p)
    requires p.wantDepth && Pixels(p) > 0 && Pixels(p) % 4 == 0
    ensures var b, n := PackFrame(before, p, gl), Pixels(p);
      && |b| >= 7 * n + 128
      && b[..3 * n] == gl.rgb
      && FloatsAt(b, 3 * n, n) == gl.depth
      && FloatsAt(b, 7 * n, 16) == gl.modelview
      && FloatsAt(b, 7 * n + 16, 16) == gl.modelview[4..] + gl.projection[..4]
      && FloatsAt(b, 7 * n + 64, 16) == gl.projection
  {
    var n, b := Pixels(p), PackFrame(before, p, gl);
    var staged := gl.rgb + before[3 * n..];
    DepthStartVsRgbEnd(n);
    assert b == Overlay(staged, DepthFloatIndex(n), gl.depth + gl.modelview + gl.projection);
    RgbSurvivesIffAligned(before, p, gl);
    assert b[..3 * n] == gl.rgb;
    PayloadRuns(staged, DepthFloatIndex(n), n, gl.depth, gl.modelview, gl.projection);
  }

  /** Depth frames, n a multiple of 4, buffer of at least the required size: the
      intended decoder gives back the RGB image, the depth image and both
      matrices exactly. */
  lemma DepthFrameRoundTrip(before: seq<byte>, p: VideoParams, gl: GlReadback)
    requires FitsJavaInt(p) && ReadbackFits(p, gl) && |before| >= RequiredBufferSize(p)
    requires p.wantDepth && Pixels(p) > 0 && Pixels(p) % 4 == 0
    ensures HandlerFor(p).FromHeroIntended(PackFrame(before, p, gl))
         == Ok(PovDecoded(ExpectedRgb(p, gl), Some(ExpectedDepth(p, gl)), Some(gl.modelview), Some(gl.projection)))
  {
    var o, b := HandlerFor(p), PackFrame(before, p, gl);
    assert o.VideoHeight() == p.height && o.VideoWidth() == p.width && o.includeDepth;
    DepthFrameRuns(before, p, gl);
    FromHeroIntendedReads(o, b);
  }

  /** The same frame through from_hero as written: RGB, depth and the
      model-view matrix come back, but the "projection" it reads at byte
      7n + 16 is model-view elements 4..15 followed by projection elements
      0..3; it equals the projection matrix only when those happen to match. */
  lemma DepthFrameAsWritten(before: seq<byte>, p: VideoParams, gl: GlReadback)
    requires FitsJavaInt(p) && ReadbackFits(p, gl) && |before| >= RequiredBufferSize(p)
    requires p.wantDepth && Pixels(p) > 0 && Pixels(p) % 4 == 0
    ensures HandlerFor(p).FromHero(PackFrame(before, p, gl))
         == Ok(PovDecoded(ExpectedRgb(p, gl), Some(ExpectedDepth(p, gl)), Some(gl.modelview),
                          Some(gl.modelview[4..] + gl.projection[..4])))
    ensures HandlerFor(p).FromHero(PackFrame(before, p, gl)).value.projection == Some(gl.projection)
        <==> gl.modelview[4..] + gl.projection[..4] == gl.projection
  {
    var o, b := HandlerFor(p), PackFrame(before, p, gl);
    assert o.VideoHeight() == p.height && o.VideoWidth() == p.width && o.includeDepth;
    DepthFrameRuns(before, p, gl);
    FromHeroReads(o, b);
    assert o.FromHero(b).value.projection == Some(gl.modelview[4..] + gl.projection[..4]);
  }

  /** A 2x2 depth frame whose model-view is all zeros and whose projection is
      all 1.0f: from_hero as written reports a projection that starts with
      twelve zeros. */
  lemma ProjectionMisreadExample()
    ensures var p := VideoParams(2, 2, true, 0);
      var one := Float(0x00, 0x00, 0x80, 0x3f);
      var gl := GlReadback(seq(12, _ => 0), seq(4, _ => ZeroFloat), seq(16, _ => ZeroFloat), seq(16, _ => one));
      && FitsJavaInt(p) && ReadbackFits(p, gl)
      && var decoded := HandlerFor(p).FromHero(PackFrame(seq(156, _ => 0), p, gl));
      && decoded.Ok? && decoded.value.projection.Some?
      && decoded.value.projection.value[0] == ZeroFloat
      && decoded.value.projection.value != gl.projection
  {
    var p := VideoParams(2, 2, true, 0);
    var one := Float(0x00, 0x00, 0x80, 0x3f);
    var gl := GlReadback(seq(12, _ => 0), seq(4, _ => ZeroFloat), seq(16, _ => ZeroFloat), seq(16, _ => one));
    assert RequiredBufferSize(p) == 156;
    DepthFrameAsWritten(seq(156, _ => 0), p, gl);
    assert (gl.modelview[4..] + gl.projection[..4])[0] == ZeroFloat != gl.projection[0];
  }

  /** Frames without depth: both decoders give back the RGB image from any
      buffer of at least the required size. */
  lemma RgbFrameRoundTrip(before: seq<byte>, p: VideoParams, gl: GlReadback)
    requires FitsJavaInt(p) && ReadbackFits(p, gl) && |before| >= RequiredBufferSize(p)
    requires !p.wantDepth && Pixels(p) > 0
    ensures HandlerFor(p).FromHero(PackFrame(before, p, gl)) == Ok(PovDecoded(ExpectedRgb(p, gl), None, None, None))
    ensures HandlerFor(p).FromHeroIntended(PackFrame(before, p, gl)) == Ok(PovDecoded(ExpectedRgb(p, gl), None, None, None))
  {
    RgbFrameWritesOnlyRgbRegion(before, p, gl);
  }

  /** When glReadPixels returns the rows of a top-down image bottom to top,
      the decoded RGB image is that image. */
  lemma DecodedImageIsTopDown(p: VideoParams, gl: GlReadback, img: Image<byte>)
    requires FitsJavaInt(p) && ReadbackFits(p, gl)
    requires Reshape(gl.rgb, p.height, p.width, 3) == FlipRows(img)
    ensures ExpectedRgb(p, gl) == img
  {
    FlipRowsInvolution(img);
  }
}
