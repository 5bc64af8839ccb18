/** The Java frame producer: the size of the packed frame buffer, where
    getFrame puts RGB bytes, depth samples and the two camera matrices, and
    the lifecycle of its capture framebuffer and depth staging buffer. */
module VideoProducer {
  import opened Common
  import opened Wire

  const MaxInt: int := 0x7fff_ffff

  /** The `VideoProducer` parameters object of the mission XML. */
  datatype VideoParams = VideoParams(width: int, height: int, wantDepth: bool, viewpoint: int)

  /** What `parseParameters(Object params)` can be handed. */
  datatype ParamObject = Null | VideoProducerParams(params: VideoParams) | OtherObject(className: string)

  function Pixels(p: VideoParams): (n: int)
    ensures 0 <= p.width && 0 <= p.height ==> 0 <= n
  {
    p.width * p.height
  }

  /** The sizes for which no Java `int` product or sum in this file overflows. */
  predicate FitsJavaInt(p: VideoParams) {
    0 <= p.width && 0 <= p.height && 7 * Pixels(p) + 128 <= MaxInt
  }

  /** `width * height * 3 / 4`: the float index of depth sample 0. */
  function DepthFloatIndex(n: nat): nat {
    n * 3 / 4
  }

  /** The float index of model-view element 0 (`offset += width * height`). */
  function ModelViewFloatIndex(n: nat): nat {
    DepthFloatIndex(n) + n
  }

  /** The float index of projection element 0 (`offset += 16`). */
  function ProjectionFloatIndex(n: nat): nat {
    ModelViewFloatIndex(n) + 16
  }

  /** getRequiredBufferSize. With depth, every float getFrame puts lies in a
      buffer of this size, and the bytes left over past the last one are
      exactly the 3n mod 4 bytes by which the depth region starts early. */
  function RequiredBufferSize(p: VideoParams): (size: nat)
    requires FitsJavaInt(p)
    ensures size <= MaxInt
    ensures !p.wantDepth ==> size == 3 * Pixels(p)
    ensures p.wantDepth ==> size == 4 * (ProjectionFloatIndex(Pixels(p)) + 16) + 3 * Pixels(p) % 4
  {
    var nPixels := Pixels(p);
    var size := nPixels * 3;
    if p.wantDepth then size + nPixels * 4 + 2 * 16 * 4 else size
  }

  /** Depth sample 0 starts at byte 3n, right after RGB, exactly when n is a
      multiple of 4; otherwise it starts 3n mod 4 (1 to 3) bytes early. */
  lemma DepthStartVsRgbEnd(n: nat)
    ensures 4 * DepthFloatIndex(n) + 3 * n % 4 == 3 * n
    ensures 4 * DepthFloatIndex(n) == 3 * n <==> n % 4 == 0
  {
    var q, r := n / 4, n % 4;
    assert 3 * n == 4 * (3 * q) + 3 * r;
    if r == 0 {
    } else if r == 1 {
      assert 3 * n == 4 * (3 * q) + 3;
    } else if r == 2 {
      assert 3 * n == 4 * (3 * q + 1) + 2;
    } else {
      assert 3 * n == 4 * (3 * q + 2) + 1;
    }
  }

  /** Every `put` index is below the float capacity floor(size/4) of a buffer
      of the required size, whatever n is. */
  lemma PutsWithinFloatCapacity(p: VideoParams)
    requires FitsJavaInt(p) && p.wantDepth
    ensures ProjectionFloatIndex(Pixels(p)) + 15 < RequiredBufferSize(p) / 4
  {
  }

  /** What the GL calls hand back for one frame: RGB bytes and depth floats
      in `glReadPixels` order (rows bottom to top), and the two matrices
      that `glGetFloat` returns. */
  datatype GlReadback = GlReadback(rgb: seq<byte>, depth: seq<Float>, modelview: seq<Float>, projection: seq<Float>)

  predicate ReadbackFits(p: VideoParams, gl: GlReadback) {
    && |gl.rgb| == 3 * Pixels(p)
    && (p.wantDepth ==> |gl.depth| == Pixels(p) && |gl.modelview| == 16 && |gl.projection| == 16)
  }

  /** The buffer after getFrame: RGB at the front, then, with depth, the
      depth samples and the two matrices put through the float view from
      float index 3n/4 on. Bytes getFrame does not write keep their values. */
  function PackFrame(before: seq<byte>, p: VideoParams, gl: GlReadback): (after: seq<byte>)
    requires FitsJavaInt(p) && ReadbackFits(p, gl) && |before| >= RequiredBufferSize(p)
    ensures |after| == |before|
    ensures forall j {:trigger after[j]} :: RequiredBufferSize(p) <= j < |before| ==> after[j] == before[j]
  {
    var n := Pixels(p);
    var staged := gl.rgb + before[3 * n..];
    if p.wantDepth then Overlay(staged, DepthFloatIndex(n), gl.depth + gl.modelview + gl.projection)
    else staged
  }

  /** PackFrame unfolded for the two paths of getFrame. */
  lemma PackFrameUnfold(before: seq<byte>, p: VideoParams, gl: GlReadback)
    requires FitsJavaInt(p) && ReadbackFits(p, gl) && |before| >= RequiredBufferSize(p)
    ensures !p.wantDepth ==> PackFrame(before, p, gl) == gl.rgb + before[3 * Pixels(p)..]
    ensures p.wantDepth ==>
              PackFrame(before, p, gl)
              == Overlay(gl.rgb + before[3 * Pixels(p)..], DepthFloatIndex(Pixels(p)), gl.depth + gl.modelview + gl.projection)
  {
  }

  /** Without depth only the RGB region [0, 3n) is written. */
  lemma RgbFrameWritesOnlyRgbRegion(before: seq<byte>, p: VideoParams, gl: GlReadback)
    requires FitsJavaInt(p) && ReadbackFits(p, gl) && |before| >= RequiredBufferSize(p)
    requires !p.wantDepth
    ensures PackFrame(before, p, gl)[..3 * Pixels(p)] == gl.rgb
    ensures PackFrame(before, p, gl)[3 * Pixels(p)..] == before[3 * Pixels(p)..]
  {
  }

  /** Float i of depth + modelview + projection occupies the four bytes at
      4*(3n/4 + i) of the packed frame. */
  lemma PackedFloat(before: seq<byte>, p: VideoParams, gl: GlReadback, i: nat)
    requires FitsJavaInt(p) && ReadbackFits(p, gl) && |before| >= RequiredBufferSize(p)
    requires p.wantDepth && i < Pixels(p) + 32
    ensures var at := 4 * (DepthFloatIndex(Pixels(p)) + i);
      && at + 4 <= |before|
      && PackFrame(before, p, gl)[at..at + 4] == Enc((gl.depth + gl.modelview + gl.projection)[i])
  {
    var n := Pixels(p);
    OverlayFloat(gl.rgb + before[3 * n..], DepthFloatIndex(n), gl.depth + gl.modelview + gl.projection, i);
  }

  /** Where the float indexes of getFrame fall in bytes when n is a multiple
      of 4: depth sample i at 3n + 4i, model-view element k at 7n + 4k,
      projection element k at 7n + 64 + 4k, and the end of the projection at
      the required size. */
  lemma AlignedOffsets(n: nat, i: nat, k: nat)
    requires n % 4 == 0
    ensures 4 * (DepthFloatIndex(n) + i) == 3 * n + 4 * i
    ensures 4 * (ModelViewFloatIndex(n) + k) == 7 * n + 4 * k
    ensures 4 * (ProjectionFloatIndex(n) + k) == 7 * n + 64 + 4 * k
  {
    DepthStartVsRgbEnd(n);
  }

  /** Depth sample i occupies the four bytes at 4*(3n/4 + i); when n is a
      multiple of 4 that is byte 3n + 4i. */
  lemma DepthSamplePlacement(before: seq<byte>, p: VideoParams, gl: GlReadback, i: nat)
    requires FitsJavaInt(p) && ReadbackFits(p, gl) && |before| >= RequiredBufferSize(p)
    requires p.wantDepth && i < Pixels(p)
    ensures var at := 4 * (DepthFloatIndex(Pixels(p)) + i);
      && at + 4 <= |before|
      && PackFrame(before, p, gl)[at..at + 4] == Enc(gl.depth[i])
      && (Pixels(p) % 4 == 0 ==> at == 3 * Pixels(p) + 4 * i)
  {
    PackedFloat(before, p, gl, i);
    assert (gl.depth + gl.modelview + gl.projection)[i] == gl.depth[i];
    if Pixels(p) % 4 == 0 {
      AlignedOffsets(Pixels(p), i, 0);
    }
  }

  /** Element j of the float run after the depth samples (model-view, then
      projection) occupies the four bytes at 4*(3n/4 + n + j). */
  lemma MatrixFloat(before: seq<byte>, p: VideoParams, gl: GlReadback, j: nat)
    requires FitsJavaInt(p) && ReadbackFits(p, gl) && |before| >= RequiredBufferSize(p)
    requires p.wantDepth && j < 32
    ensures var at := 4 * (ModelViewFloatIndex(Pixels(p)) + j);
      && at + 4 <= |before|
      && PackFrame(before, p, gl)[at..at + 4] == Enc((gl.modelview + gl.projection)[j])
  {
    var n := Pixels(p);
    assert (gl.depth + gl.modelview + gl.projection)[n + j] == (gl.modelview + gl.projection)[j];
    PackedFloat(before, p, gl, n + j);
  }

  /** Model-view element k occupies the four bytes at 4*(3n/4 + n + k) and
      projection element k those at 4*(3n/4 + n + 16 + k). When n is a
      multiple of 4 these are bytes 7n + 4k and 7n + 64 + 4k, and the last
      byte written is the last byte of the required size. */
  lemma MatrixPlacement(before: seq<byte>, p: VideoParams, gl: GlReadback, k: nat)
    requires FitsJavaInt(p) && ReadbackFits(p, gl) && |before| >= RequiredBufferSize(p)
    requires p.wantDepth && k < 16
    ensures var mv, pj := 4 * (ModelViewFloatIndex(Pixels(p)) + k), 4 * (ProjectionFloatIndex(Pixels(p)) + k);
      && pj + 4 <= |before|
      && PackFrame(before, p, gl)[mv..mv + 4] == Enc(gl.modelview[k])
      && PackFrame(before, p, gl)[pj..pj + 4] == Enc(gl.projection[k])
      && (Pixels(p) % 4 == 0 ==>
            mv == 7 * Pixels(p) + 4 * k && pj == 7 * Pixels(p) + 64 + 4 * k
            && 4 * (ProjectionFloatIndex(Pixels(p)) + 16) == RequiredBufferSize(p))
  {
    var n := Pixels(p);
    MatrixFloat(before, p, gl, k);
    MatrixFloat(before, p, gl, 16 + k);
    assert (gl.modelview + gl.projection)[16 + k] == gl.projection[k];
    if n % 4 == 0 {
      AlignedOffsets(n, 0, k);
      AlignedOffsets(n, 0, 16);
    }
  }

  /** With depth, the RGB bytes before byte 4*(3n/4) always survive; the whole
      RGB region survives exactly when n is a multiple of 4 or the last
      3n mod 4 RGB bytes happen to equal the leading bytes of depth sample 0,
      which the depth `put` writes over them. */
  lemma RgbSurvivesIffAligned(before: seq<byte>, p: VideoParams, gl: GlReadback)
    requires FitsJavaInt(p) && ReadbackFits(p, gl) && |before| >= RequiredBufferSize(p)
    requires p.wantDepth && Pixels(p) > 0
    ensures var n, o := Pixels(p), 4 * DepthFloatIndex(Pixels(p));
      && o <= 3 * n < o + 4
      && PackFrame(before, p, gl)[..o] == gl.rgb[..o]
      && PackFrame(before, p, gl)[o..3 * n] == Enc(gl.depth[0])[..3 * n - o]
      && (PackFrame(before, p, gl)[..3 * n] == gl.rgb
          <==> n % 4 == 0 || gl.rgb[o..] == Enc(gl.depth[0])[..3 * n - o])
  {
    var n, o := Pixels(p), 4 * DepthFloatIndex(Pixels(p));
    DepthStartVsRgbEnd(n);
    var after := PackFrame(before, p, gl);
    var staged := gl.rgb + before[3 * n..];
    PackFrameUnfold(before, p, gl);
    assert after == Overlay(staged, DepthFloatIndex(n), gl.depth + gl.modelview + gl.projection);
    DepthSamplePlacement(before, p, gl, 0);
    assert after[o..o + 4] == Enc(gl.depth[0]);
    SliceOfSlice(after, o, 3 * n, o + 4);
    assert after[..o] == gl.rgb[..o] by {
      forall j | 0 <= j < o ensures after[j] == gl.rgb[j] {
        assert after[j] == staged[j];
      }
    }
    SplitPrefix(after, o, 3 * n);
    SplitPrefix(gl.rgb, o, 3 * n);
    assert gl.rgb[..3 * n] == gl.rgb;
    if after[..3 * n] == gl.rgb {
      assert gl.rgb[o..] == after[o..3 * n];
    }
  }

  /** Capturing the same readback twice leaves the buffer as after the first
      capture. */
  lemma PackFrameIdempotent(before: seq<byte>, p: VideoParams, gl: GlReadback)
    requires FitsJavaInt(p) && ReadbackFits(p, gl) && |before| >= RequiredBufferSize(p)
    ensures PackFrame(PackFrame(before, p, gl), p, gl) == PackFrame(before, p, gl)
  {
    var n := Pixels(p);
    var once := PackFrame(before, p, gl);
    if p.wantDepth {
      var payload := gl.depth + gl.modelview + gl.projection;
      var at := DepthFloatIndex(n);
      DepthStartVsRgbEnd(n);
      var s1, s2 := gl.rgb + before[3 * n..], gl.rgb + once[3 * n..];
      var twice := PackFrame(once, p, gl);
      forall j | 0 <= j < |before| ensures twice[j] == once[j] {
        if 4 * at <= j < 4 * (at + |payload|) {
          var i, k := (j - 4 * at) / 4, (j - 4 * at) % 4;
          assert j == 4 * (at + i) + k;
          OverlayAt(s1, at, payload, i, k);
          OverlayAt(s2, at, payload, i, k);
        } else if j < 3 * n {
          assert twice[j] == s2[j] == gl.rgb[j] == s1[j] == once[j];
        }
      }
    }
  }

  /** The capture framebuffer: its size, and whether it has been deleted. */
  datatype Framebuffer = Framebuffer(width: int, height: int, useDepth: bool, deleted: bool)

  /** `glReadPixels` into a buffer at position 0: the readback lands at the
      front and the rest of the buffer keeps its values. */
  method ReadPixelsInto<T>(dest: array<T>, pixels: seq<T>)
    requires |pixels| <= dest.Length
    modifies dest
    ensures dest[..] == pixels + old(dest[|pixels|..])
  {
    forall j | 0 <= j < |pixels| {
      dest[j] := pixels[j];
    }
  }

  /** One put of a loop: the floats done so far are followed by f. */
  method PutNext(floatBuffer: FloatView, offset: nat, done: seq<Float>, f: Float, ghost staged: seq<byte>)
    requires offset + |done| < floatBuffer.Capacity()
    requires 4 * (offset + |done| + 1) <= |staged| == floatBuffer.backing.Length
    requires floatBuffer.backing[..] == Overlay(staged, offset, done)
    modifies floatBuffer.backing
    ensures floatBuffer.backing[..] == Overlay(staged, offset, done + [f])
  {
    OverlayExtend(staged, offset, done, f);
    floatBuffer.Put(offset + |done|, f);
  }

  /** A matrix loop: element k of the 16 is put at float index offset + k. */
  method PutMatrix(floatBuffer: FloatView, offset: nat, matrix: seq<Float>, ghost staged: seq<byte>)
    requires |matrix| == 16
    requires offset + 16 <= floatBuffer.Capacity()
    requires 4 * (offset + 16) <= |staged| == floatBuffer.backing.Length
    requires floatBuffer.backing[..] == staged
    modifies floatBuffer.backing
    ensures floatBuffer.backing[..] == Overlay(staged, offset, matrix)
  {
    var k := 0;
    assert matrix[..0] == [];
    while k < 16
      invariant 0 <= k <= 16
      invariant floatBuffer.backing[..] == Overlay(staged, offset, matrix[..k])
    {
      assert matrix[..k] + [matrix[k]] == matrix[..k + 1];
      PutNext(floatBuffer, offset, matrix[..k], matrix[k], staged);
      k := k + 1;
    }
    assert matrix[..k] == matrix;
  }

  /** The depth loop: staging sample i is put at float index offset + i, for
      i below count, the number of pixels. */
  method PutDepthSamples(floatBuffer: FloatView, offset: nat, samples: array<Float>, count: int,
                         ghost staged: seq<byte>)
    requires count == samples.Length
    requires offset + samples.Length <= floatBuffer.Capacity()
    requires 4 * (offset + samples.Length) <= |staged| == floatBuffer.backing.Length
    requires floatBuffer.backing[..] == staged
    requires samples as object != floatBuffer.backing
    modifies floatBuffer.backing
    ensures floatBuffer.backing[..] == Overlay(staged, offset, samples[..])
  {
    var i := 0;
    assert samples[..0] == [];
    while i < count
      invariant 0 <= i <= samples.Length
      invariant floatBuffer.backing[..] == Overlay(staged, offset, samples[..i])
    {
      assert samples[..i] + [samples[i]] == samples[..i + 1];
      PutNext(floatBuffer, offset, samples[..i], samples[i], staged);
      i := i + 1;
    }
    assert samples[..i] == samples[..];
  }

  /** The two matrix loops: model-view from float index offset on, then
      projection right after it. */
  method PutMatrices(floatBuffer: FloatView, offset: nat, modelview: seq<Float>, projection: seq<Float>,
                     ghost staged: seq<byte>)
    requires |modelview| == 16 && |projection| == 16
    requires offset + 32 <= floatBuffer.Capacity()
    requires 4 * (offset + 32) <= |staged| == floatBuffer.backing.Length
    requires floatBuffer.backing[..] == staged
    modifies floatBuffer.backing
    ensures floatBuffer.backing[..] == Overlay(staged, offset, modelview + projection)
  {
    PutMatrix(floatBuffer, offset, modelview, staged);
    PutMatrix(floatBuffer, offset + 16, projection, Overlay(staged, offset, modelview));
    OverlayConcat(staged, offset, modelview, projection);
  }

  /** Everything getFrame puts through the float view: the depth samples,
      then the model-view and projection matrices, from float index offset on. */
  method PutPayload(floatBuffer: FloatView, offset: nat, samples: array<Float>,
                    modelview: seq<Float>, projection: seq<Float>, ghost staged: seq<byte>)
    requires |modelview| == 16 && |projection| == 16
    requires offset + samples.Length + 32 <= floatBuffer.Capacity()
    requires 4 * (offset + samples.Length + 32) <= |staged| == floatBuffer.backing.Length
    requires floatBuffer.backing[..] == staged
    requires samples as object != floatBuffer.backing
    modifies floatBuffer.backing
    ensures floatBuffer.backing[..] == Overlay(staged, offset, samples[..] + modelview + projection)
  {
    PutDepthSamples(floatBuffer, offset, samples, samples.Length, staged);
    PutMatrices(floatBuffer, offset + samples.Length, modelview, projection, Overlay(staged, offset, samples[..]));
    OverlayConcat(staged, offset, samples[..], modelview + projection);
    assert samples[..] + (modelview + projection) == samples[..] + modelview + projection;
  }

  class VideoProducerImplementation {
    var videoParams: Option<VideoParams>
    var fbo: Option<Framebuffer>
    var depthBuffer: array?<Float>
    /** The depth staging buffer's position and limit. */
    var depthPosition: nat
    var depthLimit: nat
    /** Capture framebuffers this producer created and has not deleted. */
    ghost var liveFramebuffers: nat

    ghost predicate Valid()
      reads this
    {
      && (fbo.Some? && !fbo.value.deleted ==> liveFramebuffers >= 1)
      && (depthBuffer != null ==> depthPosition <= depthLimit <= depthBuffer.Length)
    }

    /** Ready for getFrame: parameters parsed, the framebuffer allocated and
        not deleted, and with depth a staging buffer of n floats at position 0. */
    predicate Prepared()
      reads this
    {
      && videoParams.Some? && FitsJavaInt(videoParams.value)
      && fbo.Some? && !fbo.value.deleted
      && (videoParams.value.wantDepth ==>
            depthBuffer != null && depthBuffer.Length == Pixels(videoParams.value) && depthPosition == 0)
    }

    constructor ()
      ensures Valid()
      ensures videoParams == None && fbo == None && depthBuffer == null && liveFramebuffers == 0
    {
      videoParams, fbo, depthBuffer := None, None, null;
      depthPosition, depthLimit := 0, 0;
      liveFramebuffers := 0;
    }

    /** Accepts only a `VideoProducer` parameters object; anything else,
        null included, is refused and the stored parameters stay as they were. */
    method ParseParameters(params: ParamObject) returns (ok: bool)
      requires Valid()
      modifies this`videoParams
      ensures Valid()
      ensures ok <==> params.VideoProducerParams?
      ensures videoParams == if ok then Some(params.params) else old(videoParams)
      ensures ok ==> GetWidth() == params.params.width && GetHeight() == params.params.height
    {
      if params.Null? || !params.VideoProducerParams? {
        return false;
      }
      videoParams := Some(params.params);
      return true;
    }

    function GetWidth(): (w: int)
      reads this
      requires videoParams.Some?
      ensures w == videoParams.value.width
    {
      videoParams.value.width
    }

    function GetHeight(): (h: int)
      reads this
      requires videoParams.Some?
      ensures h == videoParams.value.height
    {
      videoParams.value.height
    }

    /** getRequiredBufferSize, in terms of getWidth and getHeight. */
    function GetRequiredBufferSize(): (size: nat)
      reads this
      requires videoParams.Some? && FitsJavaInt(videoParams.value)
      ensures size == 3 * (GetWidth() * GetHeight())
                      + (if videoParams.value.wantDepth then 4 * (GetWidth() * GetHeight()) + 128 else 0)
    {
      DepthStartVsRgbEnd(Pixels(videoParams.value));
      RequiredBufferSize(videoParams.value)
    }

    /** Allocates a framebuffer of the configured size and, with depth, a
        staging buffer of width*height floats. A framebuffer allocated by an
        earlier prepare is not deleted: it stays live. */
    method Prepare()
      requires Valid()
      requires videoParams.Some? && FitsJavaInt(videoParams.value)
      modifies this`fbo, this`depthBuffer, this`depthPosition, this`depthLimit, this`liveFramebuffers
      ensures Valid() && Prepared()
      ensures fbo == Some(Framebuffer(GetWidth(), GetHeight(), true, false))
      ensures liveFramebuffers == old(liveFramebuffers) + 1
      ensures videoParams.value.wantDepth ==>
                fresh(depthBuffer) && depthBuffer.Length == Pixels(videoParams.value)
                && depthPosition == 0 && depthLimit == depthBuffer.Length
      ensures !videoParams.value.wantDepth ==>
                depthBuffer == old(depthBuffer) && depthPosition == old(depthPosition) && depthLimit == old(depthLimit)
    {
      var p := videoParams.value;
      fbo := Some(Framebuffer(p.width, p.height, true, false));
      liveFramebuffers := liveFramebuffers + 1;
      if p.wantDepth {
        depthBuffer := new Float[p.width * p.height];
        depthPosition, depthLimit := 0, p.width * p.height;
      }
    }

    /** Deletes the framebuffer; deleting an already deleted one does nothing. */
    method Cleanup()
      requires Valid() && fbo.Some?
      modifies this`fbo, this`liveFramebuffers
      ensures Valid()
      ensures fbo == Some(old(fbo.value).(deleted := true))
      ensures liveFramebuffers == if old(fbo.value.deleted) then old(liveFramebuffers) else old(liveFramebuffers) - 1
    {
      if !fbo.value.deleted {
        liveFramebuffers := liveFramebuffers - 1;
      }
      fbo := Some(fbo.value.(deleted := true));
    }

    /** getRGBFrame: renders into the framebuffer and reads 3n RGB bytes into
        the front of the buffer. */
    method GetRGBFrame(buffer: array<byte>, rgb: seq<byte>)
      requires Prepared()
      requires |rgb| == 3 * Pixels(videoParams.value) <= buffer.Length
      modifies buffer
      ensures buffer[..] == rgb + old(buffer[|rgb|..])
    {
      ReadPixelsInto(buffer, rgb);
    }

    /** getFrame: the buffer ends up as PackFrame describes, the staging
        buffer holds this frame's depth samples and is cleared for the next. */
    method GetFrame(buffer: array<byte>, gl: GlReadback)
      requires Valid() && Prepared()
      requires ReadbackFits(videoParams.value, gl)
      requires buffer.Length >= RequiredBufferSize(videoParams.value)
      // The caller's byte buffer is never the float staging buffer.
      requires depthBuffer as object? != buffer
      modifies buffer, depthBuffer, this`depthPosition, this`depthLimit
      ensures Valid() && Prepared()
      ensures buffer[..] == PackFrame(old(buffer[..]), videoParams.value, gl)
      ensures videoParams.value.wantDepth ==>
                depthBuffer[..] == gl.depth && depthPosition == 0 && depthLimit == depthBuffer.Length
      ensures !videoParams.value.wantDepth ==>
                depthPosition == old(depthPosition) && depthLimit == old(depthLimit)
                && (depthBuffer != null ==> depthBuffer[..] == old(depthBuffer[..]))
    {
      PackFrameUnfold(buffer[..], videoParams.value, gl);
      if !videoParams.value.wantDepth {
        GetRGBFrame(buffer, gl.rgb);
      } else {
        PackDepthFrame(buffer, gl);
      }
    }

    /** The depth path of getFrame: RGB, then the depth samples and both
        matrices through the float view from float index 3n/4 on. */
    method PackDepthFrame(buffer: array<byte>, gl: GlReadback)
      requires Valid() && Prepared() && videoParams.value.wantDepth
      requires ReadbackFits(videoParams.value, gl)
      requires buffer.Length >= RequiredBufferSize(videoParams.value)
      requires depthBuffer as object? != buffer
      modifies buffer, depthBuffer, this`depthPosition, this`depthLimit
      ensures Valid() && Prepared()
      ensures buffer[..] == Overlay(gl.rgb + old(buffer[3 * Pixels(videoParams.value)..]),
                                    DepthFloatIndex(Pixels(videoParams.value)), gl.depth + gl.modelview + gl.projection)
      ensures depthBuffer[..] == gl.depth && depthPosition == 0 && depthLimit == depthBuffer.Length
    {
      var p := videoParams.value;
      var width := p.width;
      var height := p.height;
      // The blit from the display framebuffer and the binds only move pixels
      // on the GPU; what the reads return is `gl`.
      ghost var n := width * height;
      ReadPixelsInto(buffer, gl.rgb);
      ghost var staged := buffer[..];
      assert staged == gl.rgb + old(buffer[3 * n..]);
      ReadPixelsInto(depthBuffer, gl.depth);
      assert depthBuffer[..] == gl.depth;
      var floatBuffer := new FloatView(buffer);
      var offset := width * height * 3 / 4;
      assert offset == DepthFloatIndex(n);
      assert ProjectionFloatIndex(n) + 16 <= floatBuffer.Capacity();
      PutPayload(floatBuffer, offset, depthBuffer, gl.modelview, gl.projection, staged);
      // depthBuffer.clear()
      depthPosition, depthLimit := 0, depthBuffer.Length;
    }
  }

  /** A full session, parse, prepare, one frame, cleanup, leaves no capture
      framebuffer live and the buffer packed. */
  method CaptureOneFrame(params: VideoParams, buffer: array<byte>, gl: GlReadback) returns (producer: VideoProducerImplementation)
    requires FitsJavaInt(params) && ReadbackFits(params, gl)
    requires buffer.Length >= RequiredBufferSize(params)
    modifies buffer
    ensures fresh(producer)
    ensures producer.liveFramebuffers == 0 && producer.fbo.Some? && producer.fbo.value.deleted
    ensures buffer[..] == PackFrame(old(buffer[..]), params, gl)
  {
    producer := new VideoProducerImplementation();
    var ok := producer.ParseParameters(VideoProducerParams(params));
    producer.Prepare();
    producer.GetFrame(buffer, gl);
    producer.Cleanup();
  }

  /** Calling prepare twice before cleanup leaks the first framebuffer. */
  method PrepareTwiceLeaks(params: VideoParams) returns (producer: VideoProducerImplementation)
    requires FitsJavaInt(params)
    ensures fresh(producer)
    ensures producer.liveFramebuffers == 1
  {
    producer := new VideoProducerImplementation();
    var ok := producer.ParseParameters(VideoProducerParams(params));
    producer.Prepare();
    producer.Prepare();
    producer.Cleanup();
  }
}
