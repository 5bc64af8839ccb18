/** Bytes, 32-bit floats as opaque four-byte words, and the two views of one
    byte buffer that producer and consumer share: Java's `asFloatBuffer()`
    view, written with absolute `put`, and numpy's `frombuffer`, read at a
    byte offset. */
module Wire {
  import opened Common

  type byte = bv8

  /** A float32 kept as its four bytes, in the byte order the producer and the
      consumer share. Nothing here computes with float values. */
  datatype Float = Float(b0: byte, b1: byte, b2: byte, b3: byte)

  /** 0.0f, whose IEEE 754 encoding is four zero bytes in either byte order. */
  const ZeroFloat: Float := Float(0, 0, 0, 0)

  function Enc(f: Float): (s: seq<byte>)
    ensures |s| == 4
  {
    [f.b0, f.b1, f.b2, f.b3]
  }

  function Dec(s: seq<byte>): (f: Float)
    requires |s| == 4
    ensures Enc(f) == s
  {
    Float(s[0], s[1], s[2], s[3])
  }

  lemma DecEnc(f: Float)
    ensures Dec(Enc(f)) == f
  {
  }

  /** Floats laid out back to back, four bytes each. */
  function EncodeFloats(fs: seq<Float>): (s: seq<byte>)
    ensures |s| == 4 * |fs|
  {
    if fs == [] then [] else EncodeFloats(fs[..|fs| - 1]) + Enc(fs[|fs| - 1])
  }

  /** Byte k of float i of an encoded run is byte k of that float's encoding. */
  lemma {:induction false} EncodeFloatsAt(fs: seq<Float>, i: nat, k: nat)
    requires i < |fs| && k < 4
    ensures EncodeFloats(fs)[4 * i + k] == Enc(fs[i])[k]
  {
    var init := fs[..|fs| - 1];
    assert EncodeFloats(fs) == EncodeFloats(init) + Enc(fs[|fs| - 1]);
    if i < |init| {
      EncodeFloatsAt(init, i, k);
      assert init[i] == fs[i];
    }
  }

  /** The effect of `floatView.put(index, f)` on the bytes behind the view:
      bytes [4*index, 4*index + 4) now hold f. */
  function PutFloat(bytes: seq<byte>, index: nat, f: Float): (r: seq<byte>)
    requires 4 * index + 4 <= |bytes|
    ensures |r| == |bytes|
    ensures Dec(r[4 * index..4 * index + 4]) == f
    ensures forall j {:trigger r[j]} :: 0 <= j < |bytes| && !(4 * index <= j < 4 * index + 4) ==> r[j] == bytes[j]
  {
    bytes[..4 * index] + Enc(f) + bytes[4 * index + 4..]
  }

  /** The bytes after putting fs[0], fs[1], ... at float indices at, at+1, ... */
  function Overlay(bytes: seq<byte>, at: nat, fs: seq<Float>): (r: seq<byte>)
    requires 4 * (at + |fs|) <= |bytes|
    ensures |r| == |bytes|
    ensures forall j {:trigger r[j]} :: 0 <= j < |bytes| && !(4 * at <= j < 4 * (at + |fs|)) ==> r[j] == bytes[j]
  {
    bytes[..4 * at] + EncodeFloats(fs) + bytes[4 * (at + |fs|)..]
  }

  /** One more `put` at the next float index extends the overlay by one float. */
  lemma OverlayExtend(bytes: seq<byte>, at: nat, fs: seq<Float>, f: Float)
    requires 4 * (at + |fs| + 1) <= |bytes|
    ensures PutFloat(Overlay(bytes, at, fs), at + |fs|, f) == Overlay(bytes, at, fs + [f])
  {
    var fs' := fs + [f];
    assert fs'[..|fs'| - 1] == fs;
    assert EncodeFloats(fs') == EncodeFloats(fs) + Enc(f);
  }

  /** Byte k of float i of the overlay is byte k of fs[i]'s encoding. */
  lemma OverlayAt(bytes: seq<byte>, at: nat, fs: seq<Float>, i: nat, k: nat)
    requires 4 * (at + |fs|) <= |bytes|
    requires i < |fs| && k < 4
    ensures Overlay(bytes, at, fs)[4 * (at + i) + k] == Enc(fs[i])[k]
  {
    EncodeFloatsAt(fs, i, k);
  }

  /** Encoding distributes over concatenation. */
  lemma {:induction false} EncodeFloatsAppend(fs: seq<Float>, gs: seq<Float>)
    ensures EncodeFloats(fs + gs) == EncodeFloats(fs) + EncodeFloats(gs)
    decreases |gs|
  {
    if gs == [] {
      assert fs + gs == fs;
    } else {
      var init := gs[..|gs| - 1];
      assert (fs + gs)[..|fs + gs| - 1] == fs + init;
      EncodeFloatsAppend(fs, init);
    }
  }

  /** Putting gs right after an overlay of fs is the overlay of fs + gs. */
  lemma OverlayConcat(bytes: seq<byte>, at: nat, fs: seq<Float>, gs: seq<Float>)
    requires 4 * (at + |fs| + |gs|) <= |bytes|
    ensures Overlay(Overlay(bytes, at, fs), at + |fs|, gs) == Overlay(bytes, at, fs + gs)
  {
    var inner := Overlay(bytes, at, fs);
    var mid, end := 4 * (at + |fs|), 4 * (at + |fs| + |gs|);
    assert inner[..mid] == bytes[..4 * at] + EncodeFloats(fs);
    assert inner[end..] == bytes[end..];
    EncodeFloatsAppend(fs, gs);
  }

  /** The four bytes at byte offset 4*(at+i) of the overlay are fs[i]. */
  lemma OverlayFloat(bytes: seq<byte>, at: nat, fs: seq<Float>, i: nat)
    requires 4 * (at + |fs|) <= |bytes|
    requires i < |fs|
    ensures Overlay(bytes, at, fs)[4 * (at + i)..4 * (at + i) + 4] == Enc(fs[i])
  {
    var r := Overlay(bytes, at, fs);
    forall k | 0 <= k < 4 ensures r[4 * (at + i)..4 * (at + i) + 4][k] == Enc(fs[i])[k] {
      OverlayAt(bytes, at, fs, i, k);
    }
  }

  /** `np.frombuffer(bytes, dtype=np.float32, count=count, offset=offset)` once
      its bound checks have passed. */
  function FloatsAt(bytes: seq<byte>, offset: nat, count: nat): (fs: seq<Float>)
    requires offset + 4 * count <= |bytes|
    ensures |fs| == count
  {
    seq(count, i requires 0 <= i < count => Dec(bytes[offset + 4 * i..offset + 4 * i + 4]))
  }

  /** Float i read at a byte offset is the float whose encoding is the four
      bytes at offset + 4i. */
  lemma FloatsAtReadsBytes(bytes: seq<byte>, offset: nat, count: nat, i: nat)
    requires offset + 4 * count <= |bytes| && i < count
    ensures Enc(FloatsAt(bytes, offset, count)[i]) == bytes[offset + 4 * i..offset + 4 * i + 4]
  {
  }

  /** Reading m floats back at float index at+i yields the floats put there. */
  lemma {:induction false} FloatsAtOverlay(bytes: seq<byte>, at: nat, fs: seq<Float>, i: nat, m: nat)
    requires 4 * (at + |fs|) <= |bytes|
    requires i + m <= |fs|
    ensures FloatsAt(Overlay(bytes, at, fs), 4 * (at + i), m) == fs[i..i + m]
  {
    var r := FloatsAt(Overlay(bytes, at, fs), 4 * (at + i), m);
    forall t | 0 <= t < m ensures r[t] == fs[i + t] {
      OverlayFloat(bytes, at, fs, i + t);
      assert 4 * (at + i) + 4 * t == 4 * (at + (i + t));
    }
  }

  /** The four bytes of float i of an encoded run are that float's encoding. */
  lemma EncodedFloat(fs: seq<Float>, i: nat)
    requires i < |fs|
    ensures EncodeFloats(fs)[4 * i..4 * i + 4] == Enc(fs[i])
  {
    forall k | 0 <= k < 4 ensures EncodeFloats(fs)[4 * i..4 * i + 4][k] == Enc(fs[i])[k] {
      EncodeFloatsAt(fs, i, k);
    }
  }

  /** An encoded run read back from offset 0 is the run itself. */
  lemma FloatsAtEncoded(fs: seq<Float>)
    ensures FloatsAt(EncodeFloats(fs), 0, |fs|) == fs
  {
    var e := EncodeFloats(fs);
    var r := FloatsAt(e, 0, |fs|);
    forall i | 0 <= i < |fs| ensures r[i] == fs[i] {
      EncodedFloat(fs, i);
      assert r[i] == Dec(e[4 * i..4 * i + 4]);
      DecEnc(fs[i]);
    }
  }

  /** `np.frombuffer` of `count` items of `itemSize` bytes at `offset`: the
      error it raises, if any. */
  function FrombufferCheck(len: nat, offset: nat, count: nat, itemSize: nat): (e: Option<PyError>)
    ensures e == None <==> offset + count * itemSize <= len
  {
    if offset > len then Some(OffsetBeyondBuffer)
    else if len - offset < count * itemSize then Some(BufferSmallerThanRequested)
    else None
  }

  /** The float view that `ByteBuffer.asFloatBuffer()` returns: it shares the
      byte buffer's storage; float index k covers bytes [4k, 4k + 4). */
  class FloatView {
    const backing: array<byte>

    constructor (buffer: array<byte>)
      ensures backing == buffer
    {
      backing := buffer;
    }

    /** The view's capacity in floats: whole floats only. */
    function Capacity(): (c: nat)
      ensures 4 * c <= backing.Length < 4 * c + 4
    {
      backing.Length / 4
    }

    /** `put(index, f)`: absolute put; `index < Capacity()`, or Java throws. */
    method Put(index: nat, f: Float)
      requires index < Capacity()
      modifies backing
      ensures backing[..] == PutFloat(old(backing[..]), index, f)
    {
      var e := Enc(f);
      backing[4 * index] := e[0];
      backing[4 * index + 1] := e[1];
      backing[4 * index + 2] := e[2];
      backing[4 * index + 3] := e[3];
    }
  }
}
