/** The numpy arrays the decoders build: an (H, W, C) array as nested
    sequences, indexed `img[row][col][channel]`, with row 0 at the top. */
module Images {

  type Image<T> = seq<seq<seq<T>>>

  predicate HasShape<T>(img: Image<T>, h: nat, w: nat, c: nat) {
    && |img| == h
    && (forall r :: 0 <= r < h ==> |img[r]| == w)
    && (forall r, col :: 0 <= r < h && 0 <= col < w ==> |img[r][col]| == c)
  }

  lemma MulMonotone(a: nat, b: nat, c: nat)
    requires a <= b
    ensures a * c <= b * c
  {
  }

  /** Every row-major index of an (h, w, c) array lies below h*w*c. */
  lemma RowMajorInBounds(h: nat, w: nat, c: nat, r: nat, col: nat, k: nat)
    requires r < h && col < w && k < c
    ensures (r * w + col) * c + k < h * w * c
  {
    assert r * w + col <= h * w - 1 by {
      MulMonotone(r + 1, h, w);
    }
    MulMonotone(r * w + col, h * w - 1, c);
    assert (h * w - 1) * c == h * w * c - c;
  }

  /** `flat.reshape((h, w, c))`: C order, the last axis varying fastest. */
  function Reshape<T>(flat: seq<T>, h: nat, w: nat, c: nat): (img: Image<T>)
    requires |flat| == h * w * c
    ensures HasShape(img, h, w, c)
  {
    seq(h, r requires 0 <= r < h =>
      seq(w, col requires 0 <= col < w =>
        seq(c, k requires 0 <= k < c =>
          RowMajorInBounds(h, w, c, r, col, k); flat[(r * w + col) * c + k])))
  }

  /** `img[::-1, :, :]`: the rows in reverse order. */
  function FlipRows<T>(img: seq<T>): (f: seq<T>)
    ensures |f| == |img|
    ensures forall r :: 0 <= r < |img| ==> f[r] == img[|img| - 1 - r]
  {
    seq(|img|, r requires 0 <= r < |img| => img[|img| - 1 - r])
  }

  /** Flipping the rows twice gives the image back. */
  lemma FlipRowsInvolution<T>(img: seq<T>)
    ensures FlipRows(FlipRows(img)) == img
  {
  }

  /** `np.zeros((h, w, c))` with the element type's zero. */
  function Zeros<T>(h: nat, w: nat, c: nat, zero: T): (img: Image<T>)
    ensures HasShape(img, h, w, c)
    ensures forall r, col, k :: 0 <= r < h && 0 <= col < w && 0 <= k < c ==> img[r][col][k] == zero
  {
    seq(h, r => seq(w, col => seq(c, k => zero)))
  }

  /** The pixel number, in the flat row-major input, that pixel (r, col) of
      a row-flipped (h, w) image comes from. */
  function FlippedPixel(h: nat, w: nat, r: nat, col: nat): (p: nat)
    requires r < h && col < w
    ensures p < h * w
  {
    var q := h - 1 - r;
    assert (q + 1) * w == q * w + w;
    MulMonotone(q + 1, h, w);
    q * w + col
  }

  /** Row-major reshape followed by a row flip: element (r, col, k) of the
      result is element FlippedPixel(h, w, r, col)*c + k of the flat input. */
  lemma FlippedReshapeAt<T>(flat: seq<T>, h: nat, w: nat, c: nat, r: nat, col: nat, k: nat)
    requires |flat| == h * w * c
    requires r < h && col < w && k < c
    ensures FlippedPixel(h, w, r, col) * c + k < |flat|
    ensures FlipRows(Reshape(flat, h, w, c))[r][col][k] == flat[FlippedPixel(h, w, r, col) * c + k]
  {
    RowMajorInBounds(h, w, c, h - 1 - r, col, k);
  }

  /** A flipped reshape keeps the (h, w, c) shape. */
  lemma FlippedReshapeShape<T>(flat: seq<T>, h: nat, w: nat, c: nat)
    requires |flat| == h * w * c
    ensures HasShape(FlipRows(Reshape(flat, h, w, c)), h, w, c)
  {
  }
}
