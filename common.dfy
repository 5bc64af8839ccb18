/** Shared vocabulary of the decoders: results, Python errors, observation
    spaces and the text that Python's `repr` prints for a resolution tuple. */
module Common {

  datatype Option<+T> = None | Some(value: T)

  datatype Result<+T, +E> = Ok(value: T) | Err(error: E)

  /** The `ValueError`s the decoders and the `|` combinator can raise. */
  datatype PyError =
    | OffsetBeyondBuffer          // np.frombuffer: offset larger than the buffer
    | BufferSmallerThanRequested  // np.frombuffer: fewer bytes left than count items need
    | SizeNotMultipleOfItem       // np.frombuffer without count: length not a multiple of the item size
    | CannotReshape               // ndarray.reshape to a shape with another element count
    | IncompatibleObservables     // __or__ of two handlers that do not match

  /** The right operand of `a | b`: an instance of the same handler class,
      carrying its configuration, or an instance of any other class. */
  datatype Peer<+T> = SameClass(config: T) | OtherClass(className: string)

  datatype DType = UInt8 | Float32

  /** A gym-style observation space: a box of the given shape, or a tuple of spaces. */
  datatype Space = Box(low: real, high: real, shape: seq<nat>, dtype: DType) | TupleSpace(parts: seq<Space>)

  /** Python's `list(xs)[::-1]`. */
  function Reversed<T>(xs: seq<T>): (r: seq<T>)
    ensures |r| == |xs|
    ensures forall i :: 0 <= i < |xs| ==> r[i] == xs[|xs| - 1 - i]
  {
    if xs == [] then [] else Reversed(xs[1..]) + [xs[0]]
  }

  predicate OccursAt(s: string, t: string, i: nat) {
    i + |t| <= |s| && s[i..i + |t|] == t
  }

  predicate Contains(s: string, t: string) {
    exists i: nat :: i <= |s| && OccursAt(s, t, i)
  }

  predicate EndsWith(s: string, t: string) {
    |t| <= |s| && s[|s| - |t|..] == t
  }

  function DigitChar(d: nat): (c: char)
    requires d < 10
    ensures c as int == '0' as int + d
  {
    (('0' as int) + d) as char
  }

  predicate IsDigit(c: char) { '0' <= c <= '9' }

  /** Python's `str` of a non-negative int: decimal digits, no leading zeros. */
  function DecimalString(n: nat): (s: string)
    ensures |s| >= 1
    ensures n < 10 <==> |s| == 1
    ensures forall i :: 0 <= i < |s| ==> IsDigit(s[i])
    decreases n
  {
    if n < 10 then [DigitChar(n)] else DecimalString(n / 10) + [DigitChar(n % 10)]
  }

  lemma {:induction false} DecimalStringInjective(a: nat, b: nat)
    requires DecimalString(a) == DecimalString(b)
    ensures a == b
    decreases a
  {
    var sa, sb := DecimalString(a), DecimalString(b);
    if a >= 10 && b >= 10 {
      assert DigitChar(a % 10) == sa[|sa| - 1] == sb[|sb| - 1] == DigitChar(b % 10);
      assert DecimalString(a / 10) == sa[..|sa| - 1] == sb[..|sb| - 1] == DecimalString(b / 10);
      DecimalStringInjective(a / 10, b / 10);
    } else if a < 10 && b < 10 {
      assert DigitChar(a) == sa[0] == sb[0] == DigitChar(b);
    }
  }

  /** Python's `repr` of a `(width, height)` tuple of ints: `(640, 360)`. */
  function ResolutionRepr(res: (nat, nat)): (s: string)
    ensures 'h' !in s
  {
    "(" + DecimalString(res.0) + ", " + DecimalString(res.1) + ")"
  }

  lemma SeparatorAt(x: string, y: string, sep: char)
    ensures (x + [sep] + y)[|x|] == sep
  {
  }

  /** Splitting at the first occurrence of a separator that the left parts lack. */
  lemma SplitAtSeparator(x: string, y: string, x': string, y': string, sep: char)
    requires sep !in x && sep !in x'
    requires x + [sep] + y == x' + [sep] + y'
    ensures x == x' && y == y'
  {
    var s, s' := x + [sep] + y, x' + [sep] + y';
    if |x| < |x'| {
      SeparatorAt(x, y, sep);
      assert false;
    } else if |x'| < |x| {
      SeparatorAt(x', y', sep);
      assert false;
    }
    assert x == s[..|x|] && x' == s'[..|x'|];
    assert y == s[|x| + 1..] && y' == s'[|x'| + 1..];
  }

  /** The middle part of a three-part string, cut out by the lengths of the
      other two. */
  lemma MiddleOf(prefix: string, mid: string, tail: string)
    ensures (prefix + mid + tail)[|prefix|..|prefix + mid + tail| - |tail|] == mid
  {
  }

  /** A prefix is the shorter prefix followed by the slice between them. */
  lemma SplitPrefix<T>(s: seq<T>, o: nat, m: nat)
    requires o <= m <= |s|
    ensures s[..m] == s[..o] + s[o..m]
  {
  }

  /** The first m - o elements of the slice [o..e] are the slice [o..m]. */
  lemma SliceOfSlice<T>(s: seq<T>, o: nat, m: nat, e: nat)
    requires o <= m <= e <= |s|
    ensures s[o..e][..m - o] == s[o..m]
  {
  }

  /** Two resolutions print alike only when they are the same. */
  lemma ResolutionReprInjective(a: (nat, nat), b: (nat, nat))
    requires ResolutionRepr(a) == ResolutionRepr(b)
    ensures a == b
  {
    var ra, rb := ResolutionRepr(a), ResolutionRepr(b);
    var x, x' := DecimalString(a.0), DecimalString(b.0);
    var y, y' := " " + DecimalString(a.1) + ")", " " + DecimalString(b.1) + ")";
    assert ra[1..] == x + [','] + y;
    assert rb[1..] == x' + [','] + y';
    SplitAtSeparator(x, y, x', y', ',');
    DecimalStringInjective(a.0, b.0);
    assert DecimalString(a.1) == y[1..|y| - 1] == y'[1..|y'| - 1] == DecimalString(b.1);
    DecimalStringInjective(a.1, b.1);
  }

  /** A string with no 'h' in it does not contain one that has an 'h'. */
  lemma NotContainsByMissingChar(s: string, t: string, k: nat)
    requires k < |t| && t[k] == 'h' && 'h' !in s
    ensures !Contains(s, t)
  {
    forall i: nat | i + |t| <= |s| ensures !OccursAt(s, t, i) {
      assert s[i..i + |t|][k] == s[i + k];
    }
  }
}
