/**
 * The integer side of the spectrum queries: the padded transform length,
 * zero-padding, windowing and the frequency axis. The transform and the
 * window formulas themselves are floating-point numerics and are supplied
 * from outside (see module Samples).
 */
module Spectral {
  import opened Bits

  /** Fixed sample rate of the device, in Hz. */
  const SampleRate := 48000

  /** A complex transform bin. */
  datatype Complex = Complex(re: real, im: real)

  /** The three window formulas the dashboard knows. */
  datatype WindowShape = Hann | Hamming | Blackman

  /** Window selection by name: anything other than "hann" or "hamming" falls back to Blackman. */
  function ShapeOf(kind: string): (w: WindowShape)
    ensures w == Hann <==> kind == "hann"
    ensures w == Hamming <==> kind == "hamming"
  {
    if kind == "hann" then Hann
    else if kind == "hamming" then Hamming
    else Blackman
  }

  /** The number is a power of two. */
  predicate IsPow2(p: int)
    decreases if p < 0 then 0 else p
  {
    p == 1 || (p > 1 && p % 2 == 0 && IsPow2(p / 2))
  }

  /** Python's `int.bit_length()` of a natural number: the number of binary digits. */
  function BitLengthNat(n: nat): nat
  {
    if n == 0 then 0 else 1 + BitLengthNat(n / 2)
  }

  /** Python's `int.bit_length()`: the bit length of the absolute value. */
  function BitLength(x: int): nat
  {
    BitLengthNat(if x < 0 then -x else x)
  }

  /** `1 << bit_length(n_fft - 1)`, the transform length used for `n_fft` requested points. */
  function PaddedLen(nFft: int): (p: nat)
    ensures IsPow2(p)
  {
    Pow2IsPow2(BitLength(nFft - 1));
    Pow2(BitLength(nFft - 1))
  }

  lemma {:induction false} Pow2IsPow2(k: nat)
    ensures IsPow2(Pow2(k))
  {
    if k > 0 {
      Pow2IsPow2(k - 1);
      assert Pow2(k) / 2 == Pow2(k - 1);
    }
  }

  /** A number of `b` binary digits lies in `[2^(b-1), 2^b)`. */
  lemma {:induction false} BitLengthBounds(n: nat)
    requires n >= 1
    ensures BitLengthNat(n) >= 1
    ensures Pow2(BitLengthNat(n) - 1) <= n < Pow2(BitLengthNat(n))
  {
    if n > 1 {
      BitLengthBounds(n / 2);
    }
  }

  /**
   * For `n_fft >= 1` the padded length is the least power of two not below
   * `n_fft`: it is a power of two, at least `n_fft`, and half of it is
   * below `n_fft` (when it is not 1).
   */
  lemma {:induction false} PaddedLenIsLeastPow2(nFft: int)
    requires nFft >= 1
    ensures IsPow2(PaddedLen(nFft))
    ensures nFft <= PaddedLen(nFft)
    ensures PaddedLen(nFft) == 1 || PaddedLen(nFft) / 2 < nFft
  {
    Pow2IsPow2(BitLength(nFft - 1));
    if nFft > 1 {
      BitLengthBounds(nFft - 1);
    }
  }

  /** For `n_fft = 0`, `bit_length(-1) == 1`, so the padded length is 2. */
  lemma PaddedLenOfZero()
    ensures PaddedLen(0) == 2
  {
    assert BitLengthNat(1) == 1 + BitLengthNat(0);
  }

  /** `n` zero samples. */
  function Zeros(n: nat): (z: seq<real>)
    ensures |z| == n && forall i :: 0 <= i < n ==> z[i] == 0.0
  {
    seq(n, _ => 0.0)
  }

  /**
   * Brings the windowed block to the transform length: zero-padded on the
   * right when shorter, cut to its most recent `padded` samples when longer.
   */
  function Fit(x: seq<real>, padded: nat): (y: seq<real>)
    ensures |y| == padded
  {
    if padded > |x| then x + Zeros(padded - |x|)
    else if padded < |x| then x[|x| - padded..]
    else x
  }

  /**
   * Whatever the block, the transform input has exactly the padded length;
   * a block no longer than it is kept whole, followed by zeros.
   */
  lemma FitShape(x: seq<real>, padded: nat)
    ensures |Fit(x, padded)| == padded
    ensures |x| <= padded ==> Fit(x, padded) == x + Zeros(padded - |x|)
    ensures |x| > padded ==> Fit(x, padded) == x[|x| - padded..]
  {
  }

  /** Element-wise product of a block with a window of the same length. */
  function Windowed(x: seq<real>, w: seq<real>): (y: seq<real>)
    requires |w| == |x|
    ensures |y| == |x|
  {
    seq(|x|, i requires 0 <= i < |x| => x[i] * w[i])
  }

  /**
   * `rfftfreq(padded_len, 1/48000)`: `padded_len/2 + 1` bin frequencies,
   * bin `i` at `i * 48000 / padded_len` Hz.
   */
  function FreqAxis(nFft: int): (axis: seq<real>)
    ensures |axis| == PaddedLen(nFft) / 2 + 1 && axis[0] == 0.0
  {
    var p := PaddedLen(nFft);
    seq(p / 2 + 1, i requires 0 <= i < p / 2 + 1 => (i * SampleRate) as real / p as real)
  }

  lemma BinStep(i: nat, p: nat)
    requires p >= 1 && i >= 1
    ensures (i * SampleRate) as real / p as real - ((i - 1) * SampleRate) as real / p as real
            == SampleRate as real / p as real
  {
    var q := p as real;
    assert (i * SampleRate) as real == ((i - 1) * SampleRate) as real + SampleRate as real;
    assert ((i - 1) * SampleRate) as real / q + SampleRate as real / q
           == (((i - 1) * SampleRate) as real + SampleRate as real) / q;
  }

  lemma NyquistBin(h: nat)
    requires h >= 1
    ensures (h * SampleRate) as real / (2 * h) as real == (SampleRate / 2) as real
  {
    assert (h * SampleRate) as real == (SampleRate / 2) as real * (2 * h) as real;
  }

  /**
   * The axis starts at 0 Hz, steps by `48000 / padded_len`, and for a padded
   * length of at least 2 its last bin is the Nyquist frequency 24000 Hz.
   */
  lemma {:induction false} FreqAxisSpan(nFft: int)
    ensures |FreqAxis(nFft)| == PaddedLen(nFft) / 2 + 1
    ensures FreqAxis(nFft)[0] == 0.0
    ensures forall i :: 0 < i < |FreqAxis(nFft)| ==>
              FreqAxis(nFft)[i] - FreqAxis(nFft)[i - 1] == SampleRate as real / PaddedLen(nFft) as real
    ensures PaddedLen(nFft) >= 2 ==> FreqAxis(nFft)[|FreqAxis(nFft)| - 1] == (SampleRate / 2) as real
  {
    var p := PaddedLen(nFft);
    var ax := FreqAxis(nFft);
    forall i | 0 < i < |ax|
      ensures ax[i] - ax[i - 1] == SampleRate as real / p as real
    {
      BinStep(i, p);
    }
    if p >= 2 {
      Pow2IsPow2(BitLength(nFft - 1));
      var h := p / 2;
      assert p == 2 * h;
      NyquistBin(h);
    }
  }
}
