/**
 * The per-channel sample store (`RingBuffer`): a fixed-capacity circular
 * array of signed 32-bit samples with a write cursor, a transform cache
 * validated by the cursor, and a window cache.
 */
module Samples {
  import opened Cyclic
  import opened Spectral

  /** A signed 32-bit PCM sample. */
  type Sample = x: int | -0x8000_0000 <= x < 0x8000_0000

  /** Key of the transform cache: the requested point count and the window name. */
  datatype FftKey = FftKey(nFft: int, kind: string)

  /** A cached transform and the cursor at which it was computed. */
  datatype FftEntry = FftEntry(cursor: nat, spectrum: seq<Complex>)

  /** Key of the window cache: the window length and the window name. */
  datatype WindowKey = WindowKey(length: nat, kind: string)

  /** Samples converted to double precision (exact for 32-bit integers). */
  function AsReal(x: seq<Sample>): (y: seq<real>)
    ensures |y| == |x| && forall i :: 0 <= i < |x| ==> y[i] == x[i] as real
  {
    seq(|x|, i requires 0 <= i < |x| => x[i] as real)
  }

  /** The real-input transform yields `len/2 + 1` bins, as `numpy.fft.rfft` does. */
  ghost predicate RfftShape(rfft: seq<real> -> seq<Complex>)
  {
    forall x :: |rfft(x)| == |x| / 2 + 1
  }

  /**
   * For `n_fft >= 1` the block `get_fft` reads is never longer than the
   * padded length, so it is zero-padded and never cut: the truncating branch
   * of `get_fft` is reached only for `n_fft <= 0`.
   */
  lemma NoTruncation<T>(cells: seq<T>, cursor: nat, nFft: int)
    requires cursor < |cells| && nFft >= 1
    ensures |ReadFrom(cells, cursor, nFft)| <= nFft <= PaddedLen(nFft)
  {
    ReadIsRecent(cells, cursor, nFft);
    PaddedLenIsLeastPow2(nFft);
  }

  /** A window of length `n` has `n` coefficients, as `numpy.hanning` and its siblings do. */
  ghost predicate WindowShapeOk(window: (nat, WindowShape) -> seq<real>)
  {
    forall n, s :: |window(n, s)| == n
  }

  class RingBuffer {
    const size: nat
    /** The floating-point transform, supplied from outside the model. */
    const rfft: seq<real> -> seq<Complex>
    /** The floating-point window formulas, supplied from outside the model. */
    const window: (nat, WindowShape) -> seq<real>

    var buf: array<Sample>
    var writePtr: nat
    var fftCache: map<FftKey, FftEntry>
    var windowCache: map<WindowKey, seq<real>>

    /** Every sample ever written, oldest first. */
    ghost var written: seq<Sample>

    ghost predicate Valid()
      reads this, buf
    {
      && WindowShapeOk(window)
      && 0 < size == buf.Length
      && writePtr < size
      && HistoryOk()
      && WindowCacheOk()
      && FftCacheOk()
    }

    /** The most recent `Held(|written|, size)` samples end (exclusive) at the cursor, oldest first. */
    ghost predicate HistoryOk()
      reads this`buf, this`writePtr, this`written, buf
      requires writePtr < buf.Length && size == buf.Length
    {
      Retains(buf[..], writePtr, written)
    }

    /** Each cached window is the window formula for its key. */
    ghost predicate WindowCacheOk()
      reads this`windowCache
    {
      forall k :: k in windowCache ==> windowCache[k] == window(k.length, ShapeOf(k.kind))
    }

    /** An entry the cursor validates holds the transform of the current contents. */
    ghost predicate FftCacheOk()
      reads this`fftCache, this`buf, this`writePtr, buf
      requires WindowShapeOk(window) && writePtr < buf.Length
    {
      forall k :: k in fftCache && fftCache[k].cursor == writePtr ==>
        fftCache[k].spectrum == SpectrumOf(k.nFft, k.kind)
    }

    /**
     * What `get_fft(n_fft, kind)` computes without a cache: the most recent
     * samples, windowed, fitted to the padded length, transformed.
     */
    function SpectrumOf(nFft: int, kind: string): (spectrum: seq<Complex>)
      requires WindowShapeOk(window)
      requires writePtr < buf.Length
      reads this`buf, this`writePtr, buf
      ensures RfftShape(rfft) ==> |spectrum| == PaddedLen(nFft) / 2 + 1
    {
      FitShape(AsReal(ReadFrom(buf[..], writePtr, nFft)), PaddedLen(nFft));
      var x := AsReal(ReadFrom(buf[..], writePtr, nFft));
      rfft(Fit(Windowed(x, window(|x|, ShapeOf(kind))), PaddedLen(nFft)))
    }

    constructor (size: nat, rfft: seq<real> -> seq<Complex>, window: (nat, WindowShape) -> seq<real>)
      requires 0 < size
      requires RfftShape(rfft) && WindowShapeOk(window)
      ensures Valid() && fresh(buf) && RfftShape(this.rfft)
      ensures this.size == size && this.rfft == rfft && this.window == window
      ensures buf[..] == seq(size, _ => 0) && writePtr == 0
      ensures fftCache == map[] && windowCache == map[] && written == []
    {
      this.size := size;
      this.rfft := rfft;
      this.window := window;
      buf := new Sample[size](_ => 0);
      writePtr := 0;
      fftCache := map[];
      windowCache := map[];
      written := [];
    }

    /** The slice assignment `buf[lo:lo+len(piece)] = piece`. */
    method CopySlice(lo: nat, piece: seq<Sample>)
      requires lo + |piece| <= buf.Length
      modifies buf
      ensures buf[..] == Splice(old(buf[..]), lo, piece)
    {
      forall i | lo <= i < lo + |piece| {
        buf[i] := piece[i - lo];
      }
      assert buf[..] == old(buf[..])[..lo] + piece + old(buf[..])[lo + |piece|..];
    }

    /**
     * `write(data)`: copies `data` into the store from the cursor on, in two
     * pieces when it passes the end, advances the cursor modulo the size and
     * clears the transform cache; an empty write changes nothing.
     */
    method Write(data: seq<Sample>)
      requires Valid() && |data| <= size
      modifies this`writePtr, this`written, this`fftCache, buf
      ensures Valid() && buf == old(buf)
      ensures buf[..] == WriteInto(old(buf[..]), old(writePtr), data)
      ensures writePtr == Advance(old(writePtr), |data|, size)
      ensures written == old(written) + data
      ensures fftCache == if |data| == 0 then old(fftCache) else map[]
      ensures windowCache == old(windowCache)
    {
      if |data| == 0 {
        WriteNothing(buf[..], writePtr);
        assert written == old(written) + data;
        return;
      }
      ghost var before := buf[..];
      var end := writePtr + |data|;
      if end <= size {
        CopySlice(writePtr, data);
      } else {
        var first := size - writePtr;
        CopySlice(writePtr, data[..first]);
        CopySlice(0, data[first..]);
      }
      WriteStep(before, writePtr, written, data, buf[..], end % size);
      writePtr := end % size;
      written := written + data;
      fftCache := map[];
      assert HistoryOk();
    }

    /**
     * `read(n)`: a copy of the most recent samples, oldest first. For
     * `n >= 0` it holds `ReadCount(size, n)` samples, which are the last
     * ones written whenever that many have been written.
     */
    method Read(n: int) returns (r: seq<Sample>)
      requires Valid()
      ensures r == ReadFrom(buf[..], writePtr, n)
      ensures n >= 0 ==> r == Recent(buf[..], writePtr, ReadCount(size, n))
      ensures n >= 0 && ReadCount(size, n) <= |written| ==> r == written[|written| - ReadCount(size, n)..]
    {
      var m := if n > size then size else n;
      var end := writePtr;
      var start := (end - m) % size;
      if start < end {
        r := buf[start..end];
      } else {
        r := buf[start..] + buf[..end];
      }
      assert r == ReadFrom(buf[..], writePtr, n);
      if n >= 0 {
        ReadIsRecent(buf[..], writePtr, n);
        if ReadCount(size, n) <= |written| {
          RecentSuffix(buf[..], writePtr, ReadCount(size, n), Held(|written|, size));
        }
      }
    }

    /**
     * `_get_window(length, kind)`: the cached window for the key, computing
     * and storing it the first time the key is asked for.
     */
    method GetWindow(length: nat, kind: string) returns (w: seq<real>)
      requires Valid()
      modifies this`windowCache
      ensures Valid()
      ensures w == window(length, ShapeOf(kind)) && |w| == length
      ensures windowCache == old(windowCache)[WindowKey(length, kind) := w]
      ensures WindowKey(length, kind) in old(windowCache) ==> windowCache == old(windowCache)
    {
      var key := WindowKey(length, kind);
      if key in windowCache {
        w := windowCache[key];
        return;
      }
      w := window(length, ShapeOf(kind));
      windowCache := windowCache[key := w];
    }

    /**
     * `get_fft(n_fft, kind)`: a cached transform when the cache holds one
     * recorded at the current cursor, otherwise a fresh one that is then
     * cached under the current cursor. Either way the result is the
     * transform of the current contents, and the store does not change.
     */
    method GetFft(nFft: int, kind: string) returns (spectrum: seq<Complex>)
      requires Valid()
      modifies this`fftCache, this`windowCache
      ensures Valid()
      ensures spectrum == SpectrumOf(nFft, kind)
      ensures var key := FftKey(nFft, kind);
              if key in old(fftCache) && old(fftCache)[key].cursor == writePtr
              then fftCache == old(fftCache) && windowCache == old(windowCache)
              else && fftCache == old(fftCache)[key := FftEntry(writePtr, spectrum)]
                   && var length := |ReadFrom(buf[..], writePtr, nFft)|;
                      windowCache == old(windowCache)[WindowKey(length, kind) := window(length, ShapeOf(kind))]
    {
      var key := FftKey(nFft, kind);
      var wp := writePtr;
      if key in fftCache {
        var cached := fftCache[key];
        if cached.cursor == wp {
          spectrum := cached.spectrum;
          return;
        }
      }
      spectrum := FreshFft(nFft, kind);
      ghost var previous := fftCache;
      fftCache := fftCache[key := FftEntry(wp, spectrum)];
      forall k | k in fftCache && fftCache[k].cursor == writePtr
        ensures fftCache[k].spectrum == SpectrumOf(k.nFft, k.kind)
      {
        if k != key {
          assert k in previous && previous[k] == fftCache[k];
        }
      }
    }

    /**
     * The cache-miss path of `get_fft`: read the most recent samples, window
     * them through `_get_window`, zero-pad or cut them to the padded length
     * and transform them.
     */
    method FreshFft(nFft: int, kind: string) returns (spectrum: seq<Complex>)
      requires Valid()
      modifies this`windowCache
      ensures Valid()
      ensures spectrum == SpectrumOf(nFft, kind)
      ensures var length := |ReadFrom(buf[..], writePtr, nFft)|;
              windowCache == old(windowCache)[WindowKey(length, kind) := window(length, ShapeOf(kind))]
    {
      var padded := PaddedLen(nFft);
      var samples := Read(nFft);
      var x := AsReal(samples);
      var w := GetWindow(|x|, kind);
      x := Windowed(x, w);
      FitShape(x, padded);
      if padded > |x| {
        x := x + Zeros(padded - |x|);
      } else if padded < |x| {
        x := x[|x| - padded..];
      }
      spectrum := rfft(x);
    }

    /** `get_freq_axis(n_fft)`: one frequency per bin of `get_fft(n_fft, ...)`. */
    lemma AxisMatchesSpectrum(nFft: int, kind: string)
      requires Valid() && RfftShape(rfft)
      ensures |FreqAxis(nFft)| == |SpectrumOf(nFft, kind)|
    {
      FitShape(AsReal(ReadFrom(buf[..], writePtr, nFft)), PaddedLen(nFft));
    }
  }
}
