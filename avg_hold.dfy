/**
 * The spectrum display's averaging stage: the last few power spectra of each
 * channel are kept in a row store of fixed depth, and the displayed trace is
 * either their per-bin mean ("Avg") or their per-bin maximum ("MaxHold").
 */
module AvgHold {
  import opened Cyclic

  /** Every row has `w` bins. */
  predicate Uniform(rows: seq<seq<real>>, w: nat)
  {
    forall i :: 0 <= i < |rows| ==> |rows[i]| == w
  }

  /** Sum of bin `c` over all rows, the numerator of `mean(axis=0)`. */
  function ColSum(rows: seq<seq<real>>, c: nat): real
    requires forall i :: 0 <= i < |rows| ==> c < |rows[i]|
  {
    if rows == [] then 0.0 else ColSum(rows[..|rows| - 1], c) + rows[|rows| - 1][c]
  }

  /** Largest value of bin `c` over the rows, as `max(axis=0)` picks it. */
  function ColMax(rows: seq<seq<real>>, c: nat): (m: real)
    requires |rows| >= 1 && forall i :: 0 <= i < |rows| ==> c < |rows[i]|
    ensures forall i :: 0 <= i < |rows| ==> rows[i][c] <= m
    ensures exists i :: 0 <= i < |rows| && rows[i][c] == m
  {
    if |rows| == 1 then rows[0][c]
    else
      var m := ColMax(rows[..|rows| - 1], c);
      var x := rows[|rows| - 1][c];
      if x > m then x else m
  }

  /** `rows.mean(axis=0)`. */
  function Mean(rows: seq<seq<real>>, w: nat): (r: seq<real>)
    requires |rows| >= 1 && Uniform(rows, w)
    ensures |r| == w
  {
    seq(w, c requires 0 <= c < w => ColSum(rows, c) / |rows| as real)
  }

  /** `rows.max(axis=0)`. */
  function Peak(rows: seq<seq<real>>, w: nat): (r: seq<real>)
    requires |rows| >= 1 && Uniform(rows, w)
    ensures |r| == w
    ensures forall i, c :: 0 <= i < |rows| && 0 <= c < w ==> rows[i][c] <= r[c]
  {
    seq(w, c requires 0 <= c < w => ColMax(rows, c))
  }

  /** The displayed trace: the mean in "Avg" mode, the maximum in "MaxHold" mode. */
  function Summary(rows: seq<seq<real>>, w: nat, average: bool): (r: seq<real>)
    requires |rows| >= 1 && Uniform(rows, w)
    ensures |r| == w
  {
    if average then Mean(rows, w) else Peak(rows, w)
  }

  /** The `n` most recent entries of a history. */
  function Last<T>(history: seq<T>, n: nat): seq<T>
    requires n <= |history|
  {
    history[|history| - n..]
  }

  /** The rows of a two-dimensional array, row `r` being `a[r, :]`. */
  function Rows(a: array2<real>): (rows: seq<seq<real>>)
    reads a
    ensures |rows| == a.Length0 && Uniform(rows, a.Length1)
  {
    seq(a.Length0, r requires 0 <= r < a.Length0 reads a =>
      seq(a.Length1, c requires 0 <= c < a.Length1 reads a => a[r, c]))
  }

  /** Column sums split over a concatenation of row blocks. */
  lemma {:induction false} ColSumAppend(a: seq<seq<real>>, b: seq<seq<real>>, w: nat, c: nat)
    requires Uniform(a, w) && Uniform(b, w) && c < w
    ensures ColSum(a + b, c) == ColSum(a, c) + ColSum(b, c)
  {
    if b == [] {
      assert a + b == a;
    } else {
      var front := b[..|b| - 1];
      assert (a + b)[..|a + b| - 1] == a + front;
      ColSumAppend(a, front, w, c);
    }
  }

  /** The mean does not depend on where the store's cursor splits the rows. */
  lemma MeanRotate(a: seq<seq<real>>, b: seq<seq<real>>, w: nat)
    requires |a + b| >= 1 && Uniform(a, w) && Uniform(b, w)
    ensures Mean(a + b, w) == Mean(b + a, w)
  {
    forall c | 0 <= c < w ensures ColSum(a + b, c) == ColSum(b + a, c) {
      ColSumAppend(a, b, w, c);
      ColSumAppend(b, a, w, c);
    }
  }

  /** A bound that every row respects and some row attains is the column maximum. */
  lemma MaxUnique(rows: seq<seq<real>>, w: nat, c: nat, m: real, j: nat)
    requires |rows| >= 1 && Uniform(rows, w) && c < w
    requires forall i :: 0 <= i < |rows| ==> rows[i][c] <= m
    requires j < |rows| && rows[j][c] == m
    ensures ColMax(rows, c) == m
  {
  }

  /** The maximum does not depend on where the store's cursor splits the rows. */
  lemma {:induction false} PeakRotate(a: seq<seq<real>>, b: seq<seq<real>>, w: nat)
    requires |a + b| >= 1 && Uniform(a, w) && Uniform(b, w)
    ensures Peak(a + b, w) == Peak(b + a, w)
  {
    var ab, ba := a + b, b + a;
    forall c | 0 <= c < w ensures ColMax(ab, c) == ColMax(ba, c) {
      var m := ColMax(ab, c);
      forall i | 0 <= i < |ba| ensures ba[i][c] <= m {
        if i < |b| {
          assert ba[i] == ab[|a| + i];
        } else {
          assert ba[i] == ab[i - |b|];
        }
      }
      var j :| 0 <= j < |ab| && ab[j][c] == m;
      if j < |a| {
        assert ba[|b| + j] == ab[j];
        MaxUnique(ba, w, c, m, |b| + j);
      } else {
        assert ba[j - |a|] == ab[j];
        MaxUnique(ba, w, c, m, j - |a|);
      }
    }
  }

  /** A column sum of `n` values at most `hi` is at most `n * hi`. */
  lemma {:induction false} ColSumAtMost(rows: seq<seq<real>>, w: nat, c: nat, hi: real)
    requires Uniform(rows, w) && c < w
    requires forall i :: 0 <= i < |rows| ==> rows[i][c] <= hi
    ensures ColSum(rows, c) <= |rows| as real * hi
  {
    if rows != [] {
      var n := |rows|;
      ColSumAtMost(rows[..n - 1], w, c, hi);
      assert (n - 1) as real * hi + hi == n as real * hi;
    }
  }

  /** A column sum of `n` values at least `lo` is at least `n * lo`. */
  lemma {:induction false} ColSumAtLeast(rows: seq<seq<real>>, w: nat, c: nat, lo: real)
    requires Uniform(rows, w) && c < w
    requires forall i :: 0 <= i < |rows| ==> lo <= rows[i][c]
    ensures |rows| as real * lo <= ColSum(rows, c)
  {
    if rows != [] {
      var n := |rows|;
      ColSumAtLeast(rows[..n - 1], w, c, lo);
      assert (n - 1) as real * lo + lo == n as real * lo;
    }
  }

  /**
   * The "Avg" trace stays within the range of the spectra it averages: when
   * every held value of a bin lies in `[lo, hi]`, so does their mean.
   */
  lemma MeanWithin(rows: seq<seq<real>>, w: nat, c: nat, lo: real, hi: real)
    requires |rows| >= 1 && Uniform(rows, w) && c < w
    requires forall i :: 0 <= i < |rows| ==> lo <= rows[i][c] <= hi
    ensures lo <= Mean(rows, w)[c] <= hi
  {
    var n := |rows| as real;
    ColSumAtMost(rows, w, c, hi);
    ColSumAtLeast(rows, w, c, lo);
    var s := ColSum(rows, c);
    assert Mean(rows, w)[c] == s / n;
    assert n * (s / n) == s;
  }

  /** The "MaxHold" trace is at least the newest row and at least the "Avg" trace. */
  lemma PeakCovers(rows: seq<seq<real>>, w: nat, c: nat)
    requires |rows| >= 1 && Uniform(rows, w) && c < w
    ensures rows[|rows| - 1][c] <= Peak(rows, w)[c]
    ensures Mean(rows, w)[c] <= Peak(rows, w)[c]
  {
    var n := |rows| as real;
    ColSumAtMost(rows, w, c, ColMax(rows, c));
    var s := ColSum(rows, c);
    assert n * (s / n) == s;
  }

  /** The newest spectrum of a history is among its `n` most recent ones, so it is covered. */
  lemma NewestHeld(history: seq<seq<real>>, n: nat, w: nat, c: nat)
    requires 1 <= n <= |history| && Uniform(history, w) && c < w
    ensures history[|history| - 1][c] <= Peak(Last(history, n), w)[c]
    ensures Mean(Last(history, n), w)[c] <= Peak(Last(history, n), w)[c]
  {
    var held := Last(history, n);
    assert held[n - 1] == history[|history| - 1];
    PeakCovers(held, w, c);
  }

  /**
   * A depth-3 store fed `[1,1]`, `[2,2]`, `[3,3]` holds all three (the count
   * is 3), averages to `[2,2]` and peaks at `[3,3]`. Pushing `[0,0]` evicts
   * `[1,1]`: the count stays 3, the average drops to `[5/3,5/3]` and the
   * peak stays `[3,3]`.
   */
  lemma ThreeDeepTrace()
    ensures Held(3, 3) == 3 && Held(4, 3) == 3
    ensures var h: seq<seq<real>> := [[1.0, 1.0], [2.0, 2.0], [3.0, 3.0]];
            Summary(Last(h, 3), 2, true) == [2.0, 2.0] && Summary(Last(h, 3), 2, false) == [3.0, 3.0]
    ensures var h: seq<seq<real>> := [[1.0, 1.0], [2.0, 2.0], [3.0, 3.0], [0.0, 0.0]];
            Summary(Last(h, 3), 2, true) == [5.0 / 3.0, 5.0 / 3.0] && Summary(Last(h, 3), 2, false) == [3.0, 3.0]
  {
    var first: seq<seq<real>> := [[1.0, 1.0], [2.0, 2.0], [3.0, 3.0]];
    assert Last(first, 3) == first;
    TraceOfThreeRows([1.0, 1.0], [2.0, 2.0], [3.0, 3.0], 2.0, 3.0);
    var h: seq<seq<real>> := first + [[0.0, 0.0]];
    assert Last(h, 3) == [[2.0, 2.0], [3.0, 3.0], [0.0, 0.0]];
    TraceOfThreeRows([2.0, 2.0], [3.0, 3.0], [0.0, 0.0], 5.0 / 3.0, 3.0);
  }

  /** Mean and maximum of three two-bin rows whose bins agree, given the per-bin mean and maximum. */
  lemma TraceOfThreeRows(x: seq<real>, y: seq<real>, z: seq<real>, mean: real, peak: real)
    requires |x| == |y| == |z| == 2 && x[0] == x[1] && y[0] == y[1] && z[0] == z[1]
    requires x[0] + y[0] + z[0] == 3.0 * mean
    requires x[0] <= peak && y[0] <= peak && z[0] <= peak && (x[0] == peak || y[0] == peak || z[0] == peak)
    ensures Summary([x, y, z], 2, true) == [mean, mean]
    ensures Summary([x, y, z], 2, false) == [peak, peak]
  {
    var rows := [x, y, z];
    assert rows[..2] == [x, y] && rows[..2][..1] == [x] && rows[..2][..1][..0] == [];
    forall c | 0 <= c < 2 ensures ColSum(rows, c) == 3.0 * mean {
      assert ColSum(rows[..2][..1], c) == x[c];
      assert ColSum(rows[..2], c) == x[c] + y[c];
    }
    var j := if x[0] == peak then 0 else if y[0] == peak then 1 else 2;
    MaxUnique(rows, 2, 0, peak, j);
    MaxUnique(rows, 2, 1, peak, j);
  }

  /**
   * The store invariant of one channel, on its rows: a depth-`K` store whose
   * cursor `idx` equals the number of held rows until the store first fills,
   * and whose rows behind the cursor are the spectra pushed since the last
   * reset.
   */
  ghost predicate Holds(cells: seq<seq<real>>, w: nat, idx: nat, count: nat, history: seq<seq<real>>)
  {
    idx < |cells| && Uniform(cells, w) && Uniform(history, w)
    && count == Held(|history|, |cells|) && (count < |cells| ==> idx == count)
    && Retains(cells, idx, history)
  }

  /** The invariant on the store array itself. */
  ghost predicate StoreOk(a: array2<real>, idx: nat, count: nat, history: seq<seq<real>>)
    reads a
  {
    Holds(Rows(a), a.Length1, idx, count, history)
  }

  /** A freshly allocated store of depth at least one holds nothing yet. */
  lemma HoldsNothing(cells: seq<seq<real>>, w: nat)
    requires 1 <= |cells| && Uniform(cells, w)
    ensures Holds(cells, w, 0, 0, [])
  {
  }

  /**
   * One push keeps the invariant: the spectrum goes into the row under the
   * cursor, the cursor moves on cyclically and the count grows up to the depth.
   */
  lemma PushKeeps(cells: seq<seq<real>>, w: nat, idx: nat, count: nat, history: seq<seq<real>>, row: seq<real>,
                  cells': seq<seq<real>>, idx': nat, count': nat)
    requires Holds(cells, w, idx, count, history) && |row| == w
    requires cells' == cells[idx := row] && idx' == (idx + 1) % |cells|
    requires count' == if count + 1 < |cells| then count + 1 else |cells|
    ensures Holds(cells', w, idx', count', history + [row])
  {
    var size := |cells|;
    assert Splice(cells, idx, [row]) == cells';
    WriteStep(cells, idx, history, [row], cells', idx');
    ModOneLap(idx + 1, size);
    assert Uniform(history + [row], w);
    assert count' == Held(|history + [row]|, size);
  }

  /**
   * What `buf[:count, :]` holds: for a store satisfying the invariant, the
   * first `count` rows are the `count` most recent spectra, possibly rotated,
   * so their mean and maximum are those of the most recent spectra.
   */
  lemma {:induction false} HeldRows(cells: seq<seq<real>>, w: nat, idx: nat, count: nat, history: seq<seq<real>>)
    requires Holds(cells, w, idx, count, history) && 1 <= count
    ensures Mean(cells[..count], w) == Mean(Last(history, count), w)
    ensures Peak(cells[..count], w) == Peak(Last(history, count), w)
  {
    var size := |cells|;
    var recent := Recent(cells, idx, count);
    assert recent == Last(history, count);
    if count < size {
      forall i | 0 <= i < count ensures recent[i] == cells[i] {
        ModOneLap(idx - count + i, size);
      }
      assert recent == cells[..count];
    } else {
      forall i | 0 <= i < size ensures recent[i] == (cells[idx..] + cells[..idx])[i] {
        ModOneLap(idx - size + i, size);
      }
      assert recent == cells[idx..] + cells[..idx];
      assert cells[..count] == cells[..idx] + cells[idx..];
      MeanRotate(cells[..idx], cells[idx..], w);
      PeakRotate(cells[..idx], cells[idx..], w);
    }
  }

  /** Assigning a whole row replaces that row and no other. */
  method SetRow(a: array2<real>, r: nat, row: seq<real>)
    requires r < a.Length0 && |row| == a.Length1
    modifies a
    ensures Rows(a) == old(Rows(a))[r := row]
  {
    ghost var before := Rows(a);
    forall c | 0 <= c < a.Length1 {
      a[r, c] := row[c];
    }
    forall i | 0 <= i < a.Length0 ensures Rows(a)[i] == before[r := row][i] {
      if i == r {
        assert Rows(a)[i] == row;
      } else {
        assert Rows(a)[i] == before[i];
      }
    }
  }

  /** The averaging state of the spectrum view, one row store per channel. */
  class SpectrumHold {
    var bufLeft: array2?<real>
    var bufRight: array2?<real>
    var idx: nat
    var count: nat
    /** The spectra pushed since the stores were last (re)allocated. */
    ghost var pushedLeft: seq<seq<real>>
    ghost var pushedRight: seq<seq<real>>

    ghost predicate Valid()
      reads this, bufLeft, bufRight
    {
      if bufLeft == null then
        bufRight == null && idx == 0 && count == 0 && pushedLeft == [] && pushedRight == []
      else
        bufRight != null && bufLeft != bufRight
        && bufRight.Length0 == bufLeft.Length0 && bufRight.Length1 == bufLeft.Length1
        && StoreOk(bufLeft, idx, count, pushedLeft) && StoreOk(bufRight, idx, count, pushedRight)
    }

    /** No store yet: both are allocated by the first push. */
    constructor ()
      ensures Valid() && bufLeft == null && count == 0
    {
      bufLeft, bufRight := null, null;
      idx, count := 0, 0;
      pushedLeft, pushedRight := [], [];
    }

    /**
     * `_avg_hold_push`: when there is no store yet, or its depth is no
     * longer the requested number of frames, or its width is no longer the
     * spectrum's, both stores are replaced by zeroed ones and the count
     * restarts; then the two spectra go into the row under the cursor, the
     * cursor advances cyclically and the count grows up to the depth.
     */
    method Push(depth: int, pl: seq<real>, pr: seq<real>)
      requires Valid() && 1 <= depth && |pl| == |pr|
      modifies this, bufLeft, bufRight
      ensures Valid() && bufLeft != null
      ensures bufLeft.Length0 == depth && bufLeft.Length1 == |pl|
      ensures var reset := old(bufLeft == null || bufLeft.Length0 != depth || bufLeft.Length1 != |pl|);
              && (reset ==> fresh(bufLeft) && fresh(bufRight))
              && (!reset ==> bufLeft == old(bufLeft) && bufRight == old(bufRight))
              && pushedLeft == (if reset then [] else old(pushedLeft)) + [pl]
              && pushedRight == (if reset then [] else old(pushedRight)) + [pr]
              && count == (if reset then 1 else if old(count) + 1 < depth then old(count) + 1 else depth)
    {
      if bufLeft == null || bufLeft.Length0 != depth || bufLeft.Length1 != |pl| {
        Reset(depth, |pl|);
      }
      Store(pl, pr);
    }

    /** Replaces both stores by zeroed `depth` x `width` arrays holding nothing. */
    method Reset(depth: nat, width: nat)
      requires 1 <= depth
      modifies this
      ensures Valid() && bufLeft != null && fresh(bufLeft) && fresh(bufRight)
      ensures bufLeft.Length0 == depth && bufLeft.Length1 == width
      ensures count == 0 && pushedLeft == [] && pushedRight == []
      ensures forall r, c :: 0 <= r < depth && 0 <= c < width ==> bufLeft[r, c] == 0.0 && bufRight[r, c] == 0.0
    {
      bufLeft := new real[depth, width]((_, _) => 0.0);
      bufRight := new real[depth, width]((_, _) => 0.0);
      idx, count := 0, 0;
      pushedLeft, pushedRight := [], [];
      HoldsNothing(Rows(bufLeft), width);
      HoldsNothing(Rows(bufRight), width);
    }

    /** Puts one spectrum per channel into the row under the cursor and advances the cursor. */
    method Store(pl: seq<real>, pr: seq<real>)
      requires Valid() && bufLeft != null && |pl| == |pr| == bufLeft.Length1
      modifies this, bufLeft, bufRight
      ensures Valid() && bufLeft == old(bufLeft) && bufRight == old(bufRight)
      ensures pushedLeft == old(pushedLeft) + [pl] && pushedRight == old(pushedRight) + [pr]
      ensures count == if old(count) + 1 < bufLeft.Length0 then old(count) + 1 else bufLeft.Length0
    {
      var left, right := bufLeft, bufRight;
      var depth := left.Length0;
      ghost var cellsLeft, cellsRight := Rows(left), Rows(right);
      SetRow(left, idx, pl);
      ghost var rowsLeft := Rows(left);
      SetRow(right, idx, pr);
      assert Rows(left) == rowsLeft;
      var next := (idx + 1) % depth;
      var held := if count + 1 < depth then count + 1 else depth;
      PushKeeps(cellsLeft, |pl|, idx, count, pushedLeft, pl, rowsLeft, next, held);
      PushKeeps(cellsRight, |pr|, idx, count, pushedRight, pr, Rows(right), next, held);
      idx, count := next, held;
      pushedLeft, pushedRight := pushedLeft + [pl], pushedRight + [pr];
    }

    /**
     * `_avg_hold_get`: the per-bin mean ("Avg") or maximum ("MaxHold") of
     * the held rows, which are exactly the `count` most recent spectra
     * pushed since the last reset, `count` being at most the depth.
     */
    function Get(average: bool): (r: (seq<real>, seq<real>))
      reads this, bufLeft, bufRight
      requires Valid() && count >= 1
      ensures bufLeft != null && count <= bufLeft.Length0
      ensures r.0 == Summary(Last(pushedLeft, count), bufLeft.Length1, average)
      ensures r.1 == Summary(Last(pushedRight, count), bufLeft.Length1, average)
    {
      HeldRows(Rows(bufLeft), bufLeft.Length1, idx, count, pushedLeft);
      HeldRows(Rows(bufRight), bufLeft.Length1, idx, count, pushedRight);
      (Summary(Rows(bufLeft)[..count], bufLeft.Length1, average),
       Summary(Rows(bufRight)[..count], bufLeft.Length1, average))
    }

    /**
     * Both traces cover the newest spectrum: the "MaxHold" trace is at least
     * it in every bin, and the "Avg" trace never rises above the "MaxHold" one.
     */
    lemma NewestCovered(c: nat)
      requires Valid() && count >= 1 && bufLeft != null && c < bufLeft.Length1
      ensures pushedLeft[|pushedLeft| - 1][c] <= Get(false).0[c]
      ensures pushedRight[|pushedRight| - 1][c] <= Get(false).1[c]
      ensures Get(true).0[c] <= Get(false).0[c] && Get(true).1[c] <= Get(false).1[c]
    {
      var w := bufLeft.Length1;
      NewestHeld(pushedLeft, count, w, c);
      NewestHeld(pushedRight, count, w, c);
    }
  }
}
