/**
 * Index arithmetic of a circular sample store: which cells a read returns
 * and which cells a write replaces, as functions of the store and its cursor.
 */
module Cyclic {

  /** `x % s` for `x` within one lap of `[0, s)`, as an explicit case split. */
  lemma ModOneLap(x: int, s: int)
    requires 0 < s && -s <= x < 2 * s
    ensures x % s == (if x < 0 then x + s else if x < s then x else x - s)
  {
  }

  /**
   * The `m` most recent cells before the cursor, oldest first: element `i`
   * is the cell `(cursor - m + i) mod |cells|`.
   */
  function Recent<T>(cells: seq<T>, cursor: nat, m: nat): (r: seq<T>)
    requires cursor < |cells| && m <= |cells|
  {
    seq(m, i requires 0 <= i < m => cells[(cursor - m + i) % |cells|])
  }

  /**
   * `read(n)` on a store of `|cells|` cells with cursor `cursor`: `n` is
   * clamped to the capacity, `start = (cursor - n) mod size`, and the
   * result is one slice when `start < cursor` and otherwise the tail
   * `[start, size)` followed by the head `[0, cursor)`.
   */
  function ReadFrom<T>(cells: seq<T>, cursor: nat, n: int): (r: seq<T>)
    requires cursor < |cells|
    ensures 0 < |r| <= |cells|
  {
    var size := |cells|;
    var m := if n > size then size else n;
    var start := (cursor - m) % size;
    if start < cursor then cells[start..cursor] else cells[start..] + cells[..cursor]
  }

  /** How many samples `read(n)` returns for `n >= 0`: `min(n, size)`, and the whole store for 0. */
  function ReadCount(size: nat, n: nat): nat
  {
    if n == 0 || n > size then size else n
  }

  /**
   * The store after writing `data` at `cursor`: the cells of the cyclic arc
   * starting at the cursor hold `data` in order, all other cells keep their value.
   */
  function WriteInto<T>(cells: seq<T>, cursor: nat, data: seq<T>): (r: seq<T>)
    requires cursor < |cells| && |data| <= |cells|
    ensures |r| == |cells|
  {
    seq(|cells|, i requires 0 <= i < |cells| =>
      var k := (i - cursor) % |cells|;
      if k < |data| then data[k] else cells[i])
  }

  /** The slice assignment `cells[lo:lo+len(piece)] = piece`. */
  function Splice<T>(cells: seq<T>, lo: nat, piece: seq<T>): (r: seq<T>)
    requires lo + |piece| <= |cells|
    ensures |r| == |cells|
  {
    cells[..lo] + piece + cells[lo + |piece|..]
  }

  /**
   * The write as the code performs it: one slice assignment when the data
   * fits before the end of the store, otherwise the first `size - cursor`
   * samples at the cursor and the rest from index 0.
   */
  function SplitCopy<T>(cells: seq<T>, cursor: nat, data: seq<T>): (r: seq<T>)
    requires cursor < |cells| && |data| <= |cells|
    ensures |r| == |cells|
  {
    var size, end := |cells|, cursor + |data|;
    if end <= size then Splice(cells, cursor, data)
    else
      var first := size - cursor;
      Splice(Splice(cells, cursor, data[..first]), 0, data[first..])
  }

  /** The two-piece copy writes exactly the cyclic arc that starts at the cursor. */
  lemma {:induction false} SplitCopyIsArc<T>(cells: seq<T>, cursor: nat, data: seq<T>)
    requires cursor < |cells| && |data| <= |cells|
    ensures SplitCopy(cells, cursor, data) == WriteInto(cells, cursor, data)
  {
    var size, end := |cells|, cursor + |data|;
    var got, want := SplitCopy(cells, cursor, data), WriteInto(cells, cursor, data);
    ModOneLap(end, size);
    assert |got| == size;
    if end > size {
      var first := size - cursor;
      var once := Splice(cells, cursor, data[..first]);
      assert once == cells[..cursor] + data[..first];
      assert got == data[first..] + once[end - size..];
    }
    forall i | 0 <= i < size ensures got[i] == want[i] {
      ModOneLap(i - cursor, size);
    }
  }

  /** An empty write leaves the store and the cursor as they were. */
  lemma WriteNothing<T>(cells: seq<T>, cursor: nat)
    requires cursor < |cells|
    ensures WriteInto(cells, cursor, []) == cells
    ensures Advance(cursor, 0, |cells|) == cursor
  {
    ModOneLap(cursor, |cells|);
  }

  /** The cursor after a write of `len` samples. */
  function Advance(cursor: nat, len: nat, size: nat): (c: nat)
    requires cursor < size
    ensures c < size
  {
    (cursor + len) % size
  }

  /**
   * For every `n >= 0`, `read(n)` returns the `ReadCount(size, n)` most
   * recent cells, oldest first; in particular `read(0)` returns the whole store.
   */
  lemma {:induction false} ReadIsRecent<T>(cells: seq<T>, cursor: nat, n: nat)
    requires cursor < |cells|
    ensures ReadFrom(cells, cursor, n) == Recent(cells, cursor, ReadCount(|cells|, n))
  {
    var size := |cells|;
    var m := if n > size then size else n;
    ModOneLap(cursor - m, size);
    if 0 < m <= cursor {
      ReadOneSlice(cells, cursor, m);
    } else {
      ReadTwoSlices(cells, cursor, ReadCount(size, n));
    }
  }

  /** A read that does not reach back past index 0 is the slice just before the cursor. */
  lemma ReadOneSlice<T>(cells: seq<T>, cursor: nat, m: nat)
    requires m <= cursor < |cells|
    ensures cells[cursor - m..cursor] == Recent(cells, cursor, m)
  {
    forall i | 0 <= i < m ensures cells[cursor - m + i] == Recent(cells, cursor, m)[i] {
      ModOneLap(cursor - m + i, |cells|);
    }
  }

  /** A read that reaches back past index 0 is the tail of the store followed by its head. */
  lemma ReadTwoSlices<T>(cells: seq<T>, cursor: nat, k: nat)
    requires cursor < k <= |cells|
    ensures cells[cursor - k + |cells|..] + cells[..cursor] == Recent(cells, cursor, k)
  {
    var size := |cells|;
    var r := cells[cursor - k + size..] + cells[..cursor];
    assert |r| == k;
    forall i | 0 <= i < k ensures r[i] == Recent(cells, cursor, k)[i] {
      ModOneLap(cursor - k + i, size);
    }
  }

  /** Fewer recent cells are a suffix of more recent cells. */
  lemma RecentSuffix<T>(cells: seq<T>, cursor: nat, j: nat, m: nat)
    requires cursor < |cells| && j <= m <= |cells|
    ensures Recent(cells, cursor, j) == Recent(cells, cursor, m)[m - j..]
  {
  }

  /**
   * After writing `data`, the `n` most recent cells are the last `n` of
   * `data` when `n <= |data|`, and otherwise the `n - |data|` cells that
   * were most recent before the write followed by all of `data`.
   */
  lemma {:induction false} RecentAfterWrite<T>(cells: seq<T>, cursor: nat, data: seq<T>, n: nat)
    requires cursor < |cells| && |data| <= |cells| && n <= |cells|
    ensures Recent(WriteInto(cells, cursor, data), Advance(cursor, |data|, |cells|), n)
            == if n <= |data| then data[|data| - n..]
               else Recent(cells, cursor, n - |data|) + data
  {
    var size, len := |cells|, |data|;
    var after := WriteInto(cells, cursor, data);
    var c := Advance(cursor, len, size);
    ModOneLap(cursor + len, size);
    var got := Recent(after, c, n);
    var want := if n <= len then data[len - n..] else Recent(cells, cursor, n - len) + data;
    assert |got| == n == |want|;
    forall i | 0 <= i < n ensures got[i] == want[i] {
      var p := (c - n + i) % size;
      ModOneLap(c - n + i, size);
      ModOneLap(p - cursor, size);
      assert (p - cursor) % size == (len - n + i) % size by {
        ModOneLap(len - n + i, size);
      }
      if n > len && i < n - len {
        ModOneLap(cursor - (n - len) + i, size);
      }
    }
  }

  /** How many of `total` written samples a store of `size` cells still holds. */
  function Held(total: nat, size: nat): nat
  {
    if total < size then total else size
  }

  /**
   * The store invariant: the `Held(|history|, |cells|)` most recent cells
   * before the cursor are the last samples of `history`, oldest first.
   */
  ghost predicate Retains<T>(cells: seq<T>, cursor: nat, history: seq<T>)
    requires cursor < |cells|
  {
    Recent(cells, cursor, Held(|history|, |cells|)) == history[|history| - Held(|history|, |cells|)..]
  }

  /** The store invariant survives a write of `data`. */
  lemma HistoryAfterWrite<T>(cells: seq<T>, cursor: nat, history: seq<T>, data: seq<T>)
    requires cursor < |cells| && |data| <= |cells|
    requires Retains(cells, cursor, history)
    ensures Retains(WriteInto(cells, cursor, data), Advance(cursor, |data|, |cells|), history + data)
  {
    if Held(|history + data|, |cells|) <= |data| {
      LongWriteRetains(cells, cursor, history, data);
    } else {
      ShortWriteRetains(cells, cursor, history, data);
    }
  }

  /** A write at least as long as what the store holds leaves only written samples in the held cells. */
  lemma {:induction false} LongWriteRetains<T>(cells: seq<T>, cursor: nat, history: seq<T>, data: seq<T>)
    requires cursor < |cells| && |data| <= |cells| && Held(|history + data|, |cells|) <= |data|
    ensures Retains(WriteInto(cells, cursor, data), Advance(cursor, |data|, |cells|), history + data)
  {
    var after := history + data;
    var m' := Held(|after|, |cells|);
    RecentAfterWrite(cells, cursor, data, m');
    assert after[|after| - m'..] == data[|data| - m'..];
  }

  /**
   * A write shorter than what the store holds keeps the most recent samples
   * of the old history in front of the written ones.
   */
  lemma {:induction false} ShortWriteRetains<T>(cells: seq<T>, cursor: nat, history: seq<T>, data: seq<T>)
    requires cursor < |cells| && |data| < Held(|history + data|, |cells|)
    requires Retains(cells, cursor, history)
    ensures Retains(WriteInto(cells, cursor, data), Advance(cursor, |data|, |cells|), history + data)
  {
    var m := Held(|history|, |cells|);
    var after := history + data;
    var m' := Held(|after|, |cells|);
    var j := m' - |data|;
    RecentAfterWrite(cells, cursor, data, m');
    assert j <= m;
    RecentSuffix(cells, cursor, j, m);
    var tail := history[|history| - m..];
    assert tail[m - j..] == history[|history| - j..];
    assert after[|after| - m'..] == history[|history| - j..] + data;
  }

  /**
   * One step of `write`: the two-piece copy is the cyclic-arc write, and the
   * store invariant holds of the new store, the advanced cursor and the
   * extended history.
   */
  lemma WriteStep<T>(cells: seq<T>, cursor: nat, history: seq<T>, data: seq<T>, cells': seq<T>, cursor': nat)
    requires cursor < |cells| && |data| <= |cells|
    requires Retains(cells, cursor, history)
    requires cells' == SplitCopy(cells, cursor, data) && cursor' == (cursor + |data|) % |cells|
    ensures cursor' < |cells'| && cells' == WriteInto(cells, cursor, data)
    ensures Retains(cells', cursor', history + data)
  {
    SplitCopyIsArc(cells, cursor, data);
    HistoryAfterWrite(cells, cursor, history, data);
  }

  /** Read-after-write: reading back as many samples as were written returns exactly them. */
  lemma {:induction false} WriteThenRead<T>(cells: seq<T>, cursor: nat, data: seq<T>)
    requires cursor < |cells| && 1 <= |data| <= |cells|
    ensures ReadFrom(WriteInto(cells, cursor, data), Advance(cursor, |data|, |cells|), |data|) == data
  {
    var after := WriteInto(cells, cursor, data);
    ReadIsRecent(after, Advance(cursor, |data|, |cells|), |data|);
    RecentAfterWrite(cells, cursor, data, |data|);
  }

  /**
   * Wrap-around: with the store full of `old`, writing `k <= size` more
   * samples makes a whole-store read return `old[k..]` followed by the new samples.
   */
  lemma {:induction false} WrapAround<T>(cells: seq<T>, cursor: nat, data: seq<T>)
    requires cursor < |cells| && |data| <= |cells|
    ensures Recent(WriteInto(cells, cursor, data), Advance(cursor, |data|, |cells|), |cells|)
            == Recent(cells, cursor, |cells|)[|data|..] + data
  {
    RecentAfterWrite(cells, cursor, data, |cells|);
    if |data| == |cells| {
      assert Recent(cells, cursor, |cells|)[|data|..] == [];
    } else {
      RecentSuffix(cells, cursor, |cells| - |data|, |cells|);
    }
  }

  /**
   * The cursor alone cannot tell that a full-capacity write changed the
   * store: it comes back to where it was. The wholesale cache clear on
   * every non-empty write is what keeps cursor-validated entries correct.
   */
  lemma {:induction false} FullWriteKeepsCursor<T>(cells: seq<T>, cursor: nat, data: seq<T>)
    requires cursor < |cells| && |data| == |cells|
    ensures Advance(cursor, |data|, |cells|) == cursor
    ensures Recent(WriteInto(cells, cursor, data), cursor, |cells|) == data
  {
    ModOneLap(cursor + |data|, |cells|);
    RecentAfterWrite(cells, cursor, data, |cells|);
  }
}
