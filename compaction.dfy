// Multi-line clearing in Board.CheckBoard (Assets/Scripts/Board.cs:231-249): the reference
// meaning "delete the full rows and let the rest fall", and the facts that connect the
// board's two loops (destroy each full row, then shift the rows above each one down) to it.

module Compaction {
  import opened Tetronimos
  import opened Grid

  /** The full rows in [lo, hi), in ascending order. */
  function FullRowsIn(b: Bounds, m: Tilemap, lo: int, hi: int): (r: seq<int>)
    ensures forall i :: 0 <= i < |r| ==> lo <= r[i] < hi && LineFull(b, m, r[i])
    decreases hi - lo
  {
    if hi <= lo then []
    else FullRowsIn(b, m, lo, hi - 1) + (if LineFull(b, m, hi - 1) then [hi - 1] else [])
  }

  predicate Ascending(s: seq<int>)
  {
    forall i, j :: 0 <= i < j < |s| ==> s[i] < s[j]
  }

  /** The full rows are listed bottom to top, each once. */
  lemma {:induction false} FullRowsSorted(b: Bounds, m: Tilemap, lo: int, hi: int)
    ensures Ascending(FullRowsIn(b, m, lo, hi))
    decreases hi - lo
  {
    if lo < hi {
      FullRowsSorted(b, m, lo, hi - 1);
      var prev := FullRowsIn(b, m, lo, hi - 1);
      var r := FullRowsIn(b, m, lo, hi);
      if LineFull(b, m, hi - 1) {
        assert r == prev + [hi - 1];
        forall i, j | 0 <= i < j < |r| ensures r[i] < r[j] {
          assert r[i] == prev[i];
          assert r[j] == if j < |prev| then prev[j] else hi - 1;
        }
      } else {
        assert r == prev;
      }
    }
  }

  /** Every full row in [lo, hi) is listed. */
  lemma {:induction false} FullRowsComplete(b: Bounds, m: Tilemap, lo: int, hi: int)
    ensures forall y :: lo <= y < hi && LineFull(b, m, y) ==> y in FullRowsIn(b, m, lo, hi)
    decreases hi - lo
  {
    if lo < hi {
      FullRowsComplete(b, m, lo, hi - 1);
    }
  }

  /** The rows in [lo, hi) that are not full, in ascending order. */
  function KeptRowsIn(b: Bounds, m: Tilemap, lo: int, hi: int): (r: seq<int>)
    ensures forall i :: 0 <= i < |r| ==> lo <= r[i] < hi && !LineFull(b, m, r[i])
    decreases hi - lo
  {
    if hi <= lo then []
    else KeptRowsIn(b, m, lo, hi - 1) + (if LineFull(b, m, hi - 1) then [] else [hi - 1])
  }

  /** Reference meaning of the clear: inside the board, row bottom + j holds the j-th row
      that was not full (in ascending order), and the rows above those are empty; every cell
      outside the board keeps its tile. */
  function CompactedAt(b: Bounds, m: Tilemap, p: Vec): Option<Tile>
  {
    if !InBounds(b, p) then Get(m, p)
    else
      var kept := KeptRowsIn(b, m, b.bottom, b.top);
      if p.y - b.bottom < |kept| then Get(m, Vec(p.x, kept[p.y - b.bottom])) else None
  }

  /** The whole tilemap after the clear, cell by cell as `CompactedAt` says. */
  function Compacted(b: Bounds, m: Tilemap): (r: Tilemap)
    ensures forall q :: Get(r, q) == CompactedAt(b, m, q)
  {
    var outside := set q | q in m && !InBounds(b, q);
    var window := set x, y | b.left <= x < b.right && b.bottom <= y < b.top :: Vec(x, y);
    var r := map q | q in outside + window && CompactedAt(b, m, q).Some? :: CompactedAt(b, m, q).value;
    assert forall q :: Get(r, q) == CompactedAt(b, m, q) by {
      forall q ensures Get(r, q) == CompactedAt(b, m, q) {
        if InBounds(b, q) {
          assert q == Vec(q.x, q.y);
          assert q in window;
        }
      }
    }
    r
  }

  lemma {:induction false} FullSplit(b: Bounds, m: Tilemap, lo: int, mid: int, hi: int)
    requires lo <= mid <= hi
    ensures FullRowsIn(b, m, lo, hi) == FullRowsIn(b, m, lo, mid) + FullRowsIn(b, m, mid, hi)
    decreases hi - mid
  {
    if hi > mid {
      FullSplit(b, m, lo, mid, hi - 1);
    }
  }

  lemma {:induction false} KeptSplit(b: Bounds, m: Tilemap, lo: int, mid: int, hi: int)
    requires lo <= mid <= hi
    ensures KeptRowsIn(b, m, lo, hi) == KeptRowsIn(b, m, lo, mid) + KeptRowsIn(b, m, mid, hi)
    decreases hi - mid
  {
    if hi > mid {
      KeptSplit(b, m, lo, mid, hi - 1);
    }
  }

  /** Every row of [lo, hi) is either full or kept. */
  lemma {:induction false} RowCounts(b: Bounds, m: Tilemap, lo: int, hi: int)
    requires lo <= hi
    ensures |KeptRowsIn(b, m, lo, hi)| + |FullRowsIn(b, m, lo, hi)| == hi - lo
    decreases hi - lo
  {
    if hi > lo {
      RowCounts(b, m, lo, hi - 1);
    }
  }

  /** With no full row in [lo, hi), every row is kept, in order. */
  lemma {:induction false} KeptAll(b: Bounds, m: Tilemap, lo: int, hi: int)
    requires lo <= hi
    requires forall y :: lo <= y < hi ==> !LineFull(b, m, y)
    ensures |KeptRowsIn(b, m, lo, hi)| == hi - lo
    ensures forall j :: 0 <= j < hi - lo ==> KeptRowsIn(b, m, lo, hi)[j] == lo + j
    decreases hi - lo
  {
    if hi > lo {
      KeptAll(b, m, lo, hi - 1);
    }
  }

  lemma AppendAt(a: seq<int>, c: seq<int>, i: int)
    ensures |a| <= i < |a| + |c| ==> (a + c)[i] == c[i - |a|]
  {
  }

  /** The full rows below the k-th full row are exactly the first k. */
  lemma FullPrefix(b: Bounds, m: Tilemap, lo: int, hi: int, k: nat)
    requires k < |FullRowsIn(b, m, lo, hi)|
    ensures FullRowsIn(b, m, lo, FullRowsIn(b, m, lo, hi)[k]) == FullRowsIn(b, m, lo, hi)[..k]
  {
    var d := FullRowsIn(b, m, lo, hi);
    var a := FullRowsIn(b, m, lo, d[k]);
    var c := FullRowsIn(b, m, d[k], hi);
    FullSplit(b, m, lo, d[k], hi);
    FullRowsSorted(b, m, lo, hi);
    assert d == a + c;
    if |a| > k {
      assert false;
    } else if |a| < k {
      AppendAt(a, c, |a|);
      assert false;
    }
    assert d[..k] == a;
  }

  /** The k-th row of `d`, or `top` when `d` has fewer rows. */
  function NextRow(b: Bounds, d: seq<int>, k: nat): int
  {
    if k < |d| then d[k] else b.top
  }

  /** Between the k-th full row and the next one (or the top) every row is kept. */
  lemma NoFullBetween(b: Bounds, m: Tilemap, k: nat)
    requires k < |FullRowsIn(b, m, b.bottom, b.top)|
    ensures var d := FullRowsIn(b, m, b.bottom, b.top);
      d[k] < NextRow(b, d, k + 1) <= b.top &&
      forall y :: d[k] < y < NextRow(b, d, k + 1) ==> !LineFull(b, m, y)
  {
    FullRowsSorted(b, m, b.bottom, b.top);
    FullRowsComplete(b, m, b.bottom, b.top);
  }

  /** The tile at p once the full rows below `hi` have been erased (CheckBoard's first loop). */
  function DestroyedAt(b: Bounds, m: Tilemap, hi: int, p: Vec): Option<Tile>
  {
    if InBounds(b, p) && p.y < hi && LineFull(b, m, p.y) then None else Get(m, p)
  }

  /** The destroy loop at row `y`: the row is still as in `m`, so the board's scan of it agrees
      with `m`, the list of full rows grows by `y` exactly when it is full, and a row that is
      not full needs no change. */
  lemma DestroyRow(b: Bounds, m: Tilemap, y: int, cur: Tilemap)
    requires forall q :: Get(cur, q) == DestroyedAt(b, m, y, q)
    ensures LineFull(b, cur, y) == LineFull(b, m, y)
    ensures b.bottom <= y ==>
      FullRowsIn(b, m, b.bottom, y + 1) == FullRowsIn(b, m, b.bottom, y) + (if LineFull(b, m, y) then [y] else [])
    ensures !LineFull(b, m, y) ==> forall q :: Get(cur, q) == DestroyedAt(b, m, y + 1, q)
  {
    forall x ensures Vec(x, y) in cur <==> Vec(x, y) in m {
      assert Get(cur, Vec(x, y)) == Get(m, Vec(x, y));
    }
  }

  /** Erasing a full row `y` extends the destroyed region to it. */
  lemma DestroyFullRow(b: Bounds, m: Tilemap, y: int, cur: Tilemap, next: Tilemap)
    requires b.bottom <= y < b.top && LineFull(b, m, y)
    requires forall q :: Get(cur, q) == DestroyedAt(b, m, y, q)
    requires forall q :: Get(next, q) == if q.y == y && b.left <= q.x < b.right then None else Get(cur, q)
    ensures forall q :: Get(next, q) == DestroyedAt(b, m, y + 1, q)
  {
  }

  /** When the destroy loop ends, it has covered every row of the board. */
  lemma DestroyDone(b: Bounds, m: Tilemap, y: int)
    requires y == if b.bottom <= b.top then b.top else b.bottom
    ensures FullRowsIn(b, m, b.bottom, y) == FullRowsIn(b, m, b.bottom, b.top)
    ensures forall q :: DestroyedAt(b, m, y, q) == DestroyedAt(b, m, b.top, q)
  {
  }

  /** The tile at p after the shifts for the first k full rows `d` (CheckBoard's second loop):
      the kept rows below the k-th full row sit compacted at the bottom, the rest of the
      erased board sits k rows lower, and the k top rows are empty. */
  function ShiftProgressAt(b: Bounds, m: Tilemap, d: seq<int>, k: nat, p: Vec): Option<Tile>
  {
    if !InBounds(b, p) then Get(m, p)
    else
      var kept := KeptRowsIn(b, m, b.bottom, NextRow(b, d, k));
      if p.y - b.bottom < |kept| then Get(m, Vec(p.x, kept[p.y - b.bottom]))
      else if p.y < b.top - k then DestroyedAt(b, m, b.top, Vec(p.x, p.y + k))
      else None
  }

  /** No row below the first full one (or below the top, when there is none) is full. */
  lemma NoFullBelowFirst(b: Bounds, m: Tilemap)
    ensures var d := FullRowsIn(b, m, b.bottom, b.top);
      forall y :: b.bottom <= y < NextRow(b, d, 0) ==> !LineFull(b, m, y)
  {
    var d := FullRowsIn(b, m, b.bottom, b.top);
    FullRowsSorted(b, m, b.bottom, b.top);
    FullRowsComplete(b, m, b.bottom, b.top);
    forall j | 0 < j < |d| ensures d[0] < d[j] {
      assert Ascending(d);
    }
  }

  /** Before any shift, the progress description is the erased board. */
  lemma ShiftStart(b: Bounds, m: Tilemap)
    ensures var d := FullRowsIn(b, m, b.bottom, b.top);
      forall q :: DestroyedAt(b, m, b.top, q) == ShiftProgressAt(b, m, d, 0, q)
  {
    var d := FullRowsIn(b, m, b.bottom, b.top);
    var e := NextRow(b, d, 0);
    NoFullBelowFirst(b, m);
    if b.bottom <= e {
      KeptAll(b, m, b.bottom, e);
    }
    forall q | InBounds(b, q) ensures DestroyedAt(b, m, b.top, q) == ShiftProgressAt(b, m, d, 0, q) {
      assert Vec(q.x, q.y + 0) == q;
    }
  }

  /** What the k-th full row tells about the kept rows below it and below the next one. */
  lemma ShiftFacts(b: Bounds, m: Tilemap, k: nat)
    requires k < |FullRowsIn(b, m, b.bottom, b.top)|
    ensures var d := FullRowsIn(b, m, b.bottom, b.top);
      var kb := KeptRowsIn(b, m, b.bottom, d[k]);
      var kb2 := KeptRowsIn(b, m, b.bottom, NextRow(b, d, k + 1));
      && b.bottom <= d[k] < NextRow(b, d, k + 1) <= b.top && LineFull(b, m, d[k])
      && (forall y :: d[k] < y < NextRow(b, d, k + 1) ==> !LineFull(b, m, y))
      && |kb| == d[k] - b.bottom - k && |kb2| == |kb| + (NextRow(b, d, k + 1) - d[k] - 1)
      && (forall j :: 0 <= j < |kb| ==> kb2[j] == kb[j])
      && (forall j :: |kb| <= j < |kb2| ==> kb2[j] == d[k] + 1 + (j - |kb|))
  {
    var d := FullRowsIn(b, m, b.bottom, b.top);
    var row := d[k];
    var e := NextRow(b, d, k + 1);
    var kb := KeptRowsIn(b, m, b.bottom, row);
    var kb2 := KeptRowsIn(b, m, b.bottom, e);
    FullPrefix(b, m, b.bottom, b.top, k);
    RowCounts(b, m, b.bottom, row);
    NoFullBetween(b, m, k);
    KeptSplit(b, m, b.bottom, row + 1, e);
    KeptSplit(b, m, b.bottom, row, row + 1);
    assert KeptRowsIn(b, m, row, row + 1) == [];
    KeptAll(b, m, row + 1, e);
    assert kb2 == kb + KeptRowsIn(b, m, row + 1, e);
  }

  /** One iteration of the shift loop: `ShiftRowsDown(d[k] - k)` takes progress k to k + 1. */
  lemma ShiftStep(b: Bounds, m: Tilemap, k: nat, cur: Tilemap, next: Tilemap)
    requires k < |FullRowsIn(b, m, b.bottom, b.top)|
    requires var d := FullRowsIn(b, m, b.bottom, b.top);
      forall q :: Get(cur, q) == ShiftProgressAt(b, m, d, k, q)
    requires var d := FullRowsIn(b, m, b.bottom, b.top);
      forall q :: Get(next, q) == ShiftedAt(b, cur, d[k] - k, q)
    ensures var d := FullRowsIn(b, m, b.bottom, b.top);
      forall q :: Get(next, q) == ShiftProgressAt(b, m, d, k + 1, q)
  {
    var d := FullRowsIn(b, m, b.bottom, b.top);
    var kb := KeptRowsIn(b, m, b.bottom, d[k]);
    var kb2 := KeptRowsIn(b, m, b.bottom, NextRow(b, d, k + 1));
    ShiftFacts(b, m, k);
    forall q ensures Get(next, q) == ShiftProgressAt(b, m, d, k + 1, q) {
      ShiftStepPoint(b, m, d, k, cur, q, kb, kb2);
    }
  }

  /** `ShiftStep` at one cell. */
  lemma ShiftStepPoint(b: Bounds, m: Tilemap, d: seq<int>, k: nat, cur: Tilemap, q: Vec, kb: seq<int>, kb2: seq<int>)
    requires k < |d| && kb == KeptRowsIn(b, m, b.bottom, d[k]) && kb2 == KeptRowsIn(b, m, b.bottom, NextRow(b, d, k + 1))
    requires b.bottom <= d[k] < NextRow(b, d, k + 1) <= b.top && LineFull(b, m, d[k])
    requires forall y :: d[k] < y < NextRow(b, d, k + 1) ==> !LineFull(b, m, y)
    requires |kb| == d[k] - b.bottom - k && |kb2| == |kb| + (NextRow(b, d, k + 1) - d[k] - 1)
    requires forall j :: 0 <= j < |kb| ==> kb2[j] == kb[j]
    requires forall j :: |kb| <= j < |kb2| ==> kb2[j] == d[k] + 1 + (j - |kb|)
    requires forall p :: Get(cur, p) == ShiftProgressAt(b, m, d, k, p)
    ensures ShiftedAt(b, cur, d[k] - k, q) == ShiftProgressAt(b, m, d, k + 1, q)
  {
    assert Get(cur, q) == ShiftProgressAt(b, m, d, k, q);
    assert Get(cur, Vec(q.x, q.y + 1)) == ShiftProgressAt(b, m, d, k, Vec(q.x, q.y + 1));
    if !InBounds(b, q) || q.y < d[k] - k {
      ShiftStepBelow(b, m, d, k, q, kb, kb2);
    } else if q.y < b.top - 1 {
      ShiftStepMoved(b, m, d, k, q, kb, kb2);
    } else {
      ShiftStepTop(b, m, d, k, cur, q, kb, kb2);
    }
  }

  /** `ShiftStep` below the shifted row: the tile stays where it is. */
  lemma ShiftStepBelow(b: Bounds, m: Tilemap, d: seq<int>, k: nat, q: Vec, kb: seq<int>, kb2: seq<int>)
    requires k < |d| && kb == KeptRowsIn(b, m, b.bottom, d[k]) && kb2 == KeptRowsIn(b, m, b.bottom, NextRow(b, d, k + 1))
    requires b.bottom <= d[k] && |kb| == d[k] - b.bottom - k && |kb| <= |kb2|
    requires forall j :: 0 <= j < |kb| ==> kb2[j] == kb[j]
    requires !InBounds(b, q) || q.y < d[k] - k
    ensures ShiftProgressAt(b, m, d, k, q) == ShiftProgressAt(b, m, d, k + 1, q)
  {
    if InBounds(b, q) {
      assert kb2[q.y - b.bottom] == kb[q.y - b.bottom];
    }
  }

  /** `ShiftStep` from the shifted row up to the row below the top: the tile comes from one row up. */
  lemma ShiftStepMoved(b: Bounds, m: Tilemap, d: seq<int>, k: nat, q: Vec, kb: seq<int>, kb2: seq<int>)
    requires k < |d| && kb == KeptRowsIn(b, m, b.bottom, d[k]) && kb2 == KeptRowsIn(b, m, b.bottom, NextRow(b, d, k + 1))
    requires b.bottom <= d[k] < NextRow(b, d, k + 1) <= b.top
    requires forall y :: d[k] < y < NextRow(b, d, k + 1) ==> !LineFull(b, m, y)
    requires |kb| == d[k] - b.bottom - k && |kb2| == |kb| + (NextRow(b, d, k + 1) - d[k] - 1)
    requires forall j :: |kb| <= j < |kb2| ==> kb2[j] == d[k] + 1 + (j - |kb|)
    requires InBounds(b, q) && d[k] - k <= q.y < b.top - 1
    ensures ShiftProgressAt(b, m, d, k, Vec(q.x, q.y + 1)) == ShiftProgressAt(b, m, d, k + 1, q)
  {
    var up := Vec(q.x, q.y + 1);
    var j := q.y - b.bottom;
    var src := Vec(q.x, q.y + k + 1);
    assert up.y - b.bottom >= |kb|;
    assert Vec(up.x, up.y + k) == src;
    if j < |kb2| {
      assert kb2[j] == src.y;
      assert DestroyedAt(b, m, b.top, src) == Get(m, src);
    }
  }

  /** `ShiftStep` at the top row. */
  lemma ShiftStepTop(b: Bounds, m: Tilemap, d: seq<int>, k: nat, cur: Tilemap, q: Vec, kb: seq<int>, kb2: seq<int>)
    requires k < |d| && kb == KeptRowsIn(b, m, b.bottom, d[k]) && |kb| == d[k] - b.bottom - k
    requires kb2 == KeptRowsIn(b, m, b.bottom, NextRow(b, d, k + 1))
    requires b.bottom <= d[k] < b.top && LineFull(b, m, d[k]) && |kb2| <= b.top - b.bottom - (k + 1)
    requires InBounds(b, q) && q.y == b.top - 1 && d[k] - k <= q.y
    requires Get(cur, q) == ShiftProgressAt(b, m, d, k, q)
    ensures ShiftedAt(b, cur, d[k] - k, q) == ShiftProgressAt(b, m, d, k + 1, q)
  {
    if d[k] - k == b.top - 1 {
      assert Vec(q.x, q.y + k) == Vec(q.x, d[k]);
    }
  }

  /** After the shift for every full row, the progress description is the reference clear. */
  lemma ShiftDone(b: Bounds, m: Tilemap)
    ensures var d := FullRowsIn(b, m, b.bottom, b.top);
      forall q :: ShiftProgressAt(b, m, d, |d|, q) == CompactedAt(b, m, q)
  {
    if b.bottom <= b.top {
      RowCounts(b, m, b.bottom, b.top);
    }
  }

  /** If the board has at least one column, no row of it is full after the clear. */
  lemma {:induction false} NoFullRowAfterClear(b: Bounds, m: Tilemap, y: int)
    requires b.left < b.right && b.bottom <= y < b.top
    ensures !LineFull(b, Compacted(b, m), y)
  {
    var c := Compacted(b, m);
    var kept := KeptRowsIn(b, m, b.bottom, b.top);
    var j := y - b.bottom;
    if j < |kept| {
      var x :| b.left <= x < b.right && Vec(x, kept[j]) !in m;
      assert Get(c, Vec(x, y)) == None;
    } else {
      assert Get(c, Vec(b.left, y)) == None;
    }
  }

  /** A row that was not full drops by the number of full rows below it, tile for tile. */
  lemma {:induction false} KeptRowDrops(b: Bounds, m: Tilemap, y: int, x: int)
    requires b.bottom <= y < b.top && b.left <= x < b.right && !LineFull(b, m, y)
    ensures Get(Compacted(b, m), Vec(x, y - |FullRowsIn(b, m, b.bottom, y)|)) == Get(m, Vec(x, y))
  {
    var dest := Vec(x, y - |FullRowsIn(b, m, b.bottom, y)|);
    KeptIndex(b, m, y);
    assert InBounds(b, dest);
    assert CompactedAt(b, m, dest) == Get(m, Vec(x, y));
  }

  /** A kept row's place among the kept rows is its height less the full rows below it. */
  lemma {:induction false} KeptIndex(b: Bounds, m: Tilemap, y: int)
    requires b.bottom <= y < b.top && !LineFull(b, m, y)
    ensures var j := y - b.bottom - |FullRowsIn(b, m, b.bottom, y)|;
      0 <= j < |KeptRowsIn(b, m, b.bottom, b.top)| && KeptRowsIn(b, m, b.bottom, b.top)[j] == y
  {
    var kept := KeptRowsIn(b, m, b.bottom, b.top);
    var below := KeptRowsIn(b, m, b.bottom, y);
    var above := KeptRowsIn(b, m, y + 1, b.top);
    KeptSplit(b, m, b.bottom, y, b.top);
    KeptSplit(b, m, y, y + 1, b.top);
    assert KeptRowsIn(b, m, y, y + 1) == [y];
    assert kept == below + [y] + above;
    RowCounts(b, m, b.bottom, y);
  }

  /** The top rows, one for each full row, are empty after the clear. */
  lemma {:induction false} VacatedRowsEmpty(b: Bounds, m: Tilemap, y: int, x: int)
    requires b.top - |FullRowsIn(b, m, b.bottom, b.top)| <= y < b.top && b.left <= x < b.right
    ensures Get(Compacted(b, m), Vec(x, y)) == None
  {
    RowCounts(b, m, b.bottom, b.top);
  }
}
