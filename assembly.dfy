/** The residual vector and the sparse Jacobian as the contact sees them:
    indexed reads (an entry never written reads as zero) and insertion with
    additive semantics (ADD_VALUES). */
module Assembly {

  /** Residual vector: global row -> value. */
  type Vector = map<int, real>

  /** Sparse Jacobian: (global row, global column) -> value. */
  type Matrix = map<(int, int), real>

  /** One additive Jacobian insertion. */
  datatype Entry = Entry(row: int, col: int, value: real)

  /** The value at row `r`; zero where nothing was ever written. */
  function Get(f: Vector, r: int): (v: real) {
    if r in f then f[r] else 0.0
  }

  /** The value at (`r`, `c`); zero where nothing was ever written. */
  function At(m: Matrix, r: int, c: int): (v: real) {
    if (r, c) in m then m[(r, c)] else 0.0
  }

  /** Sum of a list of reals, accumulated from the left starting at zero. */
  function Sum(s: seq<real>): (v: real) {
    if |s| == 0 then 0.0 else Sum(s[..|s| - 1]) + s[|s| - 1]
  }

  /** Sum of the values `y[k]` whose index `iy[k]` is `r`. */
  function SumAt(iy: seq<int>, y: seq<real>, r: int): (v: real)
    requires |iy| == |y|
  {
    if |iy| == 0 then 0.0
    else SumAt(iy[..|iy| - 1], y[..|y| - 1], r) + (if iy[|iy| - 1] == r then y[|y| - 1] else 0.0)
  }

  /** VecSetValues with ADD_VALUES: add `y[k]` to row `iy[k]`, in order. */
  function AddValues(f: Vector, iy: seq<int>, y: seq<real>): (g: Vector)
    requires |iy| == |y|
  {
    if |iy| == 0 then f
    else
      var g := AddValues(f, iy[..|iy| - 1], y[..|y| - 1]);
      var r := iy[|iy| - 1];
      g[r := Get(g, r) + y[|y| - 1]]
  }

  /** One more insertion at the end of the list. */
  lemma AddValuesPush(f: Vector, iy: seq<int>, y: seq<real>, r: int, v: real)
    requires |iy| == |y|
    ensures AddValues(f, iy + [r], y + [v]) == AddValues(f, iy, y)[r := Get(AddValues(f, iy, y), r) + v]
  {
    assert (iy + [r])[..|iy|] == iy;
    assert (y + [v])[..|y|] == y;
  }

  /** Sum of the values of the entries at (`r`, `c`). */
  function EntrySum(es: seq<Entry>, r: int, c: int): (v: real) {
    if |es| == 0 then 0.0
    else
      var e := es[|es| - 1];
      EntrySum(es[..|es| - 1], r, c) + (if e.row == r && e.col == c then e.value else 0.0)
  }

  /** A sequence of `add` calls on the Jacobian, in order. */
  function AddEntries(m: Matrix, es: seq<Entry>): (r: Matrix) {
    if |es| == 0 then m
    else
      var g := AddEntries(m, es[..|es| - 1]);
      var e := es[|es| - 1];
      g[(e.row, e.col) := At(g, e.row, e.col) + e.value]
  }

  /** `add_row(row, n, cols, vals)`: the entries (row, cols[k], vals[k]) in order. */
  function RowEntries(row: int, cols: seq<int>, vals: seq<real>): (es: seq<Entry>)
    requires |cols| == |vals|
    ensures |es| == |cols|
    ensures forall k :: 0 <= k < |es| ==> es[k] == Entry(row, cols[k], vals[k])
  {
    if |cols| == 0 then []
    else RowEntries(row, cols[..|cols| - 1], vals[..|vals| - 1]) + [Entry(row, cols[|cols| - 1], vals[|vals| - 1])]
  }

  /** Every entry of an `add_row` lies in its row. */
  lemma RowEntriesInRow(row: int, cols: seq<int>, vals: seq<real>, e: Entry)
    requires |cols| == |vals|
    requires e in RowEntries(row, cols, vals)
    ensures e.row == row
  {
  }

  /** Additive insertion into the residual: every row ends up with its old
      value plus the sum of everything inserted at it, and nothing else. */
  lemma {:induction false} AddValuesAt(f: Vector, iy: seq<int>, y: seq<real>, r: int)
    requires |iy| == |y|
    ensures Get(AddValues(f, iy, y), r) == Get(f, r) + SumAt(iy, y, r)
  {
    if |iy| > 0 {
      AddValuesAt(f, iy[..|iy| - 1], y[..|y| - 1], r);
    }
  }

  /** Inserting two lists one after the other is inserting their concatenation. */
  lemma {:induction false} AddValuesAppend(f: Vector, iy1: seq<int>, y1: seq<real>, iy2: seq<int>, y2: seq<real>)
    requires |iy1| == |y1| && |iy2| == |y2|
    ensures AddValues(AddValues(f, iy1, y1), iy2, y2) == AddValues(f, iy1 + iy2, y1 + y2)
    decreases |iy2|
  {
    if |iy2| > 0 {
      var iy, y := iy1 + iy2, y1 + y2;
      assert iy[..|iy| - 1] == iy1 + iy2[..|iy2| - 1];
      assert y[..|y| - 1] == y1 + y2[..|y2| - 1];
      AddValuesAppend(f, iy1, y1, iy2[..|iy2| - 1], y2[..|y2| - 1]);
    } else {
      assert iy1 + iy2 == iy1 && y1 + y2 == y1;
    }
  }

  /** SumAt splits over concatenation. */
  lemma {:induction false} SumAtAppend(iy1: seq<int>, y1: seq<real>, iy2: seq<int>, y2: seq<real>, r: int)
    requires |iy1| == |y1| && |iy2| == |y2|
    ensures SumAt(iy1 + iy2, y1 + y2, r) == SumAt(iy1, y1, r) + SumAt(iy2, y2, r)
    decreases |iy2|
  {
    if |iy2| > 0 {
      var iy, y := iy1 + iy2, y1 + y2;
      assert iy[..|iy| - 1] == iy1 + iy2[..|iy2| - 1];
      assert y[..|y| - 1] == y1 + y2[..|y2| - 1];
      SumAtAppend(iy1, y1, iy2[..|iy2| - 1], y2[..|y2| - 1], r);
    } else {
      assert iy1 + iy2 == iy1 && y1 + y2 == y1;
    }
  }

  /** Nothing is inserted at a row that does not occur among the indices. */
  lemma {:induction false} SumAtAbsent(iy: seq<int>, y: seq<real>, r: int)
    requires |iy| == |y|
    requires r !in iy
    ensures SumAt(iy, y, r) == 0.0
  {
    if |iy| > 0 {
      assert iy[..|iy| - 1] <= iy;
      SumAtAbsent(iy[..|iy| - 1], y[..|y| - 1], r);
    }
  }

  /** Additive insertion into the Jacobian: every entry ends up with its old
      value plus the sum of everything inserted at it, and nothing else. */
  lemma {:induction false} AddEntriesAt(m: Matrix, es: seq<Entry>, r: int, c: int)
    ensures At(AddEntries(m, es), r, c) == At(m, r, c) + EntrySum(es, r, c)
  {
    if |es| > 0 {
      AddEntriesAt(m, es[..|es| - 1], r, c);
    }
  }

  /** Inserting two lists one after the other is inserting their concatenation. */
  lemma {:induction false} AddEntriesAppend(m: Matrix, es1: seq<Entry>, es2: seq<Entry>)
    ensures AddEntries(AddEntries(m, es1), es2) == AddEntries(m, es1 + es2)
    decreases |es2|
  {
    if |es2| > 0 {
      var es := es1 + es2;
      assert es[..|es| - 1] == es1 + es2[..|es2| - 1];
      AddEntriesAppend(m, es1, es2[..|es2| - 1]);
    } else {
      assert es1 + es2 == es1;
    }
  }

  /** EntrySum splits over concatenation. */
  lemma {:induction false} EntrySumAppend(es1: seq<Entry>, es2: seq<Entry>, r: int, c: int)
    ensures EntrySum(es1 + es2, r, c) == EntrySum(es1, r, c) + EntrySum(es2, r, c)
    decreases |es2|
  {
    if |es2| > 0 {
      var es := es1 + es2;
      assert es[..|es| - 1] == es1 + es2[..|es2| - 1];
      EntrySumAppend(es1, es2[..|es2| - 1], r, c);
    } else {
      assert es1 + es2 == es1;
    }
  }

  /** One more value adds to the sum. */
  lemma SumPush(s: seq<real>, v: real)
    ensures Sum(s + [v]) == Sum(s) + v
  {
    assert (s + [v])[..|s|] == s;
  }

  /** Sum splits over concatenation. */
  lemma {:induction false} SumAppend(a: seq<real>, b: seq<real>)
    ensures Sum(a + b) == Sum(a) + Sum(b)
    decreases |b|
  {
    if |b| > 0 {
      var s := a + b;
      assert s[..|s| - 1] == a + b[..|b| - 1];
      SumAppend(a, b[..|b| - 1]);
    } else {
      assert a + b == a;
    }
  }
}
