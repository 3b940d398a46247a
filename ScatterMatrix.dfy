/**
 * The scatter-plot matrix's `cross(a, b)`: every pair of traits, one cell
 * per pair, with the positions of both traits.
 */
module ScatterMatrix {

  /** The object `{x: a[i], i: i, y: b[j], j: j}` of one matrix cell. */
  datatype Cell<T> = Cell(x: T, i: int, y: T, j: int)

  /** The row-major position of row `i`, column `j` when rows are `width`
      long: the index `i * |b| + j` at which `cross` pushes that cell. */
  function Position(i: int, j: int, width: int): int
  {
    i * width + j
  }

  /** Row `i` of the product: `a[i]` paired with every element of `b`. */
  function Row<T>(a: seq<T>, b: seq<T>, i: nat): (row: seq<Cell<T>>)
    requires i < |a|
    ensures |row| == |b|
    ensures forall j :: 0 <= j < |b| ==> row[j] == Cell(a[i], i, b[j], j)
  {
    seq(|b|, j requires 0 <= j < |b| => Cell(a[i], i, b[j], j))
  }

  /** The first `k` rows, one after the other. */
  function Rows<T>(a: seq<T>, b: seq<T>, k: nat): seq<Cell<T>>
    requires k <= |a|
  {
    if k == 0 then [] else Rows(a, b, k - 1) + Row(a, b, k - 1)
  }

  lemma {:induction false} MulAtLeast(k: int, m: int)
    requires k >= 1 && m >= 0
    ensures k * m >= m
    decreases k
  {
    if k > 1 {
      MulAtLeast(k - 1, m);
      assert k * m == (k - 1) * m + m;
    }
  }

  /** The first `k` rows hold `k * |b|` cells. */
  lemma {:induction false} RowsLength<T>(a: seq<T>, b: seq<T>, k: nat)
    requires k <= |a|
    ensures |Rows(a, b, k)| == k * |b|
    decreases k
  {
    if k > 0 {
      RowsLength(a, b, k - 1);
      assert k * |b| == (k - 1) * |b| + |b|;
    }
  }

  /** Among the first `k` rows, the cell for `a[i]` and `b[j]` is at
      row-major position `i * |b| + j`. */
  lemma {:induction false} RowsAt<T>(a: seq<T>, b: seq<T>, k: nat, i: int, j: int)
    requires k <= |a| && 0 <= i < k && 0 <= j < |b|
    ensures Position(i, j, |b|) < |Rows(a, b, k)|
    ensures Rows(a, b, k)[Position(i, j, |b|)] == Cell(a[i], i, b[j], j)
    decreases k
  {
    var m, p := |b|, i * |b| + j;
    var prefix := Rows(a, b, k - 1);
    RowsLength(a, b, k - 1);
    RowsLength(a, b, k);
    if i < k - 1 {
      RowsAt(a, b, k - 1, i, j);
      assert Rows(a, b, k)[p] == prefix[p];
    } else {
      assert i * m == (k - 1) * m;
      assert Rows(a, b, k)[p] == Row(a, b, k - 1)[j];
    }
  }

  /** Row-major order: every cell of an earlier row is pushed before every
      cell of a later row. */
  lemma RowMajorOrder<T>(a: seq<T>, b: seq<T>, k: nat, i: int, j: int, i': int, j': int)
    requires k <= |a| && 0 <= i' < i < k && 0 <= j < |b| && 0 <= j' < |b|
    ensures Position(i', j', |b|) < Position(i, j, |b|) < |Rows(a, b, k)|
    ensures Rows(a, b, k)[Position(i', j', |b|)] == Cell(a[i'], i', b[j'], j')
    ensures Rows(a, b, k)[Position(i, j, |b|)] == Cell(a[i], i, b[j], j)
  {
    RowsAt(a, b, k, i', j');
    RowsAt(a, b, k, i, j);
    var m := |b|;
    MulAtLeast(i - i', m);
    assert i * m == i' * m + (i - i') * m;
  }

  /** All rows together are the row-major product. */
  lemma AllRows<T>(a: seq<T>, b: seq<T>)
    ensures |Rows(a, b, |a|)| == |a| * |b|
    ensures forall i, j :: 0 <= i < |a| && 0 <= j < |b| ==>
      Position(i, j, |b|) < |Rows(a, b, |a|)| && Rows(a, b, |a|)[Position(i, j, |b|)] == Cell(a[i], i, b[j], j)
  {
    RowsLength(a, b, |a|);
    forall i, j | 0 <= i < |a| && 0 <= j < |b|
      ensures Position(i, j, |b|) < |Rows(a, b, |a|)| && Rows(a, b, |a|)[Position(i, j, |b|)] == Cell(a[i], i, b[j], j)
    {
      RowsAt(a, b, |a|, i, j);
    }
  }

  /** `cross(a, b)`: the nested loops push the cells row by row, so the cell
      for `a[i]` and `b[j]` is at position `i * |b| + j` and there is one cell
      per pair. */
  method Cross<T>(a: seq<T>, b: seq<T>) returns (c: seq<Cell<T>>)
    ensures |c| == |a| * |b|
    ensures forall i, j :: 0 <= i < |a| && 0 <= j < |b| ==> Position(i, j, |b|) < |c| && c[Position(i, j, |b|)] == Cell(a[i], i, b[j], j)
  {
    c := [];
    var n, m := |a|, |b|;
    for i := 0 to n
      invariant c == Rows(a, b, i)
    {
      for j := 0 to m
        invariant c == Rows(a, b, i) + Row(a, b, i)[..j]
      {
        assert Row(a, b, i)[..j + 1] == Row(a, b, i)[..j] + [Cell(a[i], i, b[j], j)];
        c := c + [Cell(a[i], i, b[j], j)];
      }
      assert Row(a, b, i)[..m] == Row(a, b, i);
    }
    AllRows(a, b);
  }
}
