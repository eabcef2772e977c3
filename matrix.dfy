/** The organizer keeps its adjacency relation in one flat vector of n*n
    booleans, row major: the edge x -> y lives at position x * n + y. */
module Matrix {

  /** Position of the edge x -> y in a flat n*n matrix. */
  function Cell(n: nat, x: nat, y: nat): nat
  {
    x * n + y
  }

  lemma MulMonotone(a: nat, b: nat, n: nat)
    requires a <= b
    ensures a * n <= b * n
  {
  }

  /** Every cell of an n*n matrix lies inside the flat vector and after the start of its row. */
  lemma CellBound(n: nat, x: nat, y: nat)
    requires x < n && y < n
    ensures x * n <= Cell(n, x, y) < n * n
  {
    MulMonotone(x + 1, n, n);
  }

  /** Distinct (row, column) pairs occupy distinct cells. */
  lemma CellInjective(n: nat, x: nat, y: nat, x': nat, y': nat)
    requires x < n && y < n && x' < n && y' < n
    requires Cell(n, x, y) == Cell(n, x', y')
    ensures x == x' && y == y'
  {
    if x < x' {
      MulMonotone(x + 1, x', n);
      assert false;
    } else if x' < x {
      MulMonotone(x' + 1, x, n);
      assert false;
    }
  }

  /** The edge x -> y is set in the flat matrix s of side n. */
  predicate At(s: seq<bool>, n: nat, x: nat, y: nat)
  {
    x < n && y < n && Cell(n, x, y) < |s| && s[Cell(n, x, y)]
  }

  /** Writing one cell changes exactly one edge of the matrix. */
  lemma AtUpdate(s: seq<bool>, t: seq<bool>, n: nat, x: nat, y: nat, v: bool)
    requires |s| == n * n && x < n && y < n
    requires Cell(n, x, y) < |s| && t == s[Cell(n, x, y) := v]
    ensures forall x': nat, y': nat :: At(t, n, x', y') == if x' == x && y' == y then v else At(s, n, x', y')
  {
    forall x': nat, y': nat
      ensures At(t, n, x', y') == if x' == x && y' == y then v else At(s, n, x', y')
    {
      if x' < n && y' < n {
        CellBound(n, x', y');
        if Cell(n, x', y') == Cell(n, x, y) {
          CellInjective(n, x, y, x', y');
        }
      }
    }
  }

  /** Reading a cell of an n*n array is reading the edge it holds. */
  lemma AtRead(s: seq<bool>, n: nat, x: nat, y: nat)
    requires |s| == n * n && x < n && y < n
    ensures Cell(n, x, y) < |s| && s[Cell(n, x, y)] == At(s, n, x, y)
  {
    CellBound(n, x, y);
  }
}
