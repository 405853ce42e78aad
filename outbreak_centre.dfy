/**
 * The outbreak centre of `outbreak_analyser.py`.
 *
 * `Location` is this model's reading of columns 1-2 (`row[1:3]`); the
 * distance matrix and the centre are both defined through it.
 *
 * A case table is a list of rows; column 1 of a row is the case's X
 * coordinate (metres east) and column 2 its Y coordinate (metres north).
 * `calculate_distance_matrix` compares every case with every other case, and
 * `find_outbreak_centre` picks the entry NumPy's `argmax` reports (the first
 * largest one in row-major order) and returns the X,Y of that entry's ROW.
 *
 * Distances are kept SQUARED: the real square root, which `np.sqrt`
 * approximates, is strictly increasing on non-negative numbers, so it changes
 * no comparison and no argmax
 * (see ArgMaxFirstUnderMonotone).
 */
module OutbreakCentre {
  import opened Numeric

  /** One line of the case list; only columns 1 and 2 are ever read. */
  type Row = seq<real>

  /** A planar point, in metres. */
  datatype Point = Point(x: real, y: real)

  /** NumPy's `locations[:, 1]` and `locations[:, 2]` need both columns in every row. */
  predicate IsCaseTable(cases: seq<Row>)
  {
    forall k :: 0 <= k < |cases| ==> |cases[k]| >= 3
  }

  /** Columns 1 and 2 of a case row, the slice `row[1:3]`. */
  function Location(row: Row): Point
    requires |row| >= 3
  {
    Point(row[1], row[2])
  }

  function Sq(v: real): (s: real)
    ensures s >= 0.0
  {
    v * v
  }

  /** Squared Euclidean distance between two points. */
  function SqDist(p: Point, q: Point): (d: real)
    ensures d >= 0.0
    ensures p == q ==> d == 0.0
  {
    Sq(p.x - q.x) + Sq(p.y - q.y)
  }

  predicate IsSquare(m: seq<seq<real>>, n: nat)
  {
    |m| == n && forall i :: 0 <= i < n ==> |m[i]| == n
  }

  /**
   * `calculate_distance_matrix`, squared: an n-by-n matrix whose (i, j) entry
   * compares case i with case j.
   */
  function DistanceMatrix(cases: seq<Row>): (m: seq<seq<real>>)
    requires IsCaseTable(cases)
    ensures IsSquare(m, |cases|)
    ensures forall i, j :: 0 <= i < |cases| && 0 <= j < |cases| ==>
              m[i][j] == SqDist(Location(cases[i]), Location(cases[j]))
    ensures forall i, j :: 0 <= i < |cases| && 0 <= j < |cases| ==> m[i][j] == m[j][i]
    ensures forall i, j :: 0 <= i < |cases| && 0 <= j < |cases| ==> m[i][j] >= 0.0
    ensures forall i :: 0 <= i < |cases| ==> m[i][i] == 0.0
  {
    seq(|cases|, i requires 0 <= i < |cases| => DistanceRow(cases, i))
  }

  /** Row i of the distance matrix: case i against every case. */
  function DistanceRow(cases: seq<Row>, i: nat): (row: seq<real>)
    requires IsCaseTable(cases) && i < |cases|
  {
    seq(|cases|, j requires 0 <= j < |cases| => SqDist(Location(cases[i]), Location(cases[j])))
  }

  /** The matrix depends on columns 1 and 2 only: the other columns never matter. */
  lemma DistanceMatrixUsesOnlyLocations(a: seq<Row>, b: seq<Row>)
    requires IsCaseTable(a) && IsCaseTable(b) && |a| == |b|
    requires forall k :: 0 <= k < |a| ==> Location(a[k]) == Location(b[k])
    ensures DistanceMatrix(a) == DistanceMatrix(b)
  {
    var ma, mb := DistanceMatrix(a), DistanceMatrix(b);
    forall i | 0 <= i < |a|
      ensures ma[i] == mb[i]
    {
      assert |ma[i]| == |mb[i]|;
    }
  }

  predicate IsRect(m: seq<seq<real>>, w: nat)
  {
    forall i :: 0 <= i < |m| ==> |m[i]| == w
  }

  /** NumPy's row-major flattening (`ravel`) of a matrix whose rows all have width `w`. */
  function Ravel(m: seq<seq<real>>, w: nat): (s: seq<real>)
    requires IsRect(m, w)
    ensures |s| == |m| * w
  {
    if m == [] then [] else m[0] + Ravel(m[1..], w)
  }

  /** Flat index k of a raveled matrix holds entry (k / w, k % w). */
  lemma RavelAt(m: seq<seq<real>>, w: nat, k: nat)
    requires IsRect(m, w) && k < |m| * w
    ensures w > 0 && k / w < |m| && Ravel(m, w)[k] == m[k / w][k % w]
  {
    DivBelow(k, |m|, w);
    RavelEntry(m, w, k / w, k % w);
  }

  /** Entry (i, j) lands at flat index i * w + j. */
  lemma {:induction false} RavelEntry(m: seq<seq<real>>, w: nat, i: nat, j: nat)
    requires IsRect(m, w) && i < |m| && j < w
    ensures i * w + j < |Ravel(m, w)| && Ravel(m, w)[i * w + j] == m[i][j]
  {
    MulLeq(i + 1, |m|, w);
    if i > 0 {
      assert (i - 1) * w + j == i * w + j - w;
      RavelEntry(m[1..], w, i - 1, j);
    }
  }

  /** NumPy's `argmax`: the index of the FIRST largest element. */
  function ArgMaxFirst(s: seq<real>): (k: nat)
    requires |s| > 0
    ensures k < |s|
    ensures forall j :: 0 <= j < |s| ==> s[j] <= s[k]
    ensures forall j :: 0 <= j < k ==> s[j] < s[k]
  {
    if |s| == 1 then 0
    else
      var k := ArgMaxFirst(s[..|s| - 1]);
      if s[|s| - 1] > s[k] then |s| - 1 else k
  }

  /** NumPy's `unravel_index` for shape (n, n): the (row, column) of a flat index. */
  function Unravel(k: nat, n: nat): (ij: (nat, nat))
    requires k < n * n
    ensures ij.0 < n && ij.1 < n && ij.0 * n + ij.1 == k
  {
    var i, j := k / n, k % n;
    assert i < n by {
      if i >= n {
        MulLeq(n, i, n);
      }
    }
    (i, j)
  }

  /** Entry (i, j) comes before entry (a, b) when the matrix is read row by row. */
  predicate RowMajorBefore(i: nat, j: nat, a: nat, b: nat)
  {
    i < a || (i == a && j < b)
  }

  /**
   * (i, j) is the entry `argmax` picks: nothing in the matrix is larger, and
   * everything that comes before it in row-major order is strictly smaller.
   */
  predicate IsFirstMaxEntry(m: seq<seq<real>>, n: nat, i: nat, j: nat)
    requires IsSquare(m, n)
  {
    && i < n && j < n
    && (forall a, b :: 0 <= a < n && 0 <= b < n ==> m[a][b] <= m[i][j])
    && (forall a, b :: 0 <= a < n && 0 <= b < n && RowMajorBefore(a, b, i, j) ==> m[a][b] < m[i][j])
  }

  /** Row-major order on an n-wide matrix is the order of flat indices. */
  lemma RowMajorIsFlatOrder(a: nat, b: nat, i: nat, j: nat, n: nat)
    requires a < n && b < n && i < n && j < n
    ensures RowMajorBefore(a, b, i, j) <==> a * n + b < i * n + j
  {
    if a < i {
      MulLeq(a + 1, i, n);
    } else if i < a {
      MulLeq(i + 1, a, n);
    }
  }

  /** Flat index of the (a, b) entry of an n-wide matrix. */
  lemma FlatIndex(a: nat, b: nat, n: nat)
    requires a < n && b < n
    ensures a * n + b < n * n && (a * n + b) / n == a && (a * n + b) % n == b
  {
    MulLeq(a + 1, n, n);
    DivModUnique(a * n + b, n, a, b);
  }

  /** `unravel_index(argmax(m), m.shape)` on an n-by-n matrix. */
  function FirstMaxEntry(m: seq<seq<real>>, n: nat): (ij: (nat, nat))
    requires IsSquare(m, n) && n > 0
    ensures IsFirstMaxEntry(m, n, ij.0, ij.1)
  {
    var s := Ravel(m, n);
    var k := ArgMaxFirst(s);
    var ij := Unravel(k, n);
    assert s[k] == m[ij.0][ij.1] by {
      RavelAt(m, n, k);
      DivModUnique(k, n, ij.0, ij.1);
    }
    forall a, b | 0 <= a < n && 0 <= b < n
      ensures m[a][b] <= m[ij.0][ij.1]
      ensures RowMajorBefore(a, b, ij.0, ij.1) ==> m[a][b] < m[ij.0][ij.1]
    {
      FlatIndex(a, b, n);
      RavelAt(m, n, a * n + b);
      RowMajorIsFlatOrder(a, b, ij.0, ij.1, n);
    }
    ij
  }

  /** Only one entry can be the first largest one. */
  lemma FirstMaxEntryUnique(m: seq<seq<real>>, n: nat, i: nat, j: nat, i': nat, j': nat)
    requires IsSquare(m, n)
    requires IsFirstMaxEntry(m, n, i, j) && IsFirstMaxEntry(m, n, i', j')
    ensures i == i' && j == j'
  {
    if RowMajorBefore(i, j, i', j') || RowMajorBefore(i', j', i, j) {
      assert false;
    }
  }

  /**
   * In the first largest entry (i, j) of the distance matrix the row comes
   * no later than the column, and strictly before it once the cases are
   * apart: the mirrored entry (j, i) holds the same distance, so it cannot
   * come first in row-major order.  The centre is thus the first case of
   * the farthest pair.
   */
  lemma CentreRowBeforeColumn(cases: seq<Row>, i: nat, j: nat)
    requires IsCaseTable(cases)
    requires IsFirstMaxEntry(DistanceMatrix(cases), |cases|, i, j)
    ensures i <= j
    ensures DistanceMatrix(cases)[i][j] > 0.0 ==> i < j
  {
    var m := DistanceMatrix(cases);
    assert m[j][i] == m[i][j];
    assert !RowMajorBefore(j, i, i, j);
  }

  /**
   * `find_outbreak_centre`: the location of the row of the first largest
   * entry of the distance matrix.  An empty case list makes NumPy's
   * `argmax` raise, so at least one case is required.
   */
  function FindOutbreakCentre(cases: seq<Row>): (c: Point)
    requires IsCaseTable(cases) && |cases| > 0
    ensures exists i, j :: 0 <= i < |cases| && 0 <= j < |cases| &&
              IsFirstMaxEntry(DistanceMatrix(cases), |cases|, i, j) && c == Location(cases[i])
  {
    var ij := FirstMaxEntry(DistanceMatrix(cases), |cases|);
    Location(cases[ij.0])
  }

  /** The centre is where one of the reported cases was found. */
  lemma CentreIsACaseLocation(cases: seq<Row>)
    requires IsCaseTable(cases) && |cases| > 0
    ensures exists i :: 0 <= i < |cases| &&
              FindOutbreakCentre(cases).x == cases[i][1] && FindOutbreakCentre(cases).y == cases[i][2]
  {
    var c := FindOutbreakCentre(cases);
    var i, j :| 0 <= i < |cases| && 0 <= j < |cases| &&
      IsFirstMaxEntry(DistanceMatrix(cases), |cases|, i, j) && c == Location(cases[i]);
  }

  /**
   * `np.max(calculate_distance_matrix(...))`, squared: the largest
   * distance between any two cases.
   */
  function MaxSqDistance(cases: seq<Row>): (d: real)
    requires IsCaseTable(cases) && |cases| > 0
    ensures d >= 0.0
    ensures forall a, b :: 0 <= a < |cases| && 0 <= b < |cases| ==>
              SqDist(Location(cases[a]), Location(cases[b])) <= d
    ensures exists a, b :: 0 <= a < |cases| && 0 <= b < |cases| &&
              SqDist(Location(cases[a]), Location(cases[b])) == d
  {
    var m := DistanceMatrix(cases);
    var ij := FirstMaxEntry(m, |cases|);
    m[ij.0][ij.1]
  }

  /** The centre's row is one end of a pair of cases that lie farthest apart. */
  lemma CentreEndsAFarthestPair(cases: seq<Row>)
    requires IsCaseTable(cases) && |cases| > 0
    ensures exists j :: 0 <= j < |cases| &&
              SqDist(FindOutbreakCentre(cases), Location(cases[j])) == MaxSqDistance(cases)
  {
    var m, c, d := DistanceMatrix(cases), FindOutbreakCentre(cases), MaxSqDistance(cases);
    var i, j :| 0 <= i < |cases| && 0 <= j < |cases| &&
      IsFirstMaxEntry(m, |cases|, i, j) && c == Location(cases[i]);
    var a, b :| 0 <= a < |cases| && 0 <= b < |cases| &&
      SqDist(Location(cases[a]), Location(cases[b])) == d;
    assert m[a][b] <= m[i][j];
    assert SqDist(c, Location(cases[j])) == d;
  }

  /**
   * When every case is at the same place all distances are 0, the first
   * entry is already a largest one, and the centre is the first case's location.
   */
  lemma CoincidentCasesCentre(cases: seq<Row>)
    requires IsCaseTable(cases) && |cases| > 0
    requires forall k :: 0 <= k < |cases| ==> Location(cases[k]) == Location(cases[0])
    ensures forall i, j :: 0 <= i < |cases| && 0 <= j < |cases| ==> DistanceMatrix(cases)[i][j] == 0.0
    ensures FindOutbreakCentre(cases) == Location(cases[0])
  {
  }

  ghost predicate StrictlyIncreasingOnNonNegatives(f: real -> real)
  {
    forall u, v :: 0.0 <= u < v ==> f(u) < f(v)
  }

  /**
   * Applying a strictly increasing function (such as the square root)
   * element by element to a sequence of non-negative entries, such as the
   * flattened matrix that `argmax` reads, leaves its first argmax where it
   * was.  No
   * induction is needed: the argmax of the mapped sequence meets
   * ArgMaxFirst's contract for `s` too, and that contract admits one index.
   */
  lemma {:induction false} ArgMaxFirstUnderMonotone(s: seq<real>, f: real -> real)
    requires |s| > 0
    requires forall k :: 0 <= k < |s| ==> s[k] >= 0.0
    requires StrictlyIncreasingOnNonNegatives(f)
    ensures ArgMaxFirst(seq(|s|, k requires 0 <= k < |s| => f(s[k]))) == ArgMaxFirst(s)
  {
    var t := seq(|s|, k requires 0 <= k < |s| => f(s[k]));
    var k' := ArgMaxFirst(t);
    forall j | 0 <= j < |s|
      ensures s[j] <= s[k'] && (j < k' ==> s[j] < s[k'])
    {
      assert t[j] == f(s[j]) && t[k'] == f(s[k']);
      assert t[j] <= t[k'] && (j < k' ==> t[j] < t[k']);
      KeepsOrder(f, s[j], s[k']);
    }
  }

  /** A strictly increasing function keeps both `<=` and `<` between non-negative values. */
  lemma KeepsOrder(f: real -> real, u: real, v: real)
    requires StrictlyIncreasingOnNonNegatives(f) && u >= 0.0 && v >= 0.0
    ensures u <= v <==> f(u) <= f(v)
    ensures u < v <==> f(u) < f(v)
  {
    if u < v {
      assert f(u) < f(v);
    } else if v < u {
      assert f(v) < f(u);
    }
  }
}
