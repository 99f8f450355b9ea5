/** The index arithmetic of the fixed-size arrays: where `at` and `at_r` look in the flat storage. */
module MultiArray {

  /** One dimension: its first index and its extent. */
  datatype Dim = Dim(base: int, extent: nat)

  predicate In(d: Dim, i: int) {
    d.base <= i < d.base + d.extent
  }

  /** The same position counted from the other end. */
  function Flip(d: Dim, i: int): int {
    d.extent - 1 + 2 * d.base - i
  }

  // ----- Offsets into the storage, term by term

  function VectorAt(d: Dim, i: int): int {
    -d.base + i
  }

  function VectorAtR(d: Dim, i: int): int {
    d.extent - 1 + d.base + -i
  }

  function MatrixAt(di: Dim, dj: Dim, i: int, j: int): int {
    -dj.base - di.base * dj.extent + (j + i * dj.extent)
  }

  function MatrixAtR(di: Dim, dj: Dim, i: int, j: int): int {
    di.extent * dj.extent - 1 + dj.base + di.base * dj.extent + (-j - i * dj.extent)
  }

  function CubeAt(di: Dim, dj: Dim, dk: Dim, i: int, j: int, k: int): int {
    dk.extent * (-dj.base - di.base * dj.extent) - dk.base + (dk.extent * (j + i * dj.extent) + k)
  }

  function CubeAtR(di: Dim, dj: Dim, dk: Dim, i: int, j: int, k: int): int {
    di.extent * dj.extent * dk.extent - 1 + dj.base * dk.extent + di.base * dj.extent * dk.extent + dk.base
    + (dk.extent * (-j - i * dj.extent) - k)
  }

  // ----- `at` is a bijection onto the storage

  lemma RowMajor(i: int, j: int, n: int, m: int)
    requires 0 <= i < n && 0 <= j < m
    ensures 0 <= j + i * m < n * m
  {
    assert i * m + m == (i + 1) * m;
    Mono(i + 1, n, m);
    Mono(0, i, m);
  }

  lemma Mono(a: int, b: int, m: int)
    requires a <= b && m >= 0
    ensures a * m <= b * m
  {
  }

  lemma RowMajorInjective(i: int, j: int, i': int, j': int, m: int)
    requires 0 <= j < m && 0 <= j' < m && j + i * m == j' + i' * m
    ensures i == i' && j == j'
  {
    assert (i + 1) * m == i * m + m && (i' + 1) * m == i' * m + m;
    if i < i' { Mono(i + 1, i', m); }
    if i' < i { Mono(i' + 1, i, m); }
  }

  lemma MatrixOffset(di: Dim, dj: Dim, i: int, j: int)
    ensures MatrixAt(di, dj, i, j) == (j - dj.base) + (i - di.base) * dj.extent
  {
    assert (i - di.base) * dj.extent == i * dj.extent - di.base * dj.extent;
  }

  /** `Matrix::at` stays inside the storage, and no two places share a cell. */
  lemma MatrixBijective(di: Dim, dj: Dim, i: int, j: int, i': int, j': int)
    requires In(di, i) && In(dj, j) && In(di, i') && In(dj, j')
    ensures 0 <= MatrixAt(di, dj, i, j) < di.extent * dj.extent
    ensures MatrixAt(di, dj, i, j) == MatrixAt(di, dj, i', j') ==> i == i' && j == j'
  {
    hide MatrixAt;
    MatrixOffset(di, dj, i, j);
    MatrixOffset(di, dj, i', j');
    RowMajor(i - di.base, j - dj.base, di.extent, dj.extent);
    if MatrixAt(di, dj, i, j) == MatrixAt(di, dj, i', j') {
      RowMajorInjective(i - di.base, j - dj.base, i' - di.base, j' - dj.base, dj.extent);
    }
  }

  /** `Cube` offsets are those of a matrix whose cells are columns of depth `dk.extent`. */
  lemma CubeIsNested(di: Dim, dj: Dim, dk: Dim, i: int, j: int, k: int)
    ensures CubeAt(di, dj, dk, i, j, k) == (k - dk.base) + MatrixAt(di, dj, i, j) * dk.extent
    ensures CubeAtR(di, dj, dk, i, j, k) == (dk.extent - 1 + dk.base - k) + MatrixAtR(di, dj, i, j) * dk.extent
  {
    CubeTerms(di.base, di.extent, dj.base, dj.extent, dk.extent, i, j);
    CubeTermsR(di.base, di.extent, dj.base, dj.extent, dk.extent, i, j);
  }

  lemma CubeTerms(bi: int, ni: int, bj: int, nj: int, nk: int, i: int, j: int)
    ensures nk * (-bj - bi * nj) + nk * (j + i * nj) == (-bj - bi * nj + (j + i * nj)) * nk
  {
  }

  lemma CubeTermsR(bi: int, ni: int, bj: int, nj: int, nk: int, i: int, j: int)
    ensures ni * nj * nk + bj * nk + bi * nj * nk + nk * (-j - i * nj)
         == (ni * nj - 1 + bj + bi * nj + (-j - i * nj)) * nk + nk
  {
    var a, b, x := ni * nj, bi * nj, -j - i * nj;
    assert a * nk + bj * nk + b * nk + nk * x == (a - 1 + bj + b + x) * nk + nk;
  }

  /** `Cube::at` stays inside the storage, and no two places share a cell. */
  lemma CubeBijective(di: Dim, dj: Dim, dk: Dim, i: int, j: int, k: int, i': int, j': int, k': int)
    requires In(di, i) && In(dj, j) && In(dk, k) && In(di, i') && In(dj, j') && In(dk, k')
    ensures 0 <= CubeAt(di, dj, dk, i, j, k) < di.extent * dj.extent * dk.extent
    ensures CubeAt(di, dj, dk, i, j, k) == CubeAt(di, dj, dk, i', j', k') ==> i == i' && j == j' && k == k'
  {
    hide CubeAt, MatrixAt;
    CubeIsNested(di, dj, dk, i, j, k);
    CubeIsNested(di, dj, dk, i', j', k');
    MatrixBijective(di, dj, i, j, i', j');
    RowMajor(MatrixAt(di, dj, i, j), k - dk.base, di.extent * dj.extent, dk.extent);
    if CubeAt(di, dj, dk, i, j, k) == CubeAt(di, dj, dk, i', j', k') {
      RowMajorInjective(MatrixAt(di, dj, i, j), k - dk.base, MatrixAt(di, dj, i', j'), k' - dk.base, dk.extent);
    }
  }

  // ----- `at_r` is `at` seen from the other end

  lemma VectorReversed(d: Dim, i: int)
    ensures VectorAtR(d, i) == VectorAt(d, Flip(d, i)) == d.extent - 1 - VectorAt(d, i)
  {
  }

  lemma MatrixReversed(di: Dim, dj: Dim, i: int, j: int)
    ensures MatrixAtR(di, dj, i, j) == MatrixAt(di, dj, Flip(di, i), Flip(dj, j))
                                    == di.extent * dj.extent - 1 - MatrixAt(di, dj, i, j)
  {
    MatrixTerms(di.base, di.extent, dj.extent, i);
  }

  lemma MatrixTerms(b: int, n: int, m: int, i: int)
    ensures (n - 1 + 2 * b - i) * m == n * m - m + 2 * (b * m) - i * m
  {
  }

  lemma CubeReversed(di: Dim, dj: Dim, dk: Dim, i: int, j: int, k: int)
    ensures CubeAtR(di, dj, dk, i, j, k) == CubeAt(di, dj, dk, Flip(di, i), Flip(dj, j), Flip(dk, k))
                                         == di.extent * dj.extent * dk.extent - 1 - CubeAt(di, dj, dk, i, j, k)
  {
    hide CubeAt, CubeAtR, MatrixAt, MatrixAtR;
    CubeIsNested(di, dj, dk, i, j, k);
    CubeIsNested(di, dj, dk, Flip(di, i), Flip(dj, j), Flip(dk, k));
    MatrixReversed(di, dj, i, j);
    var m, n := MatrixAt(di, dj, i, j), di.extent * dj.extent;
    assert (n - 1 - m) * dk.extent == n * dk.extent - dk.extent - m * dk.extent;
  }
}
