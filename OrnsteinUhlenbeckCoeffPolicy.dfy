/** Constant-coefficient policy of the Ornstein-Uhlenbeck SDE system: checks
    the sizes of the user-given parameter vectors and expands the packed upper
    triangle of the diffusion matrix `sigmasq` into a full row-major
    ncomp x ncomp buffer (zeros below the diagonal), ready for a Cholesky
    decomposition. */
module OrnsteinUhlenbeckCoeffPolicy {
  import opened Wrappers

  /** Coefficient policy options. Only CONSTANT is produced by this policy; the
      remaining enumerators are declared in Options/CoeffPolicy.h, which is not
      part of this model, and stand here as `Other`. */
  datatype CoeffPolicyType = Constant | Other(ordinal: nat)

  /** The three ErrChk failures of the constructor, in the order checked. */
  datatype CoeffError = WrongSigmasq | WrongTheta | WrongMu

  /** The three output parameter vectors the constructor fills. */
  datatype Coefficients = Coefficients(sigmasq: seq<real>, theta: seq<real>, mu: seq<real>)

  /** Number of entries of the upper triangle (diagonal included) of an n x n matrix. */
  function TriangleSize(n: nat): nat
  {
    n * (n + 1) / 2
  }

  /** Offset of cell (i, j) in the row-major n x n buffer. */
  function Cell(n: nat, i: nat, j: nat): (k: nat)
    requires i < n && j < n
    ensures k < n * n
    ensures k - j + n <= n * n
  {
    assert (i + 1) * n <= n * n by { MulMonotone(i + 1, n, n); }
    i * n + j
  }

  lemma MulMonotone(a: nat, b: nat, c: nat)
    requires a <= b
    ensures a * c <= b * c
  {
  }

  /** Cells of an earlier row come before every cell of a later row. */
  lemma CellRowOrder(n: nat, i0: nat, j0: nat, i1: nat, j1: nat)
    requires i0 < i1 < n && j0 < n && j1 < n
    ensures Cell(n, i0, j0) < Cell(n, i1, j1)
  {
    MulMonotone(i0 + 1, i1, n);
    assert (i0 + 1) * n == i0 * n + n;
    assert i0 * n + j0 < i1 * n;
  }

  /** Number of upper-triangle cells in rows 0 .. i-1: the packed index at
      which row i of the triangle starts. */
  function RowStart(n: nat, i: nat): nat
    requires i <= n
  {
    if i == 0 then 0 else RowStart(n, i - 1) + (n - (i - 1))
  }

  lemma {:induction false} RowStartTwice(n: nat, i: nat)
    requires i <= n
    ensures 2 * RowStart(n, i) == i * (2 * n - i + 1)
  {
    if i > 0 {
      RowStartTwice(n, i - 1);
      assert i * (2 * n - i + 1) == (i - 1) * (2 * n - (i - 1) + 1) + 2 * (n - (i - 1));
    }
  }

  /** The running counter's closed form at the start of row i. */
  lemma {:induction false} RowStartClosedForm(n: nat, i: nat)
    requires i <= n
    ensures RowStart(n, i) == i * n - i * (i - 1) / 2
  {
    RowStartTwice(n, i);
    var r := RowStart(n, i);
    assert i * (i - 1) == 2 * (i * n - r);
  }

  /** After the last row the counter has consumed the whole packed triangle. */
  lemma {:induction false} RowStartEnd(n: nat)
    ensures RowStart(n, n) == TriangleSize(n)
  {
    RowStartTwice(n, n);
    var r := RowStart(n, n);
    assert n * (n + 1) == 2 * r;
  }

  lemma {:induction false} RowStartBelow(n: nat, i: nat, k: nat)
    requires i <= k <= n
    ensures RowStart(n, i) <= RowStart(n, k)
    decreases k - i
  {
    if i < k {
      RowStartBelow(n, i, k - 1);
    }
  }

  /** Every packed index used for row i lies inside the packed vector. */
  lemma RowWithinTriangle(n: nat, i: nat)
    requires i < n
    ensures RowStart(n, i) + (n - i) <= TriangleSize(n)
  {
    RowStartBelow(n, i + 1, n);
    RowStartEnd(n);
  }

  /** The value the source stores in cell (i, j): the packed entry at the
      running counter on and above the diagonal, zero below it. */
  function Entry(n: nat, packed: seq<real>, i: nat, j: nat): real
    requires |packed| == TriangleSize(n) && i < n && j < n
  {
    if i <= j then
      RowWithinTriangle(n, i);
      packed[RowStart(n, i) + (j - i)]
    else
      0.0
  }

  /** `m` is the row-major expansion of the packed upper triangle `packed`. */
  ghost predicate IsUnpacked(n: nat, packed: seq<real>, m: seq<real>)
  {
    && |packed| == TriangleSize(n)
    && |m| == n * n
    && forall i, j :: 0 <= i < n && 0 <= j < n ==> m[Cell(n, i, j)] == Entry(n, packed, i, j)
  }

  /** Reads the upper triangle of a row-major buffer back into packed form,
      row by row, from row i on. */
  function PackRows(n: nat, m: seq<real>, i: nat): (r: seq<real>)
    requires |m| == n * n && i <= n
    ensures |r| == RowStart(n, n) - RowStart(n, i)
    decreases n - i
  {
    if i == n then
      []
    else
      m[Cell(n, i, i) .. Cell(n, i, i) + (n - i)] + PackRows(n, m, i + 1)
  }

  function Pack(n: nat, m: seq<real>): seq<real>
    requires |m| == n * n
  {
    PackRows(n, m, 0)
  }

  /** `type()`: the policy is the constant one. */
  function PolicyType(): (t: CoeffPolicyType)
    ensures t.Constant?
  {
    Constant
  }

  /** Constructor of OrnsteinUhlenbeckCoeffConst. The C++ constructor throws on
      the first failed size check and leaves its output parameters untouched;
      here that is a Failure naming the check. */
  method Construct(ncomp: nat, sigmasq_: seq<real>, theta_: seq<real>, mu_: seq<real>)
    returns (r: Result<Coefficients, CoeffError>)
    ensures |sigmasq_| != TriangleSize(ncomp) ==> r == Failure(WrongSigmasq)
    ensures |sigmasq_| == TriangleSize(ncomp) && |theta_| != ncomp ==> r == Failure(WrongTheta)
    ensures |sigmasq_| == TriangleSize(ncomp) && |theta_| == ncomp && |mu_| != ncomp ==>
              r == Failure(WrongMu)
    ensures r.Success? <==> |sigmasq_| == TriangleSize(ncomp) && |theta_| == ncomp && |mu_| == ncomp
    ensures r.Success? ==> |r.value.sigmasq| == ncomp * ncomp
    ensures r.Success? ==> IsUnpacked(ncomp, sigmasq_, r.value.sigmasq)
    ensures r.Success? ==> r.value.theta == theta_ && r.value.mu == mu_
  {
    if |sigmasq_| != TriangleSize(ncomp) {
      return Failure(WrongSigmasq);
    }
    if |theta_| != ncomp {
      return Failure(WrongTheta);
    }
    if |mu_| != ncomp {
      return Failure(WrongMu);
    }
    var sigmasq, _ := Unpack(ncomp, sigmasq_);
    r := Success(Coefficients(sigmasq[..], theta_, mu_));
  }

  /** The resize and the nested i/j loops of the constructor: fills a fresh
      n*n buffer from the packed triangle with a running counter `c`.
      Returns the buffer and the counter's final value. */
  method Unpack(n: nat, packed: seq<real>) returns (sigmasq: array<real>, count: nat)
    requires |packed| == TriangleSize(n)
    ensures count == |packed|
    ensures IsUnpacked(n, packed, sigmasq[..])
  {
    sigmasq := new real[n * n];
    var c := 0;
    var i := 0;
    while i < n
      invariant 0 <= i <= n
      invariant sigmasq.Length == n * n
      invariant c == RowStart(n, i)
      invariant forall i', j' :: 0 <= i' < i && 0 <= j' < n ==>
                  sigmasq[Cell(n, i', j')] == Entry(n, packed, i', j')
    {
      RowWithinTriangle(n, i);
      var j := 0;
      while j < n
        invariant 0 <= j <= n
        invariant c == RowStart(n, i) + (if j <= i then 0 else j - i)
        invariant forall i', j' :: 0 <= i' < i && 0 <= j' < n ==>
                    sigmasq[Cell(n, i', j')] == Entry(n, packed, i', j')
        invariant forall j' :: 0 <= j' < j ==> sigmasq[Cell(n, i, j')] == Entry(n, packed, i, j')
      {
        forall i', j' | 0 <= i' < i && 0 <= j' < n
          ensures Cell(n, i', j') < Cell(n, i, j)
        {
          CellRowOrder(n, i', j', i, j);
        }
        if i <= j {
          sigmasq[Cell(n, i, j)] := packed[c];
          c := c + 1;
        } else {
          sigmasq[Cell(n, i, j)] := 0.0;
        }
        j := j + 1;
      }
      i := i + 1;
    }
    RowStartEnd(n);
    count := c;
  }

  /** `lookup()`: no statistical moments are needed for constant coefficients. */
  method Lookup<Statistics>(stat: Statistics, depvar: char)
  {
  }

  /** `operator()`: constant coefficients are never updated. */
  method Update(t: real, sigmasq: seq<real>, theta: seq<real>, mu: seq<real>)
    returns (sigmasq': seq<real>, theta': seq<real>, mu': seq<real>)
    ensures sigmasq' == sigmasq && theta' == theta && mu' == mu
  {
    sigmasq', theta', mu' := sigmasq, theta, mu;
  }

  /** Reading the upper triangle of the expanded buffer back, row after row,
      gives the packed input: every input value lands in exactly one cell and
      in row-major upper-triangle order. */
  lemma PackOfUnpacked(n: nat, packed: seq<real>, m: seq<real>)
    requires IsUnpacked(n, packed, m)
    ensures Pack(n, m) == packed
  {
    PackRowsOfUnpacked(n, packed, m, 0);
  }

  lemma {:induction false} PackRowsOfUnpacked(n: nat, packed: seq<real>, m: seq<real>, i: nat)
    requires IsUnpacked(n, packed, m) && i <= n
    ensures RowStart(n, i) <= |packed| && PackRows(n, m, i) == packed[RowStart(n, i)..]
    decreases n - i
  {
    RowStartEnd(n);
    RowStartBelow(n, i, n);
    if i < n {
      RowOfUnpacked(n, packed, m, i);
      PackRowsOfUnpacked(n, packed, m, i + 1);
      var s, e := RowStart(n, i), RowStart(n, i + 1);
      assert e == s + (n - i);
      assert packed[s..] == packed[s .. e] + packed[e..];
    }
  }

  /** Row i of the expanded buffer, from the diagonal on, is the packed row i. */
  lemma RowOfUnpacked(n: nat, packed: seq<real>, m: seq<real>, i: nat)
    requires IsUnpacked(n, packed, m) && i < n
    ensures RowStart(n, i) + (n - i) <= |packed|
    ensures m[Cell(n, i, i) .. Cell(n, i, i) + (n - i)]
         == packed[RowStart(n, i) .. RowStart(n, i) + (n - i)]
  {
    RowWithinTriangle(n, i);
    var s := RowStart(n, i);
    var b := Cell(n, i, i);
    var row, prow := m[b .. b + (n - i)], packed[s .. s + (n - i)];
    forall k | 0 <= k < |row|
      ensures row[k] == prow[k]
    {
      assert b + k == Cell(n, i, i + k);
      assert m[Cell(n, i, i + k)] == Entry(n, packed, i, i + k);
    }
  }

  /** The buffer is fully determined by the packed input: no cell is left
      unwritten. */
  lemma UnpackedUnique(n: nat, packed: seq<real>, m1: seq<real>, m2: seq<real>)
    requires IsUnpacked(n, packed, m1) && IsUnpacked(n, packed, m2)
    ensures m1 == m2
  {
    forall k | 0 <= k < n * n
      ensures m1[k] == m2[k]
    {
      var i, j := CellOf(n, k);
      assert m1[Cell(n, i, j)] == m2[Cell(n, i, j)];
    }
  }

  /** Every buffer offset is the cell of some (row, column). */
  lemma CellOf(n: nat, k: nat) returns (i: nat, j: nat)
    requires k < n * n
    ensures i < n && j < n && Cell(n, i, j) == k
  {
    i, j := k / n, k % n;
    if i >= n {
      MulMonotone(n, i, n);
    }
  }

  /** Conversely, a buffer that is zero below the diagonal is the expansion
      of its own packed upper triangle. */
  lemma UnpackOfPacked(n: nat, m: seq<real>)
    requires |m| == n * n
    requires forall i, j :: 0 <= j < i < n ==> m[Cell(n, i, j)] == 0.0
    ensures IsUnpacked(n, Pack(n, m), m)
  {
    RowStartEnd(n);
    var p := Pack(n, m);
    forall i, j | 0 <= i < n && 0 <= j < n
      ensures m[Cell(n, i, j)] == Entry(n, p, i, j)
    {
      if i <= j {
        PackRowsAt(n, m, 0, i, j);
      }
    }
  }

  /** Where cell (i, j), i <= j, of the buffer sits in PackRows(n, m, r). */
  lemma {:induction false} PackRowsAt(n: nat, m: seq<real>, r: nat, i: nat, j: nat)
    requires |m| == n * n && r <= i <= j < n
    ensures RowStart(n, r) <= RowStart(n, i)
    ensures RowStart(n, i) - RowStart(n, r) + (j - i) < |PackRows(n, m, r)|
    ensures PackRows(n, m, r)[RowStart(n, i) - RowStart(n, r) + (j - i)] == m[Cell(n, i, j)]
    decreases i - r
  {
    var rest := PackRows(n, m, r + 1);
    var row := m[Cell(n, r, r) .. Cell(n, r, r) + (n - r)];
    assert PackRows(n, m, r) == row + rest;
    if r < i {
      PackRowsAt(n, m, r + 1, i, j);
    } else {
      assert Cell(n, i, i) + (j - i) == Cell(n, i, j);
      assert row[j - i] == m[Cell(n, i, j)];
    }
  }
}
