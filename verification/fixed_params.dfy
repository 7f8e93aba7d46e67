/** Splitting a parameter vector into fixed and free parts, and putting it together again. */
module FixedParams {
  import opened Wrappers
  import opened Vectors
  import opened Sequences

  /** A double as far as `std::isfinite` looks at it. */
  datatype Number = Finite(value: real) | NonFinite

  datatype Fault = MissingValues | LengthMismatch | IndexOutOfRange | DuplicateIndex | ValueNotFinite | NoFreeParameter

  datatype FixedParamSpec = FixedParamSpec(fixedIdx: seq<int>, freeIdx: seq<nat>, fixedValues: Vec, hasFixed: bool)

  /** Every index is either fixed, once, or free, once; the free ones ascend. */
  ghost predicate Partition(spec: FixedParamSpec, n: nat) {
    && Distinct(spec.fixedIdx) && InRange(spec.fixedIdx, n) && |spec.fixedValues| == |spec.fixedIdx|
    && Increasing(spec.freeIdx) && InRange(spec.freeIdx, n)
    && (forall k: nat :: k < n ==> (k in spec.freeIdx <==> k !in spec.fixedIdx))
    && |spec.freeIdx| + |spec.fixedIdx| == n
  }

  // Validation.

  /** What is wrong with entry i of the request, given that the entries before it are in order. */
  function FaultAt(n: nat, idx: seq<int>, values: seq<Number>, i: nat): Option<Fault>
    requires i < |idx| == |values|
  {
    if idx[i] < 1 || idx[i] > n then Some(IndexOutOfRange)
    else if idx[i] in idx[..i] then Some(DuplicateIndex)
    else if values[i].NonFinite? then Some(ValueNotFinite)
    else None
  }

  ghost predicate CleanBefore(n: nat, idx: seq<int>, values: seq<Number>, k: nat)
    requires |idx| == |values| && k <= |idx|
  {
    forall i :: 0 <= i < k ==> FaultAt(n, idx, values, i) == None
  }

  /** The request fixes distinct parameters of the vector at finite values and leaves one free. */
  ghost predicate Acceptable(n: nat, idx: seq<int>, values: seq<Number>) {
    && |idx| == |values| && |idx| < n
    && (forall i :: 0 <= i < |idx| ==> 1 <= idx[i] <= n && values[i].Finite?)
    && (forall i, j :: 0 <= i < j < |idx| ==> idx[i] != idx[j])
  }

  lemma CleanMeans(n: nat, idx: seq<int>, values: seq<Number>, k: nat)
    requires |idx| == |values| && k <= |idx| && CleanBefore(n, idx, values, k)
    ensures forall i :: 0 <= i < k ==> 1 <= idx[i] <= n && values[i].Finite?
    ensures forall i, j :: 0 <= i < j < k ==> idx[i] != idx[j]
  {
    forall i, j | 0 <= i < j < k
      ensures idx[i] != idx[j]
    {
      assert FaultAt(n, idx, values, j) == None;
      assert idx[..j][i] == idx[i];
    }
    forall i | 0 <= i < k
      ensures 1 <= idx[i] <= n && values[i].Finite?
    {
      assert FaultAt(n, idx, values, i) == None;
    }
  }

  /** The first pass: range, repetition, finiteness, in that order, entry by entry. */
  method ValidateEntries(n: nat, idx: seq<int>, values: seq<Number>) returns (r: Result<seq<nat>, Fault>)
    requires |idx| == |values|
    ensures r.Ok? ==> CleanBefore(n, idx, values, |idx|)
                           && |r.value| == |idx| && forall i :: 0 <= i < |idx| ==> r.value[i] == idx[i] - 1
    ensures r.Err? ==> FirstFault(n, idx, values, r.error)
  {
    var zeroBased: seq<nat> := [];
    var seen: set<nat> := {};
    for i := 0 to |idx|
      invariant CleanBefore(n, idx, values, i)
      invariant |zeroBased| == i && forall j :: 0 <= j < i ==> zeroBased[j] == idx[j] - 1
      invariant forall x: nat :: x in seen <==> x + 1 in idx[..i]
    {
      if idx[i] - 1 < 0 || idx[i] - 1 >= n { return Err(IndexOutOfRange); }
      var k: nat := idx[i] - 1;
      if k in seen { return Err(DuplicateIndex); }
      seen := seen + {k};
      if values[i].NonFinite? { return Err(ValueNotFinite); }
      zeroBased := zeroBased + [k];
      assert idx[..i + 1] == idx[..i] + [idx[i]];
    }
    return Ok(zeroBased);
  }

  // Counting the free slots.

  ghost function Below(s: set<nat>, k: nat): set<nat> { set x | x in s && x < k }

  lemma {:induction false} BelowBounded(s: set<nat>, k: nat, n: nat)
    requires k <= n && forall x :: x in s ==> k <= x < n
    ensures |s| <= n - k
    decreases n - k
  {
    if k == n {
      assert s == {};
    } else {
      BelowBounded(s - {k}, k + 1, n);
      assert s - {k} == s || |s - {k}| == |s| - 1;
    }
  }

  lemma BelowStep(s: set<nat>, k: nat)
    ensures |Below(s, k + 1)| == |Below(s, k)| + if k in s then 1 else 0
  {
    assert Below(s, k + 1) == if k in s then Below(s, k) + {k} else Below(s, k);
  }

  /** While an index is still free there is room left in the buffer for it. */
  lemma RoomForFree(s: set<nat>, k: nat, n: nat)
    requires k < n && k !in s && forall x :: x in s ==> x < n
    ensures k - |Below(s, k)| < n - |s|
  {
    var rest := s - Below(s, k);
    BelowBounded(rest, k + 1, n);
    assert |rest| == |s| - |Below(s, k)|;
  }

  ghost function Members(s: seq<nat>): set<nat> { set x | x in s }

  lemma {:induction false} DistinctCount(s: seq<nat>)
    requires Distinct(s)
    ensures |Members(s)| == |s|
  {
    if s != [] {
      var a := |s| - 1;
      DistinctCount(s[..a]);
      assert s == s[..a] + [s[a]];
      assert Members(s) == Members(s[..a]) + {s[a]};
      assert s[a] !in s[..a];
    } else {
      assert Members(s) == {};
    }
  }

  /** The last pass: the unmarked indices, ascending, into a buffer of exactly their number. */
  method CollectFree(n: nat, isFixed: array<bool>, fixedIdx: seq<nat>) returns (freeIdx: array<nat>)
    requires isFixed.Length == n && Distinct(fixedIdx) && InRange(fixedIdx, n) && |fixedIdx| <= n
    requires forall k: nat :: k < n ==> (isFixed[k] <==> k in fixedIdx)
    ensures freeIdx.Length == n - |fixedIdx| && Increasing(freeIdx[..]) && InRange(freeIdx[..], n)
    ensures forall k: nat :: k < n ==> (k in freeIdx[..] <==> k !in fixedIdx)
  {
    ghost var s := Members(fixedIdx);
    DistinctCount(fixedIdx);
    freeIdx := new nat[n - |fixedIdx|];
    var k := 0;
    assert Below(s, 0) == {};
    for i := 0 to n
      invariant k == i - |Below(s, i)| && k <= freeIdx.Length
      invariant Increasing(freeIdx[..k]) && InRange(freeIdx[..k], i)
      invariant forall j: nat :: j < i ==> (j in freeIdx[..k] <==> j !in fixedIdx)
    {
      BelowStep(s, i);
      if !isFixed[i] {
        RoomForFree(s, i, n);
        ghost var before := freeIdx[..k];
        freeIdx[k] := i;
        k := k + 1;
        assert freeIdx[..k] == before + [i];
      }
    }
    assert Below(s, n) == s;
    assert freeIdx[..k] == freeIdx[..];
  }

  method MarkFixed(n: nat, fixedIdx: seq<nat>) returns (isFixed: array<bool>)
    requires InRange(fixedIdx, n)
    ensures isFixed.Length == n && forall k: nat :: k < n ==> (isFixed[k] <==> k in fixedIdx)
  {
    isFixed := new bool[n](_ => false);
    for i := 0 to |fixedIdx|
      invariant forall k: nat :: k < n ==> (isFixed[k] <==> k in fixedIdx[..i])
    {
      isFixed[fixedIdx[i]] := true;
      assert fixedIdx[..i + 1] == fixedIdx[..i] + [fixedIdx[i]];
    }
    assert fixedIdx[..|fixedIdx|] == fixedIdx;
  }

  function Values(values: seq<Number>): (v: Vec)
    requires forall i :: 0 <= i < |values| ==> values[i].Finite?
    ensures |v| == |values| && forall i :: 0 <= i < |v| ==> values[i] == Finite(v[i])
  {
    seq(|values|, i requires 0 <= i < |values| => values[i].value)
  }

  function AllFree(n: nat): (spec: FixedParamSpec)
    ensures Partition(spec, n) && spec.fixedIdx == [] && !spec.hasFixed
  {
    var free: seq<nat> := seq(n, i => i);
    assert forall k: nat :: k < n ==> k in free by {
      forall k: nat | k < n
        ensures k in free
      {
        assert free[k] == k;
      }
    }
    FixedParamSpec([], free, [], false)
  }

  /** The requested positions, counted from zero, hold the requested values. */
  ghost predicate Fixes(spec: FixedParamSpec, idx: seq<int>, values: seq<Number>)
    requires |idx| == |values|
  {
    && |spec.fixedIdx| == |spec.fixedValues| == |idx|
    && (forall i :: 0 <= i < |idx| ==> spec.fixedIdx[i] == idx[i] - 1 && values[i] == Finite(spec.fixedValues[i]))
  }

  /** Accepted exactly when acceptable; otherwise the first fault is reported, a missing free parameter last. */
  ghost predicate Judged(n: nat, idx: seq<int>, values: seq<Number>, r: Result<FixedParamSpec, Fault>)
    requires |idx| == |values|
  {
    && (r.Ok? <==> Acceptable(n, idx, values))
    && (r.Ok? ==> r.value.hasFixed && Fixes(r.value, idx, values))
    && (r == Err(NoFreeParameter) <==> CleanBefore(n, idx, values, |idx|) && |idx| >= n)
    && (r.Err? && r.error != NoFreeParameter ==> FirstFault(n, idx, values, r.error))
  }

  ghost predicate FirstFault(n: nat, idx: seq<int>, values: seq<Number>, fault: Fault)
    requires |idx| == |values|
  {
    exists i: nat :: i < |idx| && CleanBefore(n, idx, values, i) && FaultAt(n, idx, values, i) == Some(fault)
  }

  /** `make_fixed_param_spec`, one-based indices coming in. */
  method MakeFixedParamSpec(n: nat, fixedIdx: Option<seq<int>>, fixedValues: Option<seq<Number>>)
    returns (r: Result<FixedParamSpec, Fault>)
    ensures r.Ok? ==> Partition(r.value, n)
    ensures fixedIdx.None? || fixedIdx.value == [] ==> r == Ok(AllFree(n))
    ensures fixedIdx.Some? && fixedIdx.value != [] ==>
              match fixedValues
              case None => r == Err(MissingValues)
              case Some(values) =>
                if |values| != |fixedIdx.value| then r == Err(LengthMismatch)
                else Judged(n, fixedIdx.value, values, r)
  {
    if fixedIdx.None? || fixedIdx.value == [] { return Ok(AllFree(n)); }
    if fixedValues.None? { return Err(MissingValues); }
    var idx, values := fixedIdx.value, fixedValues.value;
    if |values| != |idx| { return Err(LengthMismatch); }
    r := SplitParameters(n, idx, values);
  }

  method SplitParameters(n: nat, idx: seq<int>, values: seq<Number>) returns (r: Result<FixedParamSpec, Fault>)
    requires |idx| == |values|
    ensures Judged(n, idx, values, r)
    ensures r.Ok? ==> Partition(r.value, n)
  {
    hide FaultAt;
    var checked := ValidateEntries(n, idx, values);
    if checked.Err? {
      FaultRejects(n, idx, values, checked.error);
      return Err(checked.error);
    }
    CleanMeans(n, idx, values, |idx|);
    var zeroBased := checked.value;
    DistinctFits(zeroBased, n);
    var isFixed := MarkFixed(n, zeroBased);
    if n - |zeroBased| <= 0 { return Err(NoFreeParameter); }
    var free := CollectFree(n, isFixed, zeroBased);
    return Ok(FixedParamSpec(zeroBased, free[..], Values(values), true));
  }

  lemma FaultRejects(n: nat, idx: seq<int>, values: seq<Number>, fault: Fault)
    requires |idx| == |values|
    requires FirstFault(n, idx, values, fault)
    ensures !CleanBefore(n, idx, values, |idx|) && !Acceptable(n, idx, values) && fault != NoFreeParameter
  {}

  lemma DistinctFits(s: seq<nat>, n: nat)
    requires Distinct(s) && InRange(s, n)
    ensures |s| <= n
  {
    DistinctCount(s);
    BelowBounded(Members(s), 0, n);
  }

  // Taking parts and putting them back.

  /** `subset_vector`; the caller answers for the indices. */
  function Subset(x: Vec, idx: seq<nat>): (r: Vec)
    requires InRange(idx, |x|)
    ensures |r| == |idx| && forall i :: 0 <= i < |idx| ==> r[i] == x[idx[i]]
  {
    seq(|idx|, i requires 0 <= i < |idx| => x[idx[i]])
  }

  /** Position i of the list is the last one to name its index. */
  ghost predicate IsLast(idx: seq<int>, i: nat)
    requires i < |idx|
  {
    forall j :: i < j < |idx| ==> idx[j] != idx[i]
  }

  /** `out` is `params` with the fixed entries overwritten; a repeated index keeps its last value. */
  ghost predicate IsApplied(out: Vec, params: Vec, spec: FixedParamSpec)
    requires InRange(spec.fixedIdx, |params|) && |spec.fixedIdx| == |spec.fixedValues|
  {
    && |out| == |params|
    && (forall i: nat :: i < |spec.fixedIdx| && IsLast(spec.fixedIdx, i) ==>
          out[spec.fixedIdx[i]] == spec.fixedValues[i])
    && (forall k: nat :: k < |params| && k !in spec.fixedIdx ==> out[k] == params[k])
  }

  /** `full` holds the fixed values at the fixed and `free` at the free indices. */
  ghost predicate IsExpanded(full: Vec, free: Vec, spec: FixedParamSpec, n: nat)
    requires Partition(spec, n) && |free| == |spec.freeIdx|
  {
    && |full| == n
    && (forall i :: 0 <= i < |spec.fixedIdx| ==> full[spec.fixedIdx[i]] == spec.fixedValues[i])
    && (forall i :: 0 <= i < |spec.freeIdx| ==> full[spec.freeIdx[i]] == free[i])
  }

  datatype ApplyFault = LengthsDiffer | OutOfBounds

  method ApplyFixedValues(params: Vec, spec: FixedParamSpec) returns (r: Result<Vec, ApplyFault>)
    ensures r.Ok? <==> |spec.fixedIdx| == |spec.fixedValues| && InRange(spec.fixedIdx, |params|)
    ensures r == Err(LengthsDiffer) <==> |spec.fixedIdx| != |spec.fixedValues|
    ensures r == Err(OutOfBounds) <==> |spec.fixedIdx| == |spec.fixedValues| && !InRange(spec.fixedIdx, |params|)
    ensures r.Ok? ==> IsApplied(r.value, params, spec)
  {
    if |spec.fixedIdx| != |spec.fixedValues| { return Err(LengthsDiffer); }
    var out := params;
    for i := 0 to |spec.fixedIdx|
      invariant |out| == |params| && InRange(spec.fixedIdx[..i], |params|)
      invariant forall j: nat :: j < i && IsLast(spec.fixedIdx[..i], j) ==> out[spec.fixedIdx[j]] == spec.fixedValues[j]
      invariant forall k: nat :: k < |params| && k !in spec.fixedIdx[..i] ==> out[k] == params[k]
    {
      if spec.fixedIdx[i] < 0 || spec.fixedIdx[i] >= |out| { return Err(OutOfBounds); }
      out := out[spec.fixedIdx[i] := spec.fixedValues[i]];
      assert spec.fixedIdx[..i + 1] == spec.fixedIdx[..i] + [spec.fixedIdx[i]];
      LastAmongMore(spec.fixedIdx[..i], spec.fixedIdx[i]);
    }
    assert spec.fixedIdx[..|spec.fixedIdx|] == spec.fixedIdx;
    return Ok(out);
  }

  lemma LastAmongMore(idx: seq<int>, x: int)
    ensures forall j: nat :: j < |idx| && IsLast(idx + [x], j) ==> IsLast(idx, j) && idx[j] != x
  {
    forall j: nat | j < |idx| && IsLast(idx + [x], j)
      ensures IsLast(idx, j) && idx[j] != x
    {
      forall k | j < k < |idx|
        ensures idx[k] != idx[j]
      {
        assert (idx + [x])[k] == idx[k];
      }
      assert (idx + [x])[|idx|] == x;
    }
  }

  method ExpandFreeParams(free: Vec, template: Vec, spec: FixedParamSpec) returns (full: Vec)
    requires Partition(spec, |template|) && |free| == |spec.freeIdx|
    ensures IsExpanded(full, free, spec, |template|) && Subset(full, spec.freeIdx) == free
  {
    var applied := ApplyFixedValues(template, spec);
    full := applied.value;
    for i := 0 to |spec.freeIdx|
      invariant |full| == |template|
      invariant forall j :: 0 <= j < |spec.fixedIdx| ==> full[spec.fixedIdx[j]] == spec.fixedValues[j]
      invariant forall j :: 0 <= j < i ==> full[spec.freeIdx[j]] == free[j]
    {
      assert spec.freeIdx[i] in spec.freeIdx;
      full := full[spec.freeIdx[i] := free[i]];
    }
  }

  /** There is one expansion, whatever vector the expansion started from. */
  lemma ExpansionUnique(full: Vec, other: Vec, free: Vec, spec: FixedParamSpec, n: nat)
    requires Partition(spec, n) && |free| == |spec.freeIdx|
    requires IsExpanded(full, free, spec, n) && IsExpanded(other, free, spec, n)
    ensures full == other
  {
    forall k: nat | k < n
      ensures full[k] == other[k]
    {
      if k in spec.freeIdx {
        var i: nat :| i < |spec.freeIdx| && spec.freeIdx[i] == k;
      } else {
        var i: nat :| i < |spec.fixedIdx| && spec.fixedIdx[i] == k;
      }
    }
  }

  lemma ExpandAfterSubset(x: Vec, applied: Vec, full: Vec, spec: FixedParamSpec)
    requires Partition(spec, |x|) && IsApplied(applied, x, spec)
    requires IsExpanded(full, Subset(x, spec.freeIdx), spec, |x|)
    ensures full == applied
  {
    forall i | 0 <= i < |spec.freeIdx|
      ensures applied[spec.freeIdx[i]] == x[spec.freeIdx[i]]
    {
      assert spec.freeIdx[i] in spec.freeIdx;
    }
    ExpansionUnique(full, applied, Subset(x, spec.freeIdx), spec, |x|);
  }

  // Matrices.

  datatype IndexFault = RowOutOfBounds | ColumnOutOfBounds

  /** `subset_matrix`; `cols` is `M.cols()`. */
  method SubsetMatrix(m: Mat, cols: nat, rowIdx: seq<int>, colIdx: seq<int>) returns (r: Result<Mat, IndexFault>)
    requires IsMat(m, |m|, cols)
    ensures r == Err(RowOutOfBounds) <==> exists i :: 0 <= i < |rowIdx| && !(0 <= rowIdx[i] < |m|)
    ensures r.Ok? <==> (forall i :: 0 <= i < |rowIdx| ==> 0 <= rowIdx[i] < |m|)
                       && (forall j :: 0 <= j < |colIdx| ==> 0 <= colIdx[j] < cols)
    ensures r.Ok? ==> IsMat(r.value, |rowIdx|, |colIdx|)
                      && forall i, j :: 0 <= i < |rowIdx| && 0 <= j < |colIdx| ==>
                            r.value[i][j] == m[rowIdx[i]][colIdx[j]]
  {
    for i := 0 to |rowIdx|
      invariant forall k :: 0 <= k < i ==> 0 <= rowIdx[k] < |m|
    {
      if rowIdx[i] < 0 || rowIdx[i] >= |m| { return Err(RowOutOfBounds); }
    }
    for j := 0 to |colIdx|
      invariant forall k :: 0 <= k < j ==> 0 <= colIdx[k] < cols
    {
      if colIdx[j] < 0 || colIdx[j] >= cols { return Err(ColumnOutOfBounds); }
    }
    var out: Mat := [];
    for i := 0 to |rowIdx|
      invariant IsMat(out, i, |colIdx|)
      invariant forall k, j :: 0 <= k < i && 0 <= j < |colIdx| ==> out[k][j] == m[rowIdx[k]][colIdx[j]]
    {
      var row: Vec := [];
      for j := 0 to |colIdx|
        invariant |row| == j && forall k :: 0 <= k < j ==> row[k] == m[rowIdx[i]][colIdx[k]]
      {
        row := row + [m[rowIdx[i]][colIdx[j]]];
      }
      out := out + [row];
    }
    return Ok(out);
  }

  /** The free block of a square matrix. */
  function FreeBlock(m: Mat, idx: seq<nat>): (r: Mat)
    requires InRange(idx, |m|) && IsMat(m, |m|, |m|)
    ensures IsMat(r, |idx|, |idx|)
    ensures forall i, j :: 0 <= i < |idx| && 0 <= j < |idx| ==> r[i][j] == m[idx[i]][idx[j]]
  {
    seq(|idx|, i requires 0 <= i < |idx| => Subset(m[idx[i]], idx))
  }

  /** `expand_free_covariance`: `None` stands for the missing entries (NaN). */
  method ExpandFreeCovariance(n: nat, spec: FixedParamSpec, cov: Mat, fixedAsMissing: bool)
    returns (full: array2<Option<real>>)
    requires Partition(spec, n) && IsMat(cov, |spec.freeIdx|, |spec.freeIdx|)
    ensures full.Length0 == full.Length1 == n
    ensures forall i, j :: 0 <= i < |spec.freeIdx| && 0 <= j < |spec.freeIdx| ==>
              full[spec.freeIdx[i], spec.freeIdx[j]] == Some(cov[i][j])
    ensures forall a: nat, b: nat :: a < n && b < n && (a in spec.fixedIdx || b in spec.fixedIdx) ==>
              full[a, b] == if fixedAsMissing then None else Some(0.0)
  {
    var blank: Option<real> := if fixedAsMissing then None else Some(0.0);
    full := new Option<real>[n, n]((_, _) => blank);
    for i := 0 to |spec.freeIdx|
      invariant CovarianceFilled(full, spec, cov, blank, i, 0)
    {
      for j := 0 to |spec.freeIdx|
        invariant CovarianceFilled(full, spec, cov, blank, i, j)
      {
        SlotsDistinct(spec, n, i);
        SlotsDistinct(spec, n, j);
        full[spec.freeIdx[i], spec.freeIdx[j]] := Some(cov[i][j]);
      }
    }
  }

  ghost predicate CovarianceFilled(full: array2<Option<real>>, spec: FixedParamSpec, cov: Mat, blank: Option<real>,
                                   i: nat, j: nat)
    requires full.Length0 == full.Length1 && Partition(spec, full.Length0)
    requires IsMat(cov, |spec.freeIdx|, |spec.freeIdx|)
    reads full
  {
    && (forall r, c :: 0 <= r < |spec.freeIdx| && 0 <= c < |spec.freeIdx| && (r < i || (r == i && c < j)) ==>
          full[spec.freeIdx[r], spec.freeIdx[c]] == Some(cov[r][c]))
    && (forall a: nat, b: nat :: a < full.Length0 && b < full.Length0 && (a in spec.fixedIdx || b in spec.fixedIdx) ==>
          full[a, b] == blank)
  }

  lemma SlotsDistinct(spec: FixedParamSpec, n: nat, i: nat)
    requires Partition(spec, n) && i < |spec.freeIdx|
    ensures spec.freeIdx[i] < n && spec.freeIdx[i] !in spec.fixedIdx
    ensures forall r :: 0 <= r < |spec.freeIdx| && r != i ==> spec.freeIdx[r] != spec.freeIdx[i]
  {
    assert spec.freeIdx[i] in spec.freeIdx;
  }
}
