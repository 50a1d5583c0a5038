/** The four-dimensional transpose that turns channel planes into pixel records. */
module Transpose {
  import Arithmetic

  type Index = seq<nat>

  ghost predicate InBox(shape: seq<nat>, id: Index) {
    |shape| == |id| == 4 && forall k :: 0 <= k < 4 ==> id[k] < shape[k]
  }

  /** The position of an index in row-major order. */
  function Flat(shape: seq<nat>, id: Index): nat
    requires |shape| == |id| == 4
  {
    ((id[0] * shape[1] + id[1]) * shape[2] + id[2]) * shape[3] + id[3]
  }

  function Total(shape: seq<nat>): nat
    requires |shape| == 4
  {
    shape[0] * shape[1] * shape[2] * shape[3]
  }

  /** The index at a position. */
  ghost function Unflat(shape: seq<nat>, n: nat): (id: Index)
    requires |shape| == 4 && n < Total(shape)
    ensures InBox(shape, id) && Flat(shape, id) == n
  {
    PositiveShape(shape, n);
    var a, b := n / shape[3], n % shape[3];
    QuotientBelow(n, shape[0] * shape[1] * shape[2], shape[3]);
    var c, d := a / shape[2], a % shape[2];
    QuotientBelow(a, shape[0] * shape[1], shape[2]);
    var e, f := c / shape[1], c % shape[1];
    QuotientBelow(c, shape[0], shape[1]);
    [e, f, d, b]
  }

  lemma PositiveShape(shape: seq<nat>, n: nat)
    requires |shape| == 4 && n < Total(shape)
    ensures forall k :: 0 <= k < 4 ==> shape[k] > 0
  {
    assert shape[0] == 0 || shape[1] == 0 ==> shape[0] * shape[1] == 0;
    assert shape[0] * shape[1] == 0 || shape[2] == 0 ==> shape[0] * shape[1] * shape[2] == 0;
  }

  lemma QuotientBelow(n: nat, q: nat, b: nat)
    requires b > 0 && n < q * b
    ensures n / b < q && n == n / b * b + n % b && n % b < b
  {
    assert (n / b - q) * b == n / b * b - q * b;
    if n / b >= q {
      Arithmetic.NonNegative(n / b - q, b);
    }
  }

  /** Positions determine indices. */
  lemma FlatInjective(shape: seq<nat>, id: Index, id': Index)
    requires InBox(shape, id) && InBox(shape, id') && Flat(shape, id) == Flat(shape, id')
    ensures id == id'
  {
    SplitInjective(id[0] * shape[1] + id[1], id[2], id'[0] * shape[1] + id'[1], id'[2],
      shape[2], id[3], id'[3], shape[3]);
    Arithmetic.DivModUnique(id[0] * shape[1] + id[1], id[0], id[1], shape[1]);
    Arithmetic.DivModUnique(id'[0] * shape[1] + id'[1], id'[0], id'[1], shape[1]);
  }

  lemma SplitInjective(a: nat, b: nat, a': nat, b': nat, s: nat, c: nat, c': nat, t: nat)
    requires b < s && b' < s && c < t && c' < t
    requires (a * s + b) * t + c == (a' * s + b') * t + c'
    ensures a == a' && b == b' && c == c'
  {
    var x := (a * s + b) * t + c;
    Arithmetic.DivModUnique(x, a * s + b, c, t);
    Arithmetic.DivModUnique(x, a' * s + b', c', t);
    Arithmetic.DivModUnique(a * s + b, a, b, s);
    Arithmetic.DivModUnique(a' * s + b', a', b', s);
  }

  lemma FlatInside(shape: seq<nat>, id: Index)
    requires InBox(shape, id)
    ensures Flat(shape, id) < Total(shape)
  {
    Inside(id[0], id[1], shape[0], shape[1]);
    Inside(id[0] * shape[1] + id[1], id[2], shape[0] * shape[1], shape[2]);
    Inside((id[0] * shape[1] + id[1]) * shape[2] + id[2], id[3], shape[0] * shape[1] * shape[2], shape[3]);
  }

  lemma Inside(a: nat, b: nat, m: nat, n: nat)
    requires a < m && b < n
    ensures a * n + b < m * n
  {
    Arithmetic.NonNegative(m - 1 - a, n);
    assert (m - 1 - a) * n == m * n - n - a * n;
  }

  // ---------------------------------------------------------------------------
  // Permuted axes
  // ---------------------------------------------------------------------------

  predicate IsAxes(axes: seq<nat>) {
    |axes| == 4 && forall k :: 0 <= k < 4 ==> axes[k] < 4
  }

  predicate IsPermutation(axes: seq<nat>) {
    IsAxes(axes) && forall j, k :: 0 <= j < k < 4 ==> axes[j] != axes[k]
  }

  function Permute(s: seq<nat>, axes: seq<nat>): (r: seq<nat>)
    requires |s| == 4 && IsAxes(axes)
    ensures |r| == 4 && forall k :: 0 <= k < 4 ==> r[k] == s[axes[k]]
  {
    [s[axes[0]], s[axes[1]], s[axes[2]], s[axes[3]]]
  }

  /** Every axis is the image of some axis. */
  lemma PermutationCovers(axes: seq<nat>, j: nat) returns (k: nat)
    requires IsPermutation(axes) && j < 4
    ensures k < 4 && axes[k] == j
  {
    if axes[0] == j { k := 0; }
    else if axes[1] == j { k := 1; }
    else if axes[2] == j { k := 2; }
    else { k := 3; }
  }

  lemma PermuteInjective(s: seq<nat>, t: seq<nat>, axes: seq<nat>)
    requires |s| == |t| == 4 && IsPermutation(axes) && Permute(s, axes) == Permute(t, axes)
    ensures s == t
  {
    forall j | 0 <= j < 4 ensures s[j] == t[j] {
      var k := PermutationCovers(axes, j);
      assert Permute(s, axes)[k] == Permute(t, axes)[k];
    }
  }

  /** Where the cell at position `n` goes. */
  ghost function Target(shape: seq<nat>, axes: seq<nat>, n: nat): nat
    requires |shape| == 4 && IsAxes(axes) && n < Total(shape)
  {
    Flat(Permute(shape, axes), Permute(Unflat(shape, n), axes))
  }

  lemma PermutedInBox(shape: seq<nat>, axes: seq<nat>, id: Index)
    requires InBox(shape, id) && IsAxes(axes)
    ensures InBox(Permute(shape, axes), Permute(id, axes))
  {
  }

  lemma TargetInjective(shape: seq<nat>, axes: seq<nat>, m: nat, n: nat)
    requires |shape| == 4 && IsPermutation(axes) && m < Total(shape) && n < Total(shape) && m != n
    ensures Target(shape, axes, m) != Target(shape, axes, n)
  {
    var a, b := Unflat(shape, m), Unflat(shape, n);
    PermutedInBox(shape, axes, a);
    PermutedInBox(shape, axes, b);
    if Target(shape, axes, m) == Target(shape, axes, n) {
      FlatInjective(Permute(shape, axes), Permute(a, axes), Permute(b, axes));
      PermuteInjective(a, b, axes);
    }
  }

  /** `w` holds the cells of `v` moved to the permuted axes. */
  ghost predicate Transposed<T>(v: seq<T>, shape: seq<nat>, axes: seq<nat>, w: seq<T>)
    requires |shape| == 4 && IsPermutation(axes)
  {
    && |v| == |w| == Total(shape)
    && forall id: Index :: InBox(shape, id) ==> CellMoved(v, shape, axes, w, id)
  }

  ghost predicate CellMoved<T>(v: seq<T>, shape: seq<nat>, axes: seq<nat>, w: seq<T>, id: Index)
    requires |shape| == |id| == 4 && IsPermutation(axes)
  {
    var from, to := Flat(shape, id), Flat(Permute(shape, axes), Permute(id, axes));
    from < |v| && to < |w| && w[to] == v[from]
  }

  function Swap(s: seq<nat>, i: nat, j: nat): (r: seq<nat>)
    requires i < |s| && j < |s|
    ensures |r| == |s|
  {
    s[i := s[j]][j := s[i]]
  }

  lemma SwapKeepsTotal(p: seq<nat>, i: nat, j: nat)
    requires |p| == 4 && i < j < 4
    ensures Total(Swap(p, i, j)) == Total(p)
  {
    SwappedProducts(p[0], p[1], p[2], p[3]);
  }

  lemma SwappedProducts(a: nat, b: nat, c: nat, d: nat)
    ensures a * b * c * d == b * a * c * d == c * b * a * d
         == d * b * c * a == a * c * b * d == a * d * c * b == a * b * d * c
  {
  }

  /** Moving axis `j` to its place by a swap keeps the total and the places before it. */
  lemma PlaceAxis(shape: seq<nat>, axes: seq<nat>, j: nat) returns (axes': seq<nat>)
    requires |shape| == 4 && IsPermutation(axes) && j < 4 && forall k :: 0 <= k < j ==> axes[k] == k
    ensures IsPermutation(axes') && forall k :: 0 <= k <= j ==> axes'[k] == k
    ensures Total(Permute(shape, axes')) == Total(Permute(shape, axes))
  {
    var k := PermutationCovers(axes, j);
    if k == j {
      axes' := axes;
    } else {
      axes' := Swap(axes, j, k);
      SwapKeepsTotal(Permute(shape, axes), j, k);
      assert Permute(shape, axes') == Swap(Permute(shape, axes), j, k);
    }
  }

  lemma TotalPermuted(shape: seq<nat>, axes: seq<nat>)
    requires |shape| == 4 && IsPermutation(axes)
    ensures Total(Permute(shape, axes)) == Total(shape)
  {
    var a := PlaceAxis(shape, axes, 0);
    var b := PlaceAxis(shape, a, 1);
    var c := PlaceAxis(shape, b, 2);
    assert c == [0, 1, 2, 3];
  }

  // ---------------------------------------------------------------------------
  // The loops
  // ---------------------------------------------------------------------------

  /** The moved cells have room: the permuted shape is no larger, or there is no cell. */
  predicate HasRoom(shape: seq<nat>, axes: seq<nat>)
    requires |shape| == 4
  {
    IsAxes(axes) && (Total(shape) == 0 || Total(Permute(shape, axes)) <= Total(shape))
  }

  lemma TargetInside(shape: seq<nat>, axes: seq<nat>, n: nat)
    requires |shape| == 4 && HasRoom(shape, axes) && n < Total(shape)
    ensures Target(shape, axes, n) < Total(shape)
  {
    PermutedInBox(shape, axes, Unflat(shape, n));
    FlatInside(Permute(shape, axes), Permute(Unflat(shape, n), axes));
  }

  lemma LastPosition(shape: seq<nat>, id: Index)
    requires InBox(shape, id) && forall k :: 0 <= k < 4 ==> id[k] == shape[k] - 1
    ensures Flat(shape, id) == Total(shape) - 1
  {
    assert (shape[0] - 1) * shape[1] + shape[1] == shape[0] * shape[1];
    var x, y := shape[0] * shape[1], shape[0] * shape[1] * shape[2];
    assert (x - 1) * shape[2] + shape[2] == x * shape[2];
    assert (y - 1) * shape[3] + shape[3] == y * shape[3];
  }

  /** Room is the exact condition under which no cell is written past the end. */
  lemma RoomIsExact(shape: seq<nat>, axes: seq<nat>)
    requires |shape| == 4 && IsAxes(axes)
    ensures HasRoom(shape, axes) <==> forall n: nat :: n < Total(shape) ==> Target(shape, axes, n) < Total(shape)
  {
    if HasRoom(shape, axes) {
      forall n: nat | n < Total(shape) ensures Target(shape, axes, n) < Total(shape) {
        TargetInside(shape, axes, n);
      }
    } else {
      PositiveShape(shape, 0);
      var id: Index := [shape[0] - 1, shape[1] - 1, shape[2] - 1, shape[3] - 1];
      var n := Flat(shape, id);
      LastPosition(shape, id);
      FlatInjective(shape, id, Unflat(shape, n));
      LastPosition(Permute(shape, axes), Permute(id, axes));
      assert Target(shape, axes, n) >= Total(shape);
    }
  }

  /** What the loops leave: the cells in row-major order, each written to its target. */
  ghost function Written<T>(v: seq<T>, shape: seq<nat>, axes: seq<nat>, zero: T, n: nat): (w: seq<T>)
    requires |shape| == 4 && HasRoom(shape, axes) && |v| == Total(shape) && n <= |v|
    ensures |w| == |v|
  {
    if n == 0 then seq(|v|, _ => zero)
    else
      TargetInside(shape, axes, n - 1);
      Written(v, shape, axes, zero, n - 1)[Target(shape, axes, n - 1) := v[n - 1]]
  }

  /** No later cell goes where cell `m` goes. */
  ghost predicate LastTo(shape: seq<nat>, axes: seq<nat>, m: nat, n: nat)
    requires |shape| == 4 && IsAxes(axes) && m < n <= Total(shape)
  {
    forall k: nat :: m < k < n ==> Target(shape, axes, k) != Target(shape, axes, m)
  }

  ghost predicate Unwritten(shape: seq<nat>, axes: seq<nat>, p: nat, n: nat)
    requires |shape| == 4 && IsAxes(axes) && n <= Total(shape)
  {
    forall k: nat :: k < n ==> Target(shape, axes, k) != p
  }

  /** With repeated axes some cells are overwritten and some are not reached: a position holds the
      last cell sent there, or zero. */
  lemma {:induction false} LastWins<T>(v: seq<T>, shape: seq<nat>, axes: seq<nat>, zero: T, n: nat)
    requires |shape| == 4 && HasRoom(shape, axes) && |v| == Total(shape) && n <= |v|
    ensures var w := Written(v, shape, axes, zero, n);
            && (forall m: nat :: m < n && LastTo(shape, axes, m, n) ==> TargetIs(shape, axes, m, w, v[m]))
            && (forall p :: 0 <= p < |w| && Unwritten(shape, axes, p, n) ==> w[p] == zero)
  {
    if n > 0 {
      LastWins(v, shape, axes, zero, n - 1);
      TargetInside(shape, axes, n - 1);
      var w := Written(v, shape, axes, zero, n);
      forall m: nat | m < n && LastTo(shape, axes, m, n) ensures TargetIs(shape, axes, m, w, v[m]) {
        if m < n - 1 {
          assert LastTo(shape, axes, m, n - 1);
        }
      }
      forall p | 0 <= p < |w| && Unwritten(shape, axes, p, n) ensures w[p] == zero {
        assert Unwritten(shape, axes, p, n - 1);
      }
    }
  }

  ghost predicate TargetIs<T>(shape: seq<nat>, axes: seq<nat>, m: nat, w: seq<T>, x: T)
    requires |shape| == 4 && IsAxes(axes) && m < Total(shape)
  {
    Target(shape, axes, m) < |w| && w[Target(shape, axes, m)] == x
  }

  lemma PermutationHasRoom(shape: seq<nat>, axes: seq<nat>)
    requires |shape| == 4 && IsPermutation(axes)
    ensures HasRoom(shape, axes)
  {
    TotalPermuted(shape, axes);
  }

  lemma AllMoved<T>(v: seq<T>, shape: seq<nat>, axes: seq<nat>, zero: T)
    requires |shape| == 4 && IsPermutation(axes) && HasRoom(shape, axes) && |v| == Total(shape)
    ensures Transposed(v, shape, axes, Written(v, shape, axes, zero, |v|))
  {
    var w := Written(v, shape, axes, zero, |v|);
    LastWins(v, shape, axes, zero, |v|);
    forall id: Index | InBox(shape, id) ensures CellMoved(v, shape, axes, w, id) {
      var m := Flat(shape, id);
      FlatInside(shape, id);
      FlatInjective(shape, id, Unflat(shape, m));
      forall k: nat | m < k < |v| ensures Target(shape, axes, k) != Target(shape, axes, m) {
        TargetInjective(shape, axes, m, k);
      }
      assert LastTo(shape, axes, m, |v|);
      assert TargetIs(shape, axes, m, w, v[m]);
    }
  }

  /** The offset computed from the steps is the row-major position in the permuted shape. */
  lemma StepsAreFlat(shape: seq<nat>, axes: seq<nat>, id: Index)
    requires InBox(shape, id) && IsAxes(axes)
    ensures id[axes[0]] * (shape[axes[1]] * shape[axes[2]] * shape[axes[3]])
          + id[axes[1]] * (shape[axes[2]] * shape[axes[3]])
          + id[axes[2]] * shape[axes[3]] + id[axes[3]]
         == Flat(Permute(shape, axes), Permute(id, axes))
  {
    Distribute(id[axes[0]], id[axes[1]], id[axes[2]], id[axes[3]], shape[axes[1]], shape[axes[2]], shape[axes[3]]);
  }

  lemma Distribute(a: nat, b: nat, c: nat, d: nat, s: nat, t: nat, u: nat)
    ensures a * (s * t * u) + b * (t * u) + c * u + d == ((a * s + b) * t + c) * u + d
  {
    assert (a * s + b) * t == a * s * t + b * t;
    assert ((a * s + b) * t + c) * u == a * s * t * u + b * t * u + c * u;
  }

  /** The offset a source position is written to. */
  function Offset(shape: seq<nat>, axes: seq<nat>, id: Index): nat
    requires |shape| == |id| == 4 && IsAxes(axes)
  {
    id[axes[0]] * (shape[axes[1]] * shape[axes[2]] * shape[axes[3]]) + id[axes[1]] * (shape[axes[2]] * shape[axes[3]])
    + id[axes[2]] * shape[axes[3]] + id[axes[3]]
  }

  lemma OffsetIsTarget(shape: seq<nat>, axes: seq<nat>, id: Index, si: nat)
    requires InBox(shape, id) && HasRoom(shape, axes) && si == Flat(shape, id)
    ensures si < Total(shape) && Offset(shape, axes, id) == Target(shape, axes, si) < Total(shape)
  {
    FlatInside(shape, id);
    FlatInjective(shape, id, Unflat(shape, si));
    StepsAreFlat(shape, axes, id);
    TargetInside(shape, axes, si);
  }

  /** The cells before position `n` have been moved. */
  ghost predicate MovedUpTo<T>(v: seq<T>, shape: seq<nat>, axes: seq<nat>, zero: T, w: seq<T>, n: nat)
    requires |shape| == 4 && HasRoom(shape, axes)
  {
    |v| == Total(shape) && n <= |v| && w == Written(v, shape, axes, zero, n)
  }

  /** Moves the cell at `id`, which is read at position `si`. */
  method MoveCell<T>(v: seq<T>, ov: array<T>, shape: seq<nat>, axes: seq<nat>, ghost zero: T, id: Index, si: nat)
    requires InBox(shape, id) && HasRoom(shape, axes) && si == Flat(shape, id)
    requires MovedUpTo(v, shape, axes, zero, ov[..], si)
    modifies ov
    ensures MovedUpTo(v, shape, axes, zero, ov[..], si + 1)
  {
    OffsetIsTarget(shape, axes, id, si);
    var ni := Offset(shape, axes, id);
    ghost var before := ov[..];
    ov[ni] := v[si];
    assert ov[..] == before[ni := v[si]];
  }

  lemma Step(a: nat, b: nat)
    ensures (a + 1) * b == a * b + b
  {
  }

  /** Transposes `v` in row-major order to the permuted axes; refuses axes that do not
      fit the shape and then leaves the data alone. */
  method Transpose4d<T>(v: seq<T>, shape: seq<nat>, axes: seq<nat>, zero: T) returns (ok: bool, w: seq<T>)
    requires |shape| == |axes| && (forall k :: 0 <= k < |axes| ==> axes[k] < |shape|) ==>
               |shape| == 4 && HasRoom(shape, axes) && |v| == Total(shape)
    ensures ok <==> |shape| == |axes| && forall k :: 0 <= k < |axes| ==> axes[k] < |shape|
    ensures ok ==> w == Written(v, shape, axes, zero, |v|)
    ensures ok && IsPermutation(axes) ==> Transposed(v, shape, axes, w)
    ensures !ok ==> w == v
  {
    if |shape| != |axes| { return false, v; }
    for k := 0 to |axes|
      invariant forall j :: 0 <= j < k ==> axes[j] < |shape|
    {
      if axes[k] >= |shape| { return false, v; }
    }
    var ov := new T[Total(shape)](_ => zero);
    var si := 0;
    for i0 := 0 to shape[0]
      invariant si == i0 * shape[1] * shape[2] * shape[3]
      invariant MovedUpTo(v, shape, axes, zero, ov[..], si)
    {
      for i1 := 0 to shape[1]
        invariant si == (i0 * shape[1] + i1) * shape[2] * shape[3]
        invariant MovedUpTo(v, shape, axes, zero, ov[..], si)
      {
        si := MovePlane(v, ov, shape, axes, zero, i0, i1, si);
      }
      Step(i0, shape[1]);
    }
    if IsPermutation(axes) { AllMoved(v, shape, axes, zero); }
    return true, ov[..];
  }

  /** The two inner loops. */
  method MovePlane<T>(v: seq<T>, ov: array<T>, shape: seq<nat>, axes: seq<nat>, ghost zero: T, i0: nat, i1: nat,
                      start: nat)
      returns (si: nat)
    requires |shape| == 4 && HasRoom(shape, axes) && i0 < shape[0] && i1 < shape[1]
    requires start == (i0 * shape[1] + i1) * shape[2] * shape[3] && MovedUpTo(v, shape, axes, zero, ov[..], start)
    modifies ov
    ensures si == (i0 * shape[1] + (i1 + 1)) * shape[2] * shape[3] && MovedUpTo(v, shape, axes, zero, ov[..], si)
  {
    si := start;
    ghost var plane := i0 * shape[1] + i1;
    for i2 := 0 to shape[2]
      invariant si == (plane * shape[2] + i2) * shape[3]
      invariant MovedUpTo(v, shape, axes, zero, ov[..], si)
    {
      for i3 := 0 to shape[3]
        invariant si == (plane * shape[2] + i2) * shape[3] + i3
        invariant MovedUpTo(v, shape, axes, zero, ov[..], si)
      {
        MoveCell(v, ov, shape, axes, zero, [i0, i1, i2, i3], si);
        si := si + 1;
      }
      Step(plane * shape[2] + i2, shape[3]);
    }
    Step(plane, shape[2]);
  }

  // ---------------------------------------------------------------------------
  // What the transpose means
  // ---------------------------------------------------------------------------

  ghost predicate Inverse(axes: seq<nat>, inv: seq<nat>) {
    IsPermutation(axes) && IsPermutation(inv) && forall k :: 0 <= k < 4 ==> axes[inv[k]] == k
  }

  /** Transposing with the inverse axes gives back the data. */
  lemma InverseUndoes<T>(v: seq<T>, shape: seq<nat>, axes: seq<nat>, w: seq<T>, inv: seq<nat>, back: seq<T>)
    requires |shape| == 4 && Inverse(axes, inv)
    requires Transposed(v, shape, axes, w) && Transposed(w, Permute(shape, axes), inv, back)
    ensures back == v
  {
    assert Permute(Permute(shape, axes), inv) == shape;
    forall n | 0 <= n < |v| ensures back[n] == v[n] {
      var id := Unflat(shape, n);
      assert CellMoved(v, shape, axes, w, id);
      PermutedInBox(shape, axes, id);
      assert CellMoved(w, Permute(shape, axes), inv, back, Permute(id, axes));
      assert Permute(Permute(id, axes), inv) == id;
    }
  }

  ghost predicate OnlySource(shape: seq<nat>, axes: seq<nat>, m: nat, n: nat)
    requires |shape| == 4 && IsPermutation(axes)
  {
    forall k: nat :: k < Total(shape) && Target(shape, axes, k) == m ==> k == n
  }

  /** Every axis permutation has an inverse. */
  lemma InverseExists(axes: seq<nat>) returns (inv: seq<nat>)
    requires IsPermutation(axes)
    ensures Inverse(axes, inv)
  {
    var k0 := PermutationCovers(axes, 0);
    var k1 := PermutationCovers(axes, 1);
    var k2 := PermutationCovers(axes, 2);
    var k3 := PermutationCovers(axes, 3);
    inv := [k0, k1, k2, k3];
  }

  /** Every output position is written from exactly one input position. */
  lemma EveryCellOnce(shape: seq<nat>, axes: seq<nat>, m: nat)
    requires |shape| == 4 && IsPermutation(axes) && m < Total(shape)
    ensures exists n: nat :: n < Total(shape) && Target(shape, axes, n) == m && OnlySource(shape, axes, m, n)
  {
    var inv := InverseExists(axes);
    TotalPermuted(shape, axes);
    var p := Permute(shape, axes);
    var id := Unflat(p, m);
    assert Permute(p, inv) == shape;
    PermutedInBox(p, inv, id);
    var n := Flat(shape, Permute(id, inv));
    FlatInside(shape, Permute(id, inv));
    FlatInjective(shape, Permute(id, inv), Unflat(shape, n));
    InverseIsTwoSided(axes, inv);
    assert Permute(Permute(id, inv), axes) == id;
    assert Target(shape, axes, n) == m;
    forall k: nat | k < Total(shape) && Target(shape, axes, k) == m ensures k == n {
      if k != n { TargetInjective(shape, axes, k, n); }
    }
  }

  lemma InverseIsTwoSided(axes: seq<nat>, inv: seq<nat>)
    requires Inverse(axes, inv)
    ensures Inverse(inv, axes)
  {
    forall k | 0 <= k < 4 ensures inv[axes[k]] == k {
      var j := PermutationCovers(inv, k);
      assert axes[inv[j]] == j;
    }
  }

  // ---------------------------------------------------------------------------
  // From channel planes to per-pixel scores
  // ---------------------------------------------------------------------------

  const CHANNELS_LAST: seq<nat> := [0, 2, 3, 1]

  /** Normalises consecutive pairs. */
  method Softmax<T>(v: seq<T>, pair: (T, T) -> (T, T)) returns (w: seq<T>)
    requires |v| % 2 == 0
    ensures |w| == |v|
    ensures forall i :: 0 <= i < |v| / 2 ==> (w[2 * i], w[2 * i + 1]) == pair(v[2 * i], v[2 * i + 1])
  {
    w := [];
    var i := 0;
    while i < |v|
      invariant 0 <= i <= |v| && i % 2 == 0 && |w| == i
      invariant forall k :: 0 <= k < i / 2 ==> (w[2 * k], w[2 * k + 1]) == pair(v[2 * k], v[2 * k + 1])
    {
      var (a, b) := pair(v[i], v[i + 1]);
      w := w + [a, b];
      i := i + 2;
    }
  }

  /** Keeps the second of every two channels. */
  method SliceSecondChannel<T>(v: seq<T>) returns (w: seq<T>)
    ensures |w| == |v| / 2 && forall i :: 0 <= i < |w| ==> w[i] == v[2 * i + 1]
  {
    w := [];
    for i := 0 to |v| / 2
      invariant |w| == i && forall k :: 0 <= k < i ==> w[k] == v[2 * k + 1]
    {
      w := w + [v[2 * i + 1]];
    }
  }

  lemma PlaneIndex(c: nat, y: nat, x: nat, channels: nat, height: nat, width: nat)
    ensures ((0 * channels + c) * height + y) * width + x == c * (height * width) + (y * width + x)
  {
    assert 0 * channels + c == c;
    assert (c * height + y) * width == c * height * width + y * width;
  }

  lemma RecordIndex(c: nat, y: nat, x: nat, channels: nat, height: nat, width: nat)
    ensures ((0 * height + y) * width + x) * channels + c == (y * width + x) * channels + c
  {
    assert 0 * height + y == y;
  }

  /** Where channel c of pixel (y, x) sits before and after the move to pixel records. */
  lemma PixelRecord<T>(v: seq<T>, channels: nat, height: nat, width: nat, w: seq<T>, c: nat, y: nat, x: nat)
    requires Transposed(v, [1, channels, height, width], CHANNELS_LAST, w)
    requires c < channels && y < height && x < width
    ensures var p := y * width + x;
            0 <= c * (height * width) + p < |v| && 0 <= p * channels + c < |w|
            && w[p * channels + c] == v[c * (height * width) + p]
  {
    var shape := [1, channels, height, width];
    var id: Index := [0, c, y, x];
    assert InBox(shape, id);
    assert CellMoved(v, shape, CHANNELS_LAST, w, id);
    var from, to := Flat(shape, id), Flat(Permute(shape, CHANNELS_LAST), Permute(id, CHANNELS_LAST));
    assert from == ((0 * channels + c) * height + y) * width + x;
    assert to == ((0 * height + y) * width + x) * channels + c;
    PlaneIndex(c, y, x, channels, height, width);
    RecordIndex(c, y, x, channels, height, width);
  }

  /** The scores of an image: cell p * (channels / 2) + k is the second half of the
      normalised pair of planes 2k and 2k + 1 at pixel p. */
  ghost predicate PixelScores<T>(v: seq<T>, channels: nat, height: nat, width: nat, pair: (T, T) -> (T, T),
                                 scores: seq<T>) {
    && |v| == channels * (height * width) && |scores| == |v| / 2
    && forall k: nat, y: nat, x: nat :: k < channels / 2 && y < height && x < width ==>
         ScoreAt(v, channels, height, width, pair, scores, k, y, x)
  }

  ghost predicate ScoreAt<T>(v: seq<T>, channels: nat, height: nat, width: nat, pair: (T, T) -> (T, T), scores: seq<T>,
                             k: nat, y: nat, x: nat) {
    var p := y * width + x;
    && 0 <= p * (channels / 2) + k < |scores|
    && 0 <= 2 * k * (height * width) + p < |v| && 0 <= (2 * k + 1) * (height * width) + p < |v|
    && scores[p * (channels / 2) + k] == pair(v[2 * k * (height * width) + p], v[(2 * k + 1) * (height * width) + p]).1
  }

  /** Planes in, per-pixel scores out. */
  method ScorePixels<T>(v: seq<T>, channels: nat, height: nat, width: nat, zero: T, pair: (T, T) -> (T, T))
      returns (scores: seq<T>)
    requires |v| == channels * (height * width) && channels % 2 == 0
    ensures PixelScores(v, channels, height, width, pair, scores)
  {
    Regroup(channels, height, width);
    PermutationHasRoom([1, channels, height, width], CHANNELS_LAST);
    var ok, w := Transpose4d(v, [1, channels, height, width], CHANNELS_LAST, zero);
    EvenTotal(channels, height * width);
    var normalised := Softmax(w, pair);
    scores := SliceSecondChannel(normalised);
    forall k: nat, y: nat, x: nat | k < channels / 2 && y < height && x < width
      ensures ScoreAt(v, channels, height, width, pair, scores, k, y, x)
    {
      ScoreFrom(v, channels, height, width, pair, w, normalised, scores, k, y, x);
    }
  }

  lemma ScoreFrom<T>(v: seq<T>, channels: nat, height: nat, width: nat, pair: (T, T) -> (T, T),
                     w: seq<T>, normalised: seq<T>, scores: seq<T>, k: nat, y: nat, x: nat)
    requires Transposed(v, [1, channels, height, width], CHANNELS_LAST, w) && channels % 2 == 0
    requires |normalised| == |w| && |w| % 2 == 0
    requires forall i :: 0 <= i < |w| / 2 ==> (normalised[2 * i], normalised[2 * i + 1]) == pair(w[2 * i], w[2 * i + 1])
    requires |scores| == |w| / 2 && forall i :: 0 <= i < |scores| ==> scores[i] == normalised[2 * i + 1]
    requires k < channels / 2 && y < height && x < width
    ensures ScoreAt(v, channels, height, width, pair, scores, k, y, x)
  {
    PixelRecord(v, channels, height, width, w, 2 * k, y, x);
    PixelRecord(v, channels, height, width, w, 2 * k + 1, y, x);
    var p := y * width + x;
    PairIndex(p, channels, k);
    var i := p * (channels / 2) + k;
    assert scores[i] == normalised[2 * i + 1];
    assert (normalised[2 * i], normalised[2 * i + 1]) == pair(w[2 * i], w[2 * i + 1]);
  }

  lemma Regroup(c: nat, h: nat, w: nat)
    ensures 1 * c * h * w == c * (h * w)
  {
  }

  lemma EvenTotal(c: nat, n: nat)
    requires c % 2 == 0
    ensures (c * n) % 2 == 0
  {
    assert c * n == (c / 2 * n) * 2 + 0;
    Arithmetic.DivModUnique(c * n, c / 2 * n, 0, 2);
  }

  lemma PairIndex(p: nat, channels: nat, k: nat)
    requires channels % 2 == 0
    ensures p * channels + 2 * k == 2 * (p * (channels / 2) + k)
  {
  }
}
