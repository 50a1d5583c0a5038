/** Assignments of rows to columns: injectivity, counting, cost, and the
    permutation-sum and duality facts that make a reduced matrix a certificate
    of optimality. */
module Assignment {

  type Matrix = seq<seq<real>>

  /** Every row of `m` has `cols` entries. */
  ghost predicate Rectangular(m: Matrix, rows: nat, cols: nat) {
    |m| == rows && forall i :: 0 <= i < rows ==> |m[i]| == cols
  }

  // ---------------------------------------------------------------------------
  // Partial assignments: entry i is the column of row i, or -1.
  // ---------------------------------------------------------------------------

  ghost predicate InRange(a: seq<int>, cols: nat) {
    forall i :: 0 <= i < |a| ==> -1 <= a[i] < cols
  }

  /** No column is given to two rows. */
  ghost predicate Injective(a: seq<int>) {
    forall i, k :: 0 <= i < k < |a| && a[i] >= 0 ==> a[i] != a[k]
  }

  ghost predicate IsAssignment(a: seq<int>, rows: nat, cols: nat) {
    |a| == rows && InRange(a, cols) && Injective(a)
  }

  ghost predicate Total(a: seq<int>) {
    forall i :: 0 <= i < |a| ==> a[i] >= 0
  }

  /** The number of rows that have a column. */
  ghost function Assigned(a: seq<int>): (c: nat)
    ensures c <= |a|
  {
    if a == [] then 0
    else Assigned(a[..|a| - 1]) + if a[|a| - 1] >= 0 then 1 else 0
  }

  /** The largest number of rows an assignment can serve. */
  ghost function Full(rows: nat, cols: nat): nat {
    if rows < cols then rows else cols
  }

  /** The total cost of the first `k` rows; a row without a column is free. */
  ghost function CostUpTo(m: Matrix, a: seq<int>, k: nat): real
    requires k <= |a| <= |m|
    requires forall i :: 0 <= i < |a| ==> a[i] < |m[i]|
  {
    if k == 0 then 0.0
    else CostUpTo(m, a, k - 1) + if a[k - 1] >= 0 then m[k - 1][a[k - 1]] else 0.0
  }

  ghost function Cost(m: Matrix, a: seq<int>): real
    requires |a| <= |m|
    requires forall i :: 0 <= i < |a| ==> a[i] < |m[i]|
  {
    CostUpTo(m, a, |a|)
  }

  /** `a` is a cheapest assignment among those that serve as many rows as possible. */
  ghost predicate Optimal(m: Matrix, a: seq<int>, rows: nat, cols: nat)
    requires Rectangular(m, rows, cols)
  {
    && IsAssignment(a, rows, cols)
    && Assigned(a) == Full(rows, cols)
    && forall b :: IsAssignment(b, rows, cols) && Assigned(b) == Full(rows, cols)
                   ==> Cost(m, a) <= Cost(m, b)
  }

  lemma {:induction false} AssignedAll(a: seq<int>)
    ensures Assigned(a) == |a| <==> Total(a)
  {
    if a != [] {
      var front := a[..|a| - 1];
      AssignedAll(front);
      assert forall i :: 0 <= i < |front| ==> front[i] == a[i];
      if Total(front) && a[|a| - 1] >= 0 {
        assert forall i :: 0 <= i < |a| ==> a[i] >= 0 by {
          forall i | 0 <= i < |a| ensures a[i] >= 0 {
            if i < |front| { assert front[i] >= 0; }
          }
        }
      }
    }
  }

  /** Giving one more row a column raises the count by exactly one. */
  lemma {:induction false} AssignedOneMore(a: seq<int>, b: seq<int>, r: nat)
    requires |a| == |b| && r < |a|
    requires a[r] < 0 <= b[r]
    requires forall i :: 0 <= i < |a| && i != r ==> (a[i] >= 0 <==> b[i] >= 0)
    ensures Assigned(b) == Assigned(a) + 1
  {
    var last := |a| - 1;
    if r == last {
      AssignedSameRows(a[..last], b[..last]);
    } else {
      AssignedOneMore(a[..last], b[..last], r);
    }
  }

  lemma {:induction false} AssignedSameRows(a: seq<int>, b: seq<int>)
    requires |a| == |b|
    requires forall i :: 0 <= i < |a| ==> (a[i] >= 0 <==> b[i] >= 0)
    ensures Assigned(b) == Assigned(a)
  {
    if a != [] { AssignedSameRows(a[..|a| - 1], b[..|a| - 1]); }
  }

  // ---------------------------------------------------------------------------
  // Pigeonhole
  // ---------------------------------------------------------------------------

  ghost function Elements(s: seq<int>): (e: set<int>)
    ensures forall x :: x in e <==> x in s
  {
    set x | x in s
  }

  lemma {:induction false} ElementsAtMost(s: seq<int>)
    ensures |Elements(s)| <= |s|
  {
    if s == [] {
      assert Elements(s) == {};
    } else {
      var front, last := s[..|s| - 1], s[|s| - 1];
      ElementsAtMost(front);
      assert s == front + [last];
      assert Elements(s) == Elements(front) + {last};
    }
  }

  ghost function Below(n: nat): (e: set<int>)
    ensures forall x :: x in e <==> 0 <= x < n
    ensures |e| == n
  {
    if n == 0 then {} else Below(n - 1) + {n - 1}
  }

  /** The rows that have a column. */
  ghost function AssignedRows(a: seq<int>): set<int> {
    set i | 0 <= i < |a| && a[i] >= 0
  }

  lemma {:induction false} AssignedRowsCount(a: seq<int>)
    ensures |AssignedRows(a)| == Assigned(a)
  {
    if a != [] {
      var last := |a| - 1;
      AssignedRowsCount(a[..last]);
      assert AssignedRows(a) == AssignedRows(a[..last]) + if a[last] >= 0 then {last} else {};
    }
  }

  ghost function ColumnsOf(a: seq<int>, rows: set<int>): (c: set<int>)
    requires rows <= AssignedRows(a)
    ensures forall j :: j in c <==> exists i :: i in rows && a[i] == j
  {
    set i | i in rows :: a[i]
  }

  /** Distinct rows have as many columns. */
  lemma {:induction false} ColumnsOfRows(a: seq<int>, rows: set<int>)
    requires Injective(a) && rows <= AssignedRows(a)
    ensures |ColumnsOf(a, rows)| == |rows|
  {
    assert (forall x :: x !in rows) ==> rows == {};
    if rows == {} {
      assert forall j :: j !in ColumnsOf(a, rows);
      assert ColumnsOf(a, rows) == {};
    } else {
      var r :| r in rows;
      ColumnsOfRows(a, rows - {r});
      assert ColumnsOf(a, rows) == ColumnsOf(a, rows - {r}) + {a[r]};
      assert a[r] !in ColumnsOf(a, rows - {r});
    }
  }

  lemma SubsetCard(a: set<int>, b: set<int>)
    requires a <= b
    ensures |a| <= |b|
  {
    assert b == a + (b - a);
  }

  /** A sequence of n entries with -1 among them leaves some value of 0..n-1 out. */
  lemma {:induction false} SomeColumnFree(s: seq<int>, n: nat, r: nat)
    requires |s| == n && r < n && s[r] < 0
    ensures exists j :: 0 <= j < n && j !in s
  {
    var need := Below(n) + {s[r]};
    assert |need| == n + 1;
    ElementsAtMost(s);
    if need <= Elements(s) {
      SubsetCard(need, Elements(s));
    } else {
      var j :| j in need && j !in Elements(s);
    }
  }

  /** A total injective assignment into 0..n-1 of n rows uses every column. */
  lemma {:induction false} UsesEveryColumn(s: seq<int>, n: nat, j: int)
    requires IsAssignment(s, n, n) && Total(s)
    requires 0 <= j < n
    ensures j in s
  {
    ElementsExact(s);
    assert |Below(n) - {j}| == n - 1;
    if Elements(s) <= Below(n) - {j} {
      SubsetCard(Elements(s), Below(n) - {j});
    }
  }

  lemma {:induction false} ElementsExact(s: seq<int>)
    requires Injective(s) && Total(s)
    ensures |Elements(s)| == |s|
  {
    if s == [] {
      assert Elements(s) == {};
    } else {
      var front, last := s[..|s| - 1], s[|s| - 1];
      ElementsExact(front);
      assert s == front + [last];
      assert Elements(s) == Elements(front) + {last};
      assert last !in Elements(front);
    }
  }

  // ---------------------------------------------------------------------------
  // Sums
  // ---------------------------------------------------------------------------

  /** The sum of `v` at the positions listed in `s`. */
  ghost function SumAt(v: seq<real>, s: seq<int>): real
    requires forall i :: 0 <= i < |s| ==> 0 <= s[i] < |v|
  {
    if s == [] then 0.0 else SumAt(v, s[..|s| - 1]) + v[s[|s| - 1]]
  }

  lemma {:induction false} SumAtConcat(v: seq<real>, s: seq<int>, t: seq<int>)
    requires forall i :: 0 <= i < |s| ==> 0 <= s[i] < |v|
    requires forall i :: 0 <= i < |t| ==> 0 <= t[i] < |v|
    ensures SumAt(v, s + t) == SumAt(v, s) + SumAt(v, t)
  {
    if t == [] {
      assert s + t == s;
    } else {
      var front := t[..|t| - 1];
      assert (s + t)[..|s + t| - 1] == s + front;
      SumAtConcat(v, s, front);
    }
  }

  ghost function SumTo(v: seq<real>, n: nat): real
    requires n <= |v|
  {
    if n == 0 then 0.0 else SumTo(v, n - 1) + v[n - 1]
  }

  /** Summing over a permutation is summing in order. */
  lemma {:induction false} SumOverPermutation(v: seq<real>, s: seq<int>, n: nat)
    requires n <= |v| && IsAssignment(s, n, n) && Total(s)
    ensures SumAt(v, s) == SumTo(v, n)
  {
    if n > 0 {
      UsesEveryColumn(s, n, n - 1);
      var k :| 0 <= k < n && s[k] == n - 1;
      RemovedIsPermutation(s, n, k);
      SumOverPermutation(v, s[..k] + s[k + 1..], n - 1);
      SumAtRemoved(v, s, k);
    }
  }

  lemma SumAtRemoved(v: seq<real>, s: seq<int>, k: nat)
    requires forall i :: 0 <= i < |s| ==> 0 <= s[i] < |v|
    requires k < |s|
    ensures var t := s[..k] + s[k + 1..];
            (forall i :: 0 <= i < |t| ==> 0 <= t[i] < |v|) && SumAt(v, s) == SumAt(v, t) + v[s[k]]
  {
    var before, here, after := s[..k], [s[k]], s[k + 1..];
    assert here[..0] == [];
    assert s == (before + here) + after;
    SumAtConcat(v, before + here, after);
    SumAtConcat(v, before, here);
    SumAtConcat(v, before, after);
  }

  lemma RemovedIsPermutation(s: seq<int>, n: nat, k: nat)
    requires IsAssignment(s, n, n) && Total(s) && k < n && s[k] == n - 1
    ensures IsAssignment(s[..k] + s[k + 1..], n - 1, n - 1) && Total(s[..k] + s[k + 1..])
  {
    var t := s[..k] + s[k + 1..];
    assert forall i :: 0 <= i < |t| ==> t[i] == s[if i < k then i else i + 1];
    forall i | 0 <= i < |t| ensures 0 <= t[i] < n - 1 {
      var o := if i < k then i else i + 1;
      assert s[o] != s[k];
    }
  }

  // ---------------------------------------------------------------------------
  // Duality
  // ---------------------------------------------------------------------------

  /** The entry left after subtracting a row and a column potential. */
  ghost function Reduced(m: Matrix, u: seq<real>, v: seq<real>, i: int, j: int): real
    requires 0 <= i < |m| == |u| && 0 <= j < |m[i]| == |v|
  {
    m[i][j] - u[i] - v[j]
  }

  ghost predicate SquareWithPotentials(m: Matrix, u: seq<real>, v: seq<real>, n: nat) {
    Rectangular(m, n, n) && |u| == n && |v| == n
  }

  /** No entry is cheaper than its potentials. */
  ghost predicate Feasible(m: Matrix, u: seq<real>, v: seq<real>, n: nat)
    requires SquareWithPotentials(m, u, v, n)
  {
    forall i, j :: 0 <= i < n && 0 <= j < n ==> Reduced(m, u, v, i, j) >= 0.0
  }

  /** Every assigned cell costs exactly its potentials. */
  ghost predicate Tight(m: Matrix, u: seq<real>, v: seq<real>, n: nat, a: seq<int>)
    requires SquareWithPotentials(m, u, v, n) && |a| == n && InRange(a, n)
  {
    forall i :: 0 <= i < n && a[i] >= 0 ==> Reduced(m, u, v, i, a[i]) == 0.0
  }

  /** Weak duality for prefixes, with equality when the assignment is tight. */
  lemma {:induction false} CostAgainstPotentials(m: Matrix, u: seq<real>, v: seq<real>, n: nat, a: seq<int>, k: nat)
    requires SquareWithPotentials(m, u, v, n) && Feasible(m, u, v, n)
    requires IsAssignment(a, n, n) && Total(a) && k <= n
    ensures CostUpTo(m, a, k) >= SumTo(u, k) + SumAt(v, a[..k])
    ensures Tight(m, u, v, n, a) ==> CostUpTo(m, a, k) == SumTo(u, k) + SumAt(v, a[..k])
  {
    if k > 0 {
      CostAgainstPotentials(m, u, v, n, a, k - 1);
      assert a[..k][..k - 1] == a[..k - 1];
      assert Reduced(m, u, v, k - 1, a[k - 1]) >= 0.0;
    }
  }

  /** A tight total assignment under feasible potentials is a cheapest one. */
  lemma TightIsCheapest(m: Matrix, u: seq<real>, v: seq<real>, n: nat, a: seq<int>, b: seq<int>)
    requires SquareWithPotentials(m, u, v, n) && Feasible(m, u, v, n)
    requires IsAssignment(a, n, n) && Total(a) && Tight(m, u, v, n, a)
    requires IsAssignment(b, n, n) && Total(b)
    ensures Cost(m, a) <= Cost(m, b)
  {
    CostAgainstPotentials(m, u, v, n, a, n);
    CostAgainstPotentials(m, u, v, n, b, n);
    assert a[..n] == a && b[..n] == b;
    SumOverPermutation(v, a, n);
    SumOverPermutation(v, b, n);
  }

  // ---------------------------------------------------------------------------
  // Rectangular matrices inside zero-padded squares
  // ---------------------------------------------------------------------------

  /** `p` is the n-by-n matrix that holds `m` in its top left corner and zeros elsewhere. */
  ghost predicate Pads(p: Matrix, m: Matrix, rows: nat, cols: nat, n: nat)
    requires Rectangular(m, rows, cols)
  {
    && Rectangular(p, n, n) && rows <= n && cols <= n
    && forall i, j :: 0 <= i < n && 0 <= j < n ==>
         p[i][j] == if i < rows && j < cols then m[i][j] else 0.0
  }

  /** What remains of a square assignment when padding rows and columns are dropped. */
  ghost function Cropped(a: seq<int>, rows: nat, cols: nat): (c: seq<int>)
    requires rows <= |a|
    ensures |c| == rows
    ensures forall i :: 0 <= i < rows ==> c[i] == if a[i] < cols then a[i] else -1
  {
    seq(rows, i requires 0 <= i < rows => if a[i] < cols then a[i] else -1)
  }

  lemma CropIsAssignment(a: seq<int>, rows: nat, cols: nat, n: nat)
    requires rows <= n && IsAssignment(a, n, n)
    ensures IsAssignment(Cropped(a, rows, cols), rows, cols)
  {
  }

  /** Padding costs nothing, so a square assignment and its crop cost the same. */
  lemma {:induction false} CropKeepsCost(p: Matrix, m: Matrix, rows: nat, cols: nat, n: nat, a: seq<int>, k: nat)
    requires Rectangular(m, rows, cols) && Pads(p, m, rows, cols, n)
    requires |a| == n && InRange(a, n) && k <= n
    ensures CostUpTo(p, a, k) == CostUpTo(m, Cropped(a, rows, cols), if k < rows then k else rows)
  {
    if k > 0 {
      CropKeepsCost(p, m, rows, cols, n, a, k - 1);
    }
  }

  /** The padding columns given in order to the rows that have none. */
  ghost function Filled(a: seq<int>, cols: nat): (f: seq<int>)
    ensures |f| == |a|
    ensures forall i :: 0 <= i < |a| ==> f[i] == if a[i] >= 0 then a[i] else cols + i - Assigned(a[..i])
  {
    seq(|a|, i requires 0 <= i < |a| => if a[i] >= 0 then a[i] else cols + i - Assigned(a[..i]))
  }

  /** The number of rows without a column grows along the sequence. */
  lemma {:induction false} UnassignedGrows(a: seq<int>, i: nat, k: nat)
    requires i <= k <= |a|
    ensures i - Assigned(a[..i]) <= k - Assigned(a[..k])
    ensures i < k && a[i] < 0 ==> i - Assigned(a[..i]) < k - Assigned(a[..k])
    decreases k
  {
    if i < k {
      UnassignedGrows(a, i, k - 1);
      assert a[..k][..k - 1] == a[..k - 1];
    }
  }

  lemma FilledIsInjective(a: seq<int>, rows: nat, cols: nat)
    requires IsAssignment(a, rows, cols) && Assigned(a) == Full(rows, cols)
    ensures IsAssignment(Filled(a, cols), rows, if rows < cols then cols else rows)
    ensures Total(Filled(a, cols))
    ensures Cropped(Filled(a, cols), rows, cols) == a
  {
    var f := Filled(a, cols);
    forall i | 0 <= i < rows
      ensures 0 <= f[i] < if rows < cols then cols else rows
      ensures Cropped(f, rows, cols)[i] == a[i]
    {
      FilledEntry(a, rows, cols, i);
    }
    forall i, k | 0 <= i < k < rows ensures f[i] != f[k] {
      FilledDiffer(a, rows, cols, i, k);
    }
  }

  lemma FilledDiffer(a: seq<int>, rows: nat, cols: nat, i: nat, k: nat)
    requires IsAssignment(a, rows, cols) && Assigned(a) == Full(rows, cols) && i < k < rows
    ensures Filled(a, cols)[i] != Filled(a, cols)[k]
  {
    FilledEntry(a, rows, cols, i);
    FilledEntry(a, rows, cols, k);
    UnassignedGrows(a, i, k);
  }

  lemma FilledEntry(a: seq<int>, rows: nat, cols: nat, i: nat)
    requires IsAssignment(a, rows, cols) && Assigned(a) == Full(rows, cols) && i < rows
    ensures a[i] < 0 ==> cols <= Filled(a, cols)[i] < rows
  {
    UnassignedGrows(a, i, rows);
    UnassignedGrows(a, 0, i);
    assert a[..rows] == a;
  }

  /** Any total injective assignment of some rows extends to all n rows. */
  lemma {:induction false} Extend(a: seq<int>, rows: nat, n: nat) returns (b: seq<int>)
    requires rows <= n && IsAssignment(a, rows, n) && Total(a)
    ensures IsAssignment(b, n, n) && Total(b) && a <= b
    decreases n - rows
  {
    if rows == n {
      b := a;
    } else {
      var padded := a + seq(n - rows, _ => -1);
      SomeColumnFree(padded, n, rows);
      var j :| 0 <= j < n && j !in padded;
      assert forall i :: 0 <= i < rows ==> padded[i] == a[i];
      var more := a + [j];
      b := Extend(more, rows + 1, n);
      assert a <= more <= b;
    }
  }

  /** Every fullest assignment of the rectangle is the crop of a square one. */
  lemma Completes(a: seq<int>, rows: nat, cols: nat, n: nat) returns (b: seq<int>)
    requires n == if rows < cols then cols else rows
    requires IsAssignment(a, rows, cols) && Assigned(a) == Full(rows, cols)
    ensures IsAssignment(b, n, n) && Total(b) && Cropped(b, rows, cols) == a
  {
    FilledIsInjective(a, rows, cols);
    b := Extend(Filled(a, cols), rows, n);
    assert forall i :: 0 <= i < rows ==> b[i] == Filled(a, cols)[i];
    assert Cropped(b, rows, cols) == Cropped(Filled(a, cols), rows, cols);
  }

  ghost function Indicator(n: nat, cols: nat): (v: seq<real>)
    ensures |v| == n && forall j :: 0 <= j < n ==> v[j] == if j < cols then 1.0 else 0.0
  {
    seq(n, j requires 0 <= j < n => if j < cols then 1.0 else 0.0)
  }

  lemma {:induction false} IndicatorTotal(n: nat, cols: nat, k: nat)
    requires k <= n
    ensures SumTo(Indicator(n, cols), k) == if k < cols then k as real else cols as real
  {
    if k > 0 { IndicatorTotal(n, cols, k - 1); }
  }

  lemma {:induction false} IndicatorCounts(a: seq<int>, n: nat, rows: nat, cols: nat, k: nat)
    requires |a| == n && InRange(a, n) && Total(a) && rows <= n && k <= n && (rows == n || cols == n)
    ensures SumAt(Indicator(n, cols), a[..k]) ==
            if rows == n then Assigned(Cropped(a, rows, cols)[..k]) as real else k as real
  {
    if k > 0 {
      IndicatorCounts(a, n, rows, cols, k - 1);
      assert a[..k][..k - 1] == a[..k - 1];
      if rows == n {
        assert Cropped(a, rows, cols)[..k][..k - 1] == Cropped(a, rows, cols)[..k - 1];
      }
    }
  }

  /** Cropping a square permutation serves min(rows, cols) rows. */
  lemma CropIsFull(a: seq<int>, rows: nat, cols: nat, n: nat)
    requires n == if rows < cols then cols else rows
    requires IsAssignment(a, n, n) && Total(a)
    ensures IsAssignment(Cropped(a, rows, cols), rows, cols)
    ensures Assigned(Cropped(a, rows, cols)) == Full(rows, cols)
  {
    var c := Cropped(a, rows, cols);
    if rows < cols {
      AssignedAll(c);
    } else {
      SumOverPermutation(Indicator(n, cols), a, n);
      IndicatorTotal(n, cols, n);
      IndicatorCounts(a, n, rows, cols, n);
      assert a[..n] == a && c[..n] == c;
    }
  }

  /** The certificate theorem: a tight total assignment of the zero-padded square,
      under feasible potentials, crops to an optimal assignment of the rectangle. */
  lemma CertifiedOptimal(p: Matrix, m: Matrix, rows: nat, cols: nat, n: nat, u: seq<real>, v: seq<real>, a: seq<int>)
    requires n == if rows < cols then cols else rows
    requires Rectangular(m, rows, cols) && Pads(p, m, rows, cols, n)
    requires SquareWithPotentials(p, u, v, n) && Feasible(p, u, v, n)
    requires IsAssignment(a, n, n) && Total(a) && Tight(p, u, v, n, a)
    ensures Optimal(m, Cropped(a, rows, cols), rows, cols)
  {
    CropIsFull(a, rows, cols, n);
    var c := Cropped(a, rows, cols);
    forall b | IsAssignment(b, rows, cols) && Assigned(b) == Full(rows, cols)
      ensures Cost(m, c) <= Cost(m, b)
    {
      var whole := Completes(b, rows, cols, n);
      TightIsCheapest(p, u, v, n, a, whole);
      CropKeepsCost(p, m, rows, cols, n, a, n);
      CropKeepsCost(p, m, rows, cols, n, whole, n);
    }
  }

  // ---------------------------------------------------------------------------
  // A cheapest assignment exists, and no exchange makes it cheaper
  // ---------------------------------------------------------------------------

  /** Every way to give the rows a column or -1. */
  ghost function Candidates(rows: nat, cols: nat): (s: set<seq<int>>)
    ensures forall a :: a in s <==> |a| == rows && InRange(a, cols)
  {
    if rows == 0 then {[]}
    else
      var s := set a, j | a in Candidates(rows - 1, cols) && -1 <= j < cols :: a + [j];
      assert forall a :: |a| == rows && InRange(a, cols) ==> a == a[..rows - 1] + [a[rows - 1]];
      s
  }

  lemma {:induction false} CheapestOf(m: Matrix, s: set<seq<int>>, rows: nat, cols: nat) returns (a: seq<int>)
    requires Rectangular(m, rows, cols) && s != {} && forall b :: b in s ==> IsAssignment(b, rows, cols)
    ensures a in s && IsAssignment(a, rows, cols)
    ensures forall b :: b in s ==> IsAssignment(b, rows, cols) && Cost(m, a) <= Cost(m, b)
  {
    assert (forall b :: b !in s) ==> s == {};
    a :| a in s;
    var rest := s - {a};
    if rest != {} {
      var best := CheapestOf(m, rest, rows, cols);
      if Cost(m, best) < Cost(m, a) { a := best; }
    }
  }

  ghost function Diagonal(rows: nat, cols: nat): seq<int> {
    seq(rows, i => if i < cols then i else -1)
  }

  lemma {:induction false} DiagonalIsFull(rows: nat, cols: nat)
    ensures Assigned(Diagonal(rows, cols)) == Full(rows, cols)
  {
    if rows > 0 {
      DiagonalIsFull(rows - 1, cols);
      assert Diagonal(rows, cols)[..rows - 1] == Diagonal(rows - 1, cols);
    }
  }

  lemma OptimalExists(m: Matrix, rows: nat, cols: nat) returns (a: seq<int>)
    requires Rectangular(m, rows, cols)
    ensures Optimal(m, a, rows, cols)
  {
    var full := set b | b in Candidates(rows, cols) && Injective(b) && Assigned(b) == Full(rows, cols);
    DiagonalIsFull(rows, cols);
    assert Diagonal(rows, cols) in full;
    a := CheapestOf(m, full, rows, cols);
  }

  lemma {:induction false} CostChanged(m: Matrix, a: seq<int>, rows: nat, cols: nat, i: nat, j: nat, k: nat)
    requires Rectangular(m, rows, cols) && |a| == rows && InRange(a, cols)
    requires i < rows && j < cols && a[i] >= 0 && k <= rows
    ensures CostUpTo(m, a[i := j], k) == CostUpTo(m, a, k) + if i < k then m[i][j] - m[i][a[i]] else 0.0
  {
    if k > 0 { CostChanged(m, a, rows, cols, i, j, k - 1); }
  }

  /** With enough columns, an optimal assignment gains nothing by moving a row to a column of its
      own choice, be the column free or exchanged with the row that has it. */
  lemma NoCheaperExchange(m: Matrix, a: seq<int>, rows: nat, cols: nat, i: nat, j: nat)
    requires Rectangular(m, rows, cols) && rows <= cols && Optimal(m, a, rows, cols)
    requires i < rows && j < cols
    ensures Total(a)
    ensures j !in a ==> m[i][a[i]] <= m[i][j]
    ensures forall k :: 0 <= k < rows && k != i && a[k] == j ==> m[i][a[i]] + m[k][j] <= m[i][j] + m[k][a[i]]
  {
    AssignedAll(a);
    var moved := a[i := j];
    CostChanged(m, a, rows, cols, i, j, rows);
    if j !in a {
      AssignedAll(moved);
      assert IsAssignment(moved, rows, cols);
    }
    forall k | 0 <= k < rows && k != i && a[k] == j
      ensures m[i][a[i]] + m[k][j] <= m[i][j] + m[k][a[i]]
    {
      CostChanged(m, moved, rows, cols, k, a[i], rows);
      AssignedAll(moved[k := a[i]]);
      assert IsAssignment(moved[k := a[i]], rows, cols);
    }
  }
}
