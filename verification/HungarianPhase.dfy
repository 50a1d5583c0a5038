/** What the Hungarian algorithm keeps true between its steps, stated on values.
    A ledger records the potentials subtracted so far, the starred and primed
    column of each row, and the rows in the order they were primed. */
module HungarianPhase {
  import opened Assignment

  datatype Ledger = Ledger(base: Matrix, u: seq<real>, v: seq<real>,
                           star: seq<int>, prime: seq<int>, order: seq<int>)

  /** Between phases: feasible potentials, and stars that form a partial matching on zeros. */
  ghost predicate Balanced(l: Ledger, n: nat) {
    && SquareWithPotentials(l.base, l.u, l.v, n)
    && Feasible(l.base, l.u, l.v, n)
    && IsAssignment(l.star, n, n)
    && Tight(l.base, l.u, l.v, n, l.star)
  }

  ghost predicate NoPrimes(l: Ledger, n: nat) {
    l.order == [] && |l.prime| == n && forall i :: 0 <= i < n ==> l.prime[i] == -1
  }

  /** A column is covered exactly when the row of its star is not. */
  ghost predicate Covers(l: Ledger, n: nat, rowVisited: seq<bool>, colVisited: seq<bool>)
    requires |l.star| == n
  {
    && |rowVisited| == n && |colVisited| == n
    && (forall i :: 0 <= i < n ==> (rowVisited[i] <==> i in l.order))
    && (forall j :: 0 <= j < n ==> (colVisited[j] <==> exists i :: 0 <= i < n && l.star[i] == j && !rowVisited[i]))
  }

  /** Primes sit on zeros, one in each covered row, next to that row's star. */
  ghost predicate Primes(l: Ledger, n: nat)
    requires Balanced(l, n)
  {
    && |l.prime| == n && InRange(l.prime, n)
    && Tight(l.base, l.u, l.v, n, l.prime)
    && (forall t :: 0 <= t < |l.order| ==> 0 <= l.order[t] < n)
    && (forall s, t :: 0 <= s < t < |l.order| ==> l.order[s] != l.order[t])
    && (forall i :: 0 <= i < n ==> (l.prime[i] >= 0 <==> i in l.order))
    && (forall i :: 0 <= i < n && l.prime[i] >= 0 ==> l.star[i] >= 0 && l.star[i] != l.prime[i])
  }

  /** The primed rows are those listed. */
  ghost predicate InOrder(l: Ledger, i: nat)
    requires i < |l.prime|
  {
    l.prime[i] >= 0 <==> i in l.order
  }

  /** The star in a primed column belongs to a row that was primed strictly earlier. */
  ghost predicate PrimedEarlier(l: Ledger, n: nat)
    requires Balanced(l, n) && Primes(l, n)
  {
    forall t, k :: 0 <= t < |l.order| && 0 <= k < n ==> StarBefore(l, t, k)
  }

  /** If the t-th primed row has its prime in the column of row k's star, row k was primed before. */
  ghost predicate StarBefore(l: Ledger, t: nat, k: nat)
    requires t < |l.order| && k < |l.star| && 0 <= l.order[t] < |l.prime|
  {
    l.star[k] == l.prime[l.order[t]] ==> k in l.order[..t]
  }

  /** During a phase. */
  ghost predicate InPhase(l: Ledger, n: nat, rowVisited: seq<bool>, colVisited: seq<bool>) {
    && Balanced(l, n)
    && Covers(l, n, rowVisited, colVisited)
    && Primes(l, n)
    && PrimedEarlier(l, n)
  }

  /** No two marks meet in one cell. */
  lemma StarIsNotPrime(l: Ledger, n: nat, rowVisited: seq<bool>, colVisited: seq<bool>, r: nat, c: nat)
    requires InPhase(l, n, rowVisited, colVisited)
    requires r < n && c < n && !rowVisited[r] && !colVisited[c]
    ensures l.star[r] != c && l.prime[r] == -1
  {
  }

  ghost function Lines(visited: seq<bool>): set<int> {
    set i | 0 <= i < |visited| && visited[i]
  }

  /** There are as many covered rows and columns together as there are stars. */
  lemma CoveredLines(l: Ledger, n: nat, rowVisited: seq<bool>, colVisited: seq<bool>)
    requires InPhase(l, n, rowVisited, colVisited)
    ensures |Lines(rowVisited)| + |Lines(colVisited)| == Assigned(l.star)
  {
    var rows := AssignedRows(l.star);
    var free := rows - Lines(rowVisited);
    assert Lines(rowVisited) <= rows;
    assert rows == Lines(rowVisited) + free;
    assert Lines(colVisited) == ColumnsOf(l.star, free);
    ColumnsOfRows(l.star, free);
    AssignedRowsCount(l.star);
  }

  /** As long as some row has no star, fewer than `n` lines are covered. */
  lemma FewLinesCovered(l: Ledger, n: nat, rowVisited: seq<bool>, colVisited: seq<bool>)
    requires InPhase(l, n, rowVisited, colVisited) && !Total(l.star)
    ensures |Lines(rowVisited)| + |Lines(colVisited)| == Assigned(l.star) < n
  {
    CoveredLines(l, n, rowVisited, colVisited);
    AssignedAll(l.star);
  }

  /** A star, a covered row, an uncovered column: as long as some row has no star,
      some cell is uncovered. */
  lemma UncoveredCellExists(l: Ledger, n: nat, rowVisited: seq<bool>, colVisited: seq<bool>)
    returns (r: nat, c: nat)
    requires InPhase(l, n, rowVisited, colVisited) && !Total(l.star)
    ensures r < n && c < n && !rowVisited[r] && !colVisited[c]
  {
    r :| 0 <= r < n && l.star[r] < 0;
    SomeColumnFree(l.star, n, r);
    c :| 0 <= c < n && c !in l.star;
  }

  /** No more rows are primed than have a star, so fewer than `n` as long as a star is missing. */
  lemma OrderIsShort(l: Ledger, n: nat)
    requires Balanced(l, n) && Primes(l, n)
    ensures |l.order| <= n && (!Total(l.star) ==> |l.order| < n)
  {
    ElementsExact(l.order);
    assert Elements(l.order) <= AssignedRows(l.star);
    SubsetCard(Elements(l.order), AssignedRows(l.star));
    AssignedRowsCount(l.star);
    AssignedAll(l.star);
  }

  // ---------------------------------------------------------------------------
  // Moving the potentials
  // ---------------------------------------------------------------------------

  /** Covered rows rise by `val`, uncovered columns fall by `val`. */
  ghost function Shifted(l: Ledger, n: nat, rowVisited: seq<bool>, colVisited: seq<bool>, val: real): (l': Ledger)
    requires |l.u| == |l.v| == |rowVisited| == |colVisited| == n
    ensures |l'.u| == |l'.v| == n && l' == l.(u := l'.u, v := l'.v)
    ensures forall i :: 0 <= i < n ==> l'.u[i] == if rowVisited[i] then l.u[i] - val else l.u[i]
    ensures forall j :: 0 <= j < n ==> l'.v[j] == if colVisited[j] then l.v[j] else l.v[j] + val
  {
    l.(u := seq(n, i requires 0 <= i < n => if rowVisited[i] then l.u[i] - val else l.u[i]),
       v := seq(n, j requires 0 <= j < n => if colVisited[j] then l.v[j] else l.v[j] + val))
  }

  /** Shifting by no more than the least uncovered entry keeps the whole invariant:
      marks stay on zeros and nothing becomes negative. */
  lemma ShiftKeepsPhase(l: Ledger, n: nat, rowVisited: seq<bool>, colVisited: seq<bool>, val: real)
    requires InPhase(l, n, rowVisited, colVisited) && val >= 0.0
    requires forall i, j :: 0 <= i < n && 0 <= j < n && !rowVisited[i] && !colVisited[j]
                            ==> val <= Reduced(l.base, l.u, l.v, i, j)
    ensures InPhase(Shifted(l, n, rowVisited, colVisited, val), n, rowVisited, colVisited)
  {
    var l' := Shifted(l, n, rowVisited, colVisited, val);
    forall i, j | 0 <= i < n && 0 <= j < n
      ensures Reduced(l'.base, l'.u, l'.v, i, j) >= 0.0
      ensures rowVisited[i] != colVisited[j] ==> Reduced(l'.base, l'.u, l'.v, i, j) == Reduced(l.base, l.u, l.v, i, j)
      ensures rowVisited[i] && !colVisited[j] ==> Reduced(l'.base, l'.u, l'.v, i, j) == Reduced(l.base, l.u, l.v, i, j)
    {
      assert Reduced(l.base, l.u, l.v, i, j) >= 0.0;
    }
    forall i | 0 <= i < n && l.star[i] >= 0 ensures rowVisited[i] != colVisited[l.star[i]] {
      StarCoveredOnce(l, n, rowVisited, colVisited, i);
    }
    forall i | 0 <= i < n && l.prime[i] >= 0 ensures rowVisited[i] && !colVisited[l.prime[i]] {
      PrimeColumnUncovered(l, n, rowVisited, colVisited, i);
    }
    forall t, k | 0 <= t < |l'.order| && 0 <= k < n ensures StarBefore(l', t, k) {
      assert StarBefore(l, t, k);
    }
  }

  lemma StarCoveredOnce(l: Ledger, n: nat, rowVisited: seq<bool>, colVisited: seq<bool>, i: nat)
    requires InPhase(l, n, rowVisited, colVisited) && i < n && l.star[i] >= 0
    ensures rowVisited[i] != colVisited[l.star[i]]
  {
    forall k | 0 <= k < n && l.star[k] == l.star[i] ensures k == i {
      assert k < i || i < k || k == i;
    }
  }

  lemma PrimeColumnUncovered(l: Ledger, n: nat, rowVisited: seq<bool>, colVisited: seq<bool>, i: nat)
    requires InPhase(l, n, rowVisited, colVisited) && i < n && l.prime[i] >= 0
    ensures rowVisited[i] && !colVisited[l.prime[i]]
  {
    var t :| 0 <= t < |l.order| && l.order[t] == i;
    forall k | 0 <= k < n && l.star[k] == l.prime[i] ensures rowVisited[k] {
      assert StarBefore(l, t, k);
    }
  }

  // ---------------------------------------------------------------------------
  // Priming a zero
  // ---------------------------------------------------------------------------

  ghost function WithPrime(l: Ledger, r: nat, c: nat): Ledger
    requires r < |l.prime|
  {
    l.(prime := l.prime[r := c], order := l.order + [r])
  }

  /** Priming an uncovered zero of a starred row, covering the row and uncovering
      the column of its star, keeps the invariant. */
  lemma PrimeKeepsPhase(l: Ledger, n: nat, rowVisited: seq<bool>, colVisited: seq<bool>, r: nat, c: nat)
    requires InPhase(l, n, rowVisited, colVisited)
    requires r < n && c < n && !rowVisited[r] && !colVisited[c]
    requires Reduced(l.base, l.u, l.v, r, c) == 0.0
    requires l.star[r] >= 0
    ensures InPhase(WithPrime(l, r, c), n, rowVisited[r := true], colVisited[l.star[r] := false])
  {
    var l' := WithPrime(l, r, c);
    var rows, cols := rowVisited[r := true], colVisited[l.star[r] := false];
    forall j | 0 <= j < n
      ensures cols[j] <==> exists i :: 0 <= i < n && l'.star[i] == j && !rows[i]
    {
      PrimeKeepsColumn(l, n, rowVisited, colVisited, r, c, j);
    }
    forall t, k | 0 <= t < |l'.order| && 0 <= k < n ensures StarBefore(l', t, k) {
      if t == |l.order| {
        assert l'.order[..t] == l.order;
        assert l.star[k] == c ==> !colVisited[l.star[k]];
      } else {
        assert l'.order[..t] == l.order[..t];
        assert l.order[t] != r && StarBefore(l, t, k);
      }
    }
  }

  lemma PrimeKeepsColumn(l: Ledger, n: nat, rowVisited: seq<bool>, colVisited: seq<bool>, r: nat, c: nat, j: nat)
    requires InPhase(l, n, rowVisited, colVisited)
    requires r < n && j < n && !rowVisited[r] && l.star[r] >= 0
    ensures colVisited[l.star[r] := false][j] <==>
            exists i :: 0 <= i < n && l.star[i] == j && !rowVisited[r := true][i]
  {
    if j == l.star[r] {
      forall i | 0 <= i < n && l.star[i] == j ensures i == r {
        assert i < r || r < i || i == r;
      }
    } else if colVisited[j] {
      var i :| 0 <= i < n && l.star[i] == j && !rowVisited[i];
      assert !rowVisited[r := true][i];
    }
  }

  // ---------------------------------------------------------------------------
  // Augmenting
  // ---------------------------------------------------------------------------

  /** `rows` are the rows of an alternating path: it starts at a row without a star,
      each next row holds the star of the previous row's primed column, and
      positions in priming order strictly fall. */
  ghost predicate AlternatingRows(l: Ledger, n: nat, rows: seq<int>, at: seq<nat>)
    requires |l.star| == n && |l.prime| == n
  {
    && |rows| == |at| > 0
    && (forall a :: 0 <= a < |rows| ==> 0 <= rows[a] < n && at[a] < |l.order| && l.order[at[a]] == rows[a])
    && l.star[rows[0]] == -1
    && (forall a :: 0 <= a < |rows| - 1 ==> LeadsOn(l, rows, a))
    && l.prime[rows[|rows| - 1]] >= 0
    && (forall a, b :: 0 <= a < b < |rows| ==> at[b] < at[a])
  }

  /** The star of the next row of the path lies in the column of this row's prime. */
  ghost predicate LeadsOn(l: Ledger, rows: seq<int>, a: nat)
    requires a + 1 < |rows| && 0 <= rows[a] < |l.prime| && 0 <= rows[a + 1] < |l.star|
  {
    l.star[rows[a + 1]] == l.prime[rows[a]] >= 0
  }

  /** No row has its star in column `j`. */
  ghost predicate NoStarIn(l: Ledger, j: int) {
    forall k :: 0 <= k < |l.star| ==> l.star[k] != j
  }

  /** The t-th primed row was not primed before. */
  ghost predicate FirstTime(l: Ledger, t: nat)
    requires t < |l.order|
  {
    l.order[t] !in l.order[..t]
  }

  /** The ledger when the last prime landed in a row without a star. */
  ghost predicate ReadyToAugment(l: Ledger, n: nat) {
    && Balanced(l, n)
    && |l.prime| == n && InRange(l.prime, n)
    && Tight(l.base, l.u, l.v, n, l.prime)
    && (forall t :: 0 <= t < |l.order| ==> 0 <= l.order[t] < n && l.prime[l.order[t]] >= 0)
    && (forall i :: 0 <= i < n ==> InOrder(l, i))
    && (forall t :: 0 <= t < |l.order| ==> FirstTime(l, t))
    && (forall t, k :: 0 <= t < |l.order| && 0 <= k < n ==> StarBefore(l, t, k))
  }

  lemma LastPrimeIsReady(l: Ledger, n: nat, rowVisited: seq<bool>, colVisited: seq<bool>, r: nat, c: nat)
    requires InPhase(l, n, rowVisited, colVisited)
    requires r < n && c < n && !rowVisited[r] && !colVisited[c]
    requires Reduced(l.base, l.u, l.v, r, c) == 0.0
    requires l.star[r] == -1
    ensures ReadyToAugment(WithPrime(l, r, c), n)
    ensures AlternatingRows(WithPrime(l, r, c), n, [r], [|l.order|])
  {
    var l' := WithPrime(l, r, c);
    forall t, k | 0 <= t < |l'.order| && 0 <= k < n ensures StarBefore(l', t, k) {
      if t == |l.order| {
        assert l'.order[..t] == l.order;
        assert l.star[k] == c ==> !colVisited[l.star[k]];
      } else {
        assert l'.order[..t] == l.order[..t];
        assert l.order[t] != r && StarBefore(l, t, k);
      }
    }
  }

  /** Following the star of the last primed column reaches a primed row, strictly
      earlier in priming order. */
  lemma PathExtends(l: Ledger, n: nat, rows: seq<int>, at: seq<nat>, k: nat) returns (s: nat)
    requires ReadyToAugment(l, n) && AlternatingRows(l, n, rows, at)
    requires k < n && l.star[k] == l.prime[rows[|rows| - 1]]
    ensures l.prime[k] >= 0 && l.prime[k] != l.star[k]
    ensures s < at[|rows| - 1]
    ensures AlternatingRows(l, n, rows + [k], at + [s])
  {
    var last := at[|rows| - 1];
    assert StarBefore(l, last, k);
    s :| 0 <= s < last && l.order[s] == k;
    PrimedIsNotStarred(l, n, k, s);
    RowsAppend(l, n, rows, at, k, s);
  }

  lemma PrimedIsNotStarred(l: Ledger, n: nat, k: nat, s: nat)
    requires ReadyToAugment(l, n) && k < n && s < |l.order| && l.order[s] == k
    ensures l.prime[k] >= 0 && l.prime[k] != l.star[k]
  {
    assert FirstTime(l, s) && StarBefore(l, s, k);
  }

  lemma RowsAppend(l: Ledger, n: nat, rows: seq<int>, at: seq<nat>, k: nat, s: nat)
    requires |l.star| == n && |l.prime| == n && AlternatingRows(l, n, rows, at)
    requires k < n && l.star[k] == l.prime[rows[|rows| - 1]] && l.prime[k] >= 0
    requires s < at[|rows| - 1] && s < |l.order| && l.order[s] == k
    ensures AlternatingRows(l, n, rows + [k], at + [s])
  {
    forall a | 0 <= a < |rows| ensures LeadsOn(l, rows + [k], a) {
      assert a < |rows| - 1 ==> LeadsOn(l, rows, a);
    }
  }

  /** A path of distinct rows has at most n of them, and at most 2n - 1 points. */
  lemma PathIsShort(l: Ledger, n: nat, rows: seq<int>, at: seq<nat>)
    requires ReadyToAugment(l, n) && AlternatingRows(l, n, rows, at)
    ensures |rows| <= n && 2 * |rows| - 1 <= 2 * n - 1
    ensures forall a, b :: 0 <= a < b < |rows| ==> rows[a] != rows[b]
  {
    forall a, b | 0 <= a < b < |rows| ensures rows[a] != rows[b] {
      assert FirstTime(l, at[a]) && l.order[..at[a]][at[b]] == rows[b];
    }
    ElementsExact(rows);
    assert Elements(rows) <= Below(n);
    SubsetCard(Elements(rows), Below(n));
  }

  /** No cell on the path is both starred and primed. */
  lemma PathMarksDiffer(l: Ledger, n: nat, rows: seq<int>, at: seq<nat>)
    requires ReadyToAugment(l, n) && AlternatingRows(l, n, rows, at)
    ensures forall a :: 0 <= a < |rows| ==> 0 <= l.prime[rows[a]] != l.star[rows[a]]
  {
    forall a | 0 <= a < |rows| ensures 0 <= l.prime[rows[a]] != l.star[rows[a]] {
      assert FirstTime(l, at[a]) && StarBefore(l, at[a], rows[a]);
    }
  }

  /** The stars after each row on the path takes its primed column. */
  ghost predicate Flipped(l: Ledger, n: nat, rows: seq<int>, star: seq<int>)
    requires |l.star| == n && |l.prime| == n
  {
    && |star| == n
    && forall i :: 0 <= i < n ==> star[i] == if i in rows then l.prime[i] else l.star[i]
  }

  /** The flipped stars, with every prime erased. */
  ghost function Settled(l: Ledger, n: nat, rows: seq<int>): (l': Ledger)
    requires |l.star| == n && |l.prime| == n
    ensures l'.base == l.base && l'.u == l.u && l'.v == l.v && NoPrimes(l', n)
    ensures Flipped(l, n, rows, l'.star)
  {
    Ledger(l.base, l.u, l.v,
           seq(n, i requires 0 <= i < n => if i in rows then l.prime[i] else l.star[i]), seq(n, _ => -1), [])
  }

  /** Flipping a complete path yields a matching on zeros with exactly one more star. */
  lemma FlipAddsOneStar(l: Ledger, n: nat, rows: seq<int>, at: seq<nat>)
    requires ReadyToAugment(l, n) && AlternatingRows(l, n, rows, at)
    requires NoStarIn(l, l.prime[rows[|rows| - 1]])
    ensures Balanced(Settled(l, n, rows), n)
    ensures Assigned(Settled(l, n, rows).star) == Assigned(l.star) + 1
  {
    var star := Settled(l, n, rows).star;
    FlippedIsInjective(l, n, rows, at, star);
    forall i | 0 <= i < n && i != rows[0] ensures l.star[i] >= 0 <==> star[i] >= 0 {
      FlippedSameRows(l, n, rows, at, star, i);
    }
    AssignedOneMore(l.star, star, rows[0]);
  }

  lemma FlippedIsInjective(l: Ledger, n: nat, rows: seq<int>, at: seq<nat>, star: seq<int>)
    requires ReadyToAugment(l, n) && AlternatingRows(l, n, rows, at) && Flipped(l, n, rows, star)
    requires NoStarIn(l, l.prime[rows[|rows| - 1]])
    ensures Injective(star)
  {
    forall i, k | 0 <= i < k < n && star[i] >= 0 ensures star[i] != star[k] {
      if i !in rows && k in rows {
        if star[k] >= 0 { FlippedStaysInjective(l, n, rows, at, star, k, i); }
      } else {
        FlippedStaysInjective(l, n, rows, at, star, i, k);
      }
    }
  }

  lemma FlippedSameRows(l: Ledger, n: nat, rows: seq<int>, at: seq<nat>, star: seq<int>, i: nat)
    requires ReadyToAugment(l, n) && AlternatingRows(l, n, rows, at)
    requires Flipped(l, n, rows, star)
    requires i < n && i != rows[0]
    ensures l.star[i] >= 0 <==> star[i] >= 0
  {
    if i in rows {
      var a :| 0 <= a < |rows| && rows[a] == i;
      assert LeadsOn(l, rows, a - 1);
      assert l.prime[l.order[at[a]]] >= 0;
    }
  }

  lemma FlippedStaysInjective(l: Ledger, n: nat, rows: seq<int>, at: seq<nat>, star: seq<int>, i: nat, k: nat)
    requires ReadyToAugment(l, n) && AlternatingRows(l, n, rows, at)
    requires NoStarIn(l, l.prime[rows[|rows| - 1]])
    requires Flipped(l, n, rows, star)
    requires i < n && k < n && i != k && star[i] >= 0
    requires i in rows || k !in rows
    ensures star[i] != star[k]
  {
    if i !in rows {
      assert i < k || k < i;
    } else {
      var a :| 0 <= a < |rows| && rows[a] == i;
      if k !in rows {
        if a < |rows| - 1 {
          assert LeadsOn(l, rows, a);
          assert rows[a + 1] < k || k < rows[a + 1];
        }
      } else {
        var b :| 0 <= b < |rows| && rows[b] == k;
        PrimesOnPathDiffer(l, n, rows, at, if a < b then a else b, if a < b then b else a);
      }
    }
  }

  lemma PrimesOnPathDiffer(l: Ledger, n: nat, rows: seq<int>, at: seq<nat>, a: nat, b: nat)
    requires ReadyToAugment(l, n) && AlternatingRows(l, n, rows, at)
    requires NoStarIn(l, l.prime[rows[|rows| - 1]])
    requires a < b < |rows|
    ensures l.prime[rows[a]] != l.prime[rows[b]]
  {
    PathIsShort(l, n, rows, at);
    assert LeadsOn(l, rows, a);
    if b < |rows| - 1 {
      assert LeadsOn(l, rows, b);
      assert rows[a + 1] != rows[b + 1];
      assert rows[a + 1] < rows[b + 1] || rows[b + 1] < rows[a + 1];
    }
  }
}
