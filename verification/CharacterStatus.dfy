/**
 Character-level alignment of a student's word with the expected one, and the split of the
 expected word's characters into correct and incorrect
 (src/literacy/literacy-lesson/identify-character-status.utils.ts).

 A word is a sequence of UTF-16 code units, which is what the source indexes. Cleaning and
 splitting of the answers are library behaviour: the words arrive already cleaned.
 */
module CharacterStatus {
  type Unit = int
  type Word = seq<Unit>

  // ---------------------------------------------------------------------------
  // Edit scripts
  // ---------------------------------------------------------------------------

  datatype Op =
    | Equal(from: nat, to: nat, aChar: Unit, bChar: Unit)
    | Insert(from: nat, to: nat, bChar: Unit)
    | Delete(from: nat, to: nat, aChar: Unit)
    | Replace(from: nat, to: nat, aChar: Unit, bChar: Unit)

  function A(op: Op): Word { if op.Insert? then [] else [op.aChar] }

  function B(op: Op): Word { if op.Delete? then [] else [op.bChar] }

  /** The characters a script reads, and the ones it writes. */
  function ASide(ops: seq<Op>): Word {
    if ops == [] then [] else ASide(ops[..|ops| - 1]) + A(ops[|ops| - 1])
  }

  function BSide(ops: seq<Op>): Word {
    if ops == [] then [] else BSide(ops[..|ops| - 1]) + B(ops[|ops| - 1])
  }

  function Edits(ops: seq<Op>): nat {
    if ops == [] then 0 else Edits(ops[..|ops| - 1]) + (if ops[|ops| - 1].Equal? then 0 else 1)
  }

  function Matches(ops: seq<Op>): nat {
    if ops == [] then 0 else Matches(ops[..|ops| - 1]) + (if ops[|ops| - 1].Equal? then 1 else 0)
  }

  /** Every Equal operation keeps its character. */
  ghost predicate Honest(ops: seq<Op>) {
    ops != [] ==> Honest(ops[..|ops| - 1]) && (ops[|ops| - 1].Equal? ==> ops[|ops| - 1].aChar == ops[|ops| - 1].bChar)
  }

  /** Every operation carries the source and target positions it acts at. */
  ghost predicate Placed(ops: seq<Op>) {
    ops != [] ==>
      var before, op := ops[..|ops| - 1], ops[|ops| - 1];
      Placed(before) && op.from == |ASide(before)| && op.to == |BSide(before)|
  }

  /** The script rewrites source into target. */
  ghost predicate Rewrites(ops: seq<Op>, source: Word, target: Word) {
    ASide(ops) == source && BSide(ops) == target && Honest(ops)
  }

  lemma Extend(ops: seq<Op>, op: Op)
    ensures ASide(ops + [op]) == ASide(ops) + A(op) && BSide(ops + [op]) == BSide(ops) + B(op)
    ensures Edits(ops + [op]) == Edits(ops) + (if op.Equal? then 0 else 1)
    ensures Matches(ops + [op]) == Matches(ops) + (if op.Equal? then 1 else 0)
    ensures Honest(ops + [op]) <==> Honest(ops) && (op.Equal? ==> op.aChar == op.bChar)
    ensures Placed(ops + [op]) <==> Placed(ops) && op.from == |ASide(ops)| && op.to == |BSide(ops)|
  {
    assert (ops + [op])[..|ops|] == ops;
  }

  // ---------------------------------------------------------------------------
  // The matrix
  // ---------------------------------------------------------------------------

  datatype Cell = Cell(cost: nat, matchCount: nat)

  predicate Beats(b: Cell, a: Cell) { b.cost < a.cost || (b.cost == a.cost && b.matchCount > a.matchCount) }

  function Better(a: Cell, b: Cell): Cell { if Beats(b, a) then b else a }

  function Costlier(c: Cell): Cell { c.(cost := c.cost + 1) }

  /** Row i, column j of the matrix: the first i target characters against the first j source ones. */
  function Best(source: Word, target: Word, i: nat, j: nat): Cell
    requires i <= |target| && j <= |source|
    decreases i + j
  {
    if i == 0 then Cell(j, 0)
    else if j == 0 then Cell(i, 0)
    else if target[i - 1] == source[j - 1] then
      var d := Best(source, target, i - 1, j - 1);
      Cell(d.cost, d.matchCount + 1)
    else
      Better(Better(Costlier(Best(source, target, i, j - 1)), Costlier(Best(source, target, i - 1, j))),
             Costlier(Best(source, target, i - 1, j - 1)))
  }

  ghost predicate IsMatrix(source: Word, target: Word, w: seq<seq<Cell>>) {
    && |w| == |target| + 1
    && (forall i :: 0 <= i < |w| ==> |w[i]| == |source| + 1)
    && (forall i, j {:trigger Best(source, target, i, j)} ::
          0 <= i <= |target| && 0 <= j <= |source| ==> w[i][j] == Best(source, target, i, j))
  }

  lemma MatrixExists(source: Word, target: Word) returns (w: seq<seq<Cell>>)
    ensures IsMatrix(source, target, w)
  {
    w := seq(|target| + 1, i requires 0 <= i <= |target| =>
           seq(|source| + 1, j requires 0 <= j <= |source| => Best(source, target, i, j)));
  }

  ghost predicate RowsFilled(m: array2<Cell>, w: seq<seq<Cell>>, rows: nat)
    requires m.Length0 == |w| && rows <= |w| && forall k :: 0 <= k < |w| ==> |w[k]| == m.Length1
    reads m
  {
    forall k, l :: 0 <= k < rows && 0 <= l < m.Length1 ==> m[k, l] == w[k][l]
  }

  ghost predicate ColumnFilled(m: array2<Cell>, w: seq<seq<Cell>>)
    requires m.Length0 == |w| && m.Length1 > 0 && forall k :: 0 <= k < |w| ==> |w[k]| == m.Length1
    reads m
  {
    forall k :: 0 <= k < |w| ==> m[k, 0] == w[k][0]
  }

  ghost function Entry(source: Word, target: Word, w: seq<seq<Cell>>, i: nat, j: nat): Cell
    requires |w| == |target| + 1 && forall k :: 0 <= k < |w| ==> |w[k]| == |source| + 1
    requires 1 <= i <= |target| && 1 <= j <= |source|
  {
    if target[i - 1] == source[j - 1] then Cell(w[i - 1][j - 1].cost, w[i - 1][j - 1].matchCount + 1)
    else Better(Better(Costlier(w[i][j - 1]), Costlier(w[i - 1][j])), Costlier(w[i - 1][j - 1]))
  }

  lemma MatrixEntry(source: Word, target: Word, w: seq<seq<Cell>>, i: nat, j: nat)
    requires IsMatrix(source, target, w) && 1 <= i <= |target| && 1 <= j <= |source|
    ensures w[i][j] == Entry(source, target, w, i, j)
  {
    BestStep(source, target, i, j);
    assert w[i - 1][j - 1] == Best(source, target, i - 1, j - 1);
    assert w[i][j - 1] == Best(source, target, i, j - 1) && w[i - 1][j] == Best(source, target, i - 1, j);
    hide Best;
  }

  lemma MatrixBorder(source: Word, target: Word, w: seq<seq<Cell>>)
    requires IsMatrix(source, target, w)
    ensures forall i :: 0 <= i <= |target| ==> w[i][0] == Cell(i, 0)
    ensures forall j :: 0 <= j <= |source| ==> w[0][j] == Cell(j, 0)
  {
    forall i | 0 <= i <= |target| ensures w[i][0] == Cell(i, 0) { assert w[i][0] == Best(source, target, i, 0); }
    forall j | 0 <= j <= |source| ensures w[0][j] == Cell(j, 0) { assert w[0][j] == Best(source, target, 0, j); }
  }

  method BuildMatrix(source: Word, target: Word) returns (m: array2<Cell>, ghost w: seq<seq<Cell>>)
    ensures fresh(m) && m.Length0 == |target| + 1 && m.Length1 == |source| + 1
    ensures IsMatrix(source, target, w) && RowsFilled(m, w, |target| + 1)
  {
    w := MatrixExists(source, target);
    MatrixBorder(source, target, w);
    var rows, cols := |target| + 1, |source| + 1;
    m := new Cell[rows, cols]((_, _) => Cell(0, 0));
    for i := 1 to rows
      invariant forall k :: 0 <= k < i ==> m[k, 0] == w[k][0]
      invariant forall k :: 1 <= k < cols ==> m[0, k] == Cell(0, 0)
    {
      m[i, 0] := m[i, 0].(cost := i, matchCount := 0);
    }
    for j := 1 to cols
      invariant ColumnFilled(m, w)
      invariant forall k :: 0 <= k < j ==> m[0, k] == w[0][k]
      invariant forall k :: j <= k < cols ==> m[0, k] == Cell(0, 0)
    {
      m[0, j] := m[0, j].(cost := j);
    }
    for i := 1 to rows
      invariant ColumnFilled(m, w) && RowsFilled(m, w, i)
    {
      forall j | 1 <= j <= |source| ensures w[i][j] == Entry(source, target, w, i, j) {
        MatrixEntry(source, target, w, i, j);
      }
      FillRow(source, target, m, i, w);
    }
  }

  method FillRow(source: Word, target: Word, m: array2<Cell>, i: nat, ghost w: seq<seq<Cell>>)
    requires |w| == |target| + 1 && forall k :: 0 <= k < |w| ==> |w[k]| == |source| + 1
    requires 1 <= i <= |target| && m.Length0 == |target| + 1 && m.Length1 == |source| + 1
    requires forall j {:trigger w[i][j]} :: 1 <= j <= |source| ==> w[i][j] == Entry(source, target, w, i, j)
    requires ColumnFilled(m, w) && RowsFilled(m, w, i)
    modifies m
    ensures ColumnFilled(m, w) && RowsFilled(m, w, i + 1)
  {
    for j := 1 to |source| + 1
      invariant ColumnFilled(m, w) && RowsFilled(m, w, i)
      invariant forall l :: 0 <= l < j ==> m[i, l] == w[i][l]
    {
      var cell := ComputeCell(source, target, m, i, j, w);
      assert cell == w[i][j];
      hide Entry;
      m[i, j] := cell;
    }
  }

  /** One entry, from the three around it. */
  method ComputeCell(source: Word, target: Word, m: array2<Cell>, i: nat, j: nat, ghost w: seq<seq<Cell>>)
    returns (cell: Cell)
    requires |w| == |target| + 1 && forall k :: 0 <= k < |w| ==> |w[k]| == |source| + 1
    requires 1 <= i <= |target| && 1 <= j <= |source| && m.Length0 == |target| + 1 && m.Length1 == |source| + 1
    requires m[i - 1, j - 1] == w[i - 1][j - 1] && m[i, j - 1] == w[i][j - 1] && m[i - 1, j] == w[i - 1][j]
    ensures cell == Entry(source, target, w, i, j)
  {
    if target[i - 1] == source[j - 1] {
      var d := m[i - 1, j - 1];
      return Cell(d.cost, d.matchCount + 1);
    }
    var del, ins, sub := Costlier(m[i, j - 1]), Costlier(m[i - 1, j]), Costlier(m[i - 1, j - 1]);
    cell := Better(Better(del, ins), sub);
  }

  // ---------------------------------------------------------------------------
  // Optimality
  // ---------------------------------------------------------------------------

  /** A non-empty script seen from its last operation. */
  lemma SplitLast(ops: seq<Op>, source: Word, target: Word)
    requires Rewrites(ops, source, target) && (source != [] || target != [])
    ensures ops != []
    ensures var before, op := ops[..|ops| - 1], ops[|ops| - 1];
            && (!op.Insert? ==> source != [] && op.aChar == source[|source| - 1])
            && (!op.Delete? ==> target != [] && op.bChar == target[|target| - 1])
            && Rewrites(before, if op.Insert? then source else source[..|source| - 1], if op.Delete? then target
                                                                                       else target[..|target| - 1])
            && (op.Equal? ==> op.aChar == op.bChar)
            && Edits(ops) == Edits(before) + (if op.Equal? then 0 else 1)
            && Matches(ops) == Matches(before) + (if op.Equal? then 1 else 0)
  {
    var before, op := ops[..|ops| - 1], ops[|ops| - 1];
    assert source == ASide(before) + A(op) && target == BSide(before) + B(op);
  }

  /** A script whose target loses its last character: at most one edit more, and one match
      fewer only when it pays exactly that edit. */
  lemma {:induction false} DropLastTarget(ops: seq<Op>, source: Word, target: Word) returns (r: seq<Op>)
    requires Rewrites(ops, source, target) && target != []
    ensures Rewrites(r, source, target[..|target| - 1])
    ensures |r| <= |ops| && Edits(r) <= Edits(ops) + 1
    ensures Edits(r) == Edits(ops) + 1 ==> Matches(ops) <= Matches(r) + 1
    decreases |ops|
  {
    var before, op := ops[..|ops| - 1], ops[|ops| - 1];
    SplitLast(ops, source, target);
    hide ASide, BSide, Edits, Matches, Honest;
    match op
    case Insert(_, _, _) => r := before;
    case Equal(f, t, a, _) => r := before + [Delete(f, t, a)]; Extend(before, Delete(f, t, a));
    case Replace(f, t, a, _) => r := before + [Delete(f, t, a)]; Extend(before, Delete(f, t, a));
    case Delete(f, t, a) =>
      var shorter := DropLastTarget(before, source[..|source| - 1], target);
      r := shorter + [op];
      Extend(shorter, op);
  }

  lemma {:induction false} DropLastSource(ops: seq<Op>, source: Word, target: Word) returns (r: seq<Op>)
    requires Rewrites(ops, source, target) && source != []
    ensures Rewrites(r, source[..|source| - 1], target)
    ensures |r| <= |ops| && Edits(r) <= Edits(ops) + 1
    ensures Edits(r) == Edits(ops) + 1 ==> Matches(ops) <= Matches(r) + 1
    decreases |ops|
  {
    var before, op := ops[..|ops| - 1], ops[|ops| - 1];
    SplitLast(ops, source, target);
    hide ASide, BSide, Edits, Matches, Honest;
    match op
    case Delete(_, _, _) => r := before;
    case Equal(f, t, _, b) => r := before + [Insert(f, t, b)]; Extend(before, Insert(f, t, b));
    case Replace(f, t, _, b) => r := before + [Insert(f, t, b)]; Extend(before, Insert(f, t, b));
    case Insert(f, t, b) =>
      var shorter := DropLastSource(before, source, target[..|target| - 1]);
      r := shorter + [op];
      Extend(shorter, op);
  }

  lemma {:induction false} OnlyDeletes(ops: seq<Op>, source: Word)
    requires Rewrites(ops, source, [])
    ensures Edits(ops) == |source| && Matches(ops) == 0
    decreases |ops|
  {
    if ops != [] {
      assert ops[|ops| - 1].Delete?;
      OnlyDeletes(ops[..|ops| - 1], source[..|source| - 1]);
    }
  }

  lemma {:induction false} OnlyInserts(ops: seq<Op>, target: Word)
    requires Rewrites(ops, [], target)
    ensures Edits(ops) == |target| && Matches(ops) == 0
    decreases |ops|
  {
    if ops != [] {
      assert ops[|ops| - 1].Insert?;
      OnlyInserts(ops[..|ops| - 1], target[..|target| - 1]);
    }
  }

  /** The entry at (i, j) unfolded once. */
  lemma BestStep(source: Word, target: Word, i: nat, j: nat)
    requires 0 < i <= |target| && 0 < j <= |source|
    ensures var d := Best(source, target, i - 1, j - 1);
            Best(source, target, i, j) ==
            if target[i - 1] == source[j - 1] then Cell(d.cost, d.matchCount + 1)
            else
              Better(Better(Costlier(Best(source, target, i, j - 1)), Costlier(Best(source, target, i - 1, j))),
                Costlier(d))
  {
  }

  lemma BestOfThree(x: Cell, a: Cell, b: Cell, c: Cell)
    requires !Beats(x, a) || !Beats(x, b) || !Beats(x, c)
    ensures !Beats(x, Better(Better(a, b), c))
  {
  }

  lemma CostlierKeepsOrder(x: Cell, a: Cell, y: Cell)
    requires !Beats(x, a)
    requires y.cost == x.cost + 1 && y.matchCount == x.matchCount
    ensures !Beats(y, Costlier(a))
  {
  }

  /** When the two last characters match, giving the match up gains nothing: any script is matched by
      one for the shorter pair, followed by the match. */
  lemma TakingTheMatchIsSafe(source: Word, target: Word, ops: seq<Op>) returns (shorter: seq<Op>)
    requires source != [] && target != [] && source[|source| - 1] == target[|target| - 1]
    requires Rewrites(ops, source, target)
    ensures Rewrites(shorter, source[..|source| - 1], target[..|target| - 1]) && |shorter| < |ops|
    ensures !Beats(Cell(Edits(ops), Matches(ops)), Cell(Edits(shorter), Matches(shorter) + 1))
  {
    hide Rewrites, Edits, Matches;
    SplitLast(ops, source, target);
    var before, op := ops[..|ops| - 1], ops[|ops| - 1];
    match op
    case Equal(_, _, _, _) => shorter := before;
    case Replace(_, _, _, _) => shorter := before;
    case Insert(_, _, _) => shorter := DropLastSource(before, source, target[..|target| - 1]);
    case Delete(_, _, _) => shorter := DropLastTarget(before, source[..|source| - 1], target);
  }

  /** No edit script beats the matrix: none has fewer edits, nor as few edits and more equal characters. */
  lemma {:induction false} BestIsOptimal(source: Word, target: Word, i: nat, j: nat, ops: seq<Op>)
    requires i <= |target| && j <= |source| && Rewrites(ops, source[..j], target[..i])
    ensures !Beats(Cell(Edits(ops), Matches(ops)), Best(source, target, i, j))
    decreases |ops|
  {
    hide Rewrites, Edits, Matches, Best;
    EdgesOfBest(source, target, i, j);
    if i == 0 {
      OnlyDeletes(ops, source[..j]);
    } else if j == 0 {
      OnlyInserts(ops, target[..i]);
    } else {
      BestStep(source, target, i, j);
      assert source[..j][..j - 1] == source[..j - 1] && target[..i][..i - 1] == target[..i - 1];
      if target[i - 1] == source[j - 1] {
        var shorter := TakingTheMatchIsSafe(source[..j], target[..i], ops);
        BestIsOptimal(source, target, i - 1, j - 1, shorter);
      } else {
        SplitLast(ops, source[..j], target[..i]);
        var before, op := ops[..|ops| - 1], ops[|ops| - 1];
        hide *;
        BestIsOptimal(source, target, if op.Delete? then i else i - 1, if op.Insert? then j else j - 1, before);
        NoMatchNoLoss(Cell(Edits(before), Matches(before)), Cell(Edits(ops), Matches(ops)), op,
                      Best(source, target, i, j - 1), Best(source, target, i - 1, j),
                        Best(source, target, i - 1, j - 1));
      }
    }
  }

  lemma EdgesOfBest(source: Word, target: Word, i: nat, j: nat)
    requires i <= |target| && j <= |source|
    ensures i == 0 ==> Best(source, target, i, j) == Cell(j, 0)
    ensures i > 0 && j == 0 ==> Best(source, target, i, j) == Cell(i, 0)
  {
  }

  /** Where the last characters differ, any last operation costs one edit over one of the three neighbours. */
  lemma NoMatchNoLoss(x: Cell, y: Cell, op: Op, del: Cell, ins: Cell, rep: Cell)
    requires !Beats(x, if op.Delete? then del else if op.Insert? then ins else rep)
    requires y.cost == x.cost + 1 && y.matchCount == x.matchCount
    ensures !Beats(y, Better(Better(Costlier(del), Costlier(ins)), Costlier(rep)))
  {
    CostlierKeepsOrder(x, if op.Delete? then del else if op.Insert? then ins else rep, y);
    BestOfThree(y, Costlier(del), Costlier(ins), Costlier(rep));
    hide *;
  }

  // ---------------------------------------------------------------------------
  // Traceback
  // ---------------------------------------------------------------------------

  datatype Kind = Replacing | Deleting | Inserting

  datatype Candidate = Candidate(kind: Kind, cell: Cell, nextI: nat, nextJ: nat)

  predicate CharsEqual(i: nat, j: nat, source: Word, target: Word)
    requires i <= |target| && j <= |source|
  {
    i > 0 && j > 0 && target[i - 1] == source[j - 1]
  }

  /** The predecessors of (i, j), in the order the source lists them. */
  ghost function Predecessors(source: Word, target: Word, i: nat, j: nat): (c: seq<Candidate>)
    requires i <= |target| && j <= |source| && (i > 0 || j > 0)
    ensures c != []
  {
    (if i > 0 && j > 0 then [Candidate(Replacing, Best(source, target, i - 1, j - 1), i - 1, j - 1)] else []) +
    (if j > 0 then [Candidate(Deleting, Best(source, target, i, j - 1), i, j - 1)] else []) +
    (if i > 0 then [Candidate(Inserting, Best(source, target, i - 1, j), i - 1, j)] else [])
  }

  function PickBest(c: seq<Candidate>): Candidate
    requires c != []
  {
    if |c| == 1 then c[0]
    else
      var best, cur := PickBest(c[..|c| - 1]), c[|c| - 1];
      if Beats(cur.cell, best.cell) then cur else best
  }

  lemma {:induction false} PickBestIsUnbeaten(c: seq<Candidate>)
    requires c != []
    ensures PickBest(c) in c
    ensures forall k :: 0 <= k < |c| ==> !Beats(c[k].cell, PickBest(c).cell)
  {
    if |c| > 1 { PickBestIsUnbeaten(c[..|c| - 1]); }
  }

  function Emit(kind: Kind, i: nat, j: nat, source: Word, target: Word): Op
    requires i <= |target| && j <= |source|
    requires kind != Inserting ==> j > 0
    requires kind != Deleting ==> i > 0
  {
    match kind
    case Replacing => Replace(j - 1, i - 1, source[j - 1], target[i - 1])
    case Deleting => Delete(j - 1, i, source[j - 1])
    case Inserting => Insert(j, i - 1, target[i - 1])
  }

  lemma PickedStep(source: Word, target: Word, i: nat, j: nat)
    requires i <= |target| && j <= |source| && (i > 0 || j > 0)
    ensures var c := PickBest(Predecessors(source, target, i, j));
            && c.nextI == (if c.kind == Deleting then i else i - 1)
            && c.nextJ == (if c.kind == Inserting then j else j - 1)
            && c.nextI >= 0 && c.nextJ >= 0
            && c.cell == Best(source, target, c.nextI, c.nextJ)
            && (!CharsEqual(i, j, source, target) ==> Best(source, target, i, j) == Costlier(c.cell))
  {
    var cs := Predecessors(source, target, i, j);
    PickBestIsUnbeaten(cs);
    if i > 0 && j > 0 {
      BestStep(source, target, i, j);
      hide Best;
      assert cs[0].kind == Replacing && cs[1].kind == Deleting && cs[2].kind == Inserting;
    }
  }

  /** The operation the traceback takes at (i, j), and where it goes on from. */
  ghost function StepAt(source: Word, target: Word, i: nat, j: nat): (r: (nat, nat, Op))
    requires i <= |target| && j <= |source| && (i > 0 || j > 0)
    ensures r.0 + r.1 < i + j && r.0 <= i && r.1 <= j
  {
    if CharsEqual(i, j, source, target) then (i - 1, j - 1, Equal(j - 1, i - 1, source[j - 1], target[i - 1]))
    else
      var c := PickBest(Predecessors(source, target, i, j));
      PickedStep(source, target, i, j);
      (c.nextI, c.nextJ, Emit(c.kind, i, j, source, target))
  }

  /** The edit script the traceback builds from (i, j). */
  ghost function Script(source: Word, target: Word, i: nat, j: nat): seq<Op>
    requires i <= |target| && j <= |source|
    decreases i + j
  {
    if i == 0 && j == 0 then []
    else
      var (i', j', op) := StepAt(source, target, i, j);
      Script(source, target, i', j') + [op]
  }

  lemma ScriptUnfolds(source: Word, target: Word, i: nat, j: nat)
    requires i <= |target| && j <= |source| && (i > 0 || j > 0)
    ensures var (i', j', op) := StepAt(source, target, i, j);
            Script(source, target, i, j) == Script(source, target, i', j') + [op]
  {
    hide PickBest, Predecessors, Best;
  }

  lemma StepOnEqual(source: Word, target: Word, i: nat, j: nat)
    requires i <= |target| && j <= |source| && CharsEqual(i, j, source, target)
    ensures i > 0 && j > 0 && target[i - 1] == source[j - 1]
    ensures StepAt(source, target, i, j) == (i - 1, j - 1, Equal(j - 1, i - 1, source[j - 1], target[i - 1]))
  {
    hide PickBest, Predecessors, Best;
  }

  lemma StepOnOther(source: Word, target: Word, i: nat, j: nat)
    requires i <= |target| && j <= |source| && (i > 0 || j > 0) && !CharsEqual(i, j, source, target)
    ensures var (i', j', op) := StepAt(source, target, i, j);
            && i' <= |target| && j' <= |source| && !op.Equal?
            && Best(source, target, i, j) == Costlier(Best(source, target, i', j'))
  {
    hide PickBest, Predecessors, Best;
    PickedStep(source, target, i, j);
  }

  lemma StepCostsOneEdit(source: Word, target: Word, i: nat, j: nat)
    requires i <= |target| && j <= |source| && (i > 0 || j > 0)
    ensures var (i', j', op) := StepAt(source, target, i, j);
            Best(source, target, i, j) ==
            if op.Equal? then Cell(Best(source, target, i', j').cost, Best(source, target, i', j').matchCount + 1)
            else Costlier(Best(source, target, i', j'))
  {
    hide *;
    if CharsEqual(i, j, source, target) {
      StepOnEqual(source, target, i, j);
      BestStep(source, target, i, j);
    } else {
      StepOnOther(source, target, i, j);
    }
  }

  lemma StepIsInPlace(source: Word, target: Word, i: nat, j: nat)
    requires i <= |target| && j <= |source| && (i > 0 || j > 0)
    ensures var (i', j', op) := StepAt(source, target, i, j);
            && op.from == j' && op.to == i' && (op.Equal? ==> op.aChar == op.bChar)
            && source[..j'] + A(op) == source[..j] && target[..i'] + B(op) == target[..i]
  {
    PickedStep(source, target, i, j);
    hide Best, PickBest, Predecessors;
    var (i', j', op) := StepAt(source, target, i, j);
    TakeOneMore(source, j', j, A(op));
    TakeOneMore(target, i', i, B(op));
  }

  lemma TakeOneMore(word: Word, k': nat, k: nat, last: Word)
    requires k <= |word|
    requires (k' == k && last == []) || (k' + 1 == k && last == [word[k']])
    ensures word[..k'] + last == word[..k]
  {
  }

  /** The script rewrites source into target, its operations are placed where they act, and it has exactly
      the edits and the equal characters the matrix promises. */
  lemma {:induction false} ScriptIsOptimal(source: Word, target: Word, i: nat, j: nat)
    requires i <= |target| && j <= |source|
    ensures Rewrites(Script(source, target, i, j), source[..j], target[..i])
    ensures Placed(Script(source, target, i, j))
    ensures Cell(Edits(Script(source, target, i, j)), Matches(Script(source, target, i, j)))
            == Best(source, target, i, j)
    decreases i + j
  {
    if i > 0 || j > 0 {
      var (i', j', op) := StepAt(source, target, i, j);
      ScriptIsOptimal(source, target, i', j');
      ScriptUnfolds(source, target, i, j);
      StepCostsOneEdit(source, target, i, j);
      StepIsInPlace(source, target, i, j);
      Extend(Script(source, target, i', j'), op);
      hide Best, Script, StepAt, ASide, BSide, Edits, Matches, Honest, Placed;
    }
  }

  /** How the operations rank where several scripts are equally good. */
  function Rank(op: Op): nat {
    if op.Equal? then 0 else if op.Replace? then 1 else if op.Delete? then 2 else 3
  }

  /** Compared from the last operation backwards, s has the better-ranked one where the two first differ. */
  ghost predicate Preferred(s: seq<Op>, t: seq<Op>) {
    s == t ||
    (s != [] && t != [] &&
     (Rank(s[|s| - 1]) < Rank(t[|t| - 1]) ||
      (s[|s| - 1] == t[|t| - 1] && Preferred(s[..|s| - 1], t[..|t| - 1]))))
  }

  /** As good as the matrix promises for these prefixes. */
  ghost predicate Optimal(ops: seq<Op>, source: Word, target: Word, i: nat, j: nat)
    requires i <= |target| && j <= |source|
  {
    && Rewrites(ops, source[..j], target[..i]) && Placed(ops)
    && Cell(Edits(ops), Matches(ops)) == Best(source, target, i, j)
  }

  /** The tie-break, independently of how it is computed: of all the optimal scripts the traceback builds the one that,
      from the end, keeps before it replaces, replaces before it deletes and deletes before it inserts. */
  lemma {:induction false} ScriptIsPreferred(source: Word, target: Word, i: nat, j: nat, ops: seq<Op>)
    requires i <= |target| && j <= |source| && Optimal(ops, source, target, i, j)
    ensures Preferred(Script(source, target, i, j), ops)
    decreases |ops|
  {
    if i == 0 && j == 0 {
      hide Best;
      OnlyDeletes(ops, source[..0]);
      EdgesOfBest(source, target, 0, 0);
      NothingRewritten(ops);
    } else {
      var (i', j', step) := StepAt(source, target, i, j);
      ScriptUnfolds(source, target, i, j);
      LastOfOptimal(source, target, i, j, ops);
      var before, op := ops[..|ops| - 1], ops[|ops| - 1];
      var script := Script(source, target, i', j');
      hide Script, Best, StepAt, Optimal;
      assert (script + [step])[..|script|] == script;
      if Rank(step) == Rank(op) { ScriptIsPreferred(source, target, i', j', before); }
    }
  }

  lemma NothingRewritten(ops: seq<Op>)
    requires Edits(ops) == 0 && Matches(ops) == 0
    ensures ops == []
  {
  }

  /** The last operation of an optimal script ranks no better than the traceback's step; of the same rank it is that
      step, after a script that is optimal where the step leads. */
  lemma LastOfOptimal(source: Word, target: Word, i: nat, j: nat, ops: seq<Op>)
    requires i <= |target| && j <= |source| && (i > 0 || j > 0) && Optimal(ops, source, target, i, j)
    ensures ops != []
    ensures var before, op := ops[..|ops| - 1], ops[|ops| - 1];
            var (i', j', step) := StepAt(source, target, i, j);
            && Rank(step) <= Rank(op)
            && (Rank(step) == Rank(op) ==> step == op && Optimal(before, source, target, i', j'))
  {
    hide Rewrites, Placed, Edits, Matches, Best, StepAt, Rank;
    SplitLast(ops, source[..j], target[..i]);
    var before, op := ops[..|ops| - 1], ops[|ops| - 1];
    LastIsInPlace(source, target, i, j, before, op, ops);
    LastIsRanked(source, target, i, j, before, op);
    if Rank(StepAt(source, target, i, j).2) == Rank(op) { SameRankSameStep(source, target, i, j, before, op); }
  }

  lemma SameRankSameStep(source: Word, target: Word, i: nat, j: nat, before: seq<Op>, op: Op)
    requires i <= |target| && j <= |source| && (i > 0 || j > 0)
    requires !op.Insert? ==> j > 0 && op.aChar == source[j - 1]
    requires !op.Delete? ==> i > 0 && op.bChar == target[i - 1]
    requires op.from == (if op.Insert? then j else j - 1) && op.to == (if op.Delete? then i else i - 1)
    requires Rewrites(before, source[..op.from], target[..op.to]) && Placed(before)
    requires if op.Equal? then Best(source, target, i, j) == Cell(Edits(before), Matches(before) + 1)
             else Best(source, target, i, j) == Costlier(Cell(Edits(before), Matches(before)))
    requires Rank(StepAt(source, target, i, j).2) == Rank(op)
    ensures var (i', j', step) := StepAt(source, target, i, j);
            step == op && Optimal(before, source, target, i', j')
  {
    var (i', j', step) := StepAt(source, target, i, j);
    StepIsInPlace(source, target, i, j);
    StepCostsOneEdit(source, target, i, j);
    hide StepAt, Best, Rewrites, Placed, Edits, Matches;
    assert |source[..j']| + |A(step)| == |source[..j]| && |target[..i']| + |B(step)| == |target[..i]|;
    if !op.Insert? { assert (source[..j'] + A(step))[j - 1] == source[j - 1]; }
    if !op.Delete? { assert (target[..i'] + B(step))[i - 1] == target[i - 1]; }
  }

  lemma EqualComesFirst(source: Word, target: Word, i: nat, j: nat)
    requires i <= |target| && j <= |source| && CharsEqual(i, j, source, target)
    ensures StepAt(source, target, i, j).2.Equal?
  {
    hide PickBest, Predecessors;
  }

  /** The last operation of an optimal script comes after an optimal script, and ranks no better than the step. */
  lemma LastIsRanked(source: Word, target: Word, i: nat, j: nat, before: seq<Op>, op: Op)
    requires i <= |target| && j <= |source| && (i > 0 || j > 0)
    requires !op.Insert? ==> j > 0 && op.aChar == source[j - 1]
    requires !op.Delete? ==> i > 0 && op.bChar == target[i - 1]
    requires op.Equal? ==> op.aChar == op.bChar
    requires Rewrites(before, source[..if op.Insert? then j else j - 1], target[..if op.Delete? then i else i - 1])
    requires !op.Equal? ==> Best(source, target, i, j) == Costlier(Cell(Edits(before), Matches(before)))
    ensures Rank(StepAt(source, target, i, j).2) <= Rank(op)
  {
    if CharsEqual(i, j, source, target) {
      EqualComesFirst(source, target, i, j);
    } else {
      hide Rewrites, Edits, Matches, StepAt, Best;
      var i0, j0 := if op.Delete? then i else i - 1, if op.Insert? then j else j - 1;
      BestIsOptimal(source, target, i0, j0, before);
      PickedStep(source, target, i, j);
      PickedIsFirst(source, target, i, j, op);
    }
  }

  lemma LastIsInPlace(source: Word, target: Word, i: nat, j: nat, before: seq<Op>, op: Op, ops: seq<Op>)
    requires i <= |target| && j <= |source| && ops == before + [op] && Placed(ops)
    requires Rewrites(ops, source[..j], target[..i]) && (i > 0 || j > 0)
    ensures (!op.Insert? ==> j > 0 && op.aChar == source[j - 1]) && (!op.Delete? ==> i > 0 && op.bChar == target[i - 1])
    ensures Rewrites(before, source[..if op.Insert? then j else j - 1], target[..if op.Delete? then i else i - 1])
    ensures Placed(before) && op.from == (if op.Insert? then j else j - 1) && op.to == (if op.Delete? then i else i - 1)
  {
    hide *;
    assert ops[..|ops| - 1] == before;
    PrefixOfPrefix(source, j);
    PrefixOfPrefix(target, i);
    SplitLast(ops, source[..j], target[..i]);
    LastIsPlaced(before, op, source[..if op.Insert? then j else j - 1], target[..if op.Delete? then i else i - 1]);
  }

  lemma PrefixOfPrefix(word: Word, k: nat)
    requires k <= |word|
    ensures |word[..k]| == k && (k > 0 ==> word[..k][..k - 1] == word[..k - 1] && word[..k][k - 1] == word[k - 1])
  {
  }

  lemma LastIsPlaced(before: seq<Op>, op: Op, source: Word, target: Word)
    requires Placed(before + [op]) && Rewrites(before, source, target)
    ensures Placed(before) && op.from == |source| && op.to == |target|
  {
    Extend(before, op);
  }

  /** The reduce keeps the first of the best candidates. */
  lemma {:induction false} PickBestIsFirst(c: seq<Candidate>) returns (k: nat)
    requires c != []
    ensures k < |c| && c[k] == PickBest(c) && forall l :: 0 <= l < k ==> Beats(c[k].cell, c[l].cell)
  {
    k := 0;
    if |c| > 1 {
      var before, cur := c[..|c| - 1], c[|c| - 1];
      PickBestIsUnbeaten(before);
      k := PickBestIsFirst(before);
      if Beats(cur.cell, PickBest(before).cell) {
        k := |c| - 1;
        forall l | 0 <= l < k ensures Beats(c[k].cell, c[l].cell) {
          assert !Beats(before[l].cell, PickBest(before).cell);
        }
      }
    }
  }

  lemma PickedIsFirst(source: Word, target: Word, i: nat, j: nat, op: Op)
    requires i <= |target| && j <= |source| && (i > 0 || j > 0) && !CharsEqual(i, j, source, target) && !op.Equal?
    requires (op.Insert? || j > 0) && (op.Delete? || i > 0)
    requires !Beats(PickBest(Predecessors(source, target, i, j)).cell,
                    Best(source, target, if op.Delete? then i else i - 1, if op.Insert? then j else j - 1))
    ensures Rank(StepAt(source, target, i, j).2) <= Rank(op)
  {
    hide *;
    var c := Predecessors(source, target, i, j);
    var k := PickBestIsFirst(c);
    var at := CandidateOf(source, target, i, j, op);
    CandidateStep(source, target, i, j, k);
    CandidatesAreRanked(source, target, i, j, k, at, op);
  }

  /** Where the neighbour an operation comes from stands among the candidates. */
  lemma CandidateOf(source: Word, target: Word, i: nat, j: nat, op: Op) returns (at: nat)
    requires i <= |target| && j <= |source| && (i > 0 || j > 0) && !op.Equal?
    requires (op.Insert? || j > 0) && (op.Delete? || i > 0)
    ensures var c := Predecessors(source, target, i, j);
            && at < |c|
            && c[at].cell == Best(source, target, if op.Delete? then i else i - 1, if op.Insert? then j else j - 1)
            && at == (if i == 0 || j == 0 then 0 else Rank(op) - 1)
  {
    hide Best;
    at := if i == 0 || j == 0 then 0 else Rank(op) - 1;
  }

  lemma CandidateStep(source: Word, target: Word, i: nat, j: nat, k: nat)
    requires i <= |target| && j <= |source| && (i > 0 || j > 0) && !CharsEqual(i, j, source, target)
    requires var c := Predecessors(source, target, i, j); k < |c| && c[k] == PickBest(c)
    ensures Rank(StepAt(source, target, i, j).2) == (if j == 0 then 3 else if i == 0 then 2 else k + 1)
  {
    hide Best, PickBest;
  }

  lemma CandidatesAreRanked(source: Word, target: Word, i: nat, j: nat, k: nat, at: nat, op: Op)
    requires i <= |target| && j <= |source| && (i > 0 || j > 0) && !op.Equal?
    requires (op.Insert? || j > 0) && (op.Delete? || i > 0)
    requires at == (if i == 0 || j == 0 then 0 else Rank(op) - 1)
    requires var c := Predecessors(source, target, i, j);
             k < |c| && at < |c| && (forall l :: 0 <= l < k ==> Beats(c[k].cell, c[l].cell))
               && !Beats(c[k].cell, c[at].cell)
    ensures (if j == 0 then 3 else if i == 0 then 2 else k + 1) <= Rank(op)
  {
    hide Predecessors, Beats;
  }

  method BuildCandidates(i: nat, j: nat, m: array2<Cell>, ghost source: Word, ghost target: Word,
                         ghost w: seq<seq<Cell>>)
    returns (c: seq<Candidate>)
    requires i <= |target| && j <= |source| && (i > 0 || j > 0)
    requires m.Length0 == |target| + 1 && m.Length1 == |source| + 1
    requires IsMatrix(source, target, w) && RowsFilled(m, w, |target| + 1)
    ensures c == Predecessors(source, target, i, j)
  {
    hide Best;
    c := [];
    if i > 0 && j > 0 {
      assert w[i - 1][j - 1] == Best(source, target, i - 1, j - 1);
      c := c + [Candidate(Replacing, m[i - 1, j - 1], i - 1, j - 1)];
    }
    if j > 0 {
      assert w[i][j - 1] == Best(source, target, i, j - 1);
      c := c + [Candidate(Deleting, m[i, j - 1], i, j - 1)];
    }
    if i > 0 {
      assert w[i - 1][j] == Best(source, target, i - 1, j);
      c := c + [Candidate(Inserting, m[i - 1, j], i - 1, j)];
    }
  }

  method TraceOne(source: Word, target: Word, m: array2<Cell>, ghost w: seq<seq<Cell>>, i: nat, j: nat)
    returns (i': nat, j': nat, op: Op)
    requires i <= |target| && j <= |source| && (i > 0 || j > 0)
    requires m.Length0 == |target| + 1 && m.Length1 == |source| + 1
    requires IsMatrix(source, target, w) && RowsFilled(m, w, |target| + 1)
    ensures (i', j', op) == StepAt(source, target, i, j)
  {
    hide IsMatrix, RowsFilled, Best, PickBest, Predecessors;
    if CharsEqual(i, j, source, target) {
      return i - 1, j - 1, Equal(j - 1, i - 1, source[j - 1], target[i - 1]);
    }
    var candidates := BuildCandidates(i, j, m, source, target, w);
    PickedStep(source, target, i, j);
    var c := PickBest(candidates);
    return c.nextI, c.nextJ, Emit(c.kind, i, j, source, target);
  }

  method TraceBack(source: Word, target: Word, m: array2<Cell>, ghost w: seq<seq<Cell>>) returns (ops: seq<Op>)
    requires m.Length0 == |target| + 1 && m.Length1 == |source| + 1
    requires IsMatrix(source, target, w) && RowsFilled(m, w, |target| + 1)
    ensures ops == Script(source, target, |target|, |source|)
  {
    hide IsMatrix, RowsFilled, StepAt, Script;
    ops := [];
    var i, j := |target|, |source|;
    while i > 0 || j > 0
      invariant 0 <= i <= |target| && 0 <= j <= |source|
      invariant Script(source, target, |target|, |source|) == Script(source, target, i, j) + ops
      decreases i + j
    {
      ScriptUnfolds(source, target, i, j);
      var op;
      i, j, op := TraceOne(source, target, m, w, i, j);
      Reassociate(Script(source, target, i, j), op, ops);
      ops := [op] + ops;
    }
    NothingTraced(source, target, ops);
  }

  lemma Reassociate(before: seq<Op>, op: Op, after: seq<Op>)
    ensures before + [op] + after == before + ([op] + after)
  {
  }

  lemma NothingTraced(source: Word, target: Word, ops: seq<Op>)
    ensures Script(source, target, 0, 0) + ops == ops
  {
  }

  /** The pair of counts `identify` ranks a student word by, as the matrix gives it. */
  ghost function Score(source: Word, target: Word): Cell { Best(source, target, |target|, |source|) }

  /** A script that rewrites the word, its operations in place, with the distance and match count it is ranked by. */
  ghost predicate IsBest(ops: seq<Op>, source: Word, target: Word) {
    Rewrites(ops, source, target) && Placed(ops) && Cell(Edits(ops), Matches(ops)) == Score(source, target)
  }

  method LevenshteinWithOps(source: Word, target: Word) returns (distance: nat, ops: seq<Op>)
    ensures ops == Script(source, target, |target|, |source|)
    ensures distance == Edits(ops) && IsBest(ops, source, target)
    ensures forall other :: IsBest(other, source, target) ==> Preferred(ops, other)
  {
    var m, w := BuildMatrix(source, target);
    ops := TraceBack(source, target, m, w);
    assert w[|target|][|source|] == Best(source, target, |target|, |source|);
    distance := m[|target|, |source|].cost;
    hide Best, Script, Rewrites, Placed, Preferred, Edits, Matches;
    ScriptIsOptimal(source, target, |target|, |source|);
    assert source[..|source|] == source && target[..|target|] == target;
    forall other | IsBest(other, source, target) ensures Preferred(ops, other) {
      ScriptIsPreferred(source, target, |target|, |source|, other);
    }
  }

  /** So the script is the only one that is optimal and preferred to every other optimal one. */
  lemma OnlyOneIsPreferred(source: Word, target: Word, ops: seq<Op>)
    requires IsBest(ops, source, target) && forall other :: IsBest(other, source, target) ==> Preferred(ops, other)
    ensures ops == Script(source, target, |target|, |source|)
  {
    assert source[..|source|] == source && target[..|target|] == target;
    ScriptIsOptimal(source, target, |target|, |source|);
    ScriptIsPreferred(source, target, |target|, |source|, ops);
    hide Script, Best, Rewrites, Placed, Preferred, Edits, Matches;
    PreferredBothWays(ops, Script(source, target, |target|, |source|));
  }

  lemma {:induction false} PreferredBothWays(s: seq<Op>, t: seq<Op>)
    requires Preferred(s, t) && Preferred(t, s)
    ensures s == t
    decreases |s|
  {
    if s != [] && t != [] {
      PreferredBothWays(s[..|s| - 1], t[..|t| - 1]);
      assert s == s[..|s| - 1] + [s[|s| - 1]] && t == t[..|t| - 1] + [t[|t| - 1]];
    }
  }

  /** Distance and match count are those of the best edit script there is. */
  lemma ScoreIsOptimal(source: Word, target: Word, ops: seq<Op>)
    requires Rewrites(ops, source, target)
    ensures !Beats(Cell(Edits(ops), Matches(ops)), Score(source, target))
  {
    assert source[..|source|] == source && target[..|target|] == target;
    BestIsOptimal(source, target, |target|, |source|, ops);
  }

  // ---------------------------------------------------------------------------
  // identify
  // ---------------------------------------------------------------------------

  predicate HighSurrogate(u: Unit) { 0xD800 <= u < 0xDC00 }

  predicate LowSurrogate(u: Unit) { 0xDC00 <= u < 0xE000 }

  /** What iterating a string yields: code points, one or two units each. */
  function CodePoints(w: Word): seq<Word> {
    if w == [] then []
    else if |w| > 1 && HighSurrogate(w[0]) && LowSurrogate(w[1]) then [w[..2]] + CodePoints(w[2..])
    else [w[..1]] + CodePoints(w[1..])
  }

  function Joined(cs: seq<Word>): Word { if cs == [] then [] else cs[0] + Joined(cs[1..]) }

  /** The code points of a word are the word, cut into single units and pairs of a high and a low surrogate, with no
      such pair cut in two. */
  lemma {:induction false} CodePointsCutTheWord(w: Word)
    ensures var cs := CodePoints(w);
            && Joined(cs) == w
            && (forall k :: 0 <= k < |cs| ==>
                  |cs[k]| == 1 || (|cs[k]| == 2 && 0xD800 <= cs[k][0] <= 0xDBFF && 0xDC00 <= cs[k][1] <= 0xDFFF))
            && (forall k :: 0 <= k < |cs| - 1 && |cs[k]| == 1 && |cs[k + 1]| == 1 ==>
                  !(0xD800 <= cs[k][0] <= 0xDBFF && 0xDC00 <= cs[k + 1][0] <= 0xDFFF))
    decreases |w|
  {
    if w != [] {
      var n := if |w| > 1 && HighSurrogate(w[0]) && LowSurrogate(w[1]) then 2 else 1;
      CodePointsCutTheWord(w[n..]);
      var cs, rest := CodePoints(w), CodePoints(w[n..]);
      assert cs[1..] == rest && w[..n] + w[n..] == w;
      if n == 1 && rest != [] && |rest[0]| == 1 { assert rest[0] == w[1..][..1]; }
    }
  }

  /** The elements in order of first occurrence, as a Set built from an array holds them. */
  function Distinct(cs: seq<Word>): (r: seq<Word>)
    ensures forall c :: c in r <==> c in cs
    ensures NoDuplicates(r) && FirstComeFirst(r, cs)
  {
    if cs == [] then []
    else
      var before := Distinct(cs[..|cs| - 1]);
      assert cs == cs[..|cs| - 1] + [cs[|cs| - 1]];
      LaterKeepsOrder(before, cs[..|cs| - 1], cs[|cs| - 1]);
      if cs[|cs| - 1] in before then before else before + [cs[|cs| - 1]]
  }

  /** c occurs before d does. */
  ghost predicate Precedes(cs: seq<Word>, c: Word, d: Word) {
    exists a :: 0 <= a < |cs| && cs[a] == c && forall b :: 0 <= b <= a ==> cs[b] != d
  }

  /** The elements of r stand in the order in which cs first has them. */
  ghost predicate FirstComeFirst(r: seq<Word>, cs: seq<Word>) {
    forall i, j :: 0 <= i < j < |r| ==> Precedes(cs, r[i], r[j])
  }

  lemma LaterKeepsOrder(r: seq<Word>, cs: seq<Word>, last: Word)
    requires FirstComeFirst(r, cs) && forall c :: c in r ==> c in cs
    ensures FirstComeFirst(r, cs + [last])
    ensures last !in cs ==> FirstComeFirst(r + [last], cs + [last])
  {
    forall i, j | 0 <= i < j < |r| ensures Precedes(cs + [last], r[i], r[j]) {
      StillPrecedes(cs, last, r[i], r[j]);
    }
    if last !in cs {
      forall i | 0 <= i < |r| ensures Precedes(cs + [last], r[i], last) {
        assert r[i] in r;
        NewIsLast(cs, last, r[i]);
      }
    }
    hide Precedes;
  }

  lemma StillPrecedes(cs: seq<Word>, last: Word, c: Word, d: Word)
    requires Precedes(cs, c, d)
    ensures Precedes(cs + [last], c, d)
  {
    var a :| 0 <= a < |cs| && cs[a] == c && forall b :: 0 <= b <= a ==> cs[b] != d;
    assert (cs + [last])[a] == c;
  }

  lemma NewIsLast(cs: seq<Word>, last: Word, c: Word)
    requires c in cs && last !in cs
    ensures Precedes(cs + [last], c, last)
  {
    var a :| 0 <= a < |cs| && cs[a] == c;
    assert (cs + [last])[a] == c;
  }

  ghost predicate NoDuplicates(cs: seq<Word>) { forall k, l :: 0 <= k < l < |cs| ==> cs[k] != cs[l] }

  function Select(cs: seq<Word>, s: set<Word>): (r: seq<Word>)
    ensures forall c :: c in r <==> c in cs && c in s
    ensures NoDuplicates(cs) ==> NoDuplicates(r)
  {
    if cs == [] then []
    else
      assert cs == [cs[0]] + cs[1..];
      (if cs[0] in s then [cs[0]] else []) + Select(cs[1..], s)
  }

  lemma {:induction false} SelectKeepsOrder(cs: seq<Word>, s: set<Word>, of: seq<Word>)
    requires FirstComeFirst(cs, of)
    ensures FirstComeFirst(Select(cs, s), of)
    decreases |cs|
  {
    if cs != [] {
      var rest, r := Select(cs[1..], s), Select(cs, s);
      forall i, j | 0 <= i < j < |cs[1..]| ensures Precedes(of, cs[1..][i], cs[1..][j]) {
        assert cs[1..][i] == cs[i + 1] && cs[1..][j] == cs[j + 1];
      }
      SelectKeepsOrder(cs[1..], s, of);
      if cs[0] in s {
        forall j | 0 <= j < |rest| ensures Precedes(of, cs[0], rest[j]) {
          assert rest[j] in cs[1..];
          var k :| 0 <= k < |cs[1..]| && cs[1..][k] == rest[j];
          assert cs[k + 1] == rest[j];
        }
      }
      hide Precedes;
    }
  }

  /** The two lists split the answer's characters, each listed once and in the order of the answer: exactly the missed
      ones are incorrect. */
  ghost predicate SplitsAnswer(correctWord: Word, missed: set<Word>, correctChars: seq<Word>,
                               incorrectChars: seq<Word>) {
    && NoDuplicates(correctChars) && NoDuplicates(incorrectChars)
    && FirstComeFirst(correctChars, CodePoints(correctWord)) && FirstComeFirst(incorrectChars, CodePoints(correctWord))
    && (forall c :: c in correctChars <==> c in CodePoints(correctWord) && c !in missed)
    && (forall c :: c in incorrectChars <==> c in CodePoints(correctWord) && c in missed)
  }

  /** The characters written by an operation that is not Equal. */
  function Mismatched(ops: seq<Op>): set<Word> {
    set op | op in ops && !op.Equal? && B(op) != [] :: B(op)
  }

  ghost function Missed(source: Word, target: Word): set<Word> {
    Mismatched(Script(source, target, |target|, |source|))
  }

  /** Word k is the first of those no other word beats. */
  ghost predicate FirstBest(studentWords: seq<Word>, correctWord: Word, k: nat)
    requires k < |studentWords|
  {
    && (forall l :: 0 <= l < |studentWords| ==>
          !Beats(Score(studentWords[l], correctWord), Score(studentWords[k], correctWord)))
    && (forall l :: 0 <= l < k ==> Beats(Score(studentWords[k], correctWord), Score(studentWords[l], correctWord)))
  }

  /** The characters of the answer, split by the first best student word. A string split by white space
      always has at least one word, so there always is one. */
  method Identify(correctWord: Word, studentWords: seq<Word>)
    returns (correctChars: seq<Word>, incorrectChars: seq<Word>)
    requires studentWords != []
    ensures exists k :: 0 <= k < |studentWords| && FirstBest(studentWords, correctWord, k) &&
                        SplitsAnswer(correctWord, Missed(studentWords[k], correctWord), correctChars, incorrectChars)
  {
    hide Script, Score, Rewrites, Placed, Edits, Matches;
    var allCorrectChars := Distinct(CodePoints(correctWord));
    var all := set c | c in allCorrectChars;
    var bestCorrectSet: set<Word> := {};
    var best := Cell(0, 0);
    ghost var at := 0;
    for n := 0 to |studentWords|
      invariant 0 <= at <= n
      invariant n > 0 ==> at < n && best == Score(studentWords[at], correctWord)
      invariant n > 0 ==> bestCorrectSet == all - Missed(studentWords[at], correctWord)
      invariant forall l :: 0 <= l < n ==> !Beats(Score(studentWords[l], correctWord), best)
      invariant forall l :: 0 <= l < at ==> Beats(best, Score(studentWords[l], correctWord))
    {
      var distance, ops := LevenshteinWithOps(studentWords[n], correctWord);
      var matches := Matches(ops);
      if n == 0 || distance < best.cost || (distance == best.cost && matches > best.matchCount) {
        best := Cell(distance, matches);
        at := n;
        bestCorrectSet := all - Mismatched(ops);
      }
    }
    assert FirstBest(studentWords, correctWord, at);
    hide FirstComeFirst;
    SelectKeepsOrder(allCorrectChars, bestCorrectSet, CodePoints(correctWord));
    SelectKeepsOrder(allCorrectChars, all - bestCorrectSet, CodePoints(correctWord));
    correctChars := Select(allCorrectChars, bestCorrectSet);
    incorrectChars := Select(allCorrectChars, all - bestCorrectSet);
    assert SplitsAnswer(correctWord, Missed(studentWords[at], correctWord), correctChars, incorrectChars);
  }

  lemma {:induction false} PlacedAt(ops: seq<Op>, k: nat)
    requires Placed(ops) && k < |ops|
    ensures ops[k].to == |BSide(ops[..k])| && |BSide(ops[..k + 1])| == |BSide(ops[..k])| + |B(ops[k])|
    decreases |ops|
  {
    var before := ops[..|ops| - 1];
    if k < |ops| - 1 {
      PlacedAt(before, k);
      assert before[..k] == ops[..k] && before[..k + 1] == ops[..k + 1];
    } else {
      assert ops[..k + 1] == ops && before == ops[..k];
    }
  }

  lemma {:induction false} LaterWritersAreFurther(ops: seq<Op>, k: nat, l: nat)
    requires Placed(ops) && k < l < |ops| && !ops[k].Delete?
    ensures ops[k].to < ops[l].to
    decreases l
  {
    hide BSide, Placed;
    PlacedAt(ops, k);
    PlacedAt(ops, l);
    PlacedAt(ops, l - 1);
    if k < l - 1 { LaterWritersAreFurther(ops, k, l - 1); }
  }

  /** Every target position is written by some operation. */
  lemma {:induction false} WriterOf(ops: seq<Op>, t: nat) returns (k: nat)
    requires Placed(ops) && t < |BSide(ops)|
    ensures k < |ops| && !ops[k].Delete? && ops[k].to == t && ops[k].bChar == BSide(ops)[t]
    decreases |ops|
  {
    var before := ops[..|ops| - 1];
    if t < |BSide(before)| { k := WriterOf(before, t); } else { k := |ops| - 1; }
  }

  ghost predicate KeptAt(ops: seq<Op>, t: nat) { exists k :: 0 <= k < |ops| && ops[k].Equal? && ops[k].to == t }

  lemma {:induction false} WrittenChar(ops: seq<Op>, k: nat)
    requires Placed(ops) && k < |ops| && !ops[k].Delete?
    ensures ops[k].to < |BSide(ops)| && BSide(ops)[ops[k].to] == ops[k].bChar
    decreases |ops|
  {
    if k < |ops| - 1 { WrittenChar(ops[..|ops| - 1], k); }
  }

  /** A one-unit character is missed exactly when some occurrence of it in the answer is not read as itself. */
  lemma MissedMeansMisreadSomewhere(source: Word, target: Word, u: Unit)
    ensures [u] in Missed(source, target) <==>
            exists t :: 0 <= t < |target| && target[t] == u && !KeptAt(Script(source, target, |target|, |source|), t)
  {
    var ops := Script(source, target, |target|, |source|);
    ScriptIsOptimal(source, target, |target|, |source|);
    assert target[..|target|] == target;
    hide Script, Placed, BSide;
    if [u] in Missed(source, target) {
      var op :| op in ops && !op.Equal? && B(op) == [u];
      var k :| 0 <= k < |ops| && ops[k] == op;
      WrittenChar(ops, k);
      forall l | 0 <= l < |ops| && ops[l].Equal? ensures ops[l].to != op.to {
        if k < l { LaterWritersAreFurther(ops, k, l); } else { LaterWritersAreFurther(ops, l, k); }
      }
      assert target[op.to] == u && !KeptAt(ops, op.to);
    }
    if t :| 0 <= t < |target| && target[t] == u && !KeptAt(ops, t) {
      var k := WriterOf(ops, t);
      assert ops[k] in ops && B(ops[k]) == [u];
    }
  }

  // ---------------------------------------------------------------------------
  // Whether the incorrect list is the list of misread characters
  // ---------------------------------------------------------------------------

  ghost predicate StandsAt(target: Word, c: Word, t: nat) { t + |c| <= |target| && target[t..t + |c|] == c }

  /** Some occurrence of the character in the answer has a unit the script does not keep. */
  ghost predicate Misread(source: Word, target: Word, c: Word) {
    exists t: nat :: StandsAt(target, c, t) && LosesUnit(source, target, c, t)
  }

  ghost predicate LosesUnit(source: Word, target: Word, c: Word, t: nat) {
    exists p: nat :: t <= p < t + |c| && !KeptAt(Script(source, target, |target|, |source|), p)
  }

  /** identify lists as incorrect exactly the misread characters, whatever the student words. */
  ghost predicate ReportsMisreads(target: Word) {
    forall words: seq<Word>, k: nat, correctChars: seq<Word>, incorrectChars: seq<Word> ::
      k < |words| && FirstBest(words, target, k)
        && SplitsAnswer(target, Missed(words[k], target), correctChars, incorrectChars) ==>
      forall c :: c in CodePoints(target) ==> (c in incorrectChars <==> Misread(words[k], target, c))
  }

  ghost predicate AllOneUnit(target: Word) { forall c :: c in CodePoints(target) ==> |c| == 1 }

  /** The misread characters of an answer are what identify reports, for all student words, if and only if every
      character of the answer is a single unit. A character outside the basic plane is two units. */
  lemma MisreadsAreReported(target: Word)
    ensures ReportsMisreads(target) <==> AllOneUnit(target)
  {
    if AllOneUnit(target) {
      hide Script, FirstBest, CodePoints;
      forall words: seq<Word>, k: nat, correctChars: seq<Word>, incorrectChars: seq<Word>
        | k < |words| && FirstBest(words, target, k)
          && SplitsAnswer(target, Missed(words[k], target), correctChars, incorrectChars)
        ensures forall c :: c in CodePoints(target) ==> (c in incorrectChars <==> Misread(words[k], target, c))
      {
        forall c | c in CodePoints(target) ensures c in incorrectChars <==> Misread(words[k], target, c) {
          OneUnitIsReported(words[k], target, c);
          hide Missed, Misread;
        }
      }
    } else {
      var c :| c in CodePoints(target) && |c| != 1;
      PairIsLost(target, c);
      hide Misread, FirstBest, SplitsAnswer, CodePoints, Missed, Script;
    }
  }

  /** The script does not keep position t of the answer. */
  ghost predicate LostAt(source: Word, target: Word, t: nat) { !KeptAt(Script(source, target, |target|, |source|), t) }

  lemma OneUnitIsReported(source: Word, target: Word, c: Word)
    requires |c| == 1
    ensures c in Missed(source, target) <==> Misread(source, target, c)
  {
    OneUnitMissed(source, target, c);
    hide Missed, Misread, LostAt;
    if t :| 0 <= t < |target| && target[t] == c[0] && LostAt(source, target, t) { LostIsMisread(source, target, c, t); }
    if Misread(source, target, c) { var t := MisreadIsLost(source, target, c); }
  }

  lemma OneUnitMissed(source: Word, target: Word, c: Word)
    requires |c| == 1
    ensures c in Missed(source, target) <==>
            exists t :: 0 <= t < |target| && target[t] == c[0] && LostAt(source, target, t)
  {
    MissedMeansMisreadSomewhere(source, target, c[0]);
    hide Missed, Script, KeptAt;
    assert [c[0]] == c;
  }

  lemma LostIsMisread(source: Word, target: Word, c: Word, t: nat)
    requires |c| == 1 && t < |target| && target[t] == c[0] && LostAt(source, target, t)
    ensures Misread(source, target, c)
  {
    hide KeptAt, Script;
    assert target[t..t + 1] == c;
    assert StandsAt(target, c, t) && LosesUnit(source, target, c, t);
  }

  lemma MisreadIsLost(source: Word, target: Word, c: Word) returns (t: nat)
    requires |c| == 1 && Misread(source, target, c)
    ensures t < |target| && target[t] == c[0] && LostAt(source, target, t)
  {
    hide KeptAt, Script;
    t :| StandsAt(target, c, t) && LosesUnit(source, target, c, t);
    assert target[t..t + 1][0] == target[t];
  }

  /** A character outside the basic plane is never missed, however it was read: the script names single
      units, the answer's characters are compared as whole code points. */
  lemma SurrogatePairIsNeverMissed(source: Word, target: Word, c: Word)
    requires |c| == 2
    ensures c !in Missed(source, target)
  {
    hide Script;
  }

  lemma {:induction false} CodePointStands(target: Word, c: Word) returns (t: nat)
    requires c in CodePoints(target)
    ensures 1 <= |c| <= 2 && StandsAt(target, c, t)
    decreases |target|
  {
    var n := if |target| > 1 && HighSurrogate(target[0]) && LowSurrogate(target[1]) then 2 else 1;
    if c == target[..n] {
      t := 0;
    } else {
      var rest := CodePointStands(target[n..], c);
      t := n + rest;
      assert target[n..][rest..rest + |c|] == target[t..t + |c|];
    }
  }

  /** Read as nothing at all, a two-unit character of the answer is misread and yet reported as correct. */
  lemma PairIsLost(target: Word, c: Word)
    requires c in CodePoints(target) && |c| != 1
    ensures FirstBest([[]], target, 0)
    ensures exists correctChars, incorrectChars ::
              SplitsAnswer(target, Missed([[]][0], target), correctChars, incorrectChars) && c in correctChars
                && c !in incorrectChars
    ensures Misread([[]][0], target, c)
    ensures !ReportsMisreads(target)
  {
    hide Missed, Misread, FirstBest, SplitsAnswer, CodePoints, StandsAt, ReportsMisreads;
    var t := CodePointStands(target, c);
    UnreadIsMisread(target, c, t);
    SurrogatePairIsNeverMissed([], target, c);
    SomeSplit(target, Missed([], target));
    OnlyWordIsBest([], target);
    var words: seq<Word> := [[]];
    assert words[0] == [];
    var correctChars, incorrectChars :| SplitsAnswer(target, Missed([], target), correctChars, incorrectChars);
    NotReported(target, c, words, correctChars, incorrectChars);
  }

  lemma NotReported(target: Word, c: Word, words: seq<Word>, correctChars: seq<Word>, incorrectChars: seq<Word>)
    requires words != [] && FirstBest(words, target, 0)
    requires SplitsAnswer(target, Missed(words[0], target), correctChars, incorrectChars)
    requires c in CodePoints(target) && c !in incorrectChars && Misread(words[0], target, c)
    ensures !ReportsMisreads(target)
  {
    hide Missed, Misread, FirstBest, SplitsAnswer, CodePoints;
  }

  lemma UnreadIsMisread(target: Word, c: Word, t: nat)
    requires StandsAt(target, c, t) && c != []
    ensures Misread([], target, c)
  {
    NothingIsKept(target, t);
    hide Script, KeptAt;
    assert LosesUnit([], target, c, t);
  }

  lemma OnlyWordIsBest(word: Word, target: Word)
    ensures FirstBest([word], target, 0)
  {
    hide Score;
  }

  lemma SomeSplit(target: Word, missed: set<Word>)
    ensures exists correctChars, incorrectChars :: SplitsAnswer(target, missed, correctChars, incorrectChars)
    ensures forall correctChars, incorrectChars, c ::
              SplitsAnswer(target, missed, correctChars, incorrectChars) && c in CodePoints(target) && c !in missed ==>
              c in correctChars && c !in incorrectChars
  {
    hide CodePoints;
    var all := Distinct(CodePoints(target));
    SelectKeepsOrder(all, (set x | x in all) - missed, CodePoints(target));
    SelectKeepsOrder(all, missed, CodePoints(target));
    hide FirstComeFirst;
    assert SplitsAnswer(target, missed, Select(all, (set x | x in all) - missed), Select(all, missed));
  }

  lemma NothingIsKept(target: Word, t: nat)
    ensures !KeptAt(Script([], target, |target|, 0), t)
  {
    var ops := Script([], target, |target|, 0);
    ScriptIsOptimal([], target, |target|, 0);
    assert target[..|target|] == target;
    OnlyInserts(ops, target);
    NoMatchNoEqual(ops);
  }

  lemma {:induction false} NoMatchNoEqual(ops: seq<Op>)
    requires Matches(ops) == 0
    ensures forall k :: 0 <= k < |ops| ==> !ops[k].Equal?
    decreases |ops|
  {
    if ops != [] { NoMatchNoEqual(ops[..|ops| - 1]); }
  }

  /** The smallest case: one emoji, nothing read. */
  lemma UnreadEmojiIsReportedCorrect(high: Unit, low: Unit)
    requires HighSurrogate(high) && LowSurrogate(low)
    ensures [high, low] in CodePoints([high, low]) && [high, low] !in Missed([], [high, low])
            && Misread([], [high, low], [high, low])
  {
    var c := [high, low];
    assert c[..2] == c;
    PairIsLost(c, c);
    SurrogatePairIsNeverMissed([], c, c);
  }
}
