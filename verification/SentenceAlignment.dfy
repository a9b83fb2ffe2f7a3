/**
 Word-level alignment of one transcript against the target words
 (src/literacy/literacy-lesson/sentence-assessment.ts).

 Costs are doubled so that they are integers: the source uses 0, 0.5 and 1, which
 doubles add and compare exactly. Normalization, word-lesson marking and akshara
 segmentation are library behaviour: they are the fields of `Judge`.
 */
module SentenceAlignment {
  import opened Options

  type Token = string

  datatype Status = Correct | Close | Substituted | Omitted | Transposed

  datatype WordResult = WordResult(
    target: Token, heard: Option<Token>, status: Status, aksharaDistance: nat, teachable: bool)

  datatype Judge = Judge(
    normalize: Token -> Token,
    markWord: (Token, Token) -> bool,
    aksharaDistance: (Token, Token) -> nat,
    aksharaLength: Token -> nat,
    teachable: Token -> bool,
    disfluencies: set<Token>,
    tokenize: string -> seq<Token>)

  const AKSHARA_CLOSE_DISTANCE: nat := 1
  const COST_MATCH: nat := 0
  const COST_CLOSE: nat := 1
  const COST_SUBSTITUTION: nat := 2
  const COST_GAP: nat := 2

  function MatchCost(jd: Judge, target: Token, token: Token): nat {
    if jd.normalize(target) == jd.normalize(token) || jd.markWord(target, token) then COST_MATCH
    else if jd.aksharaDistance(target, token) <= AKSHARA_CLOSE_DISTANCE then COST_CLOSE
    else COST_SUBSTITUTION
  }

  function InsertionCost(jd: Judge, token: Token, prevTarget: Option<Token>): nat {
    if jd.normalize(token) in jd.disfluencies then 0
    else if prevTarget.Some? && MatchCost(jd, prevTarget.value, token) == COST_MATCH then 0
    else COST_GAP
  }

  function Preceding(targets: seq<Token>, i: nat): Option<Token>
    requires i <= |targets|
  {
    if i > 0 then Some(targets[i - 1]) else None
  }

  function Min(a: nat, b: nat): nat { if b < a then b else a }

  // ---------------------------------------------------------------------------
  // Alignments: what the dynamic program minimises over
  // ---------------------------------------------------------------------------

  /** Read consumes a target and a token, Insert a token, Omit a target. */
  datatype Step = Read | Insert | Omit

  /** The steps are a monotone alignment of the first i targets with the first j tokens. */
  ghost predicate Aligns(steps: seq<Step>, i: nat, j: nat) {
    if steps == [] then i == 0 && j == 0
    else
      var before := steps[..|steps| - 1];
      match steps[|steps| - 1]
      case Read => i > 0 && j > 0 && Aligns(before, i - 1, j - 1)
      case Insert => j > 0 && Aligns(before, i, j - 1)
      case Omit => i > 0 && Aligns(before, i - 1, j)
  }

  function StepCost(jd: Judge, targets: seq<Token>, tokens: seq<Token>, step: Step, i: nat, j: nat): nat
    requires i <= |targets| && j <= |tokens|
    requires step != Insert ==> i > 0
    requires step != Omit ==> j > 0
  {
    match step
    case Read => MatchCost(jd, targets[i - 1], tokens[j - 1])
    case Insert => InsertionCost(jd, tokens[j - 1], Preceding(targets, i))
    case Omit => COST_GAP
  }

  ghost function AlignmentCost(jd: Judge, targets: seq<Token>, tokens: seq<Token>, steps: seq<Step>, i: nat,
                               j: nat): nat
    requires i <= |targets| && j <= |tokens| && Aligns(steps, i, j)
    decreases |steps|
  {
    if steps == [] then 0
    else
      var step := steps[|steps| - 1];
      AlignmentCost(jd, targets, tokens, steps[..|steps| - 1],
                    if step == Insert then i else i - 1, if step == Omit then j else j - 1)
      + StepCost(jd, targets, tokens, step, i, j)
  }

  // ---------------------------------------------------------------------------
  // The recurrence, its matrix and the traceback
  // ---------------------------------------------------------------------------

  function MinCost(jd: Judge, targets: seq<Token>, tokens: seq<Token>, i: nat, j: nat): nat
    requires i <= |targets| && j <= |tokens|
    decreases i + j
  {
    if i == 0 && j == 0 then 0
    else if j == 0 then MinCost(jd, targets, tokens, i - 1, 0) + COST_GAP
    else if i == 0 then MinCost(jd, targets, tokens, 0, j - 1) + InsertionCost(jd, tokens[j - 1], None)
    else
      Min(Min(MinCost(jd, targets, tokens, i - 1, j - 1) + MatchCost(jd, targets[i - 1], tokens[j - 1]),
              MinCost(jd, targets, tokens, i, j - 1) + InsertionCost(jd, tokens[j - 1], Some(targets[i - 1]))),
          MinCost(jd, targets, tokens, i - 1, j) + COST_GAP)
  }

  /** The recurrence unfolded once. */
  lemma MinCostStep(jd: Judge, targets: seq<Token>, tokens: seq<Token>, i: nat, j: nat)
    requires i <= |targets| && j <= |tokens|
    ensures MinCost(jd, targets, tokens, i, j) ==
            if i == 0 && j == 0 then 0
            else if j == 0 then MinCost(jd, targets, tokens, i - 1, 0) + COST_GAP
            else if i == 0 then MinCost(jd, targets, tokens, 0, j - 1) + InsertionCost(jd, tokens[j - 1], None)
            else
              Min(Min(MinCost(jd, targets, tokens, i - 1, j - 1) + MatchCost(jd, targets[i - 1], tokens[j - 1]),
                      MinCost(jd, targets, tokens, i, j - 1) + InsertionCost(jd, tokens[j - 1], Some(targets[i - 1]))),
                  MinCost(jd, targets, tokens, i - 1, j) + COST_GAP)
  {
  }

  /** The step the tie-break takes at (i, j): match/substitute before insert before omit. */
  function Chosen(jd: Judge, targets: seq<Token>, tokens: seq<Token>, i: nat, j: nat): (step: Step)
    requires i <= |targets| && j <= |tokens| && (i > 0 || j > 0)
    ensures step != Insert ==> i > 0
    ensures step != Omit ==> j > 0
  {
    if i > 0 && j > 0 && MinCost(jd, targets, tokens, i, j)
       == MinCost(jd, targets, tokens, i - 1, j - 1) + MatchCost(jd, targets[i - 1], tokens[j - 1]) then Read
    else if j > 0 && MinCost(jd, targets, tokens, i, j)
            == MinCost(jd, targets, tokens, i, j - 1)
              + InsertionCost(jd, tokens[j - 1], Preceding(targets, i)) then Insert
    else Omit
  }

  function Traceback(jd: Judge, targets: seq<Token>, tokens: seq<Token>, i: nat, j: nat): seq<Step>
    requires i <= |targets| && j <= |tokens|
    decreases i + j
  {
    if i == 0 && j == 0 then []
    else
      var step := Chosen(jd, targets, tokens, i, j);
      Traceback(jd, targets, tokens, if step == Insert then i else i - 1, if step == Omit then j else j - 1) + [step]
  }

  function ReadResult(jd: Judge, target: Token, heard: Token): WordResult {
    var cost := MatchCost(jd, target, heard);
    WordResult(target, Some(heard),
               if cost == COST_MATCH then Correct else if cost == COST_CLOSE then Close else Substituted,
               if cost == COST_MATCH then 0 else jd.aksharaDistance(target, heard),
               jd.teachable(target))
  }

  function OmittedResult(jd: Judge, target: Token): WordResult {
    WordResult(target, None, Omitted, jd.aksharaLength(jd.normalize(target)), jd.teachable(target))
  }

  /** The verdict an alignment gives each of the first i targets. */
  ghost function Verdicts(jd: Judge, targets: seq<Token>, tokens: seq<Token>, steps: seq<Step>, i: nat,
                          j: nat): (r: seq<WordResult>)
    requires i <= |targets| && j <= |tokens| && Aligns(steps, i, j)
    ensures |r| == i
    decreases |steps|
  {
    if steps == [] then []
    else
      var before := steps[..|steps| - 1];
      match steps[|steps| - 1]
      case Read => Verdicts(jd, targets, tokens, before, i - 1, j - 1) + [ReadResult(jd, targets[i - 1], tokens[j - 1])]
      case Insert => Verdicts(jd, targets, tokens, before, i, j - 1)
      case Omit => Verdicts(jd, targets, tokens, before, i - 1, j) + [OmittedResult(jd, targets[i - 1])]
  }

  /** One traceback step lowers the matrix entry by exactly the cost of that step. */
  lemma ChosenPaysItsCost(jd: Judge, targets: seq<Token>, tokens: seq<Token>, i: nat, j: nat)
    requires i <= |targets| && j <= |tokens| && (i > 0 || j > 0)
    ensures var step := Chosen(jd, targets, tokens, i, j);
            MinCost(jd, targets, tokens, i, j)
            == MinCost(jd, targets, tokens, if step == Insert then i else i - 1, if step == Omit then j else j - 1)
               + StepCost(jd, targets, tokens, step, i, j)
  {
  }

  /** The traceback reaches (0, 0), and its steps cost exactly the matrix entry it started from. */
  lemma {:induction false} TracebackIsOptimal(jd: Judge, targets: seq<Token>, tokens: seq<Token>, i: nat, j: nat)
    requires i <= |targets| && j <= |tokens|
    ensures Aligns(Traceback(jd, targets, tokens, i, j), i, j)
    ensures AlignmentCost(jd, targets, tokens, Traceback(jd, targets, tokens, i, j), i, j)
            == MinCost(jd, targets, tokens, i, j)
    decreases i + j
  {
    var steps := Traceback(jd, targets, tokens, i, j);
    if i > 0 || j > 0 {
      var step := Chosen(jd, targets, tokens, i, j);
      var i', j' := if step == Insert then i else i - 1, if step == Omit then j else j - 1;
      var before := Traceback(jd, targets, tokens, i', j');
      TracebackIsOptimal(jd, targets, tokens, i', j');
      ChosenPaysItsCost(jd, targets, tokens, i, j);
      LastStep(jd, targets, tokens, before, step, i, j);
      assert steps == before + [step];
    }
  }

  /** What a final step adds to an alignment. */
  lemma LastStep(jd: Judge, targets: seq<Token>, tokens: seq<Token>, before: seq<Step>, step: Step, i: nat, j: nat)
    requires i <= |targets| && j <= |tokens|
    requires step != Insert ==> i > 0
    requires step != Omit ==> j > 0
    requires Aligns(before, if step == Insert then i else i - 1, if step == Omit then j else j - 1)
    ensures Aligns(before + [step], i, j)
    ensures AlignmentCost(jd, targets, tokens, before + [step], i, j)
         == AlignmentCost(jd, targets, tokens, before, if step == Insert then i else i - 1, if step == Omit then j
                                                                                            else j - 1)
            + StepCost(jd, targets, tokens, step, i, j)
    ensures Verdicts(jd, targets, tokens, before + [step], i, j)
         == Verdicts(jd, targets, tokens, before, if step == Insert then i else i - 1, if step == Omit then j
                                                                                       else j - 1)
            + (match step case Read => [ReadResult(jd, targets[i - 1], tokens[j - 1])]
                          case Insert => [] case Omit => [OmittedResult(jd, targets[i - 1])])
  {
    assert (before + [step])[..|before|] == before;
  }

  /** No monotone alignment is cheaper than the matrix entry. */
  lemma {:induction false} MinCostIsLeast(jd: Judge, targets: seq<Token>, tokens: seq<Token>, steps: seq<Step>, i: nat,
                                          j: nat)
    requires i <= |targets| && j <= |tokens| && Aligns(steps, i, j)
    ensures MinCost(jd, targets, tokens, i, j) <= AlignmentCost(jd, targets, tokens, steps, i, j)
    decreases |steps|
  {
    if steps != [] {
      var step := steps[|steps| - 1];
      MinCostIsLeast(jd, targets, tokens, steps[..|steps| - 1],
                     if step == Insert then i else i - 1, if step == Omit then j else j - 1);
    }
  }

  function Priority(step: Step): nat {
    match step case Read => 0 case Insert => 1 case Omit => 2
  }

  /** Compared from the last step backwards, s takes the better-ranked step where the two first differ. */
  ghost predicate Preferred(s: seq<Step>, t: seq<Step>) {
    s == t ||
    (s != [] && t != [] &&
     (Priority(s[|s| - 1]) < Priority(t[|t| - 1]) ||
      (s[|s| - 1] == t[|t| - 1] && Preferred(s[..|s| - 1], t[..|t| - 1]))))
  }

  /** Of the steps that lead to the entry at its least cost, the best-ranked one is chosen. */
  lemma ChosenIsBestRanked(jd: Judge, targets: seq<Token>, tokens: seq<Token>, step: Step, i: nat, j: nat)
    requires i <= |targets| && j <= |tokens|
    requires step != Insert ==> i > 0
    requires step != Omit ==> j > 0
    requires MinCost(jd, targets, tokens, i, j)
             == MinCost(jd, targets, tokens, if step == Insert then i else i - 1, if step == Omit then j else j - 1)
                + StepCost(jd, targets, tokens, step, i, j)
    ensures Priority(Chosen(jd, targets, tokens, i, j)) <= Priority(step)
  {
    hide MinCost, MatchCost, InsertionCost;
  }

  /** The tie-break, independently of how it is computed: of all the cheapest alignments
      the traceback is the one that prefers match over insert over omit from the end. */
  lemma {:induction false} TracebackIsPreferred(jd: Judge, targets: seq<Token>, tokens: seq<Token>, steps: seq<Step>,
                                                i: nat, j: nat)
    requires i <= |targets| && j <= |tokens| && Aligns(steps, i, j)
    requires AlignmentCost(jd, targets, tokens, steps, i, j) == MinCost(jd, targets, tokens, i, j)
    ensures Preferred(Traceback(jd, targets, tokens, i, j), steps)
    decreases |steps|
  {
    if steps != [] {
      var step, before := steps[|steps| - 1], steps[..|steps| - 1];
      var i', j' := if step == Insert then i else i - 1, if step == Omit then j else j - 1;
      CheapestBefore(jd, targets, tokens, steps, i, j);
      LastTraced(jd, targets, tokens, i, j);
      hide MinCost, StepCost, AlignmentCost, Chosen, Traceback;
      if step == Chosen(jd, targets, tokens, i, j) { TracebackIsPreferred(jd, targets, tokens, before, i', j'); }
    } else {
      hide AlignmentCost, MinCost, Chosen;
    }
  }

  /** A cheapest alignment is a cheapest one plus a step the entry allows, ranked no better than the chosen one. */
  lemma CheapestBefore(jd: Judge, targets: seq<Token>, tokens: seq<Token>, steps: seq<Step>, i: nat, j: nat)
    requires i <= |targets| && j <= |tokens| && Aligns(steps, i, j) && steps != []
    requires AlignmentCost(jd, targets, tokens, steps, i, j) == MinCost(jd, targets, tokens, i, j)
    ensures var step, before := steps[|steps| - 1], steps[..|steps| - 1];
            var i', j' := if step == Insert then i else i - 1, if step == Omit then j else j - 1;
            && i' >= 0 && j' >= 0 && Aligns(before, i', j')
            && AlignmentCost(jd, targets, tokens, before, i', j') == MinCost(jd, targets, tokens, i', j')
            && Priority(Chosen(jd, targets, tokens, i, j)) <= Priority(step)
  {
    var step, before := steps[|steps| - 1], steps[..|steps| - 1];
    var i', j' := if step == Insert then i else i - 1, if step == Omit then j else j - 1;
    hide MinCost, MatchCost, InsertionCost, Chosen;
    MinCostIsLeast(jd, targets, tokens, before, i', j');
    LastStepIsNeeded(jd, targets, tokens, step, i, j);
    ChosenIsBestRanked(jd, targets, tokens, step, i, j);
  }

  lemma LastTraced(jd: Judge, targets: seq<Token>, tokens: seq<Token>, i: nat, j: nat)
    requires i <= |targets| && j <= |tokens| && (i > 0 || j > 0)
    ensures var trace, step := Traceback(jd, targets, tokens, i, j), Chosen(jd, targets, tokens, i, j);
            && trace != [] && trace[|trace| - 1] == step
            && trace[..|trace| - 1] == Traceback(jd, targets, tokens, if step == Insert then i else i - 1,
                                                 if step == Omit then j else j - 1)
  {
    hide Chosen, MinCost;
  }

  /** An entry costs at most what any step into it costs. */
  lemma LastStepIsNeeded(jd: Judge, targets: seq<Token>, tokens: seq<Token>, step: Step, i: nat, j: nat)
    requires i <= |targets| && j <= |tokens|
    requires step != Insert ==> i > 0
    requires step != Omit ==> j > 0
    ensures MinCost(jd, targets, tokens, i, j)
            <= MinCost(jd, targets, tokens, if step == Insert then i else i - 1, if step == Omit then j else j - 1)
               + StepCost(jd, targets, tokens, step, i, j)
  {
    MinCostStep(jd, targets, tokens, i, j);
    hide MinCost, MatchCost, InsertionCost;
  }

  /** w holds the least cost of every prefix pair. */
  ghost predicate IsMatrix(jd: Judge, targets: seq<Token>, tokens: seq<Token>, w: seq<seq<nat>>) {
    && |w| == |targets| + 1
    && (forall i :: 0 <= i < |w| ==> |w[i]| == |tokens| + 1)
    && (forall i, j {:trigger MinCost(jd, targets, tokens, i, j)} ::
          0 <= i <= |targets| && 0 <= j <= |tokens| ==> w[i][j] == MinCost(jd, targets, tokens, i, j))
  }

  lemma MatrixExists(jd: Judge, targets: seq<Token>, tokens: seq<Token>) returns (w: seq<seq<nat>>)
    ensures IsMatrix(jd, targets, tokens, w)
  {
    w := seq(|targets| + 1, i requires 0 <= i <= |targets| =>
           seq(|tokens| + 1, j requires 0 <= j <= |tokens| => MinCost(jd, targets, tokens, i, j)));
  }

  /** The entry the inner loop computes at (i, j), from the three entries it reads. */
  ghost function Entry(jd: Judge, targets: seq<Token>, tokens: seq<Token>, w: seq<seq<nat>>, i: nat, j: nat): nat
    requires |w| == |targets| + 1 && forall k :: 0 <= k < |w| ==> |w[k]| == |tokens| + 1
    requires 1 <= i <= |targets| && 1 <= j <= |tokens|
  {
    Min(Min(w[i - 1][j - 1] + MatchCost(jd, targets[i - 1], tokens[j - 1]),
            w[i][j - 1] + InsertionCost(jd, tokens[j - 1], Some(targets[i - 1]))),
        w[i - 1][j] + COST_GAP)
  }

  lemma MatrixEntry(jd: Judge, targets: seq<Token>, tokens: seq<Token>, w: seq<seq<nat>>, i: nat, j: nat)
    requires IsMatrix(jd, targets, tokens, w)
    requires 1 <= i <= |targets| && 1 <= j <= |tokens|
    ensures w[i][j] == Entry(jd, targets, tokens, w, i, j)
  {
    assert w[i][j] == MinCost(jd, targets, tokens, i, j);
  }

  lemma MatrixBorder(jd: Judge, targets: seq<Token>, tokens: seq<Token>, w: seq<seq<nat>>)
    requires IsMatrix(jd, targets, tokens, w)
    ensures w[0][0] == 0
    ensures forall i :: 1 <= i <= |targets| ==> w[i][0] == w[i - 1][0] + COST_GAP
    ensures forall j :: 1 <= j <= |tokens| ==> w[0][j] == w[0][j - 1] + InsertionCost(jd, tokens[j - 1], None)
  {
    assert MinCost(jd, targets, tokens, 0, 0) == 0;
    forall i | 1 <= i <= |targets| ensures w[i][0] == w[i - 1][0] + COST_GAP {
      assert w[i][0] == MinCost(jd, targets, tokens, i, 0);
    }
    forall j | 1 <= j <= |tokens| ensures w[0][j] == w[0][j - 1] + InsertionCost(jd, tokens[j - 1], None) {
      assert w[0][j] == MinCost(jd, targets, tokens, 0, j);
    }
  }

  ghost predicate RowsFilled(dp: array2<nat>, w: seq<seq<nat>>, rows: nat)
    requires dp.Length0 == |w| && rows <= |w| && forall k :: 0 <= k < |w| ==> |w[k]| == dp.Length1
    reads dp
  {
    forall k, l :: 0 <= k < rows && 0 <= l < dp.Length1 ==> dp[k, l] == w[k][l]
  }

  ghost predicate ColumnFilled(dp: array2<nat>, w: seq<seq<nat>>)
    requires dp.Length0 == |w| && dp.Length1 > 0 && forall k :: 0 <= k < |w| ==> |w[k]| == dp.Length1
    reads dp
  {
    forall k :: 0 <= k < |w| ==> dp[k, 0] == w[k][0]
  }

  /** Fills the matrix in the source's order: first column, first row, then row by row. */
  method FillMatrix(jd: Judge, targets: seq<Token>, tokens: seq<Token>)
    returns (dp: array2<nat>, ghost w: seq<seq<nat>>)
    ensures fresh(dp) && dp.Length0 == |targets| + 1 && dp.Length1 == |tokens| + 1
    ensures IsMatrix(jd, targets, tokens, w) && RowsFilled(dp, w, |targets| + 1)
  {
    var n, m := |targets|, |tokens|;
    w := MatrixExists(jd, targets, tokens);
    MatrixBorder(jd, targets, tokens, w);
    dp := new nat[n + 1, m + 1]((_, _) => 0);
    for i := 1 to n + 1
      invariant forall k :: 0 <= k < i ==> dp[k, 0] == w[k][0]
      invariant dp[0, 0] == 0
    {
      dp[i, 0] := dp[i - 1, 0] + COST_GAP;
    }
    for j := 1 to m + 1
      invariant ColumnFilled(dp, w)
      invariant forall k :: 0 <= k < j ==> dp[0, k] == w[0][k]
    {
      dp[0, j] := dp[0, j - 1] + InsertionCost(jd, tokens[j - 1], None);
    }
    for i := 1 to n + 1
      invariant ColumnFilled(dp, w)
      invariant RowsFilled(dp, w, i)
    {
      forall j | 1 <= j <= m ensures w[i][j] == Entry(jd, targets, tokens, w, i, j) {
        MatrixEntry(jd, targets, tokens, w, i, j);
      }
      FillRow(jd, targets, tokens, dp, i, w);
    }
  }

  method FillRow(jd: Judge, targets: seq<Token>, tokens: seq<Token>, dp: array2<nat>, i: nat, ghost w: seq<seq<nat>>)
    requires |w| == |targets| + 1 && forall k :: 0 <= k < |w| ==> |w[k]| == |tokens| + 1
    requires 1 <= i <= |targets| && dp.Length0 == |targets| + 1 && dp.Length1 == |tokens| + 1
    requires forall j {:trigger w[i][j]} :: 1 <= j <= |tokens| ==> w[i][j] == Entry(jd, targets, tokens, w, i, j)
    requires ColumnFilled(dp, w) && RowsFilled(dp, w, i)
    modifies dp
    ensures ColumnFilled(dp, w) && RowsFilled(dp, w, i + 1)
  {
    for j := 1 to |tokens| + 1
      invariant ColumnFilled(dp, w)
      invariant RowsFilled(dp, w, i)
      invariant forall l :: 0 <= l < j ==> dp[i, l] == w[i][l]
    {
      assert w[i][j] == Entry(jd, targets, tokens, w, i, j);
      dp[i, j] := Min(Min(dp[i - 1, j - 1] + MatchCost(jd, targets[i - 1], tokens[j - 1]),
                          dp[i, j - 1] + InsertionCost(jd, tokens[j - 1], Some(targets[i - 1]))),
                      dp[i - 1, j] + COST_GAP);
    }
  }

  /** The verdicts the traceback writes for the first i targets, starting at (i, j). */
  ghost function Traced(jd: Judge, targets: seq<Token>, tokens: seq<Token>, i: nat, j: nat): (r: seq<WordResult>)
    requires i <= |targets| && j <= |tokens|
    ensures |r| == i
    decreases i + j
  {
    if i == 0 && j == 0 then []
    else
      match Chosen(jd, targets, tokens, i, j)
      case Read => Traced(jd, targets, tokens, i - 1, j - 1) + [ReadResult(jd, targets[i - 1], tokens[j - 1])]
      case Insert => Traced(jd, targets, tokens, i, j - 1)
      case Omit => Traced(jd, targets, tokens, i - 1, j) + [OmittedResult(jd, targets[i - 1])]
  }

  /** ... which are the verdicts of the optimal alignment the traceback follows. */
  lemma {:induction false} TracedIsVerdicts(jd: Judge, targets: seq<Token>, tokens: seq<Token>, i: nat, j: nat)
    requires i <= |targets| && j <= |tokens|
    ensures Aligns(Traceback(jd, targets, tokens, i, j), i, j)
    ensures Traced(jd, targets, tokens, i, j)
            == Verdicts(jd, targets, tokens, Traceback(jd, targets, tokens, i, j), i, j)
    decreases i + j
  {
    if i > 0 || j > 0 {
      var step := Chosen(jd, targets, tokens, i, j);
      var i', j' := if step == Insert then i else i - 1, if step == Omit then j else j - 1;
      TracedIsVerdicts(jd, targets, tokens, i', j');
      LastStep(jd, targets, tokens, Traceback(jd, targets, tokens, i', j'), step, i, j);
    }
  }

  /** The tie-break, decided on matrix entries. */
  method ChooseStep(jd: Judge, targets: seq<Token>, tokens: seq<Token>, dp: array2<nat>, ghost w: seq<seq<nat>>, i: nat,
                    j: nat)
    returns (step: Step)
    requires i <= |targets| && j <= |tokens| && (i > 0 || j > 0)
    requires dp.Length0 == |targets| + 1 && dp.Length1 == |tokens| + 1
    requires IsMatrix(jd, targets, tokens, w) && RowsFilled(dp, w, |targets| + 1)
    ensures step == Chosen(jd, targets, tokens, i, j)
  {
    assert w[i][j] == MinCost(jd, targets, tokens, i, j);
    if i > 0 && j > 0 && dp[i, j] == dp[i - 1, j - 1] + MatchCost(jd, targets[i - 1], tokens[j - 1]) {
      assert w[i - 1][j - 1] == MinCost(jd, targets, tokens, i - 1, j - 1);
      step := Read;
    } else if j > 0
      && dp[i, j] == dp[i, j - 1] + InsertionCost(jd, tokens[j - 1], if i > 0 then Some(targets[i - 1]) else None) {
      assert w[i][j - 1] == MinCost(jd, targets, tokens, i, j - 1);
      step := Insert;
    } else {
      step := Omit;
    }
  }

  /** One turn of the traceback loop: it writes at most one slot, the last one not yet written. */
  method TraceOne(jd: Judge, targets: seq<Token>, tokens: seq<Token>, dp: array2<nat>, ghost w: seq<seq<nat>>,
                  results: array<WordResult>, i: nat, j: nat)
    returns (i': nat, j': nat)
    requires i <= |targets| && j <= |tokens| && (i > 0 || j > 0)
    requires dp.Length0 == |targets| + 1 && dp.Length1 == |tokens| + 1 && results.Length == |targets|
    requires IsMatrix(jd, targets, tokens, w) && RowsFilled(dp, w, |targets| + 1)
    modifies results
    ensures i - 1 <= i' <= i && j' <= j && i' + j' < i + j
    ensures Traced(jd, targets, tokens, i, j) == Traced(jd, targets, tokens, i', j') + results[..][i'..i]
    ensures results[..][..i'] == old(results[..])[..i'] && results[..][i..] == old(results[..])[i..]
  {
    hide IsMatrix, RowsFilled, MinCost, Chosen;
    var step := ChooseStep(jd, targets, tokens, dp, w, i, j);
    match step
    case Read =>
      results[i - 1] := ReadResult(jd, targets[i - 1], tokens[j - 1]);
      i', j' := i - 1, j - 1;
    case Insert =>
      i', j' := i, j - 1;
    case Omit =>
      results[i - 1] := OmittedResult(jd, targets[i - 1]);
      i', j' := i - 1, j;
  }

  lemma JoinParts(head: seq<WordResult>, s: seq<WordResult>, i': nat, i: nat)
    requires i' <= i <= |s|
    ensures head + s[i'..i] + s[i..] == head + s[i'..]
  {
  }

  method TraceBackInto(jd: Judge, targets: seq<Token>, tokens: seq<Token>, dp: array2<nat>, ghost w: seq<seq<nat>>,
                       results: array<WordResult>)
    requires dp.Length0 == |targets| + 1 && dp.Length1 == |tokens| + 1 && results.Length == |targets|
    requires IsMatrix(jd, targets, tokens, w) && RowsFilled(dp, w, |targets| + 1)
    modifies results
    ensures results[..] == Traced(jd, targets, tokens, |targets|, |tokens|)
  {
    hide IsMatrix, RowsFilled, Traced, Chosen, MinCost;
    ghost var verdicts := Traced(jd, targets, tokens, |targets|, |tokens|);
    var i, j := |targets|, |tokens|;
    while i > 0 || j > 0
      invariant 0 <= i <= |targets| && 0 <= j <= |tokens|
      invariant verdicts == Traced(jd, targets, tokens, i, j) + results[..][i..]
      decreases i + j
    {
      var i', j' := TraceOne(jd, targets, tokens, dp, w, results, i, j);
      JoinParts(Traced(jd, targets, tokens, i', j'), results[..], i', i);
      i, j := i', j';
    }
  }

  /** One transcript aligned: the verdicts of the optimal, tie-broken alignment, with
      adjacent swaps then marked. */
  method AlignTranscript(jd: Judge, targets: seq<Token>, tokens: seq<Token>) returns (results: array<WordResult>)
    ensures fresh(results)
    ensures results[..] == Alignment(jd, targets, tokens)
  {
    var dp, w := FillMatrix(jd, targets, tokens);
    results := new WordResult[|targets|];
    TraceBackInto(jd, targets, tokens, dp, w, results);
    MarkTranspositions(jd, targets, results);
  }

  /** The words' verdicts for one transcript, as the source's alignTranscript returns them. */
  ghost function Alignment(jd: Judge, targets: seq<Token>, tokens: seq<Token>): (r: seq<WordResult>)
    ensures |r| == |targets|
  {
    MarkSwaps(jd, targets, Traced(jd, targets, tokens, |targets|, |tokens|), 0)
  }

  // ---------------------------------------------------------------------------
  // What the verdicts mean
  // ---------------------------------------------------------------------------

  /** The token passes for the target. */
  predicate Passes(jd: Judge, target: Token, token: Token) {
    jd.normalize(target) == jd.normalize(token) || jd.markWord(target, token)
  }

  /** A verdict before marking: correct when the token passes, close at distance one or less, substituted beyond;
      omitted, at the length of the word, when nothing was heard. */
  lemma {:induction false} VerdictsFollowTheJudge(jd: Judge, targets: seq<Token>, tokens: seq<Token>, i: nat, j: nat,
                                                  k: nat)
    requires i <= |targets| && j <= |tokens| && k < i
    ensures var v := Traced(jd, targets, tokens, i, j)[k];
            && v.target == targets[k] && v.teachable == jd.teachable(targets[k])
            && match v.heard
               case None => v.status == Omitted && v.aksharaDistance == jd.aksharaLength(jd.normalize(targets[k]))
               case Some(token) =>
                 if Passes(jd, targets[k], token) then v.status == Correct && v.aksharaDistance == 0
                 else
                   && v.aksharaDistance == jd.aksharaDistance(targets[k], token)
                   && v.status == (if v.aksharaDistance <= 1 then Close else Substituted)
    decreases i + j
  {
    hide MinCost;
    var step := Chosen(jd, targets, tokens, i, j);
    if step == Insert || k < i - 1 {
      VerdictsFollowTheJudge(jd, targets, tokens, if step == Insert then i else i - 1,
        if step == Omit then j else j - 1, k);
    }
  }

  /** The heard tokens are taken from the transcript in its order, none twice. */
  lemma {:induction false} WordsAreHeardInOrder(jd: Judge, targets: seq<Token>, tokens: seq<Token>, i: nat, j: nat)
    returns (at: seq<nat>)
    requires i <= |targets| && j <= |tokens|
    ensures |at| == i
    ensures var v := Traced(jd, targets, tokens, i, j);
            && (forall k :: 0 <= k < i && v[k].heard.Some? ==> at[k] < j && v[k].heard.value == tokens[at[k]])
            && (forall k, l :: 0 <= k < l < i && v[k].heard.Some? && v[l].heard.Some? ==> at[k] < at[l])
    decreases i + j
  {
    hide MinCost, MatchCost;
    if i == 0 && j == 0 {
      at := [];
    } else {
      var step := Chosen(jd, targets, tokens, i, j);
      at := WordsAreHeardInOrder(jd, targets, tokens, if step == Insert then i else i - 1,
        if step == Omit then j else j - 1);
      if step != Insert { at := at + [if step == Read then j - 1 else 0]; }
    }
  }

  function Count(ws: seq<WordResult>, status: Status): nat {
    if ws == [] then 0 else Count(ws[..|ws| - 1], status) + (if ws[|ws| - 1].status == status then 1 else 0)
  }

  /** The inserted tokens of an alignment that are neither fillers nor repeats of the word before them. */
  ghost function PaidInsertions(jd: Judge, targets: seq<Token>, tokens: seq<Token>, steps: seq<Step>, i: nat,
                                j: nat): nat
    requires i <= |targets| && j <= |tokens| && Aligns(steps, i, j)
    decreases |steps|
  {
    if steps == [] then 0
    else
      var before := steps[..|steps| - 1];
      match steps[|steps| - 1]
      case Read => PaidInsertions(jd, targets, tokens, before, i - 1, j - 1)
      case Omit => PaidInsertions(jd, targets, tokens, before, i - 1, j)
      case Insert =>
        PaidInsertions(jd, targets, tokens, before, i, j - 1)
          + (if jd.normalize(tokens[j - 1]) in jd.disfluencies then 0
             else if i > 0 && Passes(jd, targets[i - 1], tokens[j - 1]) then 0
             else 1)
  }

  /** What an alignment costs, in halves: two for each word substituted or omitted and each inserted token that is
      not free, one for each close word. */
  lemma {:induction false} CostCountsTheVerdicts(jd: Judge, targets: seq<Token>, tokens: seq<Token>, steps: seq<Step>,
                                                 i: nat, j: nat)
    requires i <= |targets| && j <= |tokens| && Aligns(steps, i, j)
    ensures var v := Verdicts(jd, targets, tokens, steps, i, j);
            AlignmentCost(jd, targets, tokens, steps, i, j)
            == 2 * Count(v, Substituted) + 2 * Count(v, Omitted) + Count(v, Close)
               + 2 * PaidInsertions(jd, targets, tokens, steps, i, j)
    decreases |steps|
  {
    if steps != [] {
      var step, before := steps[|steps| - 1], steps[..|steps| - 1];
      var i', j' := if step == Insert then i else i - 1, if step == Omit then j else j - 1;
      CostCountsTheVerdicts(jd, targets, tokens, before, i', j');
      assert before + [step] == steps;
      LastStep(jd, targets, tokens, before, step, i, j);
      var v := Verdicts(jd, targets, tokens, before, i', j');
      StepCostCounts(jd, targets, tokens, before, step, i, j, v);
      hide *;
    }
  }

  /** What the last step adds to the cost and to the counts. */
  lemma StepCostCounts(jd: Judge, targets: seq<Token>, tokens: seq<Token>, before: seq<Step>, step: Step, i: nat,
                       j: nat, v: seq<WordResult>)
    requires i <= |targets| && j <= |tokens|
    requires step != Insert ==> i > 0
    requires step != Omit ==> j > 0
    requires Aligns(before, if step == Insert then i else i - 1, if step == Omit then j else j - 1)
    requires Aligns(before + [step], i, j)
    ensures var last := match step case Read => [ReadResult(jd, targets[i - 1], tokens[j - 1])]
                                   case Insert => [] case Omit => [OmittedResult(jd, targets[i - 1])];
            StepCost(jd, targets, tokens, step, i, j)
            == 2 * (Count(v + last, Substituted) - Count(v, Substituted))
               + 2 * (Count(v + last, Omitted) - Count(v, Omitted)) + (Count(v + last, Close) - Count(v, Close))
               + 2 * (PaidInsertions(jd, targets, tokens, before + [step], i, j)
                      - PaidInsertions(jd, targets, tokens, before, if step == Insert then i else i - 1,
                          if step == Omit then j else j - 1))
  {
    hide AlignmentCost, Verdicts;
    assert (before + [step])[..|before|] == before;
    match step
    case Read => OneMoreCounted(v, ReadResult(jd, targets[i - 1], tokens[j - 1])); hide Count;
    case Omit => OneMoreCounted(v, OmittedResult(jd, targets[i - 1])); hide Count;
    case Insert => assert v + [] == v; hide Count;
  }

  lemma OneMoreCounted(ws: seq<WordResult>, w: WordResult)
    ensures forall status :: Count(ws + [w], status) == Count(ws, status) + (if w.status == status then 1 else 0)
  {
    assert (ws + [w])[..|ws|] == ws;
  }

  // ---------------------------------------------------------------------------
  // Transpositions
  // ---------------------------------------------------------------------------

  predicate Misread(w: WordResult) { w.status == Substituted || w.status == Close }

  predicate IsSwap(jd: Judge, targets: seq<Token>, rs: seq<WordResult>, i: nat)
    requires |rs| == |targets| && i + 1 < |rs|
  {
    var a, b := rs[i], rs[i + 1];
    Misread(a) && Misread(b) && a.heard.Some? && b.heard.Some? &&
    MatchCost(jd, targets[i], b.heard.value) == COST_MATCH &&
    MatchCost(jd, targets[i + 1], a.heard.value) == COST_MATCH
  }

  function Swapped(w: WordResult): WordResult { w.(status := Transposed, aksharaDistance := 0) }

  function MarkSwaps(jd: Judge, targets: seq<Token>, rs: seq<WordResult>, i: nat): (r: seq<WordResult>)
    requires |rs| == |targets|
    ensures |r| == |rs|
    decreases |rs| - i
  {
    if i + 1 >= |rs| then rs
    else if IsSwap(jd, targets, rs, i) then
      MarkSwaps(jd, targets, rs[i := Swapped(rs[i])][i + 1 := Swapped(rs[i + 1])], i + 2)
    else MarkSwaps(jd, targets, rs, i + 1)
  }

  method MarkTranspositions(jd: Judge, targets: seq<Token>, results: array<WordResult>)
    requires results.Length == |targets|
    modifies results
    ensures results[..] == MarkSwaps(jd, targets, old(results[..]), 0)
  {
    var i := 0;
    while i + 1 < results.Length
      invariant 0 <= i
      invariant MarkSwaps(jd, targets, results[..], i) == MarkSwaps(jd, targets, old(results[..]), 0)
    {
      var a, b := results[i], results[i + 1];
      ghost var before := results[..];
      if (a.status == Substituted || a.status == Close) && (b.status == Substituted || b.status == Close) &&
         a.heard != None && b.heard != None &&
         MatchCost(jd, targets[i], b.heard.value) == COST_MATCH &&
         MatchCost(jd, targets[i + 1], a.heard.value) == COST_MATCH
      {
        results[i] := a.(status := Transposed, aksharaDistance := 0);
        results[i + 1] := b.(status := Transposed, aksharaDistance := 0);
        assert results[..] == before[i := Swapped(a)][i + 1 := Swapped(b)];
        i := i + 1;
      }
      i := i + 1;
    }
  }

  /** The marking pass read from the front of what is left to scan. */
  function Swept(jd: Judge, targets: seq<Token>, rs: seq<WordResult>): (r: seq<WordResult>)
    requires |rs| == |targets|
    ensures |r| == |rs|
  {
    if |rs| < 2 then rs
    else if IsSwap(jd, targets, rs, 0) then
      [Swapped(rs[0]), Swapped(rs[1])] + Swept(jd, targets[2..], rs[2..])
    else [rs[0]] + Swept(jd, targets[1..], rs[1..])
  }

  lemma {:induction false} MarkSwapsIsSwept(jd: Judge, targets: seq<Token>, rs: seq<WordResult>, i: nat)
    requires |rs| == |targets| && i <= |rs|
    ensures MarkSwaps(jd, targets, rs, i) == rs[..i] + Swept(jd, targets[i..], rs[i..])
    decreases |rs| - i
  {
    hide MarkSwaps, IsSwap, Swept;
    if i + 1 >= |rs| {
      NothingToSwap(jd, targets, rs, i);
    } else {
      MarkSwapsStep(jd, targets, rs, i);
      SweptFrom(jd, targets, rs, i);
      if IsSwap(jd, targets, rs, i) {
        var rs' := rs[i := Swapped(rs[i])][i + 1 := Swapped(rs[i + 1])];
        SwapSlices(jd, targets, rs, i);
        MarkSwapsIsSwept(jd, targets, rs', i + 2);
        Regroup(rs[..i], [Swapped(rs[i]), Swapped(rs[i + 1])], Swept(jd, targets[i + 2..], rs[i + 2..]));
      } else {
        NoSwapSlices(jd, targets, rs, i);
        MarkSwapsIsSwept(jd, targets, rs, i + 1);
        Regroup(rs[..i], [rs[i]], Swept(jd, targets[i + 1..], rs[i + 1..]));
      }
    }
  }

  lemma Regroup(a: seq<WordResult>, b: seq<WordResult>, c: seq<WordResult>)
    ensures a + b + c == a + (b + c)
  {
  }

  lemma NothingToSwap(jd: Judge, targets: seq<Token>, rs: seq<WordResult>, i: nat)
    requires |rs| == |targets| && i <= |rs| <= i + 1
    ensures MarkSwaps(jd, targets, rs, i) == rs[..i] + Swept(jd, targets[i..], rs[i..])
  {
    assert rs == rs[..i] + rs[i..];
  }

  lemma SwapSlices(jd: Judge, targets: seq<Token>, rs: seq<WordResult>, i: nat)
    requires |rs| == |targets| && i + 1 < |rs|
    ensures var rs' := rs[i := Swapped(rs[i])][i + 1 := Swapped(rs[i + 1])];
            && rs'[..i + 2] == rs[..i] + [Swapped(rs[i]), Swapped(rs[i + 1])] && rs'[i + 2..] == rs[i + 2..]
  {
  }

  lemma NoSwapSlices(jd: Judge, targets: seq<Token>, rs: seq<WordResult>, i: nat)
    requires |rs| == |targets| && i + 1 < |rs|
    ensures rs[..i + 1] == rs[..i] + [rs[i]]
  {
  }

  lemma MarkSwapsStep(jd: Judge, targets: seq<Token>, rs: seq<WordResult>, i: nat)
    requires |rs| == |targets| && i + 1 < |rs|
    ensures MarkSwaps(jd, targets, rs, i)
         == if IsSwap(jd, targets, rs, i) then
              MarkSwaps(jd, targets, rs[i := Swapped(rs[i])][i + 1 := Swapped(rs[i + 1])], i + 2)
            else MarkSwaps(jd, targets, rs, i + 1)
  {
    hide IsSwap;
  }

  /** The sweep of a suffix, taken one step. */
  lemma SweptFrom(jd: Judge, targets: seq<Token>, rs: seq<WordResult>, i: nat)
    requires |rs| == |targets| && i + 1 < |rs|
    ensures Swept(jd, targets[i..], rs[i..])
         == if IsSwap(jd, targets, rs, i) then
              [Swapped(rs[i]), Swapped(rs[i + 1])] + Swept(jd, targets[i + 2..], rs[i + 2..])
            else [rs[i]] + Swept(jd, targets[i + 1..], rs[i + 1..])
  {
    SweptStep(jd, targets[i..], rs[i..]);
    hide Swept;
    assert rs[i..][2..] == rs[i + 2..] && targets[i..][2..] == targets[i + 2..];
    assert rs[i..][1..] == rs[i + 1..] && targets[i..][1..] == targets[i + 1..];
    assert rs[i..][0] == rs[i] && rs[i..][1] == rs[i + 1];
    assert targets[i..][0] == targets[i] && targets[i..][1] == targets[i + 1];
  }

  lemma SweptStep(jd: Judge, targets: seq<Token>, rs: seq<WordResult>)
    requires |rs| == |targets| >= 2
    ensures Swept(jd, targets, rs) ==
            if IsSwap(jd, targets, rs, 0) then [Swapped(rs[0]), Swapped(rs[1])] + Swept(jd, targets[2..], rs[2..])
            else [rs[0]] + Swept(jd, targets[1..], rs[1..])
  {
  }

  /** The pass leaves every word alone or marks a misread one, .. */
  lemma {:induction false} SweptTouchesMisreadsOnly(jd: Judge, targets: seq<Token>, rs: seq<WordResult>, k: nat)
    requires |rs| == |targets| && k < |rs|
    ensures var w := Swept(jd, targets, rs)[k]; w == rs[k] || (Misread(rs[k]) && w == Swapped(rs[k]))
    decreases |rs|
  {
    if |rs| >= 2 {
      var step := if IsSwap(jd, targets, rs, 0) then 2 else 1;
      SweptStep(jd, targets, rs);
      hide Swept;
      if k >= step {
        SweptTouchesMisreadsOnly(jd, targets[step..], rs[step..], k - step);
      }
    }
  }

  /** .. and no swap is left unmarked. */
  lemma {:induction false} SweptMarksEverySwap(jd: Judge, targets: seq<Token>, rs: seq<WordResult>, k: nat)
    requires |rs| == |targets| && k + 1 < |rs|
    ensures !IsSwap(jd, targets, Swept(jd, targets, rs), k)
    decreases |rs|
  {
    var step := if IsSwap(jd, targets, rs, 0) then 2 else 1;
    SweptStep(jd, targets, rs);
    SweptTouchesMisreadsOnly(jd, targets, rs, k + 1);
    hide Swept;
    if k >= step {
      SweptMarksEverySwap(jd, targets[step..], rs[step..], k - step);
    }
  }

  /** A marked word stands next to another marked one, and each was heard where the other was expected. */
  lemma {:induction false} SweptMarksExchanges(jd: Judge, targets: seq<Token>, rs: seq<WordResult>, k: nat)
    returns (p: nat)
    requires |rs| == |targets| && k < |rs| && rs[k].status != Transposed
    ensures var w := Swept(jd, targets, rs);
            w[k].status == Transposed ==>
              && (p == k + 1 || p + 1 == k) && p < |rs| && w[p].status == Transposed
              && rs[k].heard.Some? && MatchCost(jd, targets[p], rs[k].heard.value) == COST_MATCH
              && rs[p].heard.Some? && MatchCost(jd, targets[k], rs[p].heard.value) == COST_MATCH
    decreases |rs|
  {
    p := k;
    if |rs| >= 2 {
      var swap := IsSwap(jd, targets, rs, 0);
      SweptStep(jd, targets, rs);
      hide Swept, MatchCost;
      if swap && k < 2 {
        p := 1 - k;
      } else if k > 0 {
        hide IsSwap;
        var step := if swap then 2 else 1;
        var rest := SweptMarksExchanges(jd, targets[step..], rs[step..], k - step);
        p := rest + step;
      }
    }
  }

  /** What is marked in one transcript: two neighbours that were both misread, each heard where the other was
      expected; everything else is as the cheapest alignment has it. */
  lemma TransposedMeansExchanged(jd: Judge, targets: seq<Token>, tokens: seq<Token>, k: nat)
    requires k < |targets|
    ensures var r, v := Alignment(jd, targets, tokens), Traced(jd, targets, tokens, |targets|, |tokens|);
            if r[k].status != Transposed then r[k] == v[k]
            else
              && (v[k].status == Substituted || v[k].status == Close)
              && r[k] == v[k].(status := Transposed, aksharaDistance := 0)
              && exists p: nat ::
                   && (p == k + 1 || p + 1 == k) && p < |targets| && r[p].status == Transposed
                   && r[k].heard.Some? && MatchCost(jd, targets[p], r[k].heard.value) == COST_MATCH
                   && r[p].heard.Some? && MatchCost(jd, targets[k], r[p].heard.value) == COST_MATCH
  {
    var n, m := |targets|, |tokens|;
    var v := Traced(jd, targets, tokens, n, m);
    NothingTracedIsTransposed(jd, targets, tokens, n, m, k);
    AlignmentIsSwept(jd, targets, tokens);
    var p := SweptMarksExchanges(jd, targets, v, k);
    SweptTouchesMisreadsOnly(jd, targets, v, k);
    if p < n { SweptTouchesMisreadsOnly(jd, targets, v, p); }
    hide Swept, Traced, MarkSwaps, Alignment, MatchCost;
  }

  /** No two neighbours that were each heard where the other was expected stay misread. */
  lemma NoExchangeIsLeft(jd: Judge, targets: seq<Token>, tokens: seq<Token>, k: nat)
    requires k + 1 < |targets|
    ensures var r := Alignment(jd, targets, tokens);
            (r[k].status == Substituted || r[k].status == Close)
              && (r[k + 1].status == Substituted || r[k + 1].status == Close)
              && r[k].heard.Some? && r[k + 1].heard.Some? ==>
              MatchCost(jd, targets[k], r[k + 1].heard.value) != COST_MATCH
                || MatchCost(jd, targets[k + 1], r[k].heard.value) != COST_MATCH
  {
    var v := Traced(jd, targets, tokens, |targets|, |tokens|);
    AlignmentIsSwept(jd, targets, tokens);
    SweptMarksEverySwap(jd, targets, v, k);
    hide Swept, Traced, MarkSwaps, Alignment, MatchCost;
  }

  lemma AlignmentIsSwept(jd: Judge, targets: seq<Token>, tokens: seq<Token>)
    ensures Alignment(jd, targets, tokens)
         == Swept(jd, targets, Traced(jd, targets, tokens, |targets|, |tokens|))
  {
    var v := Traced(jd, targets, tokens, |targets|, |tokens|);
    MarkSwapsIsSwept(jd, targets, v, 0);
    hide Swept, Traced, MarkSwaps;
    assert targets[0..] == targets && v[0..] == v;
  }

  lemma {:induction false} NothingTracedIsTransposed(jd: Judge, targets: seq<Token>, tokens: seq<Token>, i: nat,
                                                     j: nat, k: nat)
    requires i <= |targets| && j <= |tokens| && k < i
    ensures Traced(jd, targets, tokens, i, j)[k].status != Transposed
    decreases i + j
  {
    hide MinCost, MatchCost;
    var step := Chosen(jd, targets, tokens, i, j);
    if step == Insert || k < i - 1 {
      NothingTracedIsTransposed(jd, targets, tokens, if step == Insert then i else i - 1,
        if step == Omit then j else j - 1, k);
    }
  }

  // ---------------------------------------------------------------------------
  // Fluent readings
  // ---------------------------------------------------------------------------

  predicate AllCorrect(rs: seq<WordResult>) { forall k :: 0 <= k < |rs| ==> rs[k].status == Correct }

  lemma {:induction false} ZeroCostVerdicts(jd: Judge, targets: seq<Token>, tokens: seq<Token>, steps: seq<Step>,
                                            i: nat, j: nat)
    requires i <= |targets| && j <= |tokens| && Aligns(steps, i, j)
    requires AlignmentCost(jd, targets, tokens, steps, i, j) == 0
    ensures AllCorrect(Verdicts(jd, targets, tokens, steps, i, j))
    decreases |steps|
  {
    if steps != [] {
      var step := steps[|steps| - 1];
      ZeroCostVerdicts(jd, targets, tokens, steps[..|steps| - 1],
                       if step == Insert then i else i - 1, if step == Omit then j else j - 1);
    }
  }

  /** A transcript that costs nothing to align has every word marked correct, through the marking pass too. */
  lemma ZeroCostIsAllCorrect(jd: Judge, targets: seq<Token>, tokens: seq<Token>)
    requires MinCost(jd, targets, tokens, |targets|, |tokens|) == 0
    ensures AllCorrect(Alignment(jd, targets, tokens))
  {
    var n, m := |targets|, |tokens|;
    TracebackIsOptimal(jd, targets, tokens, n, m);
    TracedIsVerdicts(jd, targets, tokens, n, m);
    var rs := Traced(jd, targets, tokens, n, m);
    ZeroCostVerdicts(jd, targets, tokens, Traceback(jd, targets, tokens, n, m), n, m);
    MarkSwapsIsSwept(jd, targets, rs, 0);
    forall k | 0 <= k < n ensures Swept(jd, targets, rs)[k].status == Correct {
      SweptTouchesMisreadsOnly(jd, targets, rs, k);
    }
    assert targets[0..] == targets && rs[0..] == rs;
  }

  /** The tokens are the targets in order, with filler noises, or repeats of the target just read,
      inserted anywhere. */
  ghost predicate FluentReading(jd: Judge, targets: seq<Token>, tokens: seq<Token>)
    decreases |tokens|
  {
    if tokens == [] then targets == []
    else
      var token, spoken := tokens[|tokens| - 1], tokens[..|tokens| - 1];
      || (targets != [] && token == targets[|targets| - 1] && FluentReading(jd, targets[..|targets| - 1], spoken))
      || (jd.normalize(token) in jd.disfluencies && FluentReading(jd, targets, spoken))
      || (targets != [] && token == targets[|targets| - 1] && FluentReading(jd, targets, spoken))
  }

  /** The least cost only looks at the prefixes it is asked about. */
  lemma {:induction false} MinCostOfPrefixes(jd: Judge, ts: seq<Token>, us: seq<Token>, ts': seq<Token>,
                                             us': seq<Token>, i: nat, j: nat)
    requires i <= |ts| && i <= |ts'| && (forall k :: 0 <= k < i ==> ts[k] == ts'[k])
    requires j <= |us| && j <= |us'| && (forall k :: 0 <= k < j ==> us[k] == us'[k])
    ensures MinCost(jd, ts, us, i, j) == MinCost(jd, ts', us', i, j)
    decreases i + j
  {
    hide *;
    MinCostStep(jd, ts, us, i, j);
    MinCostStep(jd, ts', us', i, j);
    if i > 0 { MinCostOfPrefixes(jd, ts, us, ts', us', i - 1, j); }
    if j > 0 { MinCostOfPrefixes(jd, ts, us, ts', us', i, j - 1); }
    if i > 0 && j > 0 { MinCostOfPrefixes(jd, ts, us, ts', us', i - 1, j - 1); }
  }

  /** One more token that is free to insert costs nothing. */
  lemma FreeInsertion(jd: Judge, targets: seq<Token>, tokens: seq<Token>, token: Token)
    requires MinCost(jd, targets, tokens, |targets|, |tokens|) == 0
    requires InsertionCost(jd, token, Preceding(targets, |targets|)) == 0
    ensures MinCost(jd, targets, tokens + [token], |targets|, |tokens| + 1) == 0
  {
    hide MinCost, InsertionCost, MatchCost;
    MinCostOfPrefixes(jd, targets, tokens, targets, tokens + [token], |targets|, |tokens|);
    MinCostStep(jd, targets, tokens + [token], |targets|, |tokens| + 1);
  }

  /** Reading the next target as written costs nothing. */
  lemma FreeRead(jd: Judge, targets: seq<Token>, tokens: seq<Token>, word: Token)
    requires MinCost(jd, targets, tokens, |targets|, |tokens|) == 0
    ensures MinCost(jd, targets + [word], tokens + [word], |targets| + 1, |tokens| + 1) == 0
  {
    hide MinCost, InsertionCost;
    MinCostOfPrefixes(jd, targets, tokens, targets + [word], tokens + [word], |targets|, |tokens|);
    MinCostStep(jd, targets + [word], tokens + [word], |targets| + 1, |tokens| + 1);
  }

  /** A fluent reading aligns at no cost. */
  lemma {:induction false} FluentReadingIsFree(jd: Judge, targets: seq<Token>, tokens: seq<Token>)
    requires FluentReading(jd, targets, tokens)
    ensures MinCost(jd, targets, tokens, |targets|, |tokens|) == 0
    decreases |tokens|
  {
    if tokens != [] {
      var token, spoken := tokens[|tokens| - 1], tokens[..|tokens| - 1];
      assert spoken + [token] == tokens;
      if targets != [] && token == targets[|targets| - 1] && FluentReading(jd, targets[..|targets| - 1], spoken) {
        hide MinCost, FluentReading;
        FluentReadingIsFree(jd, targets[..|targets| - 1], spoken);
        FreeRead(jd, targets[..|targets| - 1], spoken, token);
        assert targets[..|targets| - 1] + [token] == targets;
      } else {
        assert FluentReading(jd, targets, spoken);
        hide MinCost, FluentReading;
        FluentReadingIsFree(jd, targets, spoken);
        FreeInsertion(jd, targets, spoken, token);
      }
    }
  }

  /** What alignTranscript returns is the marked verdicts of an alignment no other alignment undercuts. */
  lemma AlignmentIsCheapest(jd: Judge, targets: seq<Token>, tokens: seq<Token>)
    ensures var n, m, trace := |targets|, |tokens|, Traceback(jd, targets, tokens, |targets|, |tokens|);
            && Aligns(trace, n, m)
            && Alignment(jd, targets, tokens) == MarkSwaps(jd, targets, Verdicts(jd, targets, tokens, trace, n, m), 0)
            && (forall steps :: Aligns(steps, n, m) ==>
                  AlignmentCost(jd, targets, tokens, trace, n, m) <= AlignmentCost(jd, targets, tokens, steps, n, m))
  {
    var n, m := |targets|, |tokens|;
    TracedIsVerdicts(jd, targets, tokens, n, m);
    TracebackIsOptimal(jd, targets, tokens, n, m);
    hide Traceback, MarkSwaps, Verdicts, Traced, MinCost, AlignmentCost;
    forall steps | Aligns(steps, n, m)
      ensures MinCost(jd, targets, tokens, n, m) <= AlignmentCost(jd, targets, tokens, steps, n, m)
    {
      MinCostIsLeast(jd, targets, tokens, steps, n, m);
    }
  }
}
