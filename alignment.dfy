/**
 * Word-level alignment of recognised words against reference words by
 * dynamic programming: the cost and back-pointer matrices, the traceback,
 * and what the traceback means (a cheapest edit path).
 *
 * Costs are counted in half-units, so insertion and deletion cost 2, an
 * exact match 0 and a substitution 1 (the source's 1.0, 1.0, 0.0 and 0.5);
 * every comparison between costs is therefore the same as in the source.
 */
module Alignment {
  import opened Models

  /** Operation codes of the back matrix and of the alignment. */
  const NONE: int := 0
  const INS: int := 1
  const DEL: int := 2
  const MATCH: int := 3
  const SUBST: int := 4

  const INSERTION_COST: nat := 2
  const DELETION_COST: nat := 2
  const EXACT_MATCH_COST: nat := 0
  const INEXACT_MATCH_COST: nat := 1

  /** One entry `(operation, i, j)` of the alignment. */
  datatype Step = Step(op: int, i: int, j: int)

  function RecognizedTexts(words: seq<RecognizedWord>): (r: seq<string>)
    ensures |r| == |words| && forall k :: 0 <= k < |r| ==> r[k] == words[k].word
  {
    seq(|words|, k requires 0 <= k < |words| => words[k].word)
  }

  function ReferenceTexts(words: seq<ReferenceWord>): (r: seq<string>)
    ensures |r| == |words| && forall k :: 0 <= k < |r| ==> r[k] == words[k].word
  {
    seq(|words|, k requires 0 <= k < |words| => words[k].word)
  }

  function SubstitutionCost(x: string, y: string): nat
  {
    if x == y then EXACT_MATCH_COST else INEXACT_MATCH_COST
  }

  /** `cost_matrix[i, j]` for recognised words `a` and reference words `b`. */
  function Cost(a: seq<string>, b: seq<string>, i: nat, j: nat): nat
    requires i <= |a| && j <= |b|
    decreases i + j
  {
    if i == 0 then j * DELETION_COST
    else if j == 0 then i * INSERTION_COST
    else
      var insertion := Cost(a, b, i - 1, j) + INSERTION_COST;
      var deletion := Cost(a, b, i, j - 1) + DELETION_COST;
      var substitution := Cost(a, b, i - 1, j - 1) + SubstitutionCost(a[i - 1], b[j - 1]);
      if insertion <= deletion && insertion <= substitution then insertion
      else if deletion <= insertion && deletion <= substitution then deletion
      else substitution
  }

  /** `back_matrix[i, j]`. */
  function Back(a: seq<string>, b: seq<string>, i: nat, j: nat): int
    requires i <= |a| && j <= |b|
  {
    if i == 0 && j == 0 then NONE
    else if j == 0 then INS
    else if i == 0 then DEL
    else
      var insertion := Cost(a, b, i - 1, j) + INSERTION_COST;
      var deletion := Cost(a, b, i, j - 1) + DELETION_COST;
      var substitution := Cost(a, b, i - 1, j - 1) + SubstitutionCost(a[i - 1], b[j - 1]);
      if insertion <= deletion && insertion <= substitution then INS
      else if deletion <= insertion && deletion <= substitution then DEL
      else if a[i - 1] == b[j - 1] then MATCH
      else SUBST
  }

  /** The first row and column of both matrices. */
  lemma Borders(a: seq<string>, b: seq<string>)
    ensures forall i :: 0 <= i <= |a| ==> Cost(a, b, i, 0) == 2 * i
    ensures forall j :: 0 <= j <= |b| ==> Cost(a, b, 0, j) == 2 * j
    ensures forall i :: 0 < i <= |a| ==> Back(a, b, i, 0) == INS
    ensures forall j :: 0 < j <= |b| ==> Back(a, b, 0, j) == DEL
    ensures Back(a, b, 0, 0) == NONE
  {
  }

  /**
   * An interior cell holds the cheapest of insertion (from above), deletion
   * (from the left) and the diagonal; ties go to insertion, then deletion;
   * the diagonal is a match exactly when the two words are equal.
   */
  lemma InteriorCell(a: seq<string>, b: seq<string>, i: nat, j: nat)
    requires 0 < i <= |a| && 0 < j <= |b|
    ensures var insertion := Cost(a, b, i - 1, j) + INSERTION_COST;
            var deletion := Cost(a, b, i, j - 1) + DELETION_COST;
            var substitution := Cost(a, b, i - 1, j - 1) + SubstitutionCost(a[i - 1], b[j - 1]);
            && Cost(a, b, i, j) <= insertion && Cost(a, b, i, j) <= deletion && Cost(a, b, i, j) <= substitution
            && (Back(a, b, i, j) == INS <==> insertion <= deletion && insertion <= substitution)
            && (Back(a, b, i, j) == DEL <==> deletion < insertion && deletion <= substitution)
            && (Back(a, b, i, j) in {MATCH, SUBST} <==> substitution < insertion && substitution < deletion)
            && (Back(a, b, i, j) == INS ==> Cost(a, b, i, j) == insertion)
            && (Back(a, b, i, j) == DEL ==> Cost(a, b, i, j) == deletion)
            && (Back(a, b, i, j) in {MATCH, SUBST} ==> Cost(a, b, i, j) == substitution)
            && (Back(a, b, i, j) in {MATCH, SUBST} ==> (Back(a, b, i, j) == MATCH <==> a[i - 1] == b[j - 1]))
  {
  }

  /** The back matrix as rows of integers. */
  function BackMatrix(a: seq<string>, b: seq<string>): (r: seq<seq<int>>)
    ensures |r| == |a| + 1
    ensures forall i :: 0 <= i < |r| ==> |r[i]| == |b| + 1
    ensures forall i, j :: 0 <= i <= |a| && 0 <= j <= |b| ==> r[i][j] == Back(a, b, i, j)
  {
    seq(|a| + 1, i requires 0 <= i <= |a| => seq(|b| + 1, j requires 0 <= j <= |b| => Back(a, b, i, j)))
  }

  /** The contents of a two-dimensional array, row by row. */
  function Rows(m: array2<int>): (r: seq<seq<int>>)
    reads m
    ensures |r| == m.Length0
    ensures forall i :: 0 <= i < |r| ==> |r[i]| == m.Length1
    ensures forall i, j :: 0 <= i < m.Length0 && 0 <= j < m.Length1 ==> r[i][j] == m[i, j]
  {
    seq(m.Length0, i reads m requires 0 <= i < m.Length0 =>
      seq(m.Length1, j reads m requires 0 <= j < m.Length1 => m[i, j]))
  }

  /** `_compute_alignment_matrices`. */
  method ComputeAlignmentMatrices(recognized: seq<RecognizedWord>, reference: seq<ReferenceWord>)
    returns (costMatrix: array2<int>, backMatrix: array2<int>)
    ensures fresh(costMatrix) && fresh(backMatrix)
    ensures costMatrix.Length0 == |recognized| + 1 && costMatrix.Length1 == |reference| + 1
    ensures backMatrix.Length0 == |recognized| + 1 && backMatrix.Length1 == |reference| + 1
    ensures forall i, j :: 0 <= i <= |recognized| && 0 <= j <= |reference| ==>
      costMatrix[i, j] == Cost(RecognizedTexts(recognized), ReferenceTexts(reference), i, j)
    ensures Rows(backMatrix) == BackMatrix(RecognizedTexts(recognized), ReferenceTexts(reference))
  {
    var a := RecognizedTexts(recognized);
    var b := ReferenceTexts(reference);
    var n := |recognized| + 1;
    var m := |reference| + 1;
    costMatrix := new int[n, m]((i, j) => 0);
    backMatrix := new int[n, m]((i, j) => 0);
    FillBorders(costMatrix, backMatrix, a, b);

    for i := 1 to n
      invariant forall i', j' {:trigger costMatrix[i', j']} :: 0 <= i' < i && 0 <= j' < m ==>
        costMatrix[i', j'] == Cost(a, b, i', j')
      invariant forall i', j' {:trigger backMatrix[i', j']} :: 0 <= i' < i && 0 <= j' < m ==>
        backMatrix[i', j'] == Back(a, b, i', j')
      invariant forall i' {:trigger costMatrix[i', 0]} :: i <= i' < n ==> costMatrix[i', 0] == Cost(a, b, i', 0)
      invariant forall i' {:trigger backMatrix[i', 0]} :: i <= i' < n ==> backMatrix[i', 0] == Back(a, b, i', 0)
    {
      FillRow(costMatrix, backMatrix, recognized, reference, a, b, i);
    }
    RowsAreBackMatrix(backMatrix, a, b);
  }

  /** The first column and the first row: all insertions down, all deletions across. */
  method FillBorders(costMatrix: array2<int>, backMatrix: array2<int>, ghost a: seq<string>, ghost b: seq<string>)
    requires costMatrix != backMatrix
    requires costMatrix.Length0 == |a| + 1 && costMatrix.Length1 == |b| + 1
    requires backMatrix.Length0 == |a| + 1 && backMatrix.Length1 == |b| + 1
    modifies costMatrix, backMatrix
    ensures forall i' {:trigger costMatrix[i', 0]} :: 0 <= i' <= |a| ==> costMatrix[i', 0] == Cost(a, b, i', 0)
    ensures forall i' {:trigger backMatrix[i', 0]} :: 0 <= i' <= |a| ==> backMatrix[i', 0] == Back(a, b, i', 0)
    ensures forall j' {:trigger costMatrix[0, j']} :: 0 <= j' <= |b| ==> costMatrix[0, j'] == Cost(a, b, 0, j')
    ensures forall j' {:trigger backMatrix[0, j']} :: 0 <= j' <= |b| ==> backMatrix[0, j'] == Back(a, b, 0, j')
  {
    var n := costMatrix.Length0;
    var m := costMatrix.Length1;
    for i := 0 to n
      invariant forall i' :: 0 <= i' < i ==> costMatrix[i', 0] == 2 * i' && backMatrix[i', 0] == INS
    {
      costMatrix[i, 0] := i * INSERTION_COST;
      backMatrix[i, 0] := INS;
    }
    for j := 0 to m
      invariant forall i' :: 0 < i' < n ==> costMatrix[i', 0] == 2 * i' && backMatrix[i', 0] == INS
      invariant costMatrix[0, 0] == 0
      invariant forall j' :: 0 <= j' < j ==> costMatrix[0, j'] == 2 * j' && backMatrix[0, j'] == DEL
    {
      costMatrix[0, j] := j * DELETION_COST;
      backMatrix[0, j] := DEL;
    }
    backMatrix[0, 0] := NONE;
  }

  /** A matrix holding `Back` in every cell has the rows of `BackMatrix`. */
  lemma RowsAreBackMatrix(backMatrix: array2<int>, a: seq<string>, b: seq<string>)
    requires backMatrix.Length0 == |a| + 1 && backMatrix.Length1 == |b| + 1
    requires forall i', j' {:trigger backMatrix[i', j']} :: 0 <= i' <= |a| && 0 <= j' <= |b| ==>
      backMatrix[i', j'] == Back(a, b, i', j')
    ensures Rows(backMatrix) == BackMatrix(a, b)
  {
    forall i | 0 <= i <= |a| ensures Rows(backMatrix)[i] == BackMatrix(a, b)[i] {
    }
  }

  /** One pass of the inner loop of `_compute_alignment_matrices`: row `i` from column 1 on. */
  method FillRow(costMatrix: array2<int>, backMatrix: array2<int>,
                 recognized: seq<RecognizedWord>, reference: seq<ReferenceWord>,
                 ghost a: seq<string>, ghost b: seq<string>, i: nat)
    requires costMatrix != backMatrix
    requires costMatrix.Length0 == |recognized| + 1 && costMatrix.Length1 == |reference| + 1
    requires backMatrix.Length0 == |recognized| + 1 && backMatrix.Length1 == |reference| + 1
    requires a == RecognizedTexts(recognized) && b == ReferenceTexts(reference)
    requires 0 < i <= |recognized|
    requires forall j' {:trigger costMatrix[i - 1, j']} :: 0 <= j' <= |reference| ==>
      costMatrix[i - 1, j'] == Cost(a, b, i - 1, j')
    requires costMatrix[i, 0] == Cost(a, b, i, 0)
    requires backMatrix[i, 0] == Back(a, b, i, 0)
    modifies costMatrix, backMatrix
    ensures forall j' {:trigger costMatrix[i, j']} :: 0 <= j' <= |reference| ==>
      costMatrix[i, j'] == Cost(a, b, i, j')
    ensures forall j' {:trigger backMatrix[i, j']} :: 0 <= j' <= |reference| ==>
      backMatrix[i, j'] == Back(a, b, i, j')
    ensures forall i', j' {:trigger costMatrix[i', j']} :: 0 <= i' <= |recognized| && 0 <= j' <= |reference| && i' != i ==>
      costMatrix[i', j'] == old(costMatrix[i', j'])
    ensures forall i', j' {:trigger backMatrix[i', j']} :: 0 <= i' <= |recognized| && 0 <= j' <= |reference| && i' != i ==>
      backMatrix[i', j'] == old(backMatrix[i', j'])
  {
    for j := 1 to |reference| + 1
      invariant forall j' {:trigger costMatrix[i, j']} :: 0 <= j' < j ==> costMatrix[i, j'] == Cost(a, b, i, j')
      invariant forall j' {:trigger backMatrix[i, j']} :: 0 <= j' < j ==> backMatrix[i, j'] == Back(a, b, i, j')
      invariant forall i', j' {:trigger costMatrix[i', j']} :: 0 <= i' <= |recognized| && 0 <= j' <= |reference| && i' != i ==>
        costMatrix[i', j'] == old(costMatrix[i', j'])
      invariant forall i', j' {:trigger backMatrix[i', j']} :: 0 <= i' <= |recognized| && 0 <= j' <= |reference| && i' != i ==>
        backMatrix[i', j'] == old(backMatrix[i', j'])
    {
      var cellCost, cellOperation := ChooseCell(a, b, i, j, recognized[i - 1].word, reference[j - 1].word,
                                                costMatrix[i - 1, j], costMatrix[i, j - 1], costMatrix[i - 1, j - 1]);
      SetCell(costMatrix, backMatrix, i, j, cellCost, cellOperation);
    }
  }

  /** `cost_matrix[i][j] = …; back_matrix[i][j] = …`, leaving every other cell as it was. */
  method SetCell(costMatrix: array2<int>, backMatrix: array2<int>, i: nat, j: nat, cellCost: int, cellOperation: int)
    requires costMatrix != backMatrix
    requires i < costMatrix.Length0 && j < costMatrix.Length1
    requires i < backMatrix.Length0 && j < backMatrix.Length1
    modifies costMatrix, backMatrix
    ensures costMatrix[i, j] == cellCost && backMatrix[i, j] == cellOperation
    ensures forall i', j' {:trigger costMatrix[i', j']} :: 0 <= i' < costMatrix.Length0 && 0 <= j' < costMatrix.Length1 && (i' != i || j' != j) ==>
      costMatrix[i', j'] == old(costMatrix[i', j'])
    ensures forall i', j' {:trigger backMatrix[i', j']} :: 0 <= i' < backMatrix.Length0 && 0 <= j' < backMatrix.Length1 && (i' != i || j' != j) ==>
      backMatrix[i', j'] == old(backMatrix[i', j'])
  {
    costMatrix[i, j] := cellCost;
    backMatrix[i, j] := cellOperation;
  }

  /**
   * The body of the inner loop of `_compute_alignment_matrices`: the cost and
   * operation of cell `(i, j)` from its three neighbours.
   */
  method ChooseCell(ghost a: seq<string>, ghost b: seq<string>, i: nat, j: nat, recWord: string, refWord: string,
                    above: int, left: int, diagonal: int)
    returns (cellCost: int, cellOperation: int)
    requires 0 < i <= |a| && 0 < j <= |b|
    requires recWord == a[i - 1] && refWord == b[j - 1]
    requires above == Cost(a, b, i - 1, j) && left == Cost(a, b, i, j - 1) && diagonal == Cost(a, b, i - 1, j - 1)
    ensures cellCost == Cost(a, b, i, j)
    ensures cellOperation == Back(a, b, i, j)
  {
    var substitutionCost, operationType;
    if recWord == refWord {
      substitutionCost, operationType := EXACT_MATCH_COST, MATCH;
    } else {
      substitutionCost, operationType := INEXACT_MATCH_COST, SUBST;
    }
    var insertion := above + INSERTION_COST;
    var deletion := left + DELETION_COST;
    var substitution := diagonal + substitutionCost;
    if insertion <= deletion && insertion <= substitution {
      cellCost, cellOperation := insertion, INS;
    } else if deletion <= insertion && deletion <= substitution {
      cellCost, cellOperation := deletion, DEL;
    } else {
      cellCost, cellOperation := substitution, operationType;
    }
  }

  /** The cell an alignment step comes from. */
  function PrevI(s: Step): int
  {
    if s.op == DEL then s.i else s.i - 1
  }

  function PrevJ(s: Step): int
  {
    if s.op == INS then s.j else s.j - 1
  }

  /**
   * `_traceback_alignment` on a matrix given as rows, from cell `(i, j)`, in
   * forward order. Any code other than 1 and 2 moves diagonally, and the walk
   * stops as soon as an index would be negative.
   */
  function Trace(m: seq<seq<int>>, i: int, j: int): seq<Step>
    requires -1 <= i < |m|
    requires forall r :: 0 <= r < |m| ==> -1 <= j < |m[r]|
    decreases i + j + 2
  {
    if !(i > 0 || j > 0) then []
    else if i < 0 || j < 0 then []
    else
      var op := m[i][j];
      var s := Step(op, i, j);
      Trace(m, PrevI(s), PrevJ(s)) + [s]
  }

  /** One step of the walk from a cell inside the matrix. */
  lemma TraceStep(m: seq<seq<int>>, i: int, j: int)
    requires 0 <= i < |m| && 0 <= j < |m[i]|
    requires forall r :: 0 <= r < |m| ==> j < |m[r]|
    requires i > 0 || j > 0
    ensures Trace(m, i, j) == Trace(m, PrevI(Step(m[i][j], i, j)), PrevJ(Step(m[i][j], i, j))) + [Step(m[i][j], i, j)]
  {
  }

  function Reverse<T>(s: seq<T>): (r: seq<T>)
    ensures |r| == |s| && forall k :: 0 <= k < |s| ==> r[k] == s[|s| - 1 - k]
  {
    if s == [] then [] else Reverse(s[1..]) + [s[0]]
  }

  lemma ReverseSnoc<T>(s: seq<T>, x: T)
    ensures Reverse(s + [x]) == [x] + Reverse(s)
  {
  }

  /** `_traceback_alignment`: walk back from the bottom-right cell, appending, then reverse. */
  method Traceback(backMatrix: array2<int>) returns (alignment: seq<Step>)
    ensures alignment == Trace(Rows(backMatrix), backMatrix.Length0 - 1, backMatrix.Length1 - 1)
  {
    var rows := Rows(backMatrix);
    var i := backMatrix.Length0 - 1;
    var j := backMatrix.Length1 - 1;
    var appended: seq<Step> := [];
    while i > 0 || j > 0
      invariant -1 <= i < backMatrix.Length0 && -1 <= j < backMatrix.Length1
      invariant Trace(rows, backMatrix.Length0 - 1, backMatrix.Length1 - 1) == Trace(rows, i, j) + Reverse(appended)
      decreases i + j
    {
      if i < 0 || j < 0 {
        break;
      }
      var operation := backMatrix[i, j];
      assert rows[i][j] == operation;
      TraceStep(rows, i, j);
      ReverseSnoc(appended, Step(operation, i, j));
      appended := appended + [Step(operation, i, j)];
      if operation == INS {
        i := i - 1;
      } else if operation == DEL {
        j := j - 1;
      } else {
        i := i - 1;
        j := j - 1;
      }
    }
    alignment := Reverse(appended);
  }

  /** The cost of one operation; on a path a diagonal step is MATCH exactly when its words are equal. */
  function StepCost(op: int): nat
  {
    if op == INS then INSERTION_COST
    else if op == DEL then DELETION_COST
    else if op == MATCH then EXACT_MATCH_COST
    else if op == SUBST then INEXACT_MATCH_COST
    else 0
  }

  /** A step that is one of the four operations and stays inside the matrix. */
  predicate ValidStep(a: seq<string>, b: seq<string>, s: Step)
  {
    s.op in {INS, DEL, MATCH, SUBST}
    && 0 <= PrevI(s) && 0 <= PrevJ(s) && s.i <= |a| && s.j <= |b|
    && (s.op in {MATCH, SUBST} ==> (s.op == MATCH <==> a[s.i - 1] == b[s.j - 1]))
  }

  /**
   * `steps` is an edit path from `(0, 0)` to `(i, j)`: each step enters its
   * cell from the one its operation names, the first step leaves `(0, 0)`, and
   * a diagonal step is a match exactly when the two words are equal.
   */
  predicate IsPath(a: seq<string>, b: seq<string>, steps: seq<Step>, i: int, j: int)
    decreases |steps|
  {
    if steps == [] then i == 0 && j == 0
    else
      var s := steps[|steps| - 1];
      s.i == i && s.j == j && ValidStep(a, b, s)
      && IsPath(a, b, steps[..|steps| - 1], PrevI(s), PrevJ(s))
  }

  lemma {:induction false} PathInside(a: seq<string>, b: seq<string>, steps: seq<Step>, i: int, j: int)
    requires IsPath(a, b, steps, i, j)
    ensures 0 <= i && 0 <= j
    ensures forall k :: 0 <= k < |steps| ==> ValidStep(a, b, steps[k]) && steps[k].i <= i && steps[k].j <= j
    decreases |steps|
  {
    if steps != [] {
      var s := steps[|steps| - 1];
      var init := steps[..|steps| - 1];
      PathInside(a, b, init, PrevI(s), PrevJ(s));
      forall k | 0 <= k < |steps| ensures ValidStep(a, b, steps[k]) && steps[k].i <= i && steps[k].j <= j {
        if k < |init| { assert steps[k] == init[k]; }
      }
    }
  }

  /** The cost of a path, in half-units. */
  function PathCost(steps: seq<Step>): nat
    decreases |steps|
  {
    if steps == [] then 0
    else PathCost(steps[..|steps| - 1]) + StepCost(steps[|steps| - 1].op)
  }

  /** No edit path to `(i, j)` is cheaper than `cost_matrix[i, j]`. */
  lemma {:induction false} CostIsLowerBound(a: seq<string>, b: seq<string>, steps: seq<Step>, i: int, j: int)
    requires IsPath(a, b, steps, i, j)
    ensures 0 <= i <= |a| && 0 <= j <= |b|
    ensures PathCost(steps) >= Cost(a, b, i, j)
    decreases |steps|
  {
    PathInside(a, b, steps, i, j);
    if steps != [] {
      var s := steps[|steps| - 1];
      var init := steps[..|steps| - 1];
      PathInside(a, b, init, PrevI(s), PrevJ(s));
      CostIsLowerBound(a, b, init, PrevI(s), PrevJ(s));
      if 0 < i && 0 < j {
        InteriorCell(a, b, i, j);
      }
    }
  }

  /**
   * The operation the back matrix holds at a cell other than the origin is a
   * valid step whose cost, added to the cost of the cell it comes from, is the
   * cost of the cell.
   */
  lemma BackStep(a: seq<string>, b: seq<string>, i: nat, j: nat)
    requires i <= |a| && j <= |b| && (i > 0 || j > 0)
    ensures
      && ValidStep(a, b, Step(Back(a, b, i, j), i, j))
      && Cost(a, b, i, j) == Cost(a, b, PrevI(Step(Back(a, b, i, j), i, j)), PrevJ(Step(Back(a, b, i, j), i, j))) + StepCost(Step(Back(a, b, i, j), i, j).op)
  {
    if 0 < i && 0 < j {
      InteriorCell(a, b, i, j);
    }
  }

  /** Reading the computed back matrix from `(i, j)` gives an edit path whose cost is `cost_matrix[i, j]`. */
  lemma {:induction false} TraceIsCheapestPath(a: seq<string>, b: seq<string>, i: nat, j: nat)
    requires i <= |a| && j <= |b|
    ensures IsPath(a, b, Trace(BackMatrix(a, b), i, j), i, j)
    ensures PathCost(Trace(BackMatrix(a, b), i, j)) == Cost(a, b, i, j)
    decreases i + j
  {
    var m := BackMatrix(a, b);
    if i > 0 || j > 0 {
      var s := Step(Back(a, b, i, j), i, j);
      assert m[i][j] == s.op;
      TraceStep(m, i, j);
      BackStep(a, b, i, j);
      TraceIsCheapestPath(a, b, PrevI(s), PrevJ(s));
      var init := Trace(m, PrevI(s), PrevJ(s));
      var t := init + [s];
      assert t[..|t| - 1] == init;
      assert t[|t| - 1] == s;
      assert IsPath(a, b, t, i, j);
      assert PathCost(t) == PathCost(init) + StepCost(s.op);
    }
  }

  /**
   * The traceback of the computed matrices is a cheapest edit path from
   * `(0, 0)` to `(n, m)`: it reaches the origin without the guard ever
   * firing, and no other path costs less.
   */
  lemma TracebackIsOptimal(a: seq<string>, b: seq<string>, other: seq<Step>)
    requires IsPath(a, b, other, |a|, |b|)
    ensures IsPath(a, b, Trace(BackMatrix(a, b), |a|, |b|), |a|, |b|)
    ensures PathCost(Trace(BackMatrix(a, b), |a|, |b|)) <= PathCost(other)
  {
    TraceIsCheapestPath(a, b, |a|, |b|);
    CostIsLowerBound(a, b, other, |a|, |b|);
  }

  function Count(steps: seq<Step>, ops: set<int>): nat
    decreases |steps|
  {
    if steps == [] then 0
    else Count(steps[..|steps| - 1], ops) + (if steps[|steps| - 1].op in ops then 1 else 0)
  }

  /**
   * On a path to `(i, j)`, insertions plus diagonal steps number `i` (one
   * per recognised word) and deletions plus diagonal steps number `j` (one
   * per reference word).
   */
  lemma {:induction false} PathCounts(a: seq<string>, b: seq<string>, steps: seq<Step>, i: int, j: int)
    requires IsPath(a, b, steps, i, j)
    ensures Count(steps, {INS}) + Count(steps, {MATCH, SUBST}) == i
    ensures Count(steps, {DEL}) + Count(steps, {MATCH, SUBST}) == j
    decreases |steps|
  {
    if steps != [] {
      var s := steps[|steps| - 1];
      PathCounts(a, b, steps[..|steps| - 1], PrevI(s), PrevJ(s));
    }
  }

  /** A path along the first row is all deletions, one per reference word. */
  lemma {:induction false} FirstRowPath(a: seq<string>, b: seq<string>, steps: seq<Step>, j: int)
    requires IsPath(a, b, steps, 0, j)
    ensures |steps| == j && forall k :: 0 <= k < |steps| ==> steps[k] == Step(DEL, 0, k + 1)
    decreases |steps|
  {
    if steps != [] {
      var s := steps[|steps| - 1];
      FirstRowPath(a, b, steps[..|steps| - 1], j - 1);
      forall k | 0 <= k < |steps| ensures steps[k] == Step(DEL, 0, k + 1) {
        if k < |steps| - 1 { assert steps[k] == steps[..|steps| - 1][k]; }
      }
    }
  }

  /** A path down the first column is all insertions, one per recognised word. */
  lemma {:induction false} FirstColumnPath(a: seq<string>, b: seq<string>, steps: seq<Step>, i: int)
    requires IsPath(a, b, steps, i, 0)
    ensures |steps| == i && forall k :: 0 <= k < |steps| ==> steps[k] == Step(INS, k + 1, 0)
    decreases |steps|
  {
    if steps != [] {
      var s := steps[|steps| - 1];
      FirstColumnPath(a, b, steps[..|steps| - 1], i - 1);
      forall k | 0 <= k < |steps| ensures steps[k] == Step(INS, k + 1, 0) {
        if k < |steps| - 1 { assert steps[k] == steps[..|steps| - 1][k]; }
      }
    }
  }

  /** Along a path the column never decreases, and a diagonal step moves it strictly forward. */
  lemma {:induction false} PathColumnsMonotone(a: seq<string>, b: seq<string>, steps: seq<Step>, i: int, j: int)
    requires IsPath(a, b, steps, i, j)
    ensures forall k1, k2 :: 0 <= k1 < k2 < |steps| ==> steps[k1].j <= PrevJ(steps[k2])
    decreases |steps|
  {
    if steps != [] {
      var s := steps[|steps| - 1];
      var init := steps[..|steps| - 1];
      PathColumnsMonotone(a, b, init, PrevI(s), PrevJ(s));
      PathInside(a, b, init, PrevI(s), PrevJ(s));
      forall k1, k2 | 0 <= k1 < k2 < |steps| ensures steps[k1].j <= PrevJ(steps[k2]) {
        assert steps[k1] == init[k1];
        if k2 < |init| { assert steps[k2] == init[k2]; }
      }
    }
  }

  /** The same for rows. */
  lemma {:induction false} PathRowsMonotone(a: seq<string>, b: seq<string>, steps: seq<Step>, i: int, j: int)
    requires IsPath(a, b, steps, i, j)
    ensures forall k1, k2 :: 0 <= k1 < k2 < |steps| ==> steps[k1].i <= PrevI(steps[k2])
    decreases |steps|
  {
    if steps != [] {
      var s := steps[|steps| - 1];
      var init := steps[..|steps| - 1];
      PathRowsMonotone(a, b, init, PrevI(s), PrevJ(s));
      PathInside(a, b, init, PrevI(s), PrevJ(s));
      forall k1, k2 | 0 <= k1 < k2 < |steps| ensures steps[k1].i <= PrevI(steps[k2]) {
        assert steps[k1] == init[k1];
        if k2 < |init| { assert steps[k2] == init[k2]; }
      }
    }
  }

  /**
   * The alignment of `_traceback_alignment` on the computed matrices: a path
   * from `(0, 0)` to `(n, m)` with one insertion or diagonal step per
   * recognised word and one deletion or diagonal step per reference word; all
   * deletions when there are no recognised words, all insertions when there
   * are no reference words.
   */
  lemma AlignmentShape(a: seq<string>, b: seq<string>)
    ensures
      && IsPath(a, b, Trace(BackMatrix(a, b), |a|, |b|), |a|, |b|)
      && Count(Trace(BackMatrix(a, b), |a|, |b|), {INS}) + Count(Trace(BackMatrix(a, b), |a|, |b|), {MATCH, SUBST}) == |a|
      && Count(Trace(BackMatrix(a, b), |a|, |b|), {DEL}) + Count(Trace(BackMatrix(a, b), |a|, |b|), {MATCH, SUBST}) == |b|
      && (|a| == 0 ==> |Trace(BackMatrix(a, b), |a|, |b|)| == |b| && forall k :: 0 <= k < |Trace(BackMatrix(a, b), |a|, |b|)| ==> Trace(BackMatrix(a, b), |a|, |b|)[k] == Step(DEL, 0, k + 1))
      && (|b| == 0 ==> |Trace(BackMatrix(a, b), |a|, |b|)| == |a| && forall k :: 0 <= k < |Trace(BackMatrix(a, b), |a|, |b|)| ==> Trace(BackMatrix(a, b), |a|, |b|)[k] == Step(INS, k + 1, 0))
  {
    var t := Trace(BackMatrix(a, b), |a|, |b|);
    TraceIsCheapestPath(a, b, |a|, |b|);
    PathCounts(a, b, t, |a|, |b|);
    if |a| == 0 { FirstRowPath(a, b, t, |b|); }
    if |b| == 0 { FirstColumnPath(a, b, t, |a|); }
  }
}
