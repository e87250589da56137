/**
 * The branching step of the depth-first search and its termination
 * measure.  `simulate` takes a snapshot, finds its first empty cell and
 * returns one snapshot per candidate of that cell, in ascending digit
 * order; `deep_solve` pushes them onto its stack, so the largest digit
 * is popped first.
 */
module Search {
  import opened ArrayOps
  import opened Indexes
  import opened Board
  import opened Snapshot

  /** `@field.index(0)`: the first empty cell of a board that has one. */
  function FirstEmpty(b: seq<int>): (idx: int)
    requires IsBoard(b) && 0 in b
    ensures IsCell(idx) && b[idx] == 0
    ensures forall k :: 0 <= k < idx ==> b[k] != 0
  {
    var idx := IndexOf(b, 0).value;
    assert forall k :: 0 <= k < idx ==> b[k] == b[..idx][k];
    idx
  }

  /**
   * The snapshots of the `c.each` loop of simulate: for each digit of c
   * in order, board b with that digit in cell idx.
   */
  function Branches(b: seq<int>, idx: int, c: seq<int>): (r: seq<string>)
    requires IsBoard(b) && IsCell(idx)
    requires forall k :: 0 <= k < |c| ==> 1 <= c[k] <= 9
    ensures |r| == |c|
    ensures forall k :: 0 <= k < |c| ==> IsDigits(b[idx := c[k]]) && r[k] == Join(b[idx := c[k]])
  {
    if c == [] then []
    else
      assert IsDigits(b[idx := c[0]]);
      [Join(b[idx := c[0]])] + Branches(b, idx, c[1..])
  }

  /** Extending c by one digit extends its snapshots by one. */
  lemma {:induction false} BranchesSnoc(b: seq<int>, idx: int, c: seq<int>, j: int)
    requires IsBoard(b) && IsCell(idx)
    requires forall k :: 0 <= k < |c| ==> 1 <= c[k] <= 9
    requires 0 <= j < |c|
    ensures IsDigits(b[idx := c[j]])
    ensures Branches(b, idx, c[..j + 1]) == Branches(b, idx, c[..j]) + [Join(b[idx := c[j]])]
  {
    var r, r' := Branches(b, idx, c[..j]), Branches(b, idx, c[..j + 1]);
    assert |r'| == |r| + 1;
    forall k | 0 <= k < |r'| ensures r'[k] == (r + [Join(b[idx := c[j]])])[k] {
      assert c[..j + 1][k] == c[k];
      if k < j {
        assert c[..j][k] == c[k];
      }
    }
  }

  /**
   * The snapshots `simulate` returns for board b: one per candidate of
   * its first empty cell.  ChildrenBoards and ChildrenKeepValid state
   * what each snapshot is.
   */
  function Children(b: seq<int>): (r: seq<string>)
    requires IsBoard(b) && 0 in b
    ensures |r| == |ListCandidates(b, FirstEmpty(b))|
  {
    var idx := FirstEmpty(b);
    CandidateDigits(b, idx);
    Branches(b, idx, ListCandidates(b, idx))
  }

  /**
   * One snapshot per candidate of the first empty cell, in ascending
   * digit order, each equal to b except that this cell holds the
   * candidate; none when the cell has no candidate.
   */
  lemma ChildrenBoards(b: seq<int>)
    requires IsBoard(b) && 0 in b
    ensures var idx, c, r := FirstEmpty(b), ListCandidates(b, FirstEmpty(b)), Children(b);
      && |r| == |c|
      && (r == [] <==> forall d :: !IsCandidate(b, idx, d))
      && (forall k :: 0 <= k < |r| ==>
           IsDigitString(r[k]) && Parse(r[k]) == b[idx := c[k]] && IsCandidate(b, idx, c[k]))
      && forall i, j :: 0 <= i < j < |r| ==> Parse(r[i])[idx] < Parse(r[j])[idx]
  {
    var idx, c, r := FirstEmpty(b), ListCandidates(b, FirstEmpty(b)), Children(b);
    forall k | 0 <= k < |r| ensures IsDigitString(r[k]) && Parse(r[k]) == b[idx := c[k]] && IsCandidate(b, idx, c[k]) {
      ChildAt(b, idx, c, r, k);
    }
    forall i, j | 0 <= i < j < |r| ensures Parse(r[i])[idx] < Parse(r[j])[idx] {
      assert Parse(r[i])[idx] == c[i] && Parse(r[j])[idx] == c[j];
    }
    if r != [] {
      assert c[0] in c;
    }
  }

  lemma ChildAt(b: seq<int>, idx: int, c: seq<int>, r: seq<string>, k: int)
    requires IsBoard(b) && 0 in b
    requires idx == FirstEmpty(b) && c == ListCandidates(b, idx) && r == Children(b)
    requires 0 <= k < |r|
    ensures |r| == |c|
    ensures IsDigitString(r[k]) && Parse(r[k]) == b[idx := c[k]] && IsCandidate(b, idx, c[k])
  {
    assert c[k] in c;
    FilledSnapshot(b, idx, c[k]);
  }

  /** The snapshot of a board with a digit written into one cell parses back to that board. */
  lemma FilledSnapshot(b: seq<int>, idx: int, d: int)
    requires IsBoard(b) && IsCell(idx) && 1 <= d <= 9
    ensures IsBoard(b[idx := d])
    ensures IsDigitString(Join(b[idx := d])) && Parse(Join(b[idx := d])) == b[idx := d]
  {
    ParseJoin(b[idx := d]);
  }

  /**
   * Every child of a valid partial board that extends start is again a
   * valid partial board that extends start.
   */
  lemma ChildrenKeepValid(b: seq<int>, start: seq<int>)
    requires IsBoard(b) && 0 in b && IsBoard(start)
    requires ValidPartial(b) && Extends(b, start)
    ensures forall s :: s in Children(b) ==>
      IsDigitString(s) && IsBoard(Parse(s)) && ValidPartial(Parse(s)) && Extends(Parse(s), start)
  {
    var idx, c, r := FirstEmpty(b), ListCandidates(b, FirstEmpty(b)), Children(b);
    ChildrenBoards(b);
    forall s | s in r ensures IsDigitString(s) && IsBoard(Parse(s)) && ValidPartial(Parse(s)) && Extends(Parse(s), start) {
      var k :| 0 <= k < |r| && r[k] == s;
      FillKeepsValid(b, idx, c[k]);
    }
  }

  function Pow10(n: nat): (p: nat)
    ensures p >= 1
  {
    if n == 0 then 1 else 10 * Pow10(n - 1)
  }

  /** The weight of a snapshot: 10 to the number of its empty cells. */
  function Weight(s: string): (w: nat) {
    Pow10(Zeros(Parse(s)))
  }

  /** Sum of the weights of the snapshots on the stack. */
  function Measure(stack: seq<string>): (m: nat) {
    if stack == [] then 0 else Measure(stack[..|stack| - 1]) + Weight(stack[|stack| - 1])
  }

  /** Filling an empty cell with a digit removes exactly one empty cell. */
  lemma {:induction false} ZerosFill(b: seq<int>, idx: int, d: int)
    requires 0 <= idx < |b| && b[idx] == 0 && d != 0
    ensures Zeros(b[idx := d]) == Zeros(b) - 1
  {
    var c := b[idx := d];
    if idx > 0 {
      assert c[1..] == b[1..][idx - 1 := d];
      ZerosFill(b[1..], idx - 1, d);
    } else {
      assert c[1..] == b[1..];
    }
  }

  /** The measure of a stack is the sum of the measures of its parts. */
  lemma {:induction false} MeasureAppend(a: seq<string>, b: seq<string>)
    ensures Measure(a + b) == Measure(a) + Measure(b)
  {
    if b == [] {
      assert a + b == a;
    } else {
      assert (a + b)[..|a + b| - 1] == a + b[..|b| - 1];
      MeasureAppend(a, b[..|b| - 1]);
    }
  }

  /** A list of snapshots that all weigh w measures |list| * w. */
  lemma {:induction false} MeasureUniform(list: seq<string>, w: nat)
    requires forall s :: s in list ==> Weight(s) == w
    ensures Measure(list) == |list| * w
  {
    if list != [] {
      var init := list[..|list| - 1];
      assert forall s :: s in init ==> s in list;
      MeasureUniform(init, w);
      assert list[|list| - 1] in list;
      assert Measure(list) == Measure(init) + w;
      MulSucc(|init|, w);
    }
  }

  /** Helper for MeasureUniform: one more copy of w adds w. */
  lemma MulSucc(n: nat, w: nat)
    ensures (n + 1) * w == n * w + w
  {
  }

  /**
   * The children of a board weigh less together than the board: at most
   * nine children, each with one empty cell fewer.
   */
  lemma ChildrenLighter(b: seq<int>)
    requires IsBoard(b) && 0 in b
    ensures Measure(Children(b)) < Pow10(Zeros(b))
  {
    var w := Pow10(Zeros(b) - 1);
    assert Pow10(Zeros(b)) == 10 * w;
    ChildrenWeight(b, w);
  }

  /** The children together weigh at most nine tenths of their parent. */
  lemma ChildrenWeight(b: seq<int>, w: nat)
    requires IsBoard(b) && 0 in b
    requires Zeros(b) >= 1 && w == Pow10(Zeros(b) - 1)
    ensures Measure(Children(b)) <= 9 * w
  {
    var r := Children(b);
    forall s | s in r ensures Weight(s) == w {
      var k :| 0 <= k < |r| && r[k] == s;
      ChildWeight(b, k);
    }
    UniformBound(r, w);
  }

  /** At most nine snapshots of weight w weigh at most 9 * w. */
  lemma UniformBound(list: seq<string>, w: nat)
    requires |list| <= 9
    requires forall s :: s in list ==> Weight(s) == w
    ensures Measure(list) <= 9 * w
  {
    MeasureUniform(list, w);
    MulAtMostNine(|list|, w);
  }

  lemma ChildWeight(b: seq<int>, k: int)
    requires IsBoard(b) && 0 in b
    requires 0 <= k < |Children(b)|
    ensures Zeros(b) >= 1 && Weight(Children(b)[k]) == Pow10(Zeros(b) - 1)
  {
    var idx, c, r := FirstEmpty(b), ListCandidates(b, FirstEmpty(b)), Children(b);
    ChildAt(b, idx, c, r, k);
    ZerosFill(b, idx, c[k]);
  }

  /** Helper for UniformBound: multiplying by at most nine. */
  lemma MulAtMostNine(n: nat, w: nat)
    requires n <= 9
    ensures n * w <= 9 * w
  {
  }

  /**
   * Replacing the popped snapshot top by its children keeps every
   * snapshot on the stack well formed, valid and extending start, and
   * lowers the measure of the stack.  The board simulate leaves behind
   * (the last child, or top itself when there is none) is valid and
   * extends start too.
   */
  lemma PushChildren(rest: seq<string>, top: string, start: seq<int>)
    requires IsDigitString(top) && IsBoard(Parse(top)) && 0 in Parse(top) && IsBoard(start)
    requires forall s :: s in rest ==> IsDigitString(s) && IsBoard(Parse(s))
    ensures var next := rest + Children(Parse(top));
      && (forall s :: s in next ==> IsDigitString(s) && IsBoard(Parse(s)))
      && Measure(next) < Measure(rest) + Weight(top)
    ensures (ValidPartial(Parse(top)) && Extends(Parse(top), start) &&
             (forall s :: s in rest ==> ValidPartial(Parse(s)) && Extends(Parse(s), start))) ==>
      forall s :: s in rest + Children(Parse(top)) ==> ValidPartial(Parse(s)) && Extends(Parse(s), start)
    ensures var list := Children(Parse(top));
      var last := if list == [] then Parse(top) else Parse(list[|list| - 1]);
      && IsBoard(last)
      && (ValidPartial(Parse(top)) && Extends(Parse(top), start) ==> ValidPartial(last) && Extends(last, start))
  {
    var b := Parse(top);
    var list := Children(b);
    ChildrenBoards(b);
    forall s | s in list ensures IsDigitString(s) && IsBoard(Parse(s)) {
      var k :| 0 <= k < |list| && list[k] == s;
    }
    if ValidPartial(b) && Extends(b, start) {
      ChildrenKeepValid(b, start);
    }
    ChildrenLighter(b);
    MeasureAppend(rest, list);
    if list != [] {
      assert list[|list| - 1] in list;
    }
  }
}
