/**
 * The SudokuSolver class.  Its one field, @field, is the board as a
 * mutable array of 81 cells: scan_and_fix writes into it, basic_solve
 * aliases it, and simulate replaces it by a freshly parsed board that it
 * then overwrites cell by cell.
 */
module Solver {
  import opened ArrayOps
  import opened Indexes
  import opened Board
  import opened Propagation
  import opened Snapshot
  import opened Search

  class SudokuSolver {
    var field: array<int>

    ghost predicate Valid()
      reads this, field
    {
      IsBoard(field[..])
    }

    /** The board the solver starts from; in sudoku.rb it is read from the script's DATA section (sudoku.rb:9). */
    constructor (board: seq<int>)
      requires IsBoard(board)
      ensures Valid() && fresh(field) && field[..] == board
    {
      field := new int[81](k requires 0 <= k < 81 reads {} => board[k]);
    }

    /** `scan_and_fix`: one pass over the 81 cells, fixing every single in place. */
    method ScanAndFix()
      requires Valid()
      modifies field
      ensures Valid()
      ensures field[..] == FixPass(old(field[..]))
    {
      ghost var start := field[..];
      var i := 0;
      while i < field.Length
        invariant 0 <= i <= field.Length
        invariant field[..] == ScanUpTo(start, i)
      {
        if field[i] == 0 {
          var c := ListCandidates(field[..], i);
          if |c| == 1 {
            field[i] := c[0];
          }
        }
        i := i + 1;
      }
    }

    /**
     * `basic_solve`: meant to repeat scan_and_fix until the board stops
     * changing, but `old_field = @field` makes old_field the very array
     * that scan_and_fix then updates, so the loop test holds after one
     * pass.
     */
    method BasicSolve()
      requires Valid()
      modifies field
      ensures Valid()
      ensures field[..] == FixPass(old(field[..]))
    {
      var oldField: array<int> := new int[0];
      while field[..] != oldField[..]
        invariant Valid()
        invariant oldField == field ==> field[..] == FixPass(old(field[..]))
        invariant oldField != field ==> field[..] == old(field[..]) && oldField.Length == 0
        decreases if oldField == field then 0 else 1
      {
        oldField := field;
        ScanAndFix();
      }
    }

    /**
     * basic_solve as its comment describes it: repeat scan_and_fix until a
     * pass leaves the board unchanged, comparing against a copy of the
     * board taken before each pass.  The new board is Propagated of the
     * old one, so it is a fixpoint of the pass: no empty cell is left with
     * exactly one candidate.
     */
    method Propagate()
      requires Valid()
      modifies field
      ensures Valid()
      ensures field[..] == Propagated(old(field[..]))
      ensures FixPass(field[..]) == field[..]
      ensures Extends(field[..], old(field[..]))
      ensures ValidPartial(old(field[..])) ==> ValidPartial(field[..])
    {
      ghost var start := field[..];
      var oldField: seq<int> := [];
      while field[..] != oldField
        invariant Valid()
        invariant oldField == [] ==> field[..] == start
        invariant oldField != [] ==> IsBoard(oldField) && field[..] == FixPass(oldField) && Propagated(oldField) == Propagated(start)
        decreases Zeros(field[..]) + if field[..] == oldField then 0 else 1
      {
        oldField := field[..];
        ScanAndFix();
        PropagatedStep(oldField);
        PassProgress(oldField);
      }
      PropagatedStep(field[..]);
      PropagatedKeeps(start);
    }

    /**
     * `simulate`: parses the snapshot into a new @field, finds its first
     * empty cell and returns one snapshot per candidate, writing each
     * candidate into @field in turn.
     */
    method Simulate(str: string) returns (list: seq<string>)
      requires IsDigitString(str) && '0' in str
      modifies this
      ensures Valid() && fresh(field)
      ensures IsBoard(Parse(str)) && 0 in Parse(str)
      ensures list == Children(Parse(str))
      ensures field[..] == if list == [] then Parse(str) else Parse(list[|list| - 1])
    {
      var b := Parse(str);
      ZeroInSnapshot(str);
      field := new int[81](k requires 0 <= k < 81 reads {} => b[k]);
      assert field[..] == b;
      var idx := IndexOf(field[..], 0).value;
      assert idx == FirstEmpty(b);
      var c := ListCandidates(field[..], idx);
      CandidateDigits(b, idx);
      list := WriteEach(b, idx, c);
      if list != [] {
        ParseJoin(b[idx := c[|c| - 1]]);
      }
    }

    /**
     * The `c.each` loop of simulate: writes each digit of c in turn into
     * cell idx of @field and snapshots the board after each write.
     */
    method WriteEach(b: seq<int>, idx: int, c: seq<int>) returns (list: seq<string>)
      requires IsBoard(b) && IsCell(idx)
      requires forall k :: 0 <= k < |c| ==> 1 <= c[k] <= 9
      requires field.Length == 81 && field[..] == b
      modifies field
      ensures list == Branches(b, idx, c)
      ensures field[..] == if c == [] then b else b[idx := c[|c| - 1]]
    {
      list := [];
      var j := 0;
      while j < |c|
        invariant 0 <= j <= |c|
        invariant field[..] == if j == 0 then b else b[idx := c[j - 1]]
        invariant list == Branches(b, idx, c[..j])
      {
        field[idx] := c[j];
        assert field[..] == b[idx := c[j]];
        list := list + [Join(field[..])];
        BranchesSnoc(b, idx, c, j);
        j := j + 1;
      }
      assert c[..j] == c;
    }

    /**
     * `deep_solve`: depth-first search over an explicit stack of
     * snapshots.  Pops a snapshot; returns it when it has no '0';
     * otherwise pushes the snapshots simulate derives from it.  Returns
     * None when the stack runs empty.
     */
    method DeepSolve() returns (result: Option<string>)
      requires Valid()
      modifies this
      ensures Valid()
      ensures result.Some? ==> IsDigitString(result.value) && '0' !in result.value
      ensures result.Some? && ValidPartial(old(field[..])) ==>
        Solved(Parse(result.value)) && Extends(Parse(result.value), old(field[..]))
      ensures 0 !in old(field[..]) ==>
        result == Some(Join(old(field[..]))) && field == old(field) && field[..] == old(field[..])
      ensures ValidPartial(old(field[..])) ==>
        ValidPartial(field[..]) && Extends(field[..], old(field[..]))
    {
      ghost var start := field[..];
      var stack := [Join(field[..])];
      ParseJoin(start);
      ZeroInSnapshot(stack[0]);
      while true
        invariant Valid()
        invariant forall s :: s in stack ==> IsDigitString(s) && IsBoard(Parse(s))
        invariant ValidPartial(start) ==>
          forall s :: s in stack ==> ValidPartial(Parse(s)) && Extends(Parse(s), start)
        invariant ValidPartial(start) ==> ValidPartial(field[..]) && Extends(field[..], start)
        invariant 0 !in start ==> stack == [Join(start)] && field == old(field) && field[..] == start
        decreases Measure(stack)
      {
        if stack == [] {
          return None;
        }
        var top := stack[|stack| - 1];
        ghost var popped := stack;
        stack := stack[..|stack| - 1];
        assert top in popped && forall s :: s in stack ==> s in popped;
        assert Measure(popped) == Measure(stack) + Weight(top);
        if IndexOf(top, '0').None? {
          ZeroInSnapshot(top);
          return Some(top);
        }
        ZeroInSnapshot(top);
        var list := Simulate(top);
        PushChildren(stack, top, start);
        if list == [] {
          assert stack + list == stack;
          continue;
        }
        stack := stack + list;
      }
    }
  }
}
