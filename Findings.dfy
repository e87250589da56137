/**
 * A board on which one scan_and_fix pass is not a fixpoint.  Row 0 is
 * `_ _ 3 4 5 6 7 8 9` and cell 28 (row 3, column 1) holds 2; every other
 * cell is empty.  The pass leaves cell 0 alone (its candidates are 1 and
 * 2), then fills cell 1 with 1 (column 1 holds the 2); only a second pass
 * sees that cell 0 must be 2.  basic_solve stops after the first pass, so
 * it misses that fill.
 */
module Findings {
  import opened ArrayOps
  import opened Indexes
  import opened Board
  import opened Propagation

  function Witness(): (b: seq<int>)
    ensures IsBoard(b)
    ensures forall j :: 0 <= j < 81 ==> (b[j] != 0 <==> 2 <= j <= 8 || j == 28)
  {
    seq(81, j => if 2 <= j <= 8 then j + 1 else if j == 28 then 2 else 0)
  }

  /** The witness after the first pass: cell 1 holds 1. */
  function AfterOnePass(): (b: seq<int>)
    ensures IsBoard(b)
  {
    Witness()[1 := 1]
  }

  /** The witness is a legal partial sudoku: no digit repeats in a row, column or grid. */
  lemma WitnessValid()
    ensures ValidPartial(Witness())
  {
    var b := Witness();
    forall i, j | IsCell(i) && IsCell(j) && i != j && Peers(i, j) && b[i] != 0
      ensures b[i] != b[j]
    {
      assert b[i] == if i == 28 then 2 else i + 1;
    }
  }

  /** Every empty cell of the witness outside row 0 keeps two candidates after the first pass. */
  lemma LowerCellUndecided(k: int)
    requires 9 <= k < 81 && AfterOnePass()[k] == 0
    ensures |ListCandidates(AfterOnePass(), k)| >= 2
  {
    var b := AfterOnePass();
    assert forall j :: IsCell(j) && b[j] != 0 ==> b[j] == if j == 1 then 1 else if j == 28 then 2 else j + 1;
    if (k % 9) / 3 < 2 {
      TwoCandidates(b, k, 7, 8);
    } else {
      TwoCandidates(b, k, 4, 5);
    }
  }

  /** Cell 0 of the witness has the two candidates 1 and 2. */
  lemma FirstCellUndecided()
    ensures |ListCandidates(Witness(), 0)| >= 2
  {
    TwoCandidates(Witness(), 0, 1, 2);
  }

  /** Cell 1 of the witness has the single candidate 1. */
  lemma SecondCellForced()
    ensures ListCandidates(Witness(), 1) == [1]
  {
    var b := Witness();
    forall e ensures IsCandidate(b, 1, e) <==> e == 1 {
      if e == 2 {
        assert Peers(1, 28) && b[28] == 2;
      } else if 3 <= e <= 9 {
        assert Peers(1, e - 1) && b[e - 1] == e;
      }
    }
    OnlyCandidate(b, 1, 1);
  }

  /** The first two steps of the pass keep cell 0 and fill cell 1 with 1. */
  lemma ScanFirstTwo()
    ensures ScanUpTo(Witness(), 2) == AfterOnePass()
  {
    var b := Witness();
    FirstCellUndecided();
    assert ScanUpTo(b, 1) == b;
    SecondCellForced();
  }

  /** The pass leaves every cell from 2 on as it finds it once cell 1 holds 1. */
  lemma LaterCellKept(k: int)
    requires 2 <= k < 81
    ensures FixCell(AfterOnePass(), k) == AfterOnePass()
  {
    var a := AfterOnePass();
    if a[k] == 0 {
      LowerCellUndecided(k);
    }
  }

  /** After cell 1 is filled, nothing else in the first pass changes. */
  lemma {:induction false} ScanStable(n: int)
    requires 2 <= n <= 81
    ensures ScanUpTo(Witness(), n) == AfterOnePass()
  {
    if n == 2 {
      ScanFirstTwo();
    } else {
      ScanStable(n - 1);
      LaterCellKept(n - 1);
    }
  }

  /** Cell 0 has the single candidate 2 once cell 1 holds 1. */
  lemma FirstCellForcedLater()
    ensures ListCandidates(AfterOnePass(), 0) == [2]
  {
    var b := AfterOnePass();
    forall e ensures IsCandidate(b, 0, e) <==> e == 2 {
      if e == 1 {
        assert Peers(0, 1) && b[1] == 1;
      } else if 3 <= e <= 9 {
        assert Peers(0, e - 1) && b[e - 1] == e;
      }
    }
    OnlyCandidate(b, 0, 2);
  }

  /**
   * One pass on the witness fills only cell 1, and a second pass then
   * fills cell 0 with 2: a single pass is not a fixpoint, so basic_solve,
   * which stops after one pass, leaves a forced cell empty.
   */
  lemma OnePassNotFixpoint()
    ensures ValidPartial(Witness())
    ensures FixPass(Witness()) == AfterOnePass()
    ensures FixPass(AfterOnePass())[0] == 2 && AfterOnePass()[0] == 0
    ensures FixPass(FixPass(Witness())) != FixPass(Witness())
  {
    WitnessValid();
    ScanStable(81);
    FirstCellForcedLater();
    PassWrites(AfterOnePass(), 0);
  }
}
