/**
 * A worked instance of the candidate engine: row 0 is
 * `5 3 _ 6 7 8 9 1 2` and every other cell is empty.  The only digit
 * missing from the row is 4, so cell 2 has the single candidate 4 and one
 * scan_and_fix pass writes it.
 */
module Examples {
  import opened ArrayOps
  import opened Indexes
  import opened Board
  import opened Propagation

  function RowZeroBoard(): (b: seq<int>)
    ensures IsBoard(b)
  {
    seq(81, j => if j == 0 then 5 else if j == 1 then 3 else if 3 <= j <= 6 then j + 3
                 else if j == 7 then 1 else if j == 8 then 2 else 0)
  }

  /** Cell 2 has exactly the candidate 4. */
  lemma RowZeroCandidates()
    ensures RowZeroBoard()[2] == 0
    ensures ListCandidates(RowZeroBoard(), 2) == [4]
  {
    var b := RowZeroBoard();
    forall e ensures IsCandidate(b, 2, e) <==> e == 4 {
      var holder := if e == 5 then 0 else if e == 3 then 1 else if e == 1 then 7 else if e == 2 then 8 else e - 3;
      if 1 <= e <= 9 && e != 4 {
        assert Peers(2, holder) && b[holder] == e;
      }
    }
    OnlyCandidate(b, 2, 4);
  }

  /** One pass fills cell 2 with 4. */
  lemma RowZeroPass()
    ensures FixPass(RowZeroBoard())[2] == 4
  {
    var b := RowZeroBoard();
    assert ScanUpTo(b, 1) == b;
    assert ScanUpTo(b, 2) == b;
    RowZeroCandidates();
    PassWrites(b, 2);
  }
}
