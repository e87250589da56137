/**
 * Boards and the candidate engine.  A board is the flat list of 81
 * cell values 0..9 that SudokuSolver keeps in @field; 0 is an empty cell.
 */
module Board {
  import opened ArrayOps
  import opened Indexes

  /** Every value is a digit 0..9. */
  predicate IsDigits(b: seq<int>) {
    forall k :: 0 <= k < |b| ==> 0 <= b[k] <= 9
  }

  predicate IsBoard(b: seq<int>) {
    |b| == 81 && IsDigits(b)
  }

  /** No two distinct cells that share a row, column or grid hold the same non-zero digit. */
  ghost predicate ValidPartial(b: seq<int>)
    requires IsBoard(b)
  {
    forall i, j :: IsCell(i) && IsCell(j) && i != j && Peers(i, j) && b[i] != 0 ==> b[i] != b[j]
  }

  /** b keeps every digit that start already holds. */
  ghost predicate Extends(b: seq<int>, start: seq<int>)
    requires IsBoard(b) && IsBoard(start)
  {
    forall k :: IsCell(k) && start[k] != 0 ==> b[k] == start[k]
  }

  /** A completely filled board with no clash: a solved sudoku. */
  ghost predicate Solved(b: seq<int>) {
    IsBoard(b) && (forall k :: IsCell(k) ==> b[k] != 0) && ValidPartial(b)
  }

  /** Number of empty cells. */
  function Zeros(b: seq<int>): (n: nat)
    ensures n <= |b|
    ensures n == 0 <==> 0 !in b
  {
    if b == [] then 0
    else
      assert b == [b[0]] + b[1..];
      (if b[0] == 0 then 1 else 0) + Zeros(b[1..])
  }

  /** d may be written into cell idx: it is a digit 1..9 that no peer of idx holds. */
  ghost predicate IsCandidate(b: seq<int>, idx: int, d: int)
    requires IsBoard(b) && IsCell(idx)
  {
    1 <= d <= 9 && forall j :: IsCell(j) && Peers(idx, j) ==> b[j] != d
  }

  /** ALL_NUMBER: the digits 1..9 in ascending order. */
  function AllNumber(): (r: seq<int>)
    ensures StrictlyIncreasing(r)
    ensures forall d :: d in r <==> 1 <= d <= 9
  {
    Range(1, 9)
  }

  /**
   * `list_candidates`: the digits that no cell of idx's row, column or
   * grid holds, ascending.  Only ever called on an empty cell.
   */
  function ListCandidates(b: seq<int>, idx: int): (r: seq<int>)
    requires IsBoard(b) && IsCell(idx) && b[idx] == 0
    ensures forall d :: d in r <==> IsCandidate(b, idx, d)
    ensures StrictlyIncreasing(r)
    ensures |r| <= 9
  {
    var indexes := Uniq(Flatten([RowIndexes(idx), ColIndexes(idx), GridIndexes(idx)]));
    PeerIndexes(idx, indexes);
    assert forall k :: 0 <= k < |indexes| ==> indexes[k] in indexes;
    var values := ValuesAt(b, indexes);
    var held := Uniq(Select(values, v => v != 0));
    HeldDigits(b, idx, indexes, values, held);
    Difference(AllNumber(), held)
  }

  /** Every candidate is a digit 1..9. */
  lemma CandidateDigits(b: seq<int>, idx: int)
    requires IsBoard(b) && IsCell(idx) && b[idx] == 0
    ensures forall k :: 0 <= k < |ListCandidates(b, idx)| ==> 1 <= ListCandidates(b, idx)[k] <= 9
  {
    var c := ListCandidates(b, idx);
    forall k | 0 <= k < |c| ensures 1 <= c[k] <= 9 {
      assert c[k] in c;
    }
  }

  /** A digit is among the held values of list_candidates iff some peer of idx holds it. */
  lemma HeldDigits(b: seq<int>, idx: int, indexes: seq<int>, values: seq<int>, held: seq<int>)
    requires IsBoard(b) && IsCell(idx)
    requires forall j :: j in indexes <==> IsCell(j) && Peers(idx, j)
    requires |values| == |indexes|
    requires forall k :: 0 <= k < |indexes| ==> IsCell(indexes[k]) && values[k] == b[indexes[k]]
    requires forall x :: x in held <==> x in values && x != 0
    ensures forall d :: 1 <= d <= 9 ==> (d !in held <==> IsCandidate(b, idx, d))
  {
    forall d | 1 <= d <= 9 ensures d in held <==> !IsCandidate(b, idx, d) {
      if d in held {
        var k :| 0 <= k < |values| && values[k] == d;
        assert indexes[k] in indexes;
      }
      if !IsCandidate(b, idx, d) {
        var j :| IsCell(j) && Peers(idx, j) && b[j] == d;
        assert j in indexes;
        var k :| 0 <= k < |indexes| && indexes[k] == j;
        assert values[k] == d;
      }
    }
  }

  /** The index list of list_candidates holds exactly the peers of idx. */
  lemma PeerIndexes(idx: int, indexes: seq<int>)
    requires IsCell(idx)
    requires indexes == Uniq(Flatten([RowIndexes(idx), ColIndexes(idx), GridIndexes(idx)]))
    ensures forall j :: j in indexes <==> IsCell(j) && Peers(idx, j)
  {
    var units := [RowIndexes(idx), ColIndexes(idx), GridIndexes(idx)];
    forall j ensures j in indexes <==> j in units[0] || j in units[1] || j in units[2] {
      assert (exists k :: 0 <= k < |units| && j in units[k]) <==> j in units[0] || j in units[1] || j in units[2];
    }
  }

  /**
   * Writing a candidate into an empty cell of a valid partial board
   * leaves it a valid partial board.
   */
  lemma FillKeepsValid(b: seq<int>, idx: int, d: int)
    requires IsBoard(b) && IsCell(idx) && b[idx] == 0
    requires ValidPartial(b) && IsCandidate(b, idx, d)
    ensures IsBoard(b[idx := d]) && ValidPartial(b[idx := d])
    ensures Extends(b[idx := d], b)
  {
    var c := b[idx := d];
    forall i, j | IsCell(i) && IsCell(j) && i != j && Peers(i, j) && c[i] != 0
      ensures c[i] != c[j]
    {
      if i == idx {
        assert Peers(idx, j);
      } else if j == idx {
        assert Peers(idx, i);
      }
    }
  }

  /** Two different candidates leave a cell with more than one. */
  lemma TwoCandidates(b: seq<int>, k: int, d1: int, d2: int)
    requires IsBoard(b) && IsCell(k) && b[k] == 0
    requires d1 != d2 && IsCandidate(b, k, d1) && IsCandidate(b, k, d2)
    ensures |ListCandidates(b, k)| >= 2
  {
    var c := ListCandidates(b, k);
    TwoValues(c, d1, d2);
  }

  /** A cell with exactly one candidate d has [d] as its candidate list. */
  lemma OnlyCandidate(b: seq<int>, k: int, d: int)
    requires IsBoard(b) && IsCell(k) && b[k] == 0
    requires forall e :: IsCandidate(b, k, e) <==> e == d
    ensures ListCandidates(b, k) == [d]
  {
    var c := ListCandidates(b, k);
    assert d in c;
    assert forall x :: x in c ==> x == d;
    SingleValue(c, d);
  }
}
