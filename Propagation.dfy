/**
 * Single-candidate propagation.  `scan_and_fix` walks the 81 cells in
 * index order and, in place, writes the only candidate of every empty
 * cell that has exactly one; a later cell therefore sees the digits
 * written earlier in the same pass.  ScanUpTo(b, n) is the board after
 * the walk has visited cells 0..n-1, and FixPass is the whole pass.
 */
module Propagation {
  import opened ArrayOps
  import opened Indexes
  import opened Board

  /** The body of the scan loop for cell i. */
  function FixCell(b: seq<int>, i: int): (r: seq<int>)
    requires IsBoard(b) && IsCell(i)
    ensures IsBoard(r)
    ensures forall k :: 0 <= k < 81 && k != i ==> r[k] == b[k]
    ensures r[i] != b[i] <==> b[i] == 0 && |ListCandidates(b, i)| == 1
    ensures r[i] != b[i] ==> ListCandidates(b, i) == [r[i]]
  {
    if b[i] != 0 then b
    else
      var c := ListCandidates(b, i);
      if |c| == 1 then
        assert c[0] in c && c == [c[0]];
        assert 1 <= c[0] <= 9;
        b[i := c[0]]
      else b
  }

  /** Fixing a single keeps a valid partial board valid. */
  lemma FixCellKeepsValid(b: seq<int>, i: int)
    requires IsBoard(b) && IsCell(i) && ValidPartial(b)
    ensures ValidPartial(FixCell(b, i))
  {
    if b[i] == 0 {
      var c := ListCandidates(b, i);
      if |c| == 1 {
        assert c[0] in c;
        FillKeepsValid(b, i, c[0]);
      }
    }
  }

  /**
   * The board after the scan has visited cells 0..n-1.  ScanFrame and
   * PassWrites state which cells it has changed and to what.
   */
  function ScanUpTo(b: seq<int>, n: int): (r: seq<int>)
    requires IsBoard(b) && 0 <= n <= 81
    ensures IsBoard(r)
    decreases n
  {
    if n == 0 then b else FixCell(ScanUpTo(b, n - 1), n - 1)
  }

  /**
   * One complete `scan_and_fix` pass.  PassWrites states what it writes,
   * PassKeeps that it keeps the givens and validity, StableIffNoSingle
   * when it changes nothing.
   */
  function FixPass(b: seq<int>): (r: seq<int>)
    requires IsBoard(b)
    ensures IsBoard(r)
  {
    ScanUpTo(b, 81)
  }

  /**
   * Cells the scan has not reached yet still hold their original value,
   * and a visited cell is never touched again.
   */
  lemma {:induction false} ScanFrame(b: seq<int>, n: int)
    requires IsBoard(b) && 0 <= n <= 81
    ensures forall k :: n <= k < 81 ==> ScanUpTo(b, n)[k] == b[k]
    ensures forall k :: 0 <= k < n ==> ScanUpTo(b, n)[k] == ScanUpTo(b, k + 1)[k]
  {
    if n > 0 {
      ScanFrame(b, n - 1);
    }
  }

  /** The scan keeps every non-zero cell: the result extends the input. */
  lemma {:induction false} ScanKeepsGivens(b: seq<int>, n: int)
    requires IsBoard(b) && 0 <= n <= 81
    ensures Extends(ScanUpTo(b, n), b)
  {
    if n > 0 {
      ScanKeepsGivens(b, n - 1);
    }
  }

  /** The scan keeps a valid partial board valid. */
  lemma {:induction false} ScanKeepsValid(b: seq<int>, n: int)
    requires IsBoard(b) && 0 <= n <= 81
    requires ValidPartial(b)
    ensures ValidPartial(ScanUpTo(b, n))
  {
    if n > 0 {
      ScanKeepsValid(b, n - 1);
      FixCellKeepsValid(ScanUpTo(b, n - 1), n - 1);
    }
  }

  /**
   * What one pass writes: cell k changes iff it was empty and, on the
   * board as updated by the cells before it (ScanUpTo(b, k), which
   * ScanIsPrefixOfPass shows is FixPass(b)[..k] + b[k..]), it has exactly
   * one candidate; it then holds that candidate.
   */
  lemma PassWrites(b: seq<int>, k: int)
    requires IsBoard(b) && IsCell(k)
    ensures ScanUpTo(b, k)[k] == b[k]
    ensures FixPass(b)[k] != b[k] <==> b[k] == 0 && |ListCandidates(ScanUpTo(b, k), k)| == 1
    ensures FixPass(b)[k] != b[k] ==> ListCandidates(ScanUpTo(b, k), k) == [FixPass(b)[k]]
  {
    ScanFrame(b, k);
    ScanFrame(b, 81);
  }

  /**
   * The board the scan has reached at cell k is the pass's own output on
   * cells 0..k-1 and the untouched input from k on.
   */
  lemma ScanIsPrefixOfPass(b: seq<int>, k: int)
    requires IsBoard(b) && 0 <= k <= 81
    ensures ScanUpTo(b, k) == FixPass(b)[..k] + b[k..]
  {
    var r, p := ScanUpTo(b, k), FixPass(b);
    ScanFrame(b, k);
    ScanFrame(b, 81);
    forall j | 0 <= j < 81 ensures r[j] == (p[..k] + b[k..])[j] {
      if j < k {
        assert r[j] == ScanUpTo(b, j + 1)[j] == p[j];
      }
    }
  }

  /** A full pass keeps the givens and the validity of the board. */
  lemma PassKeeps(b: seq<int>)
    requires IsBoard(b)
    ensures Extends(FixPass(b), b)
    ensures ValidPartial(b) ==> ValidPartial(FixPass(b))
  {
    ScanKeepsGivens(b, 81);
    if ValidPartial(b) {
      ScanKeepsValid(b, 81);
    }
  }

  /**
   * A pass leaves a board unchanged iff no empty cell of it has exactly
   * one candidate.
   */
  lemma StableIffNoSingle(b: seq<int>)
    requires IsBoard(b)
    ensures FixPass(b) == b <==> forall k :: IsCell(k) && b[k] == 0 ==> |ListCandidates(b, k)| != 1
  {
    if FixPass(b) == b {
      forall k | IsCell(k) && b[k] == 0 ensures |ListCandidates(b, k)| != 1 {
        StableScan(b, k);
        PassWrites(b, k);
      }
    } else if forall k :: IsCell(k) && b[k] == 0 ==> |ListCandidates(b, k)| != 1 {
      ScanIdle(b, 81);
    }
  }

  /** On a board the pass leaves unchanged, every prefix of the scan is the board itself. */
  lemma StableScan(b: seq<int>, n: int)
    requires IsBoard(b) && 0 <= n <= 81 && FixPass(b) == b
    ensures ScanUpTo(b, n) == b
  {
    ScanFrame(b, 81);
    ScanFrame(b, n);
    var r := ScanUpTo(b, n);
    forall k | 0 <= k < 81 ensures r[k] == b[k] {
      if k < n {
        assert r[k] == ScanUpTo(b, k + 1)[k] == FixPass(b)[k];
      }
    }
  }

  /** On a board without a single, no step of the scan changes anything. */
  lemma {:induction false} ScanIdle(b: seq<int>, n: int)
    requires IsBoard(b) && 0 <= n <= 81
    requires forall k :: IsCell(k) && b[k] == 0 ==> |ListCandidates(b, k)| != 1
    ensures ScanUpTo(b, n) == b
  {
    if n > 0 {
      ScanIdle(b, n - 1);
    }
  }

  /**
   * Filling empty cells with digits, and changing nothing else, lowers
   * the number of empty cells unless nothing changed at all.
   */
  lemma {:induction false} ZerosDecrease(a: seq<int>, b: seq<int>)
    requires |a| == |b|
    requires forall k :: 0 <= k < |a| && a[k] != b[k] ==> a[k] == 0 && b[k] != 0
    ensures Zeros(b) <= Zeros(a)
    ensures a != b ==> Zeros(b) < Zeros(a)
  {
    if a != [] {
      ZerosDecrease(a[1..], b[1..]);
      if a != b && a[1..] == b[1..] {
        assert a == [a[0]] + a[1..] && b == [b[0]] + b[1..];
      }
    }
  }

  /** A pass that changes the board removes at least one empty cell. */
  lemma PassProgress(b: seq<int>)
    requires IsBoard(b)
    ensures Zeros(FixPass(b)) <= Zeros(b)
    ensures FixPass(b) != b ==> Zeros(FixPass(b)) < Zeros(b)
  {
    var r := FixPass(b);
    forall k | 0 <= k < 81 && b[k] != r[k] ensures b[k] == 0 && r[k] != 0 {
      PassWrites(b, k);
      var c := ListCandidates(ScanUpTo(b, k), k);
      assert r[k] in c;
    }
    ZerosDecrease(b, r);
  }

  /**
   * What basic_solve's comment at sudoku.rb:29 describes: passes repeated
   * until one leaves the board unchanged.  The result is a fixpoint of
   * the pass, so (StableIffNoSingle) no empty cell of it has exactly one
   * candidate; PropagatedKeeps shows it keeps the givens and the validity
   * of b.
   */
  function Propagated(b: seq<int>): (r: seq<int>)
    requires IsBoard(b)
    ensures IsBoard(r) && FixPass(r) == r
    decreases Zeros(b)
  {
    PassProgress(b);
    if FixPass(b) == b then b else Propagated(FixPass(b))
  }

  /** Repeated passes keep every given and keep a valid partial board valid. */
  lemma {:induction false} PropagatedKeeps(b: seq<int>)
    requires IsBoard(b)
    ensures Extends(Propagated(b), b)
    ensures ValidPartial(b) ==> ValidPartial(Propagated(b))
    decreases Zeros(b)
  {
    if FixPass(b) != b {
      PassProgress(b);
      PassKeeps(b);
      PropagatedKeeps(FixPass(b));
    }
  }

  /**
   * One more pass does not change where repeated passes end, and a board
   * the pass leaves unchanged is where they end.
   */
  lemma PropagatedStep(b: seq<int>)
    requires IsBoard(b)
    ensures Propagated(FixPass(b)) == Propagated(b)
    ensures FixPass(b) == b ==> Propagated(b) == b
  {
  }

  /** Repeating passes on a board where repeated passes have ended changes nothing. */
  lemma PropagatedIdempotent(b: seq<int>)
    requires IsBoard(b)
    ensures Propagated(Propagated(b)) == Propagated(b)
  {
    PropagatedStep(Propagated(b));
  }
}
