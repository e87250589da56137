/**
 * Board snapshots.  The search keeps boards as strings: `@field.join`
 * turns the 81 digits into an 81-character string, and
 * `str.delete("\n").split("").map(&:to_i)` turns such a string back into
 * a board.
 */
module Snapshot {
  import opened ArrayOps
  import opened Board

  /** `Integer#to_s` of a single digit. */
  function DigitChar(d: int): (c: char)
    requires 0 <= d <= 9
    ensures '0' <= c <= '9'
  {
    (48 + d) as char
  }

  /** `String#to_i` of a one-character string: its digit value, 0 for any other character. */
  function CharToInt(c: char): (n: int)
    ensures 0 <= n <= 9
    ensures '0' <= c <= '9' ==> DigitChar(n) == c
  {
    if '0' <= c <= '9' then c as int - 48 else 0
  }

  /** An 81-character string of decimal digits, the form of every snapshot. */
  predicate IsDigitString(s: string) {
    |s| == 81 && forall k :: 0 <= k < |s| ==> '0' <= s[k] <= '9'
  }

  /** `Array#join` of a list of digits. */
  function Join(b: seq<int>): (s: string)
    requires IsDigits(b)
    ensures |s| == |b|
    ensures forall k :: 0 <= k < |s| ==> '0' <= s[k] <= '9'
  {
    seq(|b|, k requires 0 <= k < |b| => DigitChar(b[k]))
  }

  /** `String#delete("\n")`. */
  function DeleteNewlines(s: string): (r: string)
    ensures forall c :: c in r <==> c in s && c != '\n'
    ensures '\n' !in s ==> r == s
  {
    if s == [] then []
    else
      assert forall c :: c in s <==> c == s[0] || c in s[1..];
      (if s[0] == '\n' then [] else [s[0]]) + DeleteNewlines(s[1..])
  }

  /** `str.delete("\n").split("").map(&:to_i)`. */
  function Parse(s: string): (b: seq<int>)
    ensures IsDigits(b)
    ensures '\n' !in s ==> |b| == |s|
  {
    var t := DeleteNewlines(s);
    seq(|t|, k requires 0 <= k < |t| => CharToInt(t[k]))
  }

  /** Parsing a joined board gives the board back. */
  lemma ParseJoin(b: seq<int>)
    requires IsDigits(b)
    ensures Parse(Join(b)) == b
  {
    var s := Join(b);
    assert '\n' !in s;
    assert forall k :: 0 <= k < |b| ==> CharToInt(s[k]) == b[k];
  }

  /** Joining a parsed snapshot gives the snapshot back. */
  lemma JoinParse(s: string)
    requires IsDigitString(s)
    ensures IsBoard(Parse(s))
    ensures Join(Parse(s)) == s
  {
    assert '\n' !in s;
  }

  /** `field.index("0")` on a snapshot finds the same cell as `@field.index(0)` on its board. */
  lemma {:induction false} IndexOfZero(b: seq<int>)
    requires IsDigits(b)
    ensures IndexOf(Join(b), '0') == IndexOf(b, 0)
  {
    if b != [] {
      assert Join(b)[1..] == Join(b[1..]);
      IndexOfZero(b[1..]);
    }
  }

  /** A snapshot has a '0' iff its board has an empty cell. */
  lemma ZeroInSnapshot(s: string)
    requires IsDigitString(s)
    ensures IsBoard(Parse(s))
    ensures '0' in s <==> 0 in Parse(s)
  {
    JoinParse(s);
    IndexOfZero(Parse(s));
  }
}
