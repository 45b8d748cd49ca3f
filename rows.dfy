/**
 * The row collapse at the heart of every 2048 move: drop the empty cells,
 * merge each adjacent equal pair once in a single left-to-right scan, and
 * pad the row with empty cells back to the board size. An empty cell holds 0.
 */
module Rows {

  /** Sum of the values of a row. */
  function Sum(s: seq<int>): (r: int)
  {
    if |s| == 0 then 0 else s[0] + Sum(s[1..])
  }

  lemma {:induction false} SumAppend(a: seq<int>, b: seq<int>)
    ensures Sum(a + b) == Sum(a) + Sum(b)
  {
    if |a| == 0 {
      assert a + b == b;
    } else {
      assert (a + b)[1..] == a[1..] + b;
      SumAppend(a[1..], b);
    }
  }

  /** A cell value the game can produce: empty, or a power of two from 2 up. */
  predicate IsPowerOfTwo(v: int)
    decreases v
  {
    v == 1 || (v > 1 && v % 2 == 0 && IsPowerOfTwo(v / 2))
  }

  predicate IsTile(v: int)
  {
    v == 0 || (v >= 2 && IsPowerOfTwo(v))
  }

  ghost predicate AllTiles(s: seq<int>)
  {
    forall k :: 0 <= k < |s| ==> IsTile(s[k])
  }

  /** The row with its empty cells dropped, the others kept in order. */
  function NonZero(s: seq<int>): (r: seq<int>)
    ensures |r| <= |s|
    ensures forall k :: 0 <= k < |r| ==> r[k] != 0
  {
    if |s| == 0 then []
    else
      assert s == [s[0]] + s[1..];
      if s[0] == 0 then NonZero(s[1..]) else [s[0]] + NonZero(s[1..])
  }

  /** No two neighbouring values of s are equal, so nothing in s can merge. */
  ghost predicate NoEqualNeighbours(s: seq<int>)
  {
    forall k :: 0 <= k && k + 1 < |s| ==> s[k] != s[k + 1]
  }

  /**
   * One left-to-right scan over a compacted row: a value equal to its right
   * neighbour is replaced, together with that neighbour, by their double,
   * and the scan resumes after both; any other value is kept.
   */
  function Merge(s: seq<int>): (r: seq<int>)
    ensures |r| <= |s| <= 2 * |r|
    ensures (forall k :: 0 <= k < |s| ==> s[k] != 0) ==> forall k :: 0 <= k < |r| ==> r[k] != 0
    decreases |s|
  {
    if |s| == 0 then []
    else if |s| >= 2 && s[0] == s[1] then [2 * s[0]] + Merge(s[2..])
    else [s[0]] + Merge(s[1..])
  }

  /** The score earned by the scan of Merge: the value of every merged tile. */
  function Gain(s: seq<int>): (r: int)
    decreases |s|
  {
    if |s| == 0 then 0
    else if |s| >= 2 && s[0] == s[1] then 2 * s[0] + Gain(s[2..])
    else Gain(s[1..])
  }

  function Zeros(k: nat): (r: seq<int>)
    ensures |r| == k && forall i :: 0 <= i < k ==> r[i] == 0
  {
    seq(k, _ => 0)
  }

  /** s followed by as many empty cells as it takes to reach length n. */
  function Pad(s: seq<int>, n: nat): (r: seq<int>)
    ensures |r| == if |s| < n then n else |s|
    ensures r[..|s|] == s && forall k :: |s| <= k < |r| ==> r[k] == 0
  {
    if |s| < n then s + Zeros(n - |s|) else s
  }

  /** A row of width n after a move to the left. */
  function CollapseRow(row: seq<int>, n: nat): (r: seq<int>)
  {
    Pad(Merge(NonZero(row)), n)
  }

  /** The score a move to the left earns on one row. */
  function RowGain(row: seq<int>): (r: int)
  {
    Gain(NonZero(row))
  }

  /** Every empty cell lies to the right of every tile. */
  ghost predicate ZerosTrailing(s: seq<int>)
  {
    forall i, j :: 0 <= i <= j < |s| && s[i] == 0 ==> s[j] == 0
  }

  /** A row that a move to the left leaves as it is. */
  ghost predicate Settled(s: seq<int>)
  {
    ZerosTrailing(s) && forall k :: 0 <= k && k + 1 < |s| && s[k + 1] != 0 ==> s[k] != s[k + 1]
  }

  function Reversed(s: seq<int>): (r: seq<int>)
    ensures |r| == |s|
    ensures forall k :: 0 <= k < |s| ==> r[k] == s[|s| - 1 - k]
  {
    seq(|s|, k requires 0 <= k < |s| => s[|s| - 1 - k])
  }

  /**
   * The row collapse as the move loop runs it: filter out the empty cells,
   * scan with an index that skips past both tiles of a merge while adding
   * each merged value to the score, then pad with empty cells.
   */
  method CollapseRowLeft(cells: seq<int>, size: nat) returns (merged: seq<int>, gain: int)
    ensures merged == CollapseRow(cells, size)
    ensures gain == RowGain(cells)
  {
    var row := NonZero(cells);
    merged := [];
    gain := 0;
    var j := 0;
    while j < |row|
      invariant 0 <= j <= |row|
      invariant merged + Merge(row[j..]) == Merge(row)
      invariant gain + Gain(row[j..]) == Gain(row)
    {
      if j < |row| - 1 && row[j] == row[j + 1] {
        MergeStep(row, j, merged);
        merged := merged + [2 * row[j]];
        gain := gain + 2 * row[j];
        j := j + 2;
      } else {
        KeepStep(row, j, merged);
        merged := merged + [row[j]];
        j := j + 1;
      }
    }
    assert merged == Merge(row) by {
      assert row[j..] == [];
    }
    merged := PadWithZeros(merged, size);
  }

  /** Appends empty cells to the row until it is size cells long. */
  method PadWithZeros(row: seq<int>, size: nat) returns (padded: seq<int>)
    ensures padded == Pad(row, size)
  {
    padded := row;
    while |padded| < size
      invariant padded == row + Zeros(|padded| - |row|)
      invariant |padded| <= if |row| < size then size else |row|
      decreases size - |padded|
    {
      assert row + Zeros(|padded| + 1 - |row|) == padded + [0];
      padded := padded + [0];
    }
    assert padded == Pad(row, size) by {
      if |row| >= size {
        assert Zeros(0) == [];
      }
    }
  }

  /** One step of the scan when the tile at j merges with its neighbour. */
  lemma MergeStep(row: seq<int>, j: nat, merged: seq<int>)
    requires j + 1 < |row| && row[j] == row[j + 1]
    ensures merged + Merge(row[j..]) == (merged + [2 * row[j]]) + Merge(row[j + 2..])
    ensures Gain(row[j..]) == 2 * row[j] + Gain(row[j + 2..])
  {
    var t := row[j..];
    assert t[0] == t[1] && t[2..] == row[j + 2..];
    assert Merge(t) == [2 * row[j]] + Merge(row[j + 2..]);
  }

  /** One step of the scan when the tile at j is kept as it is. */
  lemma KeepStep(row: seq<int>, j: nat, merged: seq<int>)
    requires j < |row| && !(j + 1 < |row| && row[j] == row[j + 1])
    ensures merged + Merge(row[j..]) == (merged + [row[j]]) + Merge(row[j + 1..])
    ensures Gain(row[j..]) == Gain(row[j + 1..])
  {
    var t := row[j..];
    assert t[0] == row[j] && t[1..] == row[j + 1..];
    assert Merge(t) == [row[j]] + Merge(row[j + 1..]);
  }

  // ---- Facts about the pieces of the collapse ----

  lemma {:induction false} SumNonZero(s: seq<int>)
    ensures Sum(NonZero(s)) == Sum(s)
  {
    if |s| > 0 {
      SumNonZero(s[1..]);
      if s[0] != 0 {
        SumAppend([s[0]], NonZero(s[1..]));
      }
    }
  }

  lemma {:induction false} SumZeros(k: nat)
    ensures Sum(Zeros(k)) == 0
  {
    if k > 0 {
      assert Zeros(k)[1..] == Zeros(k - 1);
      SumZeros(k - 1);
    }
  }

  lemma {:induction false} NonZeroAppend(a: seq<int>, b: seq<int>)
    ensures NonZero(a + b) == NonZero(a) + NonZero(b)
  {
    if |a| == 0 {
      assert a + b == b;
    } else {
      assert (a + b)[1..] == a[1..] + b;
      NonZeroAppend(a[1..], b);
    }
  }

  /** Dropping the empty cells keeps every tile value as often as the row has it, and no empty cell. */
  lemma {:induction false} NonZeroCounts(s: seq<int>)
    ensures forall v :: v != 0 ==> multiset(NonZero(s))[v] == multiset(s)[v]
    ensures multiset(NonZero(s))[0] == 0
  {
    if |s| > 0 {
      NonZeroCounts(s[1..]);
      assert s == [s[0]] + s[1..];
      assert multiset(s) == multiset{s[0]} + multiset(s[1..]);
      if s[0] != 0 {
        assert multiset(NonZero(s)) == multiset{s[0]} + multiset(NonZero(s[1..]));
      }
    }
  }

  /** Dropping the empty cells of a row that has none changes nothing. */
  lemma {:induction false} NonZeroOfFull(s: seq<int>)
    requires forall k :: 0 <= k < |s| ==> s[k] != 0
    ensures NonZero(s) == s
  {
    if |s| > 0 {
      NonZeroOfFull(s[1..]);
      assert s == [s[0]] + s[1..];
    }
  }

  lemma {:induction false} NonZeroOfZeros(k: nat)
    ensures NonZero(Zeros(k)) == []
  {
    if k > 0 {
      assert Zeros(k)[1..] == Zeros(k - 1);
      NonZeroOfZeros(k - 1);
    }
  }

  /** When nothing is dropped the row had no empty cell. */
  lemma {:induction false} NonZeroKeepsAll(s: seq<int>)
    requires |NonZero(s)| == |s|
    ensures NonZero(s) == s
  {
    if |s| > 0 {
      assert s[0] != 0;
      NonZeroKeepsAll(s[1..]);
      assert s == [s[0]] + s[1..];
    }
  }

  /** A row whose empty cells are all on the right is its tiles followed by empty cells. */
  lemma {:induction false} PackedForm(s: seq<int>)
    requires ZerosTrailing(s)
    ensures s == NonZero(s) + Zeros(|s| - |NonZero(s)|)
  {
    if |s| > 0 {
      if s[0] == 0 {
        assert forall j :: 0 <= j < |s| ==> s[j] == 0;
        NonZeroOfZeros(|s|);
        assert s == Zeros(|s|);
      } else {
        assert ZerosTrailing(s[1..]) by {
          forall i, j | 0 <= i <= j < |s[1..]| && s[1..][i] == 0
            ensures s[1..][j] == 0
          {
            assert s[i + 1] == 0;
          }
        }
        PackedForm(s[1..]);
        assert s == [s[0]] + s[1..];
      }
    }
  }

  /**
   * The merge scan conserves the total of the row, and it keeps the row
   * exactly as it is precisely when no two neighbours are equal; then it
   * also earns nothing.
   */
  lemma {:induction false} MergeConserves(s: seq<int>)
    ensures Sum(Merge(s)) == Sum(s)
    ensures |Merge(s)| == |s| <==> NoEqualNeighbours(s)
    ensures NoEqualNeighbours(s) ==> Merge(s) == s && Gain(s) == 0
  {
    if |s| == 0 {
    } else if |s| >= 2 && s[0] == s[1] {
      MergeConserves(s[2..]);
      assert s[1..][1..] == s[2..];
      SumAppend([2 * s[0]], Merge(s[2..]));
      assert !NoEqualNeighbours(s) by { assert s[0] == s[0 + 1]; }
    } else {
      MergeConserves(s[1..]);
      SumAppend([s[0]], Merge(s[1..]));
      assert NoEqualNeighbours(s) <==> NoEqualNeighbours(s[1..]) by {
        if NoEqualNeighbours(s[1..]) {
          forall k | 0 <= k && k + 1 < |s| ensures s[k] != s[k + 1] {
            if k > 0 { assert s[1..][k - 1] == s[k] && s[1..][k] == s[k + 1]; }
          }
        }
        if NoEqualNeighbours(s) {
          forall k | 0 <= k && k + 1 < |s[1..]| ensures s[1..][k] != s[1..][k + 1] {
            assert s[k + 1] != s[k + 2];
          }
        }
      }
      assert s == [s[0]] + s[1..];
    }
  }

  /**
   * On a row of tiles the score of the scan is never negative, never more
   * than the row's total, and zero exactly when no two neighbours are equal.
   */
  lemma {:induction false} GainBounds(s: seq<int>)
    requires forall k :: 0 <= k < |s| ==> s[k] > 0
    ensures 0 <= Gain(s) <= Sum(s)
    ensures Gain(s) == 0 <==> NoEqualNeighbours(s)
  {
    if |s| == 0 {
    } else if |s| >= 2 && s[0] == s[1] {
      GainBounds(s[2..]);
      assert s[1..][1..] == s[2..];
      assert !NoEqualNeighbours(s) by { assert s[0] == s[0 + 1]; }
    } else {
      GainBounds(s[1..]);
      MergeConserves(s);
      MergeConserves(s[1..]);
      if NoEqualNeighbours(s[1..]) && |s| >= 2 {
        assert NoEqualNeighbours(s) by {
          forall k | 0 <= k && k + 1 < |s| ensures s[k] != s[k + 1] {
            if k > 0 { assert s[1..][k - 1] == s[k] && s[1..][k] == s[k + 1]; }
          }
        }
      }
      if NoEqualNeighbours(s) {
        assert NoEqualNeighbours(s[1..]) by {
          forall k | 0 <= k && k + 1 < |s[1..]| ensures s[1..][k] != s[1..][k + 1] {
            assert s[k + 1] != s[k + 2];
          }
        }
      }
    }
  }

  /** Merging tiles yields tiles: the double of a power of two is one. */
  lemma {:induction false} MergeKeepsTiles(s: seq<int>)
    requires AllTiles(s)
    ensures AllTiles(Merge(s))
    decreases |s|
  {
    if |s| >= 2 && s[0] == s[1] {
      MergeKeepsTiles(s[2..]);
      assert IsTile(2 * s[0]) by {
        if s[0] != 0 { assert (2 * s[0]) / 2 == s[0]; }
      }
      assert AllTiles(s[2..]) by {
        forall k | 0 <= k < |s[2..]| ensures IsTile(s[2..][k]) { assert s[2..][k] == s[k + 2]; }
      }
    } else if |s| > 0 {
      assert AllTiles(s[1..]) by {
        forall k | 0 <= k < |s[1..]| ensures IsTile(s[1..][k]) { assert s[1..][k] == s[k + 1]; }
      }
      MergeKeepsTiles(s[1..]);
    }
  }

  lemma {:induction false} NonZeroKeepsTiles(s: seq<int>)
    requires AllTiles(s)
    ensures AllTiles(NonZero(s))
  {
    if |s| > 0 {
      assert AllTiles(s[1..]) by {
        forall k | 0 <= k < |s[1..]| ensures IsTile(s[1..][k]) { assert s[1..][k] == s[k + 1]; }
      }
      NonZeroKeepsTiles(s[1..]);
    }
  }

  // ---- The row collapse ----

  /**
   * Shape of a collapsed row: it has the board width, its tiles come first
   * and its empty cells fill the rest, its tiles are the merge of the
   * original tiles (the original tiles themselves, in order, when nothing
   * merges), and the total of the row is unchanged.
   */
  lemma CollapseRowShape(row: seq<int>, n: nat)
    requires |row| == n
    ensures |CollapseRow(row, n)| == n
    ensures ZerosTrailing(CollapseRow(row, n))
    ensures NonZero(CollapseRow(row, n)) == Merge(NonZero(row))
    ensures NoEqualNeighbours(NonZero(row)) ==> NonZero(CollapseRow(row, n)) == NonZero(row)
    ensures Sum(CollapseRow(row, n)) == Sum(row)
  {
    var m := Merge(NonZero(row));
    var r := CollapseRow(row, n);
    assert r == m + Zeros(n - |m|);
    NonZeroAppend(m, Zeros(n - |m|));
    NonZeroOfFull(m);
    NonZeroOfZeros(n - |m|);
    SumAppend(m, Zeros(n - |m|));
    SumZeros(n - |m|);
    MergeConserves(NonZero(row));
    SumNonZero(row);
  }

  /** Collapsing a row of tiles yields a row of tiles. */
  lemma CollapseRowKeepsTiles(row: seq<int>, n: nat)
    requires |row| == n && AllTiles(row)
    ensures AllTiles(CollapseRow(row, n))
  {
    NonZeroKeepsTiles(row);
    MergeKeepsTiles(NonZero(row));
  }

  /** A row of tiles earns a score between zero and the row's total. */
  lemma RowGainBounds(row: seq<int>)
    requires AllTiles(row)
    ensures 0 <= RowGain(row) <= Sum(row)
  {
    NonZeroKeepsTiles(row);
    SumNonZero(row);
    GainBounds(NonZero(row));
  }

  /**
   * A move to the left leaves a row unchanged exactly when its empty cells
   * are all on the right and no two neighbouring tiles are equal.
   */
  lemma CollapseUnchangedIff(row: seq<int>)
    ensures CollapseRow(row, |row|) == row <==> Settled(row)
  {
    var n := |row|;
    var c := NonZero(row);
    var m := Merge(c);
    if CollapseRow(row, n) == row {
      CollapseRowShape(row, n);
      assert c == m;
      MergeConserves(c);
      assert row == m + Zeros(n - |m|);
      forall k | 0 <= k && k + 1 < n && row[k + 1] != 0 ensures row[k] != row[k + 1] {
        assert k + 1 < |c|;
      }
    }
    if Settled(row) {
      PackedForm(row);
      assert NoEqualNeighbours(c) by {
        forall k | 0 <= k && k + 1 < |c| ensures c[k] != c[k + 1] {
          assert row[k] == c[k] && row[k + 1] == c[k + 1];
        }
      }
      MergeConserves(c);
    }
  }

  /** A row that a move to the left changes ends with an empty cell. */
  lemma ChangedRowHasRoom(row: seq<int>)
    requires CollapseRow(row, |row|) != row
    ensures 0 in CollapseRow(row, |row|)
  {
    var n := |row|;
    var c := NonZero(row);
    var m := Merge(c);
    if |m| < n {
      assert CollapseRow(row, n)[|m|] == 0;
    } else {
      assert |c| == n && |m| == |c|;
      NonZeroKeepsAll(row);
      MergeConserves(c);
      assert false;
    }
  }

  /** A row that a move to the left does not change earns no score. */
  lemma UnchangedRowEarnsNothing(row: seq<int>)
    requires CollapseRow(row, |row|) == row
    ensures RowGain(row) == 0
  {
    CollapseRowShape(row, |row|);
    MergeConserves(NonZero(row));
  }

  /** The reversal of a row is its own inverse. */
  lemma ReversedTwice(s: seq<int>)
    ensures Reversed(Reversed(s)) == s
  {
  }

  /** Four equal tiles make two merges, never a merge of a merged tile. */
  lemma CollapseFourEqual()
    ensures CollapseRow([2, 2, 2, 2], 4) == [4, 4, 0, 0] && RowGain([2, 2, 2, 2]) == 8
  {
    NonZeroOfFull([2, 2, 2, 2]);
    assert [2, 2, 2, 2][2..] == [2, 2] && [2, 2][2..] == [];
  }

  /** Tiles merge across an empty cell between them. */
  lemma CollapseAcrossGap()
    ensures CollapseRow([2, 0, 2, 4], 4) == [4, 4, 0, 0] && RowGain([2, 0, 2, 4]) == 4
  {
    assert NonZero([2, 0, 2, 4]) == [2, 2, 4] by {
      assert [2, 0, 2, 4][1..] == [0, 2, 4];
      assert [0, 2, 4][1..] == [2, 4];
      NonZeroOfFull([2, 4]);
    }
    assert [2, 2, 4][2..] == [4] && [4][1..] == [];
  }

  /** The merged pair in the middle does not merge again with the equal tile beside it. */
  lemma CollapseMiddlePair()
    ensures CollapseRow([4, 2, 2, 4], 4) == [4, 4, 4, 0] && RowGain([4, 2, 2, 4]) == 4
  {
    NonZeroOfFull([4, 2, 2, 4]);
    assert [4, 2, 2, 4][1..] == [2, 2, 4] && [2, 2, 4][2..] == [4] && [4][1..] == [];
  }
}
