/**
 Contiguity of one polled window: what pushing the rows a venue serves does to it, exactly
 when a hole opens, and that a hole never closes again.
 */
module Grid {
  import opened Bars
  import opened Ring

  /** Consecutive bars of the timeframe grid, each closing one millisecond before its boundary. */
  predicate Contiguous(w: seq<Candle>, tfMs: int)
    requires 0 < tfMs
  {
    && (forall i | 0 <= i < |w| - 1 :: w[i + 1].closeTime == w[i].closeTime + tfMs)
    && (forall i | 0 <= i < |w| :: (w[i].closeTime + 1) % tfMs == 0)
  }

  /** The boundary the window reaches: the end of its newest bar. */
  function Reach(w: seq<Candle>): int
    requires w != []
  {
    Last(w).closeTime + 1
  }

  /**
   What a venue answers to a request for `n + 1` rows when the newest closed bar ends at
   `boundary`: the `n` newest closed bars, oldest first, and after them the bar still forming.
   */
  predicate Serves(rows: seq<Candle>, n: nat, boundary: int, tfMs: int)
    requires 0 < tfMs
  {
    && |rows| == n + 1
    && boundary % tfMs == 0
    && (forall i | 0 <= i < |rows| :: rows[i].closeTime == boundary - 1 - (n - 1 - i) * tfMs)
    && (forall i | 0 <= i < n :: IsSane(rows[i]))
  }

  lemma GridDistance(a: int, b: int, tfMs: int)
    requires 0 < tfMs && a % tfMs == 0 && b % tfMs == 0 && a < b
    ensures a + tfMs <= b
  {
    var k := b / tfMs - a / tfMs;
    assert b - a == k * tfMs;
    assert k <= 0 ==> k * tfMs <= 0;
    assert k >= 1 ==> k * tfMs >= tfMs;
  }

  lemma OnGrid(boundary: int, k: int, tfMs: int)
    requires 0 < tfMs && boundary % tfMs == 0
    ensures (boundary - k * tfMs) % tfMs == 0
  {
    assert boundary - k * tfMs == (boundary / tfMs - k) * tfMs;
    MultipleHasNoRemainder(boundary / tfMs - k, tfMs);
  }

  /** One row on the grid: the window stays contiguous unless the row skips a bar. */
  lemma PushOnGrid(w: seq<Candle>, row: Candle, tfMs: int)
    requires 0 < tfMs && w != [] && Contiguous(w, tfMs) && (row.closeTime + 1) % tfMs == 0
    ensures var w' := PushBounded(w, row);
      && w' != []
      && Reach(w') == Max(Reach(w), row.closeTime + 1)
      && (Contiguous(w', tfMs) <==> row.closeTime + 1 <= Reach(w) + tfMs)
  {
    PushShape(w, row);
    LastIsOnGrid(w, tfMs);
    hide Contiguous, PushBounded;
    if Reach(w) < row.closeTime + 1 {
      GridDistance(Reach(w), row.closeTime + 1, tfMs);
      var kept := if |w| >= CAPACITY then w[1..] else w;
      SuffixIsContiguous(w, |w| - |kept|, tfMs);
      assert w[0..] == w;
      AppendOnGrid(kept, row, tfMs);
    } else if Reach(w) == row.closeTime + 1 {
      ReplayOnGrid(w, row, tfMs);
    }
  }

  lemma LastIsOnGrid(w: seq<Candle>, tfMs: int)
    requires 0 < tfMs && w != [] && Contiguous(w, tfMs)
    ensures Reach(w) % tfMs == 0
  {
  }

  lemma PushShape(w: seq<Candle>, row: Candle)
    requires w != []
    ensures PushBounded(w, row) ==
      if row.closeTime + 1 < Reach(w) then w
      else if row.closeTime + 1 == Reach(w) then w[|w| - 1 := row]
      else (if |w| >= CAPACITY then w[1..] else w) + [row]
  {
  }

  lemma ReplayOnGrid(w: seq<Candle>, row: Candle, tfMs: int)
    requires 0 < tfMs && w != [] && Contiguous(w, tfMs) && row.closeTime == w[|w| - 1].closeTime
    ensures Contiguous(w[|w| - 1 := row], tfMs)
  {
    var w' := w[|w| - 1 := row];
    assert forall i | 0 <= i < |w| :: w'[i].closeTime == w[i].closeTime;
    forall i | 0 <= i < |w'| - 1 ensures w'[i + 1].closeTime == w'[i].closeTime + tfMs {
      assert w[i + 1].closeTime == w[i].closeTime + tfMs;
    }
  }

  lemma SuffixIsContiguous(w: seq<Candle>, from: nat, tfMs: int)
    requires 0 < tfMs && from <= |w| && Contiguous(w, tfMs)
    ensures Contiguous(w[from..], tfMs)
  {
    forall i | 0 <= i < |w[from..]| - 1 ensures w[from..][i + 1].closeTime == w[from..][i].closeTime + tfMs {
      assert w[from + i + 1].closeTime == w[from + i].closeTime + tfMs;
    }
  }

  lemma AppendOnGrid(w: seq<Candle>, row: Candle, tfMs: int)
    requires 0 < tfMs && w != [] && Contiguous(w, tfMs) && (row.closeTime + 1) % tfMs == 0
    ensures Contiguous(w + [row], tfMs) <==> row.closeTime == w[|w| - 1].closeTime + tfMs
  {
    var w' := w + [row];
    assert w'[|w| - 1 + 1] == row && w'[|w| - 1] == w[|w| - 1];
  }

  /** A jump of more than one bar, `back` entries before the newest. */
  predicate HoleAt(w: seq<Candle>, back: nat, tfMs: int)
  {
    back + 2 <= |w| && w[|w| - 1 - back].closeTime > w[|w| - 2 - back].closeTime + tfMs
  }

  lemma HoleMeansNotContiguous(w: seq<Candle>, back: nat, tfMs: int)
    requires 0 < tfMs && HoleAt(w, back, tfMs)
    ensures !Contiguous(w, tfMs)
  {
  }

  /** No push fills a hole; it only moves one entry further back, until capacity evicts it. */
  lemma PushKeepsHole(w: seq<Candle>, back: nat, row: Candle, tfMs: int)
    requires 0 < tfMs && HoleAt(w, back, tfMs) && back + 3 <= CAPACITY
    ensures HoleAt(PushBounded(w, row), back, tfMs) || HoleAt(PushBounded(w, row), back + 1, tfMs)
  {
  }

  lemma {:induction false} PushAllKeepsHole(w: seq<Candle>, back: nat, rows: seq<Candle>, tfMs: int)
    requires 0 < tfMs && HoleAt(w, back, tfMs) && back + |rows| + 2 <= CAPACITY
    ensures exists b: nat :: b <= back + |rows| && HoleAt(PushAllBounded(w, rows), b, tfMs)
  {
    if rows == [] {
      assert HoleAt(PushAllBounded(w, rows), back, tfMs);
    } else {
      var most := rows[..|rows| - 1];
      PushAllKeepsHole(w, back, most, tfMs);
      var b: nat :| b <= back + |most| && HoleAt(PushAllBounded(w, most), b, tfMs);
      PushKeepsHole(PushAllBounded(w, most), b, rows[|rows| - 1], tfMs);
      assert HoleAt(PushAllBounded(w, rows), b, tfMs) || HoleAt(PushAllBounded(w, rows), b + 1, tfMs);
    }
  }

  lemma SplitContiguous(rows: seq<Candle>, n: nat, tfMs: int)
    requires 0 < tfMs && n + 1 == |rows| && Contiguous(rows, tfMs)
    ensures Contiguous(rows[..n], tfMs) && (rows[n].closeTime + 1) % tfMs == 0
    ensures n > 0 ==> rows[n].closeTime == Last(rows[..n]).closeTime + tfMs
  {
  }

  /** Rows that run along the grid from at most one bar past the window leave it contiguous. */
  lemma {:induction false} GridRowsExtend(w: seq<Candle>, rows: seq<Candle>, tfMs: int)
    requires 0 < tfMs && w != [] && Contiguous(w, tfMs) && rows != [] && Contiguous(rows, tfMs)
    requires rows[0].closeTime + 1 <= Reach(w) + tfMs
    ensures var w' := PushAllBounded(w, rows);
      w' != [] && Contiguous(w', tfMs) && Reach(w') == Max(Reach(w), Reach(rows))
  {
    var n := |rows| - 1;
    if n == 0 {
      assert PushAllBounded(w, rows[..0]) == w;
      PushOnGrid(w, rows[0], tfMs);
    } else {
      hide Contiguous, PushBounded;
      SplitContiguous(rows, n, tfMs);
      GridRowsExtend(w, rows[..n], tfMs);
      PushOnGrid(PushAllBounded(w, rows[..n]), rows[n], tfMs);
    }
  }

  lemma {:induction false} GridRowsFillEmpty(rows: seq<Candle>, tfMs: int)
    requires 0 < tfMs && rows != [] && Contiguous(rows, tfMs)
    ensures var w' := PushAllBounded([], rows);
      w' != [] && Contiguous(w', tfMs) && Reach(w') == Reach(rows)
  {
    var n := |rows| - 1;
    assert PushAllBounded([], rows[..0]) == [];
    if n > 0 {
      hide Contiguous, PushBounded;
      SplitContiguous(rows, n, tfMs);
      GridRowsFillEmpty(rows[..n], tfMs);
      PushOnGrid(PushAllBounded([], rows[..n]), rows[n], tfMs);
    }
  }

  /** The closed rows of an answer, oldest first, end at the venue's boundary. */
  lemma ServedRowsRunToTheBoundary(rows: seq<Candle>, n: nat, boundary: int, tfMs: int)
    requires 0 < tfMs && 0 < n && Serves(rows, n, boundary, tfMs)
    ensures var closed := rows[..n];
      Contiguous(closed, tfMs) && closed[0].closeTime + 1 == boundary - (n - 1) * tfMs && Reach(closed) == boundary
  {
    var closed := rows[..n];
    forall i | 0 <= i < n ensures (closed[i].closeTime + 1) % tfMs == 0 {
      OnGrid(boundary, n - 1 - i, tfMs);
    }
    forall i | 0 <= i < n - 1 ensures closed[i + 1].closeTime == closed[i].closeTime + tfMs {
      assert (n - 1 - i) * tfMs == (n - 1 - (i + 1)) * tfMs + tfMs;
    }
  }

  lemma ServedRowsHaveClosed(rows: seq<Candle>, n: nat, boundary: int, tfMs: int)
    requires 0 < tfMs && Serves(rows, n, boundary, tfMs)
    ensures forall c | c in rows[..n] :: c.closeTime < boundary && IsSane(c)
    ensures rows[n].closeTime == boundary - 1 + tfMs
  {
    forall i | 0 <= i < n ensures rows[i].closeTime < boundary {
      NonNegativeProduct(n - 1 - i, tfMs);
    }
    assert (n - 1 - n) * tfMs == -tfMs;
  }

  lemma NonNegativeProduct(a: nat, b: nat)
    ensures 0 <= a * b
  {
  }

  /**
   The exact condition: an answer of the `n` newest closed bars leaves a contiguous window
   contiguous exactly when those bars reach back to where the window ends.
   */
  lemma AnswerKeepsContiguityExactly(w: seq<Candle>, rows: seq<Candle>, n: nat, boundary: int, tfMs: int)
    requires 0 < tfMs && w != [] && Contiguous(w, tfMs)
    requires 0 < n < CAPACITY && Serves(rows, n, boundary, tfMs)
    ensures var w' := PushAllBounded(w, rows[..n]);
      && (Contiguous(w', tfMs) <==> boundary - n * tfMs <= Reach(w))
      && (boundary - n * tfMs <= Reach(w) ==> w' != [] && Reach(w') == Max(Reach(w), boundary))
  {
    var closed := rows[..n];
    ServedRowsRunToTheBoundary(rows, n, boundary, tfMs);
    assert (n - 1) * tfMs + tfMs == n * tfMs;
    if boundary - n * tfMs <= Reach(w) {
      GridRowsExtend(w, closed, tfMs);
    } else {
      var w1 := PushBounded(w, closed[0]);
      assert HoleAt(w1, 0, tfMs);
      PushAllKeepsHole(w1, 0, closed[1..], tfMs);
      PushAllSplits(w, [closed[0]], closed[1..]);
      assert [closed[0]] + closed[1..] == closed;
      assert PushAllBounded(w, [closed[0]]) == w1 by { assert [closed[0]][..0] == []; }
      var b: nat :| HoleAt(PushAllBounded(w1, closed[1..]), b, tfMs);
      HoleMeansNotContiguous(PushAllBounded(w, closed), b, tfMs);
    }
  }

  // ---------------------------------------------------------------- holes never close

  predicate Holds(w: seq<Candle>, t: int)
  {
    exists i | 0 <= i < |w| :: w[i].closeTime == t
  }

  /** A bar older than the newest one stored can never be added, whatever the venue sends. */
  lemma {:induction false} AMissedBarIsNeverStored(w: seq<Candle>, rows: seq<Candle>, t: int)
    requires w != [] && t < Last(w).closeTime && !Holds(w, t)
    ensures var w' := PushAllBounded(w, rows); w' != [] && t < Last(w').closeTime && !Holds(w', t)
  {
    if rows != [] {
      AMissedBarIsNeverStored(w, rows[..|rows| - 1], t);
      var before, row := PushAllBounded(w, rows[..|rows| - 1]), rows[|rows| - 1];
      var after := PushBounded(before, row);
      forall i | 0 <= i < |after| ensures after[i].closeTime != t {
        assert after[i] == row || after[i] in before;
      }
    }
  }
}
