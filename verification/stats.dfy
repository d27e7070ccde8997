/** The win/loss record: games, wins, current and longest winning streak,
    and the fewest moves of any win. */
module Stats {

  /** Java's `Integer.MAX_VALUE`, the "no win yet" value of `leastMoves`. */
  const IntMax: int := 2147483647

  datatype Statistics = Statistics(
    games: int, wins: int, currentStreak: int, longestStreak: int, leastMoves: int)

  /** The counts are ordered as a record of real games orders them. */
  predicate Valid(s: Statistics) {
    0 <= s.currentStreak <= s.longestStreak <= s.wins <= s.games && s.leastMoves <= IntMax
  }

  /** A new record: nothing played and no least-moves value. */
  function Fresh(): (s: Statistics)
    ensures Valid(s)
    ensures s.games == 0 && s.wins == 0 && s.currentStreak == 0 && s.longestStreak == 0
    ensures s.leastMoves == IntMax
  {
    Statistics(0, 0, 0, 0, IntMax)
  }

  /** Records a win in `moves` moves. */
  function Win(s: Statistics, moves: int): (r: Statistics)
    ensures Valid(s) ==> Valid(r)
    ensures r.games == s.games + 1 && r.wins == s.wins + 1 && r.currentStreak == s.currentStreak + 1
    ensures r.longestStreak >= s.longestStreak && r.longestStreak >= r.currentStreak
    ensures r.longestStreak == s.longestStreak || r.longestStreak == r.currentStreak
    ensures r.leastMoves <= s.leastMoves && r.leastMoves <= moves
    ensures r.leastMoves == s.leastMoves || r.leastMoves == moves
  {
    var streak := s.currentStreak + 1;
    Statistics(s.games + 1, s.wins + 1, streak,
               if streak > s.longestStreak then streak else s.longestStreak,
               if moves < s.leastMoves then moves else s.leastMoves)
  }

  /** Records a loss: one more game, and the current streak is broken. */
  function Lose(s: Statistics): (r: Statistics)
    ensures Valid(s) ==> Valid(r)
    ensures r.games == s.games + 1 && r.currentStreak == 0
    ensures r.wins == s.wins && r.longestStreak == s.longestStreak && r.leastMoves == s.leastMoves
  {
    s.(games := s.games + 1, currentStreak := 0)
  }

  // ---------------------------------------------------------------------
  // The record as a summary of the history of results

  datatype Outcome = Won(moves: int) | Lost

  /** The record after the given results, oldest first, starting fresh. */
  function Replay(h: seq<Outcome>): Statistics
    decreases |h|
  {
    if |h| == 0 then Fresh()
    else
      var s := Replay(h[..|h| - 1]);
      match h[|h| - 1]
      case Won(m) => Win(s, m)
      case Lost => Lose(s)
  }

  predicate AllWins(h: seq<Outcome>) {
    forall i :: 0 <= i < |h| ==> h[i].Won?
  }

  /** The `len` results from position `i` on are all wins. */
  predicate WinRunAt(h: seq<Outcome>, i: int, len: int) {
    0 <= i && 0 <= len && i + len <= |h| && AllWins(h[i..i + len])
  }

  function WinCount(h: seq<Outcome>): nat
    decreases |h|
  {
    if |h| == 0 then 0 else WinCount(h[..|h| - 1]) + (if h[|h| - 1].Won? then 1 else 0)
  }

  /** Games and wins are counts of the history, and the record is valid. */
  lemma {:induction false} ReplayCounts(h: seq<Outcome>)
    ensures Valid(Replay(h)) && Replay(h).games == |h| && Replay(h).wins == WinCount(h)
    decreases |h|
  {
    if |h| > 0 {
      ReplayCounts(h[..|h| - 1]);
    }
  }

  /** The current streak is the run of wins that ends the history: those
      results are wins, and the one just before them (if any) is a loss. */
  lemma {:induction false} ReplayCurrent(h: seq<Outcome>)
    ensures var c := Replay(h).currentStreak;
            0 <= c <= |h| && AllWins(h[|h| - c..]) && (c < |h| ==> h[|h| - 1 - c].Lost?)
    decreases |h|
  {
    if |h| > 0 {
      var n := |h|;
      var p := h[..n - 1];
      ReplayCurrent(p);
      var c0 := Replay(p).currentStreak;
      var c := Replay(h).currentStreak;
      assert c == if h[n - 1].Won? then c0 + 1 else 0;
      if h[n - 1].Won? {
        forall k | n - c <= k < n
          ensures h[k].Won?
        {
          if k < n - 1 {
            assert h[k] == p[|p| - c0..][k - (n - c)];
          }
        }
        if c0 < |p| {
          assert h[n - 1 - c] == p[|p| - 1 - c0];
        }
      }
    }
  }

  /** The longest streak is the length of the longest run of consecutive
      wins anywhere in the history. */
  lemma ReplayLongest(h: seq<Outcome>)
    ensures forall i, j :: 0 <= i <= j <= |h| && AllWins(h[i..j]) ==> j - i <= Replay(h).longestStreak
    ensures exists i :: WinRunAt(h, i, Replay(h).longestStreak)
  {
    ReplayLongestBound(h);
    ReplayLongestAchieved(h);
  }

  /** No run of wins is longer than the longest streak. */
  lemma {:induction false} ReplayLongestBound(h: seq<Outcome>)
    ensures forall i, j :: 0 <= i <= j <= |h| && AllWins(h[i..j]) ==> j - i <= Replay(h).longestStreak
    decreases |h|
  {
    if |h| > 0 {
      var p := h[..|h| - 1];
      ReplayLongestBound(p);
      ReplayCounts(p);
      ReplayCurrent(h);
      var s := Replay(h);
      var n := |h|;
      assert s.longestStreak >= Replay(p).longestStreak && s.longestStreak >= s.currentStreak;
      forall i, j | 0 <= i <= j <= n && AllWins(h[i..j])
        ensures j - i <= s.longestStreak
      {
        if j < n {
          PrefixSlice(h, i, j);
        } else {
          WinsInRun(h, i, j);
        }
      }
    }
  }

  /** Some run of wins is exactly as long as the longest streak. */
  lemma {:induction false} ReplayLongestAchieved(h: seq<Outcome>)
    ensures exists i :: WinRunAt(h, i, Replay(h).longestStreak)
    decreases |h|
  {
    if |h| > 0 {
      var p := h[..|h| - 1];
      ReplayLongestAchieved(p);
      ReplayCounts(p);
      ReplayCurrent(h);
      var s0, s := Replay(p), Replay(h);
      var n := |h|;
      assert s.longestStreak == s0.longestStreak || s.longestStreak == s.currentStreak;
      if s.longestStreak == s0.longestStreak {
        var i :| WinRunAt(p, i, s0.longestStreak);
        PrefixSlice(h, i, i + s0.longestStreak);
        assert WinRunAt(h, i, s.longestStreak);
      } else {
        assert h[n - s.currentStreak..n] == h[n - s.currentStreak..];
        assert WinRunAt(h, n - s.currentStreak, s.longestStreak);
      }
    } else {
      assert Replay(h) == Fresh();
      assert WinRunAt(h, 0, 0);
    }
  }

  /** A slice that ends before the last result is the same slice of the
      history without it. */
  lemma PrefixSlice(h: seq<Outcome>, i: int, j: int)
    requires 0 <= i <= j < |h|
    ensures h[..|h| - 1][i..j] == h[i..j]
  {
  }

  /** Every result inside a run of wins is a win. */
  lemma WinsInRun(h: seq<Outcome>, i: int, j: int)
    requires 0 <= i <= j <= |h| && AllWins(h[i..j])
    ensures forall k :: i <= k < j ==> h[k].Won?
  {
    forall k | i <= k < j
      ensures h[k].Won?
    {
      assert h[i..j][k - i] == h[k];
    }
  }

  /** The least moves is no more than the move count of any win, and is
      either `IntMax` or the move count of some win. */
  lemma {:induction false} ReplayLeast(h: seq<Outcome>)
    ensures forall i :: 0 <= i < |h| && h[i].Won? ==> Replay(h).leastMoves <= h[i].moves
    ensures Replay(h).leastMoves == IntMax || exists i :: 0 <= i < |h| && h[i] == Won(Replay(h).leastMoves)
    decreases |h|
  {
    if |h| > 0 {
      var p := h[..|h| - 1];
      ReplayLeast(p);
      var s0, s := Replay(p), Replay(h);
      assert forall i :: 0 <= i < |p| ==> h[i] == p[i];
      if s.leastMoves != s0.leastMoves {
        assert h[|h| - 1] == Won(s.leastMoves);
      } else if s.leastMoves != IntMax {
        var i :| 0 <= i < |p| && p[i] == Won(s.leastMoves);
        assert h[i] == p[i];
      }
    }
  }
}
