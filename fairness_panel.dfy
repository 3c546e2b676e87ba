/** The fairness overview of `src/components/dashboard/FairnessPanel.tsx`:
    a leaderboard per period, the colour of each position, and the fairness
    score as a label and a colour. */
module FairnessPanel {
  import opened Collections
  import opened Records
  import opened Analytics

  predicate MoreCompletions(a: KidStats, b: KidStats)
  {
    a.totalCompletions >= b.totalCompletions
  }

  /** `getLeaderboard`: the stats, most completions first. */
  function Leaderboard(stats: seq<KidStats>): (r: seq<KidStats>)
    ensures multiset(r) == multiset(stats)
    ensures forall i, j :: 0 <= i < j < |r| ==> r[i].totalCompletions >= r[j].totalCompletions
  {
    assert IsTotalPreorder(MoreCompletions);
    SortBySorted(stats, MoreCompletions);
    var r := SortBy(stats, MoreCompletions);
    assert forall i, j :: 0 <= i < j < |r| ==> MoreCompletions(r[i], r[j]);
    r
  }

  datatype PositionColor = Green | Yellow | Gray

  /** `getPositionColor(stats, index)`: tied with the first entry is green;
      else, with more than one entry, tied with the last is yellow. */
  function GetPositionColor(stats: seq<KidStats>, index: nat): PositionColor
    requires stats == [] || index < |stats|
  {
    if stats == [] then Gray
    else
      var current := stats[index].totalCompletions;
      if current == stats[0].totalCompletions then Green
      else if |stats| > 1 && current == stats[|stats| - 1].totalCompletions then Yellow
      else Gray
  }

  /** On a leaderboard an entry is green iff it has the most completions,
      yellow iff it has the fewest but not the most, and gray otherwise; the
      first entry is always green. */
  lemma PositionColorOnLeaderboard(stats: seq<KidStats>, i: nat)
    requires i < |stats|
    ensures var board := Leaderboard(stats);
      var counts := CompletionCounts(board);
      && |board| == |stats|
      && (GetPositionColor(board, i) == Green <==> board[i].totalCompletions == Max(counts))
      && (GetPositionColor(board, i) == Yellow <==>
            board[i].totalCompletions != Max(counts) && board[i].totalCompletions == Min(counts))
      && GetPositionColor(board, 0) == Green
  {
    var board := Leaderboard(stats);
    assert |board| == |stats| by {
      assert |multiset(board)| == |multiset(stats)|;
    }
    var key := (s: KidStats) => s.totalCompletions as int;
    assert SortedBy(board, (a: KidStats, b: KidStats) => key(a) >= key(b));
    SortedDescendingEnds(board, key);
    assert CompletionCounts(board) == Map(board, key);
    if |board| == 1 {
      assert board[i] == board[0];
    }
  }

  /** Every position is green exactly when the fairness score is 0. */
  lemma AllGreenIffPerfect(stats: seq<KidStats>)
    ensures var board := Leaderboard(stats);
      (forall i :: 0 <= i < |board| ==> GetPositionColor(board, i) == Green) <==> CalculateFairness(stats) == 0
  {
    var board := Leaderboard(stats);
    SameElements(board, stats);
    if forall i :: 0 <= i < |board| ==> GetPositionColor(board, i) == Green {
      AllGreenMeansEqual(stats);
    }
    if CalculateFairness(stats) == 0 {
      forall i | 0 <= i < |board| ensures GetPositionColor(board, i) == Green {
        assert board[i] in stats && board[0] in stats;
        var a :| 0 <= a < |stats| && stats[a] == board[i];
        var b :| 0 <= b < |stats| && stats[b] == board[0];
      }
    }
  }

  lemma AllGreenMeansEqual(stats: seq<KidStats>)
    requires var board := Leaderboard(stats);
      forall i :: 0 <= i < |board| ==> GetPositionColor(board, i) == Green
    ensures forall a, b :: 0 <= a < |stats| && 0 <= b < |stats| ==>
      stats[a].totalCompletions == stats[b].totalCompletions
  {
    var board := Leaderboard(stats);
    SameElements(board, stats);
    forall a | 0 <= a < |stats| ensures stats[a].totalCompletions == board[0].totalCompletions {
      assert stats[a] in board;
      var k :| 0 <= k < |board| && board[k] == stats[a];
      assert GetPositionColor(board, k) == Green;
    }
  }

  const TasksDifference: string := " tasks difference"

  /** The score text: 'Perfect!', '1 task difference' or `${n} tasks difference`. */
  function FairnessLabel(fairness: nat): string
  {
    if fairness == 0 then "Perfect!"
    else if fairness == 1 then "1 task difference"
    else DecimalString(fairness) + TasksDifference
  }

  /** The label names the score: different scores read differently, and
      the number can be read back from a label of the third form. */
  lemma FairnessLabelNamesScore(a: nat, b: nat)
    ensures FairnessLabel(a) == FairnessLabel(b) ==> a == b
    ensures a >= 2 ==> ParseDecimal(FairnessLabel(a)[..|FairnessLabel(a)| - |TasksDifference|]) == a
  {
    if a >= 2 {
      var text := FairnessLabel(a);
      assert text[..|text| - |TasksDifference|] == DecimalString(a);
      DecimalRoundTrip(a);
    }
    assert |"1 task difference"| == |TasksDifference| == 17;
    if FairnessLabel(a) == FairnessLabel(b) && a >= 2 && b >= 2 {
      var la := FairnessLabel(a);
      assert la[..|la| - |TasksDifference|] == DecimalString(a);
      assert la[..|la| - |TasksDifference|] == DecimalString(b);
      DecimalStringInjective(a, b);
    }
  }

  /** The score colours, from best to worst. */
  datatype Tone = Good | Fair | Poor

  function Severity(t: Tone): nat
  {
    match t
    case Good => 0
    case Fair => 1
    case Poor => 2
  }

  /** The colour of a score against two thresholds. */
  function ToneFor(fairness: nat, good: nat, fair: nat): Tone
  {
    if fairness <= good then Good else if fairness <= fair then Fair else Poor
  }

  /** The last-7-days colour: green up to 1, yellow up to 3, red above. */
  function WeeklyTone(fairness: nat): Tone
  {
    ToneFor(fairness, 1, 3)
  }

  /** The last-30-days colour: green up to 2, yellow up to 5, red above. */
  function MonthlyTone(fairness: nat): Tone
  {
    ToneFor(fairness, 2, 5)
  }

  /** A larger spread never gets a better colour, the monthly scale is never
      stricter than the weekly one, and a perfect score is green on both. */
  lemma TonesOrdered(a: nat, b: nat)
    requires a <= b
    ensures Severity(WeeklyTone(a)) <= Severity(WeeklyTone(b))
    ensures Severity(MonthlyTone(a)) <= Severity(MonthlyTone(b))
    ensures Severity(MonthlyTone(a)) <= Severity(WeeklyTone(a))
    ensures WeeklyTone(0) == Good && MonthlyTone(0) == Good
  {
  }
}
