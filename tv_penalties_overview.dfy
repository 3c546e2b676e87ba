/** The TV-penalty board of
    `src/components/dashboard/TvPenaltiesOverview.tsx`: the penalty
    statistics merged onto the kid list, most minutes first. */
module TvPenaltiesOverview {
  import opened Collections
  import opened Records
  import opened Analytics
  import opened KidSelection

  /** `penalties.find(p => p.kidId === kidId)`. */
  function FindPenalty(penalties: seq<PenaltyStats>, kidId: Id): (r: Option<PenaltyStats>)
    ensures r.Some? ==> r.value in penalties && r.value.kidId == kidId
    ensures r.None? <==> forall p :: p in penalties ==> p.kidId != kidId
  {
    if penalties == [] then None
    else if penalties[0].kidId == kidId then Some(penalties[0])
    else FindPenalty(penalties[1..], kidId)
  }

  /** One `kidPenalties` entry: the kid's record, or zeros when it has none. */
  function KidPenalty(penalties: seq<PenaltyStats>, kid: KidRef): (r: PenaltyStats)
    ensures r.kidId == kid.id && r.kidName == kid.firstName
    ensures FindPenalty(penalties, kid.id).None? ==> r.totalMinutes == 0 && r.count == 0
    ensures FindPenalty(penalties, kid.id).Some? ==>
      r.totalMinutes == FindPenalty(penalties, kid.id).value.totalMinutes
      && r.count == FindPenalty(penalties, kid.id).value.count
  {
    match FindPenalty(penalties, kid.id)
    case Some(p) => PenaltyStats(kid.id, kid.firstName, p.totalMinutes, p.count)
    case None => PenaltyStats(kid.id, kid.firstName, 0, 0)
  }

  /** `kidPenalties`: exactly one entry per kid, in the order of `kids`. */
  function KidPenalties(penalties: seq<PenaltyStats>, kids: seq<KidRef>): (r: seq<PenaltyStats>)
    ensures |r| == |kids|
    ensures forall i :: 0 <= i < |r| ==> r[i].kidId == kids[i].id && r[i].kidName == kids[i].firstName
    ensures forall i :: 0 <= i < |r| && (forall p :: p in penalties ==> p.kidId != kids[i].id) ==>
      r[i].totalMinutes == 0 && r[i].count == 0
  {
    Map(kids, (k: KidRef) => KidPenalty(penalties, k))
  }

  predicate MoreMinutes(a: PenaltyStats, b: PenaltyStats)
  {
    a.totalMinutes >= b.totalMinutes
  }

  /** `[...kidPenalties].sort((a, b) => b.totalMinutes - a.totalMinutes)`. */
  function SortedPenalties(kidPenalties: seq<PenaltyStats>): (r: seq<PenaltyStats>)
    ensures multiset(r) == multiset(kidPenalties)
    ensures forall i, j :: 0 <= i < j < |r| ==> r[i].totalMinutes >= r[j].totalMinutes
  {
    assert IsTotalPreorder(MoreMinutes);
    SortBySorted(kidPenalties, MoreMinutes);
    var r := SortBy(kidPenalties, MoreMinutes);
    assert forall i, j :: 0 <= i < j < |r| ==> MoreMinutes(r[i], r[j]);
    r
  }

  /** `maxMinutes`: `Math.max` of the minutes and 1. */
  function MaxMinutes(sorted: seq<PenaltyStats>): (m: int)
    ensures m >= 1
    ensures forall i :: 0 <= i < |sorted| ==> sorted[i].totalMinutes <= m
    ensures m == 1 || exists i :: 0 <= i < |sorted| && sorted[i].totalMinutes == m
  {
    var all := Map(sorted, (p: PenaltyStats) => p.totalMinutes);
    var m := MaxWithFloor(all, 1);
    assert forall i :: 0 <= i < |sorted| ==> all[i] == sorted[i].totalMinutes;
    m
  }

  /** The card colours: green, red and orange. */
  datatype PenaltyTone = NoPenalties | Highest | SomePenalties

  function ToneOf(p: PenaltyStats, maxMinutes: int): PenaltyTone
  {
    if p.totalMinutes == 0 then NoPenalties
    else if p.totalMinutes >= maxMinutes && maxMinutes > 0 then Highest
    else SomePenalties
  }

  /** `count === 1 ? 'penalty' : 'penalties'`. */
  function PenaltyWord(count: nat): (w: string)
    ensures w == "penalty" <==> count == 1
    ensures w == "penalty" || w == "penalties"
  {
    if count == 1 then "penalty" else "penalties"
  }

  /** The summary: `sortedPenalties.reduce((sum, p) => sum + p.totalMinutes, 0)`. */
  function TotalMinutes(entries: seq<PenaltyStats>): int
  {
    SumBy(entries, (p: PenaltyStats) => p.totalMinutes)
  }

  /** An entry is green iff it has no minutes, red iff it has the most
      minutes (and some), orange otherwise; the board's first entry is red
      whenever it has a positive number of minutes. */
  lemma ToneOnBoard(kidPenalties: seq<PenaltyStats>, i: nat)
    requires i < |SortedPenalties(kidPenalties)|
    ensures var sorted := SortedPenalties(kidPenalties);
      && (ToneOf(sorted[i], MaxMinutes(sorted)) == NoPenalties <==> sorted[i].totalMinutes == 0)
      && (ToneOf(sorted[i], MaxMinutes(sorted)) == Highest <==>
            sorted[i].totalMinutes != 0 && sorted[i].totalMinutes == MaxMinutes(sorted))
      && (sorted[0].totalMinutes > 0 ==> ToneOf(sorted[0], MaxMinutes(sorted)) == Highest)
  {
    var sorted := SortedPenalties(kidPenalties);
    var m := MaxMinutes(sorted);
    if sorted[0].totalMinutes > 0 {
      assert forall j :: 0 <= j < |sorted| ==> sorted[j].totalMinutes <= sorted[0].totalMinutes by {
        forall j | 0 < j < |sorted| ensures sorted[j].totalMinutes <= sorted[0].totalMinutes { }
      }
    }
  }

  /** The summary total does not depend on the sort: it is the sum over the
      kid list. */
  lemma TotalIndependentOfOrder(kidPenalties: seq<PenaltyStats>)
    ensures TotalMinutes(SortedPenalties(kidPenalties)) == TotalMinutes(kidPenalties)
  {
    SumByPermutation(SortedPenalties(kidPenalties), kidPenalties, (p: PenaltyStats) => p.totalMinutes);
  }

  function KidRefIds(kids: seq<KidRef>): set<Id>
  {
    set k | k in kids :: k.id
  }

  /** Dropping the records of other kids does not change a kid's lookup. */
  lemma {:induction false} FindPenaltyIgnoresOthers(penalties: seq<PenaltyStats>, ids: set<Id>, kidId: Id)
    requires kidId in ids
    ensures FindPenalty(Filter(penalties, (p: PenaltyStats) => p.kidId in ids), kidId) == FindPenalty(penalties, kidId)
  {
    if penalties != [] {
      var keep := (p: PenaltyStats) => p.kidId in ids;
      var rest := Filter(penalties[1..], keep);
      FindPenaltyIgnoresOthers(penalties[1..], ids, kidId);
      if keep(penalties[0]) {
        assert Filter(penalties, keep) == [penalties[0]] + rest;
        assert ([penalties[0]] + rest)[1..] == rest;
      } else {
        assert Filter(penalties, keep) == rest;
      }
    }
  }

  /** Penalty records of kids outside the kid list are ignored: the board,
      and hence the summary, is the same without them. */
  lemma PenaltiesOfOtherKidsIgnored(penalties: seq<PenaltyStats>, kids: seq<KidRef>)
    ensures KidPenalties(Filter(penalties, (p: PenaltyStats) => p.kidId in KidRefIds(kids)), kids)
         == KidPenalties(penalties, kids)
  {
    var kept := Filter(penalties, (p: PenaltyStats) => p.kidId in KidRefIds(kids));
    forall i | 0 <= i < |kids| ensures KidPenalty(kept, kids[i]) == KidPenalty(penalties, kids[i]) {
      FindPenaltyIgnoresOthers(penalties, KidRefIds(kids), kids[i].id);
    }
  }
}
