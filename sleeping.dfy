/** The sleeping-arrangement rotation of `src/actions/sleeping.ts`: an
    append-only log of combination labels and a fixed two-state cycle
    between 'paul-mavi' and 'paul-rosalie'. */
module Sleeping {
  import opened Collections
  import opened Records
  import opened Pin
  import opened Store

  const PaulMavi: string := "paul-mavi"
  const PaulRosalie: string := "paul-rosalie"

  datatype Pair = Pair(pair1: string, pair2: string)

  /** What `getNextSleepingArrangement` returns. */
  datatype Arrangement = Arrangement(combination: string, pairs: seq<Pair>)

  lemma CombinationsDiffer()
    ensures PaulMavi != PaulRosalie
  {
    assert PaulMavi[5] != PaulRosalie[5];
  }

  /** The combination that follows the latest one (`None`: empty log). */
  function NextCombination(latest: Option<string>): (c: string)
    ensures c == PaulMavi || c == PaulRosalie
    ensures latest == None ==> c == PaulMavi
    ensures latest.Some? ==> (c == PaulMavi <==> latest.value == PaulRosalie)
  {
    if latest.None? || latest.value == PaulRosalie then PaulMavi else PaulRosalie
  }

  /** The fixed pairing table keyed by combination: the label names Paul's
      partner, and Anna-Sophia sleeps with the other girl. */
  function PairsFor(combination: string): (pairs: seq<Pair>)
    ensures |pairs| == 2
    ensures Pair("Paul", "Rosalie") in pairs <==> combination == PaulRosalie
    ensures Pair("Anna-Sophia", "Mavi") in pairs <==> combination == PaulRosalie
    ensures Pair("Paul", "Mavi") in pairs <==> combination != PaulRosalie
    ensures Pair("Anna-Sophia", "Rosalie") in pairs <==> combination != PaulRosalie
  {
    if combination == PaulRosalie then [Pair("Paul", "Rosalie"), Pair("Anna-Sophia", "Mavi")]
    else [Pair("Paul", "Mavi"), Pair("Anna-Sophia", "Rosalie")]
  }

  /** The four children who take part in the rotation. */
  const Children: seq<string> := ["Paul", "Anna-Sophia", "Mavi", "Rosalie"]

  /** The names a pairing list mentions, in order. */
  function Members(pairs: seq<Pair>): seq<string>
  {
    if pairs == [] then [] else [pairs[0].pair1, pairs[0].pair2] + Members(pairs[1..])
  }

  /** Whatever the combination, each child appears exactly once and nobody
      else appears. */
  lemma PairsPartitionChildren(combination: string)
    ensures multiset(Members(PairsFor(combination))) == multiset(Children)
  {
    var pairs := PairsFor(combination);
    assert Members(pairs[1..][1..]) == [];
    if combination == PaulRosalie {
      assert Members(pairs) == ["Paul", "Rosalie", "Anna-Sophia", "Mavi"];
    } else {
      assert Members(pairs) == ["Paul", "Mavi", "Anna-Sophia", "Rosalie"];
    }
  }

  /** The combination of the most recently created record. */
  function Latest(log: seq<SleepingArrangement>): Option<string>
  {
    if log == [] then None else Some(log[|log| - 1].combination)
  }

  /** `getNextSleepingArrangement`. */
  function NextArrangement(log: seq<SleepingArrangement>): (a: Arrangement)
    ensures a.combination == PaulMavi || a.combination == PaulRosalie
    ensures a.pairs == PairsFor(a.combination)
  {
    var c := NextCombination(Latest(log));
    Arrangement(c, PairsFor(c))
  }

  /** `getCurrentSleepingArrangement`: the page shows who sleeps together
      next time, which is the arrangement that follows the latest record. */
  function CurrentArrangement(log: seq<SleepingArrangement>): (a: Arrangement)
    ensures a == NextArrangement(log)
  {
    NextArrangement(log)
  }

  /** `toggleSleepingArrangement`: gate on the pin, then append a record
      carrying the next combination. */
  method ToggleSleepingArrangement(db: Store, adminPin: Option<string>, pin: string)
    returns (r: Result<SleepingArrangement>)
    requires db.Valid()
    modifies db
    ensures db.Valid()
    ensures !ValidatePin(adminPin, pin) ==> r == Err(InvalidPin) && unchanged(db)
    ensures ValidatePin(adminPin, pin) ==>
      && r == Ok(SleepingArrangement(old(db.nextId), NextArrangement(old(db.arrangements)).combination))
      && db.arrangements == old(db.arrangements) + [r.value]
      && db.nextId == old(db.nextId) + 1
      && db.kids == old(db.kids) && db.tasks == old(db.tasks)
      && db.assignments == old(db.assignments) && db.logs == old(db.logs)
  {
    if !ValidatePin(adminPin, pin) {
      return Err(InvalidPin);
    }
    var next := NextArrangement(db.arrangements);
    var id := db.NewId();
    var record := SleepingArrangement(id, next.combination);
    AppendFreshId(db.arrangements, record, (a: SleepingArrangement) => a.id);
    db.arrangements := db.arrangements + [record];
    r := Ok(record);
  }

  /** Appending the next combination flips it: every successful toggle
      changes what the page shows. */
  lemma {:induction false} ToggleFlips(log: seq<SleepingArrangement>, id: Id)
    ensures var next := NextArrangement(log).combination;
      NextArrangement(log + [SleepingArrangement(id, next)]).combination != next
  {
    CombinationsDiffer();
  }

  /** Two successful toggles bring the shown arrangement back. */
  lemma {:induction false} ToggleTwiceRestores(log: seq<SleepingArrangement>, id1: Id, id2: Id)
    ensures var log1 := log + [SleepingArrangement(id1, NextArrangement(log).combination)];
      var log2 := log1 + [SleepingArrangement(id2, NextArrangement(log1).combination)];
      NextArrangement(log2) == NextArrangement(log)
  {
    CombinationsDiffer();
  }
}
