/**
 * The visibility pass of the vocabulary board, stated on values: given the records in
 * insertion order, the round the pass runs in and the display capacity, the records as
 * the pass leaves them.
 */
module Scheduler {
  import opened StableSort

  /** One word entry as `WordItem.to_dict` exposes it. */
  datatype WordRecord = WordRecord(text: string, totalCount: nat, lastSeen: nat, visible: bool)

  /** The sort key of every record: its exposure count before the pass. */
  function Counts(recs: seq<WordRecord>): (keys: seq<int>)
    ensures |keys| == |recs|
    ensures forall i :: 0 <= i < |recs| ==> keys[i] == recs[i].totalCount
  {
    seq(|recs|, i requires 0 <= i < |recs| => recs[i].totalCount)
  }

  /** The record marked visible in round `round`: shown once more, last seen now. */
  function Shown(r: WordRecord, round: nat): (s: WordRecord)
    ensures s.text == r.text && s.visible
    ensures s.totalCount == r.totalCount + 1 && s.lastSeen == round
  {
    r.(visible := true, totalCount := r.totalCount + 1, lastSeen := round)
  }

  /**
   * The three re-admission tiers for a record outside the guaranteed group, tried in
   * order: few exposures come back after 2 rounds, up to 10 after 3, more after 5.
   */
  function Readmitted(totalCount: nat, gap: int): (r: bool)
    ensures r <==> gap >= (if totalCount <= 5 then 2 else if totalCount <= 10 then 3 else 5)
    ensures gap >= 5 ==> r
    ensures gap < 2 ==> !r
  {
    if totalCount <= 5 && gap >= 2 then true
    else if totalCount <= 10 && gap >= 3 then true
    else if totalCount > 10 && gap >= 5 then true
    else false
  }

  /** A record outside the guaranteed group after the tier test of round `round`. */
  function Revisit(r: WordRecord, round: nat): (s: WordRecord)
    ensures s.text == r.text
    ensures s.visible <==> Readmitted(r.totalCount, round - r.lastSeen)
    ensures s.visible ==> s == Shown(r, round)
    ensures !s.visible ==> s.totalCount == r.totalCount && s.lastSeen == r.lastSeen
  {
    if Readmitted(r.totalCount, round - r.lastSeen) then Shown(r, round) else r.(visible := false)
  }

  /** The record at place `p` of the sort after the pass: shown within the capacity, else tier-tested. */
  function Placed(r: WordRecord, p: nat, round: nat, maxDisplay: nat): (s: WordRecord)
    ensures s.text == r.text
    ensures p < maxDisplay ==> s.visible
    ensures p >= maxDisplay ==> (s.visible <==> Readmitted(r.totalCount, round - r.lastSeen))
    ensures s.visible ==> s == Shown(r, round)
    ensures !s.visible ==> s == r.(visible := false)
  {
    if p < maxDisplay then Shown(r, round) else Revisit(r, round)
  }

  /**
   * The pass of round `round` with capacity `maxDisplay`: with no more records than the
   * capacity every record is shown; otherwise a record with fewer than `maxDisplay`
   * records ahead of it in (count, insertion) order is shown and every other one goes
   * through the tier test.
   */
  ghost function Pass(recs: seq<WordRecord>, round: nat, maxDisplay: nat): (r: seq<WordRecord>)
    ensures |r| == |recs|
    ensures forall i :: 0 <= i < |r| ==> r[i].text == recs[i].text
    ensures forall i :: 0 <= i < |r| ==>
      r[i] == if r[i].visible then Shown(recs[i], round) else recs[i].(visible := false)
    ensures |recs| <= maxDisplay ==> forall i :: 0 <= i < |r| ==> r[i].visible
  {
    if |recs| <= maxDisplay then
      seq(|recs|, i requires 0 <= i < |recs| => Shown(recs[i], round))
    else
      seq(|recs|, i requires 0 <= i < |recs| =>
        Placed(recs[i], Rank(Counts(recs), i), round, maxDisplay))
  }

  /** The state the pass of round `round` leaves: seen at most now, visible exactly when seen now. */
  ghost predicate Scheduled(recs: seq<WordRecord>, round: nat) {
    forall i :: 0 <= i < |recs| ==>
      recs[i].lastSeen <= round && (recs[i].visible <==> recs[i].lastSeen == round)
  }

  /**
   * Run in a fresh round (every record last seen earlier), the pass leaves a scheduled
   * state and never lowers a count or a last-seen round.
   */
  lemma PassSchedules(recs: seq<WordRecord>, round: nat, maxDisplay: nat)
    requires forall i :: 0 <= i < |recs| ==> recs[i].lastSeen < round
    ensures Scheduled(Pass(recs, round, maxDisplay), round)
    ensures forall i :: 0 <= i < |recs| ==>
      Pass(recs, round, maxDisplay)[i].totalCount >= recs[i].totalCount &&
      Pass(recs, round, maxDisplay)[i].lastSeen >= recs[i].lastSeen
  {
    var r := Pass(recs, round, maxDisplay);
    forall i | 0 <= i < |recs|
      ensures r[i].lastSeen <= round && (r[i].visible <==> r[i].lastSeen == round)
    {
      assert r[i] == if r[i].visible then Shown(recs[i], round) else recs[i].(visible := false);
    }
  }

  /**
   * Beyond capacity, walking any stable sort of the records by count: the record at
   * place `p` is shown when `p` is below the capacity and is tier-tested otherwise.
   */
  lemma PassAtPlace(recs: seq<WordRecord>, order: seq<nat>, round: nat, maxDisplay: nat, p: nat)
    requires IsStableSort(Counts(recs), order)
    requires maxDisplay < |recs| && p < |recs|
    ensures order[p] < |recs|
    ensures Pass(recs, round, maxDisplay)[order[p]] == Placed(recs[order[p]], p, round, maxDisplay)
  {
    PositionOfEntry(Counts(recs), order, p);
    PositionIsRank(Counts(recs), order, order[p]);
  }

  /**
   * Beyond capacity, treating the record at each place `p` of a stable sort as `Placed`
   * at `p` yields exactly the pass.
   */
  lemma SortedWalkIsPass(recs: seq<WordRecord>, order: seq<nat>, round: nat, maxDisplay: nat,
                         walked: seq<WordRecord>)
    requires IsStableSort(Counts(recs), order)
    requires maxDisplay < |recs| && |walked| == |recs|
    requires forall q :: 0 <= q < |order| ==>
      walked[order[q]] == Placed(recs[order[q]], q, round, maxDisplay)
    ensures walked == Pass(recs, round, maxDisplay)
  {
    forall i | 0 <= i < |recs| ensures walked[i] == Pass(recs, round, maxDisplay)[i] {
      var p := Position(order, i);
      PassAtPlace(recs, order, round, maxDisplay, p);
    }
  }

  /** Beyond capacity, the pass still shows at least `maxDisplay` records. */
  lemma OverflowShowsCapacity(recs: seq<WordRecord>, round: nat, maxDisplay: nat)
    requires maxDisplay < |recs|
    ensures |set i | 0 <= i < |recs| && Pass(recs, round, maxDisplay)[i].visible| >= maxDisplay
  {
    var order := Sort(Counts(recs));
    var top := set p | 0 <= p < maxDisplay :: order[p];
    var shown := set i | 0 <= i < |recs| && Pass(recs, round, maxDisplay)[i].visible;
    forall j | j in top ensures j in shown {
      var p :| 0 <= p < maxDisplay && order[p] == j;
      PassAtPlace(recs, order, round, maxDisplay, p);
    }
    OrderedDistinct(Counts(recs), order);
    PrefixCardinality(order, maxDisplay);
    SubsetCardinality(top, shown);
  }

  /**
   * Lower exposure never loses to higher: if record `a` comes before record `b` in
   * (count, insertion) order and was seen no later, then `a` is shown whenever `b` is.
   */
  lemma LowerExposureFirst(recs: seq<WordRecord>, round: nat, maxDisplay: nat, a: nat, b: nat)
    requires a < |recs| && b < |recs|
    requires Before(Counts(recs), a, b)
    requires recs[a].lastSeen <= recs[b].lastSeen
    requires Pass(recs, round, maxDisplay)[b].visible
    ensures Pass(recs, round, maxDisplay)[a].visible
  {
    if maxDisplay < |recs| {
      RankRespectsBefore(Counts(recs), a, b);
      assert recs[a].totalCount <= recs[b].totalCount;
    }
  }

  /**
   * The capacity does not bound the visible records: when every record has at most 5
   * exposures and was last seen two or more rounds ago, the pass shows all of them,
   * however many there are.
   */
  lemma ReadmissionExceedsCapacity(recs: seq<WordRecord>, round: nat, maxDisplay: nat)
    requires forall i :: 0 <= i < |recs| ==> recs[i].totalCount <= 5 && recs[i].lastSeen + 2 <= round
    ensures forall i :: 0 <= i < |recs| ==> Pass(recs, round, maxDisplay)[i].visible
  {
    var r := Pass(recs, round, maxDisplay);
    forall i | 0 <= i < |recs| ensures r[i].visible {
      assert Readmitted(recs[i].totalCount, round - recs[i].lastSeen);
    }
  }
}
