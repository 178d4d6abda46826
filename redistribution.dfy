/**
 * The bag-tag redistribution loop (script.js lines 3-18): walk the ranked
 * scores, give the player at each rank the pool entry of the same position
 * (or no tag), report the change against the tag held before, and overwrite
 * that player's tag in the shared players array.
 */
module Redistribution {
  import opened Options
  import opened TagRules

  /** A player as the tag step sees it: the name shown and the tag held (null when untagged). */
  datatype Player = Player(name: string, tag: Option<int>)

  /** One entry of the ranked score list: a position in the players array and the raw score. */
  datatype Score = Score(idx: nat, score: int)

  /** What the results list shows for one rank. */
  datatype Row = Row(
    rank: nat,
    idx: nat,
    name: string,
    score: int,
    oldTag: Option<int>,
    newTag: Option<int>,
    change: int,
    changeText: string,
    changeClass: string)

  /** Every score entry names a player of the array: looking a score entry's player up in the array never misses. */
  predicate ValidIndices(scores: seq<Score>, playerCount: nat) {
    forall k :: 0 <= k < |scores| ==> scores[k].idx < playerCount
  }

  /** No player is ranked twice. */
  predicate DistinctIndices(scores: seq<Score>) {
    forall i, j :: 0 <= i < j < |scores| ==> scores[i].idx != scores[j].idx
  }

  /** Some rank refers to player `j`. */
  predicate Ranked(scores: seq<Score>, j: nat) {
    exists k :: 0 <= k < |scores| && scores[k].idx == j
  }

  /** Ranked order: scores never decrease along the list. */
  predicate RankedByScore(scores: seq<Score>) {
    forall i, j :: 0 <= i < j < |scores| ==> scores[i].score <= scores[j].score
  }

  predicate SortedAscending(s: seq<int>) {
    forall i, j :: 0 <= i < j < |s| ==> s[i] <= s[j]
  }

  /** The row for `rank`, computed from the player's record as it is when that rank is reached. */
  function RowFor(rank: nat, s: Score, p: Player, availableTags: seq<int>): (r: Row) {
    var newTag := NewTag(rank, availableTags);
    var change := Change(p.tag, newTag);
    Row(rank, s.idx, p.name, s.score, p.tag, newTag, change, ChangeText(change), ChangeClass(change))
  }

  /** The players after the loop has handled every rank of `scores`. */
  function Redistributed(players: seq<Player>, scores: seq<Score>, availableTags: seq<int>): (r: seq<Player>)
    requires ValidIndices(scores, |players|)
    ensures |r| == |players|
    decreases |scores|
  {
    if scores == [] then players
    else
      var n := |scores| - 1;
      var before := Redistributed(players, scores[..n], availableTags);
      var i := scores[n].idx;
      before[i := before[i].(tag := NewTag(n, availableTags))]
  }

  /** The rows the loop produces for every rank of `scores`, in rank order. */
  function Rows(players: seq<Player>, scores: seq<Score>, availableTags: seq<int>): (rows: seq<Row>)
    requires ValidIndices(scores, |players|)
    ensures |rows| == |scores|
    decreases |scores|
  {
    if scores == [] then []
    else
      var n := |scores| - 1;
      var before := Redistributed(players, scores[..n], availableTags);
      Rows(players, scores[..n], availableTags) + [RowFor(n, scores[n], before[scores[n].idx], availableTags)]
  }

  /** The tags of the ranked players, in rank order. */
  function RankTags(players: seq<Player>, scores: seq<Score>): (tags: seq<Option<int>>)
    requires ValidIndices(scores, |players|)
    ensures |tags| == |scores|
    decreases |scores|
  {
    if scores == [] then []
    else
      var n := |scores| - 1;
      RankTags(players, scores[..n]) + [players[scores[n].idx].tag]
  }

  /** The tag numbers of a list of nullable tags, nulls dropped, order kept. */
  function TagNumbers(tags: seq<Option<int>>): (numbers: seq<int>)
    decreases |tags|
  {
    if tags == [] then []
    else
      var n := |tags| - 1;
      TagNumbers(tags[..n]) + (if tags[n].Some? then [tags[n].value] else [])
  }

  function Min(a: nat, b: nat): (m: nat) {
    if a <= b then a else b
  }

  lemma PrefixValid(scores: seq<Score>, n: nat, playerCount: nat)
    requires ValidIndices(scores, playerCount)
    requires n <= |scores|
    ensures ValidIndices(scores[..n], playerCount)
  {
    assert forall k :: 0 <= k < n ==> scores[..n][k] == scores[k];
  }

  /** Players no rank refers to keep their record as it was. */
  lemma {:induction false} UnrankedUnchanged(players: seq<Player>, scores: seq<Score>, availableTags: seq<int>, j: nat)
    requires ValidIndices(scores, |players|)
    requires j < |players| && !Ranked(scores, j)
    ensures Redistributed(players, scores, availableTags)[j] == players[j]
    decreases |scores|
  {
    if scores != [] {
      var n := |scores| - 1;
      PrefixValid(scores, n, |players|);
      assert scores[n].idx != j;
      assert !Ranked(scores[..n], j) by {
        forall k | 0 <= k < n ensures scores[..n][k].idx != j {
          assert scores[..n][k] == scores[k];
        }
      }
      UnrankedUnchanged(players, scores[..n], availableTags, j);
    }
  }

  /** The loop changes tags only: every name stays where it was. */
  lemma {:induction false} NamesKept(players: seq<Player>, scores: seq<Score>, availableTags: seq<int>, j: nat)
    requires ValidIndices(scores, |players|)
    requires j < |players|
    ensures Redistributed(players, scores, availableTags)[j].name == players[j].name
    decreases |scores|
  {
    if scores != [] {
      var n := |scores| - 1;
      PrefixValid(scores, n, |players|);
      NamesKept(players, scores[..n], availableTags, j);
    }
  }

  /** With no player ranked twice, the player at rank `k` ends with that rank's new tag. */
  lemma {:induction false} RankGetsNewTag(players: seq<Player>, scores: seq<Score>, availableTags: seq<int>, k: nat)
    requires ValidIndices(scores, |players|) && DistinctIndices(scores)
    requires k < |scores|
    ensures Redistributed(players, scores, availableTags)[scores[k].idx].tag == NewTag(k, availableTags)
    decreases |scores|
  {
    var n := |scores| - 1;
    if k < n {
      PrefixValid(scores, n, |players|);
      assert scores[..n][k] == scores[k];
      assert DistinctIndices(scores[..n]) by {
        forall i, j | 0 <= i < j < n ensures scores[..n][i].idx != scores[..n][j].idx {
          assert scores[..n][i] == scores[i] && scores[..n][j] == scores[j];
        }
      }
      assert scores[k].idx != scores[n].idx;
      RankGetsNewTag(players, scores[..n], availableTags, k);
    }
  }

  /** No tag is invented: a ranked player's tag, when not null, is drawn from the pool (ranks may repeat). */
  lemma {:induction false} RankedTagFromPool(players: seq<Player>, scores: seq<Score>, availableTags: seq<int>, j: nat)
    requires ValidIndices(scores, |players|)
    requires j < |players| && Ranked(scores, j)
    ensures var t := Redistributed(players, scores, availableTags)[j].tag;
      t.Some? ==> t.value in availableTags
    decreases |scores|
  {
    var n := |scores| - 1;
    if scores[n].idx != j {
      PrefixValid(scores, n, |players|);
      var k :| 0 <= k < |scores| && scores[k].idx == j;
      assert scores[..n][k] == scores[k];
      RankedTagFromPool(players, scores[..n], availableTags, j);
    }
  }

  /** The row of rank `k` reports the tag held just before that rank was handled. */
  lemma {:induction false} RowAt(players: seq<Player>, scores: seq<Score>, availableTags: seq<int>, k: nat)
    requires ValidIndices(scores, |players|)
    requires k < |scores|
    ensures ValidIndices(scores[..k], |players|)
    ensures Rows(players, scores, availableTags)[k]
         == RowFor(k, scores[k], Redistributed(players, scores[..k], availableTags)[scores[k].idx], availableTags)
    decreases |scores|
  {
    var n := |scores| - 1;
    PrefixValid(scores, k, |players|);
    if k < n {
      PrefixValid(scores, n, |players|);
      assert scores[..n][k] == scores[k];
      assert scores[..n][..k] == scores[..k];
      RowAt(players, scores[..n], availableTags, k);
    }
  }

  /** With no player ranked twice, that tag is the one held before the loop began. */
  lemma OldTagIsOriginal(players: seq<Player>, scores: seq<Score>, availableTags: seq<int>, k: nat)
    requires ValidIndices(scores, |players|) && DistinctIndices(scores)
    requires k < |scores|
    ensures Rows(players, scores, availableTags)[k] == RowFor(k, scores[k], players[scores[k].idx], availableTags)
  {
    RowAt(players, scores, availableTags, k);
    assert !Ranked(scores[..k], scores[k].idx) by {
      forall i | 0 <= i < k ensures scores[..k][i].idx != scores[k].idx {
        assert scores[..k][i] == scores[i];
      }
    }
    UnrankedUnchanged(players, scores[..k], availableTags, scores[k].idx);
  }

  /** Each row's change is the new tag minus the old one (0 if either is null), and its label and class report it. */
  lemma RowReportsChange(players: seq<Player>, scores: seq<Score>, availableTags: seq<int>, k: nat)
    requires ValidIndices(scores, |players|) && DistinctIndices(scores)
    requires k < |scores|
    ensures var r := Rows(players, scores, availableTags)[k];
      var oldTag := players[scores[k].idx].tag;
      && r.rank == k && r.idx == scores[k].idx
      && r.name == players[scores[k].idx].name && r.score == scores[k].score
      && r.oldTag == oldTag
      && (r.newTag.Some? <==> k < |availableTags|)
      && (r.newTag.Some? ==> r.newTag.value == availableTags[k])
      && (oldTag.Some? && r.newTag.Some? ==> r.change == r.newTag.value - oldTag.value)
      && (oldTag.None? || r.newTag.None? ==> r.change == 0)
      && ParseChangeText(r.changeText) == Some(r.change)
      && (r.changeClass == "gained" <==> r.change < 0)
      && (r.changeClass == "lost" <==> r.change > 0)
      && (r.changeClass == "" <==> r.change == 0)
  {
    OldTagIsOriginal(players, scores, availableTags, k);
    var r := Rows(players, scores, availableTags)[k];
    ChangeTextRoundTrip(r.change);
    ChangeReportFollowsSign(r.change);
  }

  lemma {:induction false} RankTagsAreNewTags(final: seq<Player>, scores: seq<Score>, availableTags: seq<int>)
    requires ValidIndices(scores, |final|)
    requires forall k :: 0 <= k < |scores| ==> final[scores[k].idx].tag == NewTag(k, availableTags)
    ensures TagNumbers(RankTags(final, scores)) == availableTags[..Min(|scores|, |availableTags|)]
    decreases |scores|
  {
    if scores != [] {
      var n := |scores| - 1;
      PrefixValid(scores, n, |final|);
      forall k | 0 <= k < n ensures final[scores[..n][k].idx].tag == NewTag(k, availableTags) {
        assert scores[..n][k] == scores[k];
      }
      RankTagsAreNewTags(final, scores[..n], availableTags);
      var tags := RankTags(final, scores);
      assert tags[..n] == RankTags(final, scores[..n]);
      if n < |availableTags| {
        assert availableTags[..n + 1] == availableTags[..n] + [availableTags[n]];
      }
    }
  }

  /**
   * With no player ranked twice, the ranked players' tags, nulls dropped and in
   * rank order, are exactly the first min(|scores|, |availableTags|) pool
   * entries: that many players are tagged, excess players get null, excess
   * tags go unused, and no tag beyond the pool's multiplicity is handed out.
   */
  lemma TagsHandedOut(players: seq<Player>, scores: seq<Score>, availableTags: seq<int>)
    requires ValidIndices(scores, |players|) && DistinctIndices(scores)
    ensures var handed := TagNumbers(RankTags(Redistributed(players, scores, availableTags), scores));
      && handed == availableTags[..Min(|scores|, |availableTags|)]
      && |handed| == Min(|scores|, |availableTags|)
      && multiset(handed) <= multiset(availableTags)
  {
    var final := Redistributed(players, scores, availableTags);
    forall k | 0 <= k < |scores| ensures final[scores[k].idx].tag == NewTag(k, availableTags) {
      RankGetsNewTag(players, scores, availableTags, k);
    }
    RankTagsAreNewTags(final, scores, availableTags);
    var m := Min(|scores|, |availableTags|);
    assert availableTags == availableTags[..m] + availableTags[m..];
  }

  /** Rank order carries over to tag order: an earlier rank's tag precedes a later one's in the pool. */
  lemma RankOrderCarriesOver(players: seq<Player>, scores: seq<Score>, availableTags: seq<int>, i: nat, j: nat)
    requires ValidIndices(scores, |players|) && DistinctIndices(scores)
    requires i < j < |scores|
    ensures var final := Redistributed(players, scores, availableTags);
      var ti, tj := final[scores[i].idx].tag, final[scores[j].idx].tag;
      ti.Some? && tj.Some? ==>
        j < |availableTags| && ti.value == availableTags[i] && tj.value == availableTags[j] &&
        (SortedAscending(availableTags) ==> ti.value <= tj.value)
  {
    RankGetsNewTag(players, scores, availableTags, i);
    RankGetsNewTag(players, scores, availableTags, j);
  }

  /** In a ranked list over a sorted pool, a strictly better (lower) score never gets a higher tag. */
  lemma BetterScoreLowerTag(players: seq<Player>, scores: seq<Score>, availableTags: seq<int>, i: nat, j: nat)
    requires ValidIndices(scores, |players|) && DistinctIndices(scores)
    requires RankedByScore(scores) && SortedAscending(availableTags)
    requires i < |scores| && j < |scores| && scores[i].score < scores[j].score
    ensures var final := Redistributed(players, scores, availableTags);
      var ti, tj := final[scores[i].idx].tag, final[scores[j].idx].tag;
      ti.Some? && tj.Some? ==> ti.value <= tj.value
  {
    RankOrderCarriesOver(players, scores, availableTags, i, j);
  }

  /**
   * Players P1, P2 and P3 holding tags 5, 2 and none score 60, 55 and 58; over the
   * pool [2, 5] the leader P2 keeps tag 2, P3 is handed 5, and P1 loses tag 5 for none.
   */
  lemma ThreePlayerExample()
    ensures var players := [Player("P1", Some(5)), Player("P2", Some(2)), Player("P3", None)];
      var scores := [Score(1, 55), Score(2, 58), Score(0, 60)];
      var pool := [2, 5];
      && Redistributed(players, scores, pool)
         == [Player("P1", None), Player("P2", Some(2)), Player("P3", Some(5))]
      && Rows(players, scores, pool)
         == [Row(0, 1, "P2", 55, Some(2), Some(2), 0, NoChangeText, ""),
             Row(1, 2, "P3", 58, None, Some(5), 0, NoChangeText, ""),
             Row(2, 0, "P1", 60, Some(5), None, 0, NoChangeText, "")]
  {
    var players := [Player("P1", Some(5)), Player("P2", Some(2)), Player("P3", None)];
    var scores := [Score(1, 55), Score(2, 58), Score(0, 60)];
    var pool := [2, 5];
    assert scores[..2][..1] == scores[..1];
    assert scores[..1][..0] == [];
    assert Redistributed(players, scores[..1], pool) == [Player("P1", Some(5)), Player("P2", Some(2)), Player("P3", None)];
    assert Redistributed(players, scores[..2], pool) == [Player("P1", Some(5)), Player("P2", Some(2)), Player("P3", Some(5))];
  }

  /** A tagged player moving from tag 7 to tag 3 is reported as "Gained 4". */
  lemma GainedExample()
    ensures var r := RowFor(0, Score(0, 48), Player("A", Some(7)), [3]);
      r.change == -4 && r.changeText == "Gained 4" && r.changeClass == "gained"
  {
  }

  /**
   * The loop itself: for each rank, look the player up, choose the new tag,
   * compute the change and its report, then overwrite the player's tag.
   */
  method RedistributeTags(players: array<Player>, scores: seq<Score>, availableTags: seq<int>) returns (rows: seq<Row>)
    requires ValidIndices(scores, players.Length)
    modifies players
    ensures players[..] == Redistributed(old(players[..]), scores, availableTags)
    ensures rows == Rows(old(players[..]), scores, availableTags)
    ensures DistinctIndices(scores) ==>
      forall k :: 0 <= k < |scores| ==>
        players[scores[k].idx].tag == NewTag(k, availableTags) &&
        rows[k] == RowFor(k, scores[k], old(players[scores[k].idx]), availableTags)
    ensures forall j :: 0 <= j < players.Length && !Ranked(scores, j) ==> players[j] == old(players[j])
    ensures forall j :: 0 <= j < players.Length ==> players[j].name == old(players[j].name)
  {
    ghost var initial := players[..];
    rows := [];
    var rank := 0;
    while rank < |scores|
      invariant rank <= |scores|
      invariant ValidIndices(scores[..rank], players.Length)
      invariant players[..] == Redistributed(initial, scores[..rank], availableTags)
      invariant rows == Rows(initial, scores[..rank], availableTags)
    {
      var s := scores[rank];
      var p := players[s.idx];
      var newTag := NewTag(rank, availableTags);
      var change := Change(p.tag, newTag);
      var row := Row(rank, s.idx, p.name, s.score, p.tag, newTag, change, ChangeText(change), ChangeClass(change));
      ghost var before := players[..];
      players[s.idx] := p.(tag := newTag);
      rows := rows + [row];
      assert scores[..rank + 1][..rank] == scores[..rank];
      assert players[..] == before[s.idx := p.(tag := newTag)];
      rank := rank + 1;
      PrefixValid(scores, rank, players.Length);
    }
    assert scores[..rank] == scores;
    forall j | 0 <= j < players.Length
      ensures players[j].name == initial[j].name
      ensures !Ranked(scores, j) ==> players[j] == initial[j]
    {
      NamesKept(initial, scores, availableTags, j);
      if !Ranked(scores, j) {
        UnrankedUnchanged(initial, scores, availableTags, j);
      }
    }
    if DistinctIndices(scores) {
      forall k | 0 <= k < |scores|
        ensures players[scores[k].idx].tag == NewTag(k, availableTags)
        ensures rows[k] == RowFor(k, scores[k], initial[scores[k].idx], availableTags)
      {
        RankGetsNewTag(initial, scores, availableTags, k);
        OldTagIsOriginal(initial, scores, availableTags, k);
      }
    }
  }
}
