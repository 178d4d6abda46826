/**
 * The per-rank rules of the bag-tag step (script.js lines 5-8): which tag a
 * rank receives, the signed change against the tag held before, and the
 * label and style class that report that change.
 */
module TagRules {
  import opened Options
  import Decimal

  /** The text shown when there is no change: an em dash. */
  const NoChangeText: string := "\U{2014}"
  const GainedPrefix: string := "Gained "
  const LostPrefix: string := "Lost "

  /** The tag handed to the player at `rank`: the pool entry with that position, or null past the pool's end. */
  function NewTag(rank: nat, availableTags: seq<int>): (t: Option<int>)
    ensures t.Some? <==> rank < |availableTags|
    ensures t.Some? ==> t.value == availableTags[rank] && t.value in availableTags
  {
    if rank < |availableTags| then Some(availableTags[rank]) else None
  }

  /** The signed change from `oldTag` to `newTag`; 0 when either side is null. */
  function Change(oldTag: Option<int>, newTag: Option<int>): (c: int)
    ensures oldTag.Some? && newTag.Some? ==> oldTag.value + c == newTag.value
    ensures oldTag.None? || newTag.None? ==> c == 0
  {
    if oldTag.Some? && newTag.Some? then newTag.value - oldTag.value else 0
  }

  predicate StartsWith(t: string, prefix: string) {
    |prefix| <= |t| && t[..|prefix|] == prefix
  }

  function Abs(x: int): (n: nat) {
    if x < 0 then -x else x
  }

  /** The change label: a lower tag is "Gained", a higher one "Lost", followed by the magnitude. */
  function ChangeText(change: int): (t: string) {
    if change != 0 then
      (if change < 0 then GainedPrefix else LostPrefix) + Decimal.DecimalString(Abs(change))
    else NoChangeText
  }

  /** The style class of the change line. */
  function ChangeClass(change: int): (c: string) {
    if change < 0 then "gained" else if change > 0 then "lost" else ""
  }

  /** Reads a change label back into the signed change it reports. */
  function ParseChangeText(t: string): (r: Option<int>) {
    if t == NoChangeText then Some(0)
    else if |t| > |GainedPrefix| && StartsWith(t, GainedPrefix) then
      match Decimal.ParseDecimal(t[|GainedPrefix|..])
      case Some(n) => if n == 0 then None else Some(-(n as int))
      case None => None
    else if |t| > |LostPrefix| && StartsWith(t, LostPrefix) then
      match Decimal.ParseDecimal(t[|LostPrefix|..])
      case Some(n) => if n == 0 then None else Some(n)
      case None => None
    else None
  }

  /** The label determines the change: reading it back gives the exact signed value. */
  lemma ChangeTextRoundTrip(change: int)
    ensures ParseChangeText(ChangeText(change)) == Some(change)
  {
    if change != 0 {
      var prefix := if change < 0 then GainedPrefix else LostPrefix;
      var digits := Decimal.DecimalString(Abs(change));
      var t := prefix + digits;
      assert t[..|prefix|] == prefix;
      assert t[|prefix|..] == digits;
      Decimal.ParseDecimalString(Abs(change));
      assert t[0] == prefix[0];
    }
  }

  /** Two different changes never share a label. */
  lemma ChangeTextInjective(c1: int, c2: int)
    requires ChangeText(c1) == ChangeText(c2)
    ensures c1 == c2
  {
    ChangeTextRoundTrip(c1);
    ChangeTextRoundTrip(c2);
  }

  /** Label and class both follow the sign of the change, in each direction. */
  lemma ChangeReportFollowsSign(change: int)
    ensures change < 0 <==> ChangeClass(change) == "gained"
    ensures change > 0 <==> ChangeClass(change) == "lost"
    ensures change == 0 <==> ChangeClass(change) == ""
    ensures change == 0 <==> ChangeText(change) == NoChangeText
    ensures change < 0 <==> StartsWith(ChangeText(change), GainedPrefix)
    ensures change > 0 <==> StartsWith(ChangeText(change), LostPrefix)
  {
    var t := ChangeText(change);
    if change != 0 {
      var prefix := if change < 0 then GainedPrefix else LostPrefix;
      assert t[..|prefix|] == prefix;
      assert t[0] == prefix[0];
    }
  }
}
