# Bag-tag redistribution, modelled in Dafny

This project models the bag-tag step of a disc-golf league night planner. After a round, the players' scores are listed in ranked order (best first). The tags handed in that night form a pool of numbers. The step walks the ranked list and does four things at each rank `k`:

- it gives the player at rank `k` the `k`-th tag of the pool, or no tag (null) once the pool is used up;
- it computes the signed change `newTag - oldTag` against the tag that player held, or 0 when either tag is null;
- it labels the change "Gained n" (a lower tag) or "Lost n" (a higher tag), or an em dash for no change, with a matching style class;
- it overwrites the player's tag in the shared players array.

Files:

- `options.dfy`: `Options.Option`, the nullable tag.
- `decimal.dfy`: `Decimal`, the decimal rendering of the change's magnitude and its inverse parser.
- `tag_rules.dfy`: `TagRules`, the per-rank rules (new tag, change, label, class).
- `redistribution.dfy`: `Redistribution`, the loop as a method over `array<Player>`, the functions that specify it (`Redistributed` for the new array, `Rows` for what each rank reports) and the lemmas about them.

The method `RedistributeTags` has one precondition: every score entry must name a valid player index. For an index with no player, the lookup at script.js:4 yields `undefined` and reading its tag at script.js:6 throws, leaving the overwrites of the earlier ranks in place; the model excludes that case rather than modelling a half-finished loop. Two further facts come from code that is not part of this model: that no player is ranked twice, and that the pool is sorted ascending. They appear as hypotheses of the lemmas that need them and are not required by the method. Without distinct indices the model still does what the loop does: a later rank overwrites an earlier one, and its old tag is the one that earlier rank just wrote.

## Model

| member | source | states |
|---|---|---|
| `TagRules.NewTag` | script.js:5 | rank `k` gets a tag exactly when `k` is inside the pool, and that tag is `availableTags[k]`, an element of the pool |
| `TagRules.Change` | script.js:6 | when both tags are present, old tag plus change equals new tag; otherwise the change is 0 |
| `Decimal.DecimalString` | script.js:7 | the rendered magnitude is a non-empty string of digits with no leading zero (it starts with '0' only for 0, and 0 renders as "0") |
| `Decimal.ParseDecimalString` | script.js:7 | parsing the rendered magnitude gives the number back |
| `Decimal.DecimalStringInjective` | script.js:7 | different magnitudes never render the same |
| `TagRules.ChangeTextRoundTrip` | script.js:7 | the label determines the change: reading "Gained n" gives -n, "Lost n" gives n, the dash gives 0 |
| `TagRules.ChangeTextInjective` | script.js:7 | two different changes never get the same label |
| `TagRules.ChangeText` | script.js:7 | no contract of its own: the label "Gained n" / "Lost n" with n the magnitude, or the dash for 0; `ChangeTextRoundTrip` and `ChangeReportFollowsSign` state what it does |
| `TagRules.ChangeClass` | script.js:8 | no contract of its own: the class `gained`, `lost` or empty; `ChangeReportFollowsSign` states what it does |
| `TagRules.ChangeReportFollowsSign` | script.js:7-8 | class `gained` iff change < 0, `lost` iff change > 0, empty iff 0; the label starts with "Gained " iff change < 0, with "Lost " iff change > 0, and is the dash iff 0 |
| `Redistribution.RowFor` | script.js:5-8 | no contract of its own: one rank's row (rank, index, name, raw score, old tag, new tag, change, label, class) from the player's record at that rank; `RowAt`, `OldTagIsOriginal` and `RowReportsChange` state what it does |
| `Redistribution.Redistributed` | script.js:3-18 | the players after every rank is handled, as a fold of one overwrite per rank; the array keeps its length |
| `Redistribution.Rows` | script.js:3-18 | one report row per rank, computed from the tag the player holds when that rank is reached |
| `Redistribution.RedistributeTags` | script.js:3-18 | the loop leaves the array equal to `Redistributed` of the old array and returns `Rows` of it; with distinct indices, rank `k` holds `NewTag(k)` and its row uses the tag from before the loop; unranked players are unchanged; names are unchanged |
| `Redistribution.UnrankedUnchanged` | script.js:4-17 | a player no rank refers to keeps its record |
| `Redistribution.NamesKept` | script.js:17 | only the tag is overwritten: every name stays |
| `Redistribution.RankGetsNewTag` | script.js:4-17 | with distinct indices, the player at rank `k` ends with that rank's new tag |
| `Redistribution.RankedTagFromPool` | script.js:5-17 | no tag is invented: a ranked player's non-null tag is in the pool, even when indices repeat |
| `Redistribution.RowAt` | script.js:4-8 | row `k` is computed from the player's record (name and tag) just before rank `k` overwrites the tag |
| `Redistribution.OldTagIsOriginal` | script.js:6-17 | with distinct indices, that tag is the one held before the loop began |
| `Redistribution.RowReportsChange` | script.js:5-8 | with distinct indices, each row carries its rank and index, the player's name and raw score, the original tag, the rank's new tag, the change new minus old (0 if either is null), a label that reads back to the change, and a class that follows its sign: `gained` iff negative, `lost` iff positive, empty iff 0 |
| `Redistribution.TagsHandedOut` | script.js:3-5 | with distinct indices, the non-null tags in rank order are exactly the first min(#scores, #pool) pool entries: that many players get a tag, and the multiset of handed-out tags is within the pool's |
| `Redistribution.RankOrderCarriesOver` | script.js:3-5 | for ranks i < j that both get tags, they are pool entries i and j; over a sorted pool, tag i <= tag j |
| `Redistribution.BetterScoreLowerTag` | script.js:3-5 | over a list ranked by score and a sorted pool, a strictly lower score never ends with a higher tag |
| `Redistribution.ThreePlayerExample` | script.js:3-18 | players holding 5, 2 and none score 60, 55 and 58; over pool [2, 5] they end with none, 2 and 5, and every row reports no change |
| `Redistribution.GainedExample` | script.js:6-8 | going from tag 7 to tag 3 is a change of -4, labelled "Gained 4" with class `gained` |

## Left out

- The HTML building and the `innerHTML` write (script.js:10-16, 19): rendering and DOM output. With them goes the display `p.tag || '—'`, which shows tag 0 as a dash. The model's rows carry the values that HTML shows (rank, name, raw score, old and new tag, change, label and class), not the markup; rows number ranks from 0, where the page shows `rank + 1`.
- How `scores` is sorted and how `availableTags` is gathered: that code is not part of this model. Both are inputs. Ranked order and a sorted pool are lemma hypotheses.
- Player objects are modelled as values in the array. `p.tag = newTag` becomes replacing the array slot with the same record and a new tag. Two slots sharing one object is not modelled.
- Scores and tags are integers. Fractional numbers and JavaScript's exponent notation for very large numbers in the change label are not modelled.
- Flag-duty planning, form reading, roster persistence and CSV export are not part of this model.
