# Vocabulary board scheduler

This project models the scheduling core of a vocabulary board, `word_app_streamlit.py`. The board is a session holding three things:

- an insertion-ordered list of word items, where each item has a text, an exposure count (`total_count`), the round it was last shown in (`last_seen_round`) and a `visible` flag;
- a round counter;
- a display capacity (`max_display`, 15).

Adding a word or refreshing the layout advances the round and runs the *visibility pass*:

- **Small board.** When the board holds no more items than the capacity, every item is shown.
- **Larger board, top group.** Otherwise the items are stable-sorted by their count before the pass. The first `max_display` items in that order are shown.
- **Larger board, the rest.** Every other item goes through a three-tier re-admission test on the rounds since it was last shown:
  - at most 5 exposures: back after 2 rounds;
  - at most 10 exposures: back after 3 rounds;
  - otherwise: back after 5 rounds.
- **Effect of being shown.** A shown item has its count bumped and its last-seen round set to the current round. A hidden item keeps its counters.

The project has four modules:

- `Strings` models Python's argument-less `str.strip()`. This uses the exact character set of `str.isspace()`.
- `StableSort` models `sorted(..., key=...)` on integer keys as a permutation of positions. It proves three things:
  - the permutation is ordered by (key, original position);
  - it is the only such permutation;
  - the place of a position in it is its rank, meaning the number of positions that come before it.
- `Scheduler` states the pass on values (`Pass`) and proves what it guarantees:
  - the state each pass leaves;
  - that the counters only grow;
  - the top group and the tiers;
  - that records with lower exposure come first;
  - that the capacity is *not* an upper bound on what is shown.
- `Vocabulary` is the imperative session:
  - `WordItem` and `VocabularyApp` are classes whose fields are updated in place;
  - the pass is a method working on the items through the sorted list, and it is proved equal to `Pass`;
  - the session invariant `Valid` says the items are distinct, none was seen after the current round, and an item is visible exactly when it was seen in the current round. The public operations keep it: the constructor, `AddWord`, `RefreshLayout` and `ClearAllWords` each ensure it.

## Model

| member | source | states |
|---|---|---|
| Strings.IsSpace | word_app_streamlit.py:51 | The characters `str.isspace()` accepts. Among ASCII characters these are exactly tab, line feed, vertical tab, form feed, carriage return, the separators 0x1C-0x1F and space. No character above U+3000 is whitespace. |
| Strings.Strip | word_app_streamlit.py:51-53 | `text.strip()`: the result is a slice of the input that starts and ends with a non-space character. Only whitespace is cut on either side. The result is empty exactly when the input is all whitespace. |
| Strings.StripIdempotent | word_app_streamlit.py:51-53 | Stripping an already stripped text changes nothing, so the text stored by `add_word` is a fixed point of `strip`. |
| StableSort.Insert | word_app_streamlit.py:79 | Inserting a new position into an ordered list of positions keeps it ordered by (key, position). It adds exactly that position. |
| StableSort.Sort | word_app_streamlit.py:79 | `sorted(self.words, key=total_count)` as a permutation of positions: every position exactly once, in ascending key order, with ties in original order. |
| StableSort.Position | word_app_streamlit.py:80 | The index `enumerate` gives an item in the sorted list. It is the first place holding that item. |
| StableSort.OrderedDistinct | word_app_streamlit.py:79 | A list ordered by (key, position) repeats no position, so the sorted list holds each item once. |
| StableSort.PositionOfEntry | word_app_streamlit.py:80 | In a sorted list, the item at place `p` is found at place `p`. |
| StableSort.OrderedUnique | word_app_streamlit.py:79 | Two lists ordered by (key, position) over the same positions are equal. |
| StableSort.SortIsUnique | word_app_streamlit.py:79 | Any stable ascending sort of the positions equals `Sort`, so the sort is determined by the counts alone. |
| StableSort.PositionIsRank | word_app_streamlit.py:79-81 | In any stable sort, an item's index under `enumerate` is the number of items with a smaller count, or an equal count and an earlier insertion. |
| StableSort.RankRespectsBefore | word_app_streamlit.py:79 | An item ahead of another in (count, insertion) order has the smaller index in the sorted list. |
| Scheduler.Counts | word_app_streamlit.py:79 | The sort key `lambda x: x.total_count`: one key per record, equal to its count before the pass. |
| Scheduler.Shown | word_app_streamlit.py:82-84 | A shown record keeps its text, becomes visible, has its count raised by one and is last seen in the current round. The same bump is at lines 95-97. |
| Scheduler.Revisit | word_app_streamlit.py:86-97 | After the tier test, a record is visible exactly when `Readmitted` holds for its count and the rounds since it was last seen. A re-admitted record is shown; a hidden one keeps its text, count and last-seen round. |
| Scheduler.Placed | word_app_streamlit.py:80-97 | The record at index `p` of the sorted list keeps its text. It is visible when `p < max_display`; otherwise it is visible exactly when the tier test re-admits it. When visible it is the shown record; otherwise it is the old record marked hidden. |
| Scheduler.Readmitted | word_app_streamlit.py:86-94 | The tier test, first match wins. It holds exactly when the gap reaches 2, 3 or 5 rounds for at most 5, at most 10, or more exposures. Every item is back after 5 rounds, and none after fewer than 2. |
| Scheduler.Pass | word_app_streamlit.py:71-97 | The pass keeps length and texts. Each record comes out shown (bumped count, last seen now, visible) or hidden with its counters unchanged. On a board no larger than the capacity, every record is shown. |
| Scheduler.PassSchedules | word_app_streamlit.py:55-56 | Run after the round is advanced, the pass leaves every record last seen at most now, and visible exactly when seen now. No count or last-seen round decreases. |
| Scheduler.PassAtPlace | word_app_streamlit.py:80-97 | On a board beyond capacity, the record at place `p` of any stable sort is shown when `p < max_display`. Otherwise it goes through the tier test. |
| Scheduler.SortedWalkIsPass | word_app_streamlit.py:79-97 | Updating each record at its place in the sort (shown within capacity, tier-tested beyond) gives exactly the pass. |
| Scheduler.OverflowShowsCapacity | word_app_streamlit.py:80-84 | On a board beyond capacity, at least `max_display` records are visible after the pass. |
| Scheduler.LowerExposureFirst | word_app_streamlit.py:79-97 | Take a record ahead of another in (count, insertion) order that was seen no later. It is visible whenever the other one is. |
| Scheduler.ReadmissionExceedsCapacity | word_app_streamlit.py:85-97 | Records with at most 5 exposures, all unseen for 2 or more rounds, are all shown, however many there are. The capacity is therefore not an upper bound. |
| Vocabulary.WordItem.constructor | word_app_streamlit.py:7-11 | A new item has the given text, count 0, last seen in round 0, and is visible. |
| Vocabulary.WordItem.ToDict | word_app_streamlit.py:13-19 | `to_dict`: the record carries the item's four fields. `last_seen` is the last-seen round. |
| Vocabulary.WordItem.MarkSeen | word_app_streamlit.py:82-84 | The item becomes the shown form of its old record: visible, count plus one, last seen now. |
| Vocabulary.WordItem.Readmit | word_app_streamlit.py:86-97 | The item becomes its old record after the tier test: shown if a tier re-admits it, otherwise hidden with its counters unchanged. |
| Vocabulary.FilterVisible | word_app_streamlit.py:100 | `[w for w in words if w.visible]`: it holds only visible items of the list, and every visible item of the list. When the list repeats no item, neither does the result. |
| Vocabulary.MarkAllSeen | word_app_streamlit.py:72-77 | Every item of the list is shown: visible, count plus one, last seen now. |
| Vocabulary.ScheduleRanked | word_app_streamlit.py:80-97 | The loop over the sorted list. The item at index `p` is shown when `p < max_display` and is tier-tested otherwise. |
| Vocabulary.VocabularyApp.Records | word_app_streamlit.py:13-19 | One record per item, in insertion order, each the item's `to_dict`. |
| Vocabulary.VocabularyApp.constructor | word_app_streamlit.py:37-40 | A fresh session has no words, round 0 and capacity 15, and satisfies the session invariant. |
| Vocabulary.VocabularyApp.AddWord | word_app_streamlit.py:50-56 | Blank text after stripping changes nothing. Otherwise three things happen: one fresh item with the stripped text is appended, the earlier items and their texts stay in place, and the round advances by one. The records are then the pass over the old records plus the new one. The invariant is kept, and no earlier item's counters decrease. |
| Vocabulary.VocabularyApp.RefreshLayout | word_app_streamlit.py:60-62 | The list is unchanged and the round advances by one. The records become the pass of the new round. Texts are kept, counters do not decrease, and the invariant is kept. |
| Vocabulary.VocabularyApp.ClearAllWords | word_app_streamlit.py:65-67 | The list is empty and the round is 0, the state of a fresh session. |
| Vocabulary.VocabularyApp.UpdateVisibility | word_app_streamlit.py:71-97 | `_update_visibility` done in place on the items. The new records are exactly `Pass` of the old records in the current round. |
| Vocabulary.VocabularyApp.VisibleWords | word_app_streamlit.py:99-100 | The items handed to the renderer are exactly the visible ones, each once when the items are distinct. Under the session invariant, these are exactly the items seen in the current round. |
| Vocabulary.SequentialAddsCount | word_app_streamlit.py:50-56 | Adding two words to a fresh session leaves the first shown twice and the second once, because every add runs a pass over the whole board. |

## Left out

- Streamlit is not modelled: the `st.session_state` mirroring, the widgets and buttons, `st.rerun`, and the HTML/CSS in `main` (word_app_streamlit.py:42-48, 57-58, 63, 68-69, 105-195). The session is an explicit `VocabularyApp` object instead.
- `WordDisplay` is not modelled: its random size, colour and rotation (word_app_streamlit.py:21-34). It is randomness with no effect on the schedule.
- The `random.shuffle` of the visible items is not modelled (word_app_streamlit.py:102-103). `VisibleWords` is the list before the shuffle, so only *which* items are visible is stated, not the order they are shown in.
- `maxDisplay` is a constant field set to 15 by the constructor. The Python attribute could be reassigned from outside, but nothing in the file does so.
- Vocabulary.VocabularyApp.UpdateVisibility: it requires the items to be distinct objects and every item to have been last seen before the current round. Both callers advance the round just before calling it, and no other entry point exists.
- Vocabulary.VocabularyApp.ClearAllWords: its new state does not mention the items the session held before, which stay allocated but unreachable from the session.
- The sort runs on the counts taken before the pass, as Python's `sorted` computes its keys once. `Sort` is a pure function over those keys rather than a loop, because the source calls the library sort.
- The loop of the pass is split over the methods `MarkAllSeen`, `ScheduleRanked`, `WordItem.MarkSeen` and `WordItem.Readmit`. Their combined effect is the source's loop bodies.
- Strings.Strip: it covers the characters Python's `str.isspace()` accepts (ASCII whitespace, the information separators 0x1C-0x1F, and the Unicode space separators). Surrogates and other non-BMP code points are never whitespace, so they need no case.
- A large board is not capped at `max_display` visible items, so no such upper bound is stated. The tier test can re-admit items beyond the top group. `ReadmissionExceedsCapacity` proves the bound false, and `OverflowShowsCapacity` proves the lower bound that does hold.
- Words added one at a time do not all end with count 1. Every add runs a pass over the whole board, so earlier words are counted again. `SequentialAddsCount` states this for two words.
