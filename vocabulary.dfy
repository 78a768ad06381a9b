/**
 * The vocabulary board's session: the word items, the round counter and the display
 * capacity, with the operations that add a word, refresh the layout, clear the board
 * and run the visibility pass over the items in place.
 */
module Vocabulary {
  import opened Strings
  import opened StableSort
  import opened Scheduler

  /** The capacity the application starts with. */
  const DefaultMaxDisplay: nat := 15

  /** One word on the board, with its exposure counters. */
  class WordItem {
    var text: string
    var totalCount: nat
    var lastSeenRound: nat
    var visible: bool

    /** A new item: never shown yet, marked visible until the pass that follows. */
    constructor (text: string)
      ensures this.text == text && totalCount == 0 && lastSeenRound == 0 && visible
    {
      this.text := text;
      totalCount := 0;
      lastSeenRound := 0;
      visible := true;
    }

    /** Marks the item visible in round `round`: shown once more, last seen now. */
    method MarkSeen(round: nat)
      modifies this
      ensures ToDict() == Shown(old(ToDict()), round)
    {
      visible := true;
      totalCount := totalCount + 1;
      lastSeenRound := round;
    }

    /**
     * The tier test for an item outside the guaranteed group in round `round`: the item
     * becomes visible when one of the tiers re-admits it, and is then counted as seen now;
     * otherwise it is hidden with its counters left as they were.
     */
    method Readmit(round: nat)
      modifies this
      ensures ToDict() == Revisit(old(ToDict()), round)
    {
      var roundsSinceLast := round - lastSeenRound;
      if totalCount <= 5 && roundsSinceLast >= 2 {
        visible := true;
      } else if totalCount <= 10 && roundsSinceLast >= 3 {
        visible := true;
      } else if totalCount > 10 && roundsSinceLast >= 5 {
        visible := true;
      } else {
        visible := false;
      }
      if visible {
        totalCount := totalCount + 1;
        lastSeenRound := round;
      }
    }

    /** The item's four fields as one record; the last-seen round is the `last_seen` entry. */
    function ToDict(): (d: WordRecord)
      reads this
      ensures d.text == text && d.totalCount == totalCount
      ensures d.lastSeen == lastSeenRound && d.visible == visible
    {
      WordRecord(text, totalCount, lastSeenRound, visible)
    }
  }

  /** No item occurs twice in `ws`. */
  ghost predicate Distinct(ws: seq<WordItem>) {
    forall i, j :: 0 <= i < j < |ws| ==> ws[i] != ws[j]
  }

  /** The items of `ws` that are visible, in the order of `ws`. */
  function FilterVisible(ws: seq<WordItem>): (vs: seq<WordItem>)
    reads ws
    ensures |vs| <= |ws|
    ensures forall k :: 0 <= k < |vs| ==> vs[k] in ws && vs[k].visible
    ensures forall i :: 0 <= i < |ws| && ws[i].visible ==> ws[i] in vs
    ensures Distinct(ws) ==> Distinct(vs)
  {
    if ws == [] then []
    else
      var rest := FilterVisible(ws[1..]);
      assert forall i :: 1 <= i < |ws| ==> ws[i] == ws[1..][i - 1];
      if ws[0].visible then [ws[0]] + rest else rest
  }

  /** The loop of the pass when every item fits: each item is shown. */
  method MarkAllSeen(ws: seq<WordItem>, round: nat)
    requires Distinct(ws)
    modifies ws
    ensures forall i :: 0 <= i < |ws| ==> ws[i].ToDict() == Shown(old(ws[i].ToDict()), round)
  {
    for i := 0 to |ws|
      invariant forall j :: 0 <= j < i ==> ws[j].ToDict() == Shown(old(ws[j].ToDict()), round)
      invariant forall j :: i <= j < |ws| ==> ws[j].ToDict() == old(ws[j].ToDict())
    {
      var word := ws[i];
      word.visible := true;
      word.totalCount := word.totalCount + 1;
      word.lastSeenRound := round;
    }
  }

  /**
   * The loop over the items in sorted order: the item at place `p` is shown when `p` is
   * within the capacity and goes through the tier test otherwise.
   */
  method ScheduleRanked(sortedWords: seq<WordItem>, round: nat, maxDisplay: nat)
    requires Distinct(sortedWords)
    modifies sortedWords
    ensures forall q :: 0 <= q < |sortedWords| ==>
      sortedWords[q].ToDict() == Placed(old(sortedWords[q].ToDict()), q, round, maxDisplay)
  {
    for p := 0 to |sortedWords|
      invariant forall q :: 0 <= q < p ==>
        sortedWords[q].ToDict() == Placed(old(sortedWords[q].ToDict()), q, round, maxDisplay)
      invariant forall q :: p <= q < |sortedWords| ==> sortedWords[q].ToDict() == old(sortedWords[q].ToDict())
    {
      var word := sortedWords[p];
      if p < maxDisplay {
        word.MarkSeen(round);
      } else {
        word.Readmit(round);
      }
    }
  }

  class VocabularyApp {
    var words: seq<WordItem>
    var currentRound: nat
    const maxDisplay: nat

    /** The record of every item, in insertion order: `[w.to_dict() for w in words]`. */
    function Records(): (rs: seq<WordRecord>)
      reads this`words, words
      ensures |rs| == |words|
      ensures forall i :: 0 <= i < |words| ==> rs[i] == words[i].ToDict()
    {
      var ws := words;
      seq(|ws|, i reads ws requires 0 <= i < |ws| => ws[i].ToDict())
    }

    /**
     * The session invariant: every item is a separate object, none was seen after the
     * current round, and an item is visible exactly when it was seen in the current round.
     */
    ghost predicate Valid()
      reads this, words
    {
      Distinct(words) && Scheduled(Records(), currentRound)
    }

    /** A fresh session: no words, round 0, capacity 15. */
    constructor ()
      ensures Valid()
      ensures words == [] && currentRound == 0 && maxDisplay == DefaultMaxDisplay
    {
      words := [];
      currentRound := 0;
      maxDisplay := DefaultMaxDisplay;
    }

    /**
     * Adds the stripped `text` as a new item and runs the pass of the next round;
     * text that is empty after stripping changes nothing.
     */
    method AddWord(text: string)
      requires Valid()
      modifies this, words
      ensures Valid()
      ensures Strip(text) == [] ==>
        words == old(words) && currentRound == old(currentRound) && Records() == old(Records())
      ensures Strip(text) != [] ==>
        |words| == |old(words)| + 1 && words[..|old(words)|] == old(words) &&
        fresh(words[|old(words)|]) && currentRound == old(currentRound) + 1
      ensures Strip(text) != [] ==>
        Records()[|old(words)|].text == Strip(text) &&
        (forall i :: 0 <= i < |old(words)| ==> Records()[i].text == old(Records())[i].text)
      ensures Strip(text) != [] ==>
        Records() == Pass(old(Records()) + [WordRecord(Strip(text), 0, 0, true)], currentRound, maxDisplay)
      ensures forall i :: 0 <= i < |old(words)| ==>
        words[i].totalCount >= old(words[i].totalCount) &&
        words[i].lastSeenRound >= old(words[i].lastSeenRound)
    {
      var stripped := Strip(text);
      if stripped == [] {
        return;
      }
      var word := new WordItem(stripped);
      words := words + [word];
      currentRound := currentRound + 1;
      assert Records() == old(Records()) + [WordRecord(stripped, 0, 0, true)];
      UpdateVisibility();
      PassSchedules(old(Records()) + [WordRecord(stripped, 0, 0, true)], currentRound, maxDisplay);
    }

    /** Runs the pass of the next round over the items as they are. */
    method RefreshLayout()
      requires Valid()
      modifies this, words
      ensures Valid()
      ensures words == old(words) && currentRound == old(currentRound) + 1
      ensures Records() == Pass(old(Records()), currentRound, maxDisplay)
      ensures forall i :: 0 <= i < |words| ==>
        words[i].text == old(words[i].text) &&
        words[i].totalCount >= old(words[i].totalCount) &&
        words[i].lastSeenRound >= old(words[i].lastSeenRound)
    {
      currentRound := currentRound + 1;
      UpdateVisibility();
      PassSchedules(old(Records()), currentRound, maxDisplay);
    }

    /** Empties the board and restarts the round counter. */
    method ClearAllWords()
      modifies this
      ensures Valid()
      ensures words == [] && currentRound == 0
    {
      words := [];
      currentRound := 0;
    }

    /**
     * The visibility pass of the current round, done in place on the items. Both callers
     * advance the round first, so every item was last seen in an earlier round.
     */
    method UpdateVisibility()
      requires Distinct(words)
      requires forall i :: 0 <= i < |words| ==> words[i].lastSeenRound < currentRound
      modifies words
      ensures Records() == Pass(old(Records()), currentRound, maxDisplay)
    {
      if |words| <= maxDisplay {
        MarkAllSeen(words, currentRound);
        return;
      }
      ghost var before := Records();
      var order := Sort(Counts(Records()));
      var ws := words;
      var sortedWords := seq(|order|, q requires 0 <= q < |order| => ws[order[q]]);
      OrderedDistinct(Counts(before), order);
      assert forall q :: 0 <= q < |order| ==> sortedWords[q].ToDict() == before[order[q]];
      ScheduleRanked(sortedWords, currentRound, maxDisplay);
      SortedWalkIsPass(before, order, currentRound, maxDisplay, Records());
    }

    /** The items handed to the renderer, before it shuffles them: exactly those seen this round. */
    function VisibleWords(): (vs: seq<WordItem>)
      reads this, words
      ensures |vs| <= |words|
      ensures forall k :: 0 <= k < |vs| ==> vs[k] in words && vs[k].visible
      ensures forall i :: 0 <= i < |words| && words[i].visible ==> words[i] in vs
      ensures Distinct(words) ==> Distinct(vs)
      ensures Valid() ==> forall i :: 0 <= i < |words| ==>
        (words[i] in vs <==> words[i].lastSeenRound == currentRound)
    {
      FilterVisible(words)
    }
  }

  /**
   * Two words added one after the other to a fresh session: every add runs a pass over
   * the whole board, so the first word has been shown twice and the second once.
   */
  method SequentialAddsCount() returns (first: nat, second: nat)
    ensures first == 2 && second == 1
  {
    var app := new VocabularyApp();
    assert !IsSpace(" apple "[1]);
    app.AddWord(" apple ");
    assert !IsSpace("pear"[0]);
    app.AddWord("pear");
    first := app.words[0].totalCount;
    second := app.words[1].totalCount;
  }
}
