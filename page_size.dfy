/**
 * Page-size negotiation of contentScript.js: how an option of a `<select>` or of a listbox is
 * ranked ("all" beats the largest number), which `<select>` on the page is chosen, and what
 * `adjustPageSize` then does to it.
 *
 * The source ranks with -1 (no number), the parsed number, and `Infinity` (an "all" option); here
 * these are `NoRank`, `Num(n)` and `All`, ordered by `Below`.
 */
module PageSize {
  import opened Wrappers
  import opened Text

  datatype Rank = NoRank | Num(n: nat) | All

  /** The strict order `<` on -1, the non-negative numbers and `Infinity`. */
  predicate Below(a: Rank, b: Rank) {
    match (a, b)
    case (NoRank, NoRank) => false
    case (NoRank, _) => true
    case (Num(m), Num(n)) => m < n
    case (Num(_), All) => true
    case _ => false
  }

  /** `Below` is a strict total order. */
  lemma BelowIsStrictTotalOrder(a: Rank, b: Rank, c: Rank)
    ensures !Below(a, a)
    ensures Below(a, b) && Below(b, c) ==> Below(a, c)
    ensures a != b ==> (Below(a, b) <==> !Below(b, a))
  {
  }

  /**
   * How an option's trimmed text ranks: any mention of "all" (`/all/i`) is `All`; otherwise the
   * number made of all its digits (`parseInt(text.replace(/\D/g, ''), 10)`); a text without
   * digits has no rank.
   */
  function RankOf(text: string): Rank {
    if MentionsAll(text) then All
    else match ParseDigits(text)
      case None => NoRank
      case Some(n) => Num(n)
  }

  /** The rank of the kept choice, -1 when nothing is kept yet. */
  function RankAt(ranks: seq<Rank>, best: Option<nat>): Rank {
    if best.Some? && best.value < |ranks| then ranks[best.value] else NoRank
  }

  /** The choice a left-to-right scan keeps when it replaces it only on a strictly greater rank. */
  function BestOf(ranks: seq<Rank>): (r: Option<nat>)
    ensures r.Some? ==> r.value < |ranks|
  {
    if ranks == [] then None
    else
      var kept := BestOf(ranks[..|ranks| - 1]);
      if Below(RankAt(ranks, kept), ranks[|ranks| - 1]) then Some(|ranks| - 1) else kept
  }

  /** `k` is the first position holding the greatest rank, and that rank is a real one. */
  ghost predicate IsFirstMaximum(ranks: seq<Rank>, k: int) {
    && 0 <= k < |ranks|
    && ranks[k] != NoRank
    && (forall j :: 0 <= j < k ==> Below(ranks[j], ranks[k]))
    && (forall j :: k < j < |ranks| ==> !Below(ranks[k], ranks[j]))
  }

  /** At most one position is the first maximum. */
  lemma FirstMaximumUnique(ranks: seq<Rank>, k1: int, k2: int)
    requires IsFirstMaximum(ranks, k1) && IsFirstMaximum(ranks, k2)
    ensures k1 == k2
  {
  }

  /**
   * The scan keeps the first position of the greatest rank; it keeps nothing exactly when no
   * position has a rank.
   */
  lemma {:induction false} BestOfIsFirstMaximum(ranks: seq<Rank>)
    ensures BestOf(ranks).None? <==> forall j :: 0 <= j < |ranks| ==> ranks[j] == NoRank
    ensures BestOf(ranks).Some? ==> IsFirstMaximum(ranks, BestOf(ranks).value)
  {
    if ranks != [] {
      var n := |ranks|;
      var prefix := ranks[..n - 1];
      var last := ranks[n - 1];
      BestOfIsFirstMaximum(prefix);
      var kept := BestOf(prefix);
      assert forall j :: 0 <= j < n - 1 ==> prefix[j] == ranks[j];
      if Below(RankAt(ranks, kept), last) {
        forall j | 0 <= j < n - 1
          ensures Below(ranks[j], last)
        {
          if kept.Some? {
            var k := kept.value;
            BelowIsStrictTotalOrder(ranks[j], ranks[k], last);
            if k < j {
              BelowIsStrictTotalOrder(ranks[k], ranks[j], last);
            }
          }
        }
        assert IsFirstMaximum(ranks, n - 1);
      } else if kept.Some? {
        assert IsFirstMaximum(ranks, kept.value);
      } else {
        assert last == NoRank;
      }
    }
  }

  /** The first `All` wins, whatever numbers come before or after it. */
  lemma FirstAllWins(ranks: seq<Rank>, i: int)
    requires 0 <= i < |ranks| && ranks[i] == All
    requires forall j :: 0 <= j < i ==> ranks[j] != All
    ensures BestOf(ranks) == Some(i)
  {
    BestOfIsFirstMaximum(ranks);
    assert IsFirstMaximum(ranks, i);
    FirstMaximumUnique(ranks, i, BestOf(ranks).value);
  }

  lemma BestOfPrefix(ranks: seq<Rank>, i: int)
    requires 0 <= i < |ranks|
    ensures BestOf(ranks[..i + 1]) ==
      if Below(RankAt(ranks, BestOf(ranks[..i])), ranks[i]) then Some(i) else BestOf(ranks[..i])
  {
    assert ranks[..i + 1][..i] == ranks[..i];
  }

  // ---------------------------------------------------------------------------------------
  // Options of one control

  /** An `<option>`: its trimmed `textContent` and its `value`. */
  datatype OptionItem = OptionItem(text: string, value: string)

  function Texts(options: seq<OptionItem>): (r: seq<string>)
    ensures |r| == |options|
  {
    seq(|options|, i requires 0 <= i < |options| => options[i].text)
  }

  /** The rank of each text, in order. */
  function TextRanks(texts: seq<string>): (r: seq<Rank>)
    ensures |r| == |texts|
  {
    if texts == [] then [] else TextRanks(texts[..|texts| - 1]) + [RankOf(texts[|texts| - 1])]
  }

  lemma {:induction false} TextRanksAt(texts: seq<string>, i: int)
    requires 0 <= i < |texts|
    ensures TextRanks(texts)[i] == RankOf(texts[i])
  {
    var n := |texts|;
    if i < n - 1 {
      TextRanksAt(texts[..n - 1], i);
    }
  }

  /** The rank of each option's text, in order. */
  function OptionRanks(options: seq<OptionItem>): (r: seq<Rank>)
    ensures |r| == |options|
  {
    TextRanks(Texts(options))
  }

  lemma OptionRanksAt(options: seq<OptionItem>, i: int)
    requires 0 <= i < |options|
    ensures OptionRanks(options)[i] == RankOf(options[i].text)
  {
    TextRanksAt(Texts(options), i);
  }

  /**
   * The option loop of `findPageSizeSelect`: the first option mentioning "all" ends the scan;
   * otherwise a number replaces the kept option only when strictly greater.
   */
  method SelectBestOption(options: seq<OptionItem>) returns (bestOpt: Option<nat>, bestVal: Rank)
    ensures bestOpt == BestOf(OptionRanks(options))
    ensures bestVal == RankAt(OptionRanks(options), bestOpt)
  {
    ghost var ranks := OptionRanks(options);
    bestOpt, bestVal := None, NoRank;
    var i := 0;
    assert ranks[..i] == [];
    while i < |options|
      invariant 0 <= i <= |options|
      invariant bestOpt == BestOf(ranks[..i])
      invariant bestVal == RankAt(ranks, bestOpt) && bestVal != All
      invariant All !in ranks[..i]
    {
      var text := options[i].text;
      if MentionsAll(text) {
        bestOpt, bestVal := Some(i), All;
        OptionRanksAt(options, i);
        FirstAllInPrefixWins(ranks, i);
        return;
      }
      var num := ParseDigits(text);
      ghost var val := if num.Some? then Num(num.value) else NoRank;
      assert ranks[i] == val by {
        OptionRanksAt(options, i);
        RankOfPlain(text);
      }
      OptionStep(ranks, i, bestOpt, bestVal);
      if num.Some? && Below(bestVal, Num(num.value)) {
        bestOpt, bestVal := Some(i), Num(num.value);
      }
      i := i + 1;
    }
    assert ranks[..i] == ranks;
  }

  /** The first `All`, past a prefix without one, wins. */
  lemma FirstAllInPrefixWins(ranks: seq<Rank>, i: int)
    requires 0 <= i < |ranks| && ranks[i] == All && All !in ranks[..i]
    ensures BestOf(ranks) == Some(i)
  {
    forall j | 0 <= j < i
      ensures ranks[j] != All
    {
      assert ranks[..i][j] == ranks[j];
    }
    FirstAllWins(ranks, i);
  }

  /** One pass of the option loop over a position that is not `All`. */
  lemma OptionStep(ranks: seq<Rank>, i: int, bestOpt: Option<nat>, bestVal: Rank)
    requires 0 <= i < |ranks| && ranks[i] != All
    requires bestOpt == BestOf(ranks[..i]) && bestVal == RankAt(ranks, bestOpt) && bestVal != All
    requires All !in ranks[..i]
    ensures BestOf(ranks[..i + 1]) == if Below(bestVal, ranks[i]) then Some(i) else bestOpt
    ensures All !in ranks[..i + 1]
  {
    BestOfPrefix(ranks, i);
    assert ranks[..i + 1] == ranks[..i] + [ranks[i]];
  }

  /**
   * The option loop of `findComboBoxPageSize`: every option is ranked (an "all" option counts as
   * `Infinity`) and one replaces the kept option only when strictly greater; there is no early exit.
   */
  method ListboxBestOption(texts: seq<string>) returns (bestOpt: Option<nat>, bestVal: Rank)
    ensures bestOpt == BestOf(TextRanks(texts))
    ensures bestVal == RankAt(TextRanks(texts), bestOpt)
  {
    ghost var ranks := TextRanks(texts);
    bestOpt, bestVal := None, NoRank;
    var i := 0;
    assert ranks[..i] == [];
    while i < |texts|
      invariant 0 <= i <= |texts|
      invariant bestOpt == BestOf(ranks[..i])
      invariant bestVal == RankAt(ranks, bestOpt)
    {
      var text := texts[i];
      var val := NoRank;
      if MentionsAll(text) {
        val := All;
      } else {
        var num := ParseDigits(text);
        if num.Some? {
          val := Num(num.value);
        }
      }
      TextRanksAt(texts, i);
      BestOfPrefix(ranks, i);
      if Below(bestVal, val) {
        bestOpt, bestVal := Some(i), val;
      }
      i := i + 1;
    }
    assert ranks[..i] == ranks;
  }

  /** The early-exit loop over `<option>`s and the listbox loop over the same texts pick the same option. */
  method BothLoopsAgree(options: seq<OptionItem>) returns (fromSelect: Option<nat>, fromListbox: Option<nat>)
    ensures fromSelect == fromListbox
    ensures fromSelect == BestOf(OptionRanks(options))
  {
    var selectVal, listboxVal;
    fromSelect, selectVal := SelectBestOption(options);
    fromListbox, listboxVal := ListboxBestOption(Texts(options));
    assert TextRanks(Texts(options)) == OptionRanks(options);
  }

  /** No option wins exactly when no option mentions "all" or holds a digit; a winner always has one. */
  lemma NoWinnerIff(texts: seq<string>)
    ensures BestOf(TextRanks(texts)).None? <==>
      forall j :: 0 <= j < |texts| ==> !MentionsAll(texts[j]) && ParseDigits(texts[j]).None?
    ensures BestOf(TextRanks(texts)).Some? ==>
      var k := BestOf(TextRanks(texts)).value;
      MentionsAll(texts[k]) || ParseDigits(texts[k]).Some?
  {
    var ranks := TextRanks(texts);
    BestOfIsFirstMaximum(ranks);
    forall j | 0 <= j < |texts|
      ensures ranks[j] == RankOf(texts[j])
    {
      TextRanksAt(texts, j);
    }
  }

  /** The first option mentioning "all" wins, whatever numbers the other options carry. */
  lemma FirstAllOptionWins(texts: seq<string>, i: int)
    requires 0 <= i < |texts| && MentionsAll(texts[i])
    requires forall j :: 0 <= j < i ==> !MentionsAll(texts[j])
    ensures BestOf(TextRanks(texts)) == Some(i)
  {
    var ranks := TextRanks(texts);
    forall j | 0 <= j <= i
      ensures ranks[j] == RankOf(texts[j])
    {
      TextRanksAt(texts, j);
    }
    FirstAllWins(ranks, i);
  }

  /**
   * Without an "all" option, the winner is the first option carrying the greatest number:
   * no option has a greater number, and every earlier option with digits has a smaller one.
   */
  lemma GreatestNumberWins(texts: seq<string>)
    requires forall j :: 0 <= j < |texts| ==> !MentionsAll(texts[j])
    requires BestOf(TextRanks(texts)).Some?
    ensures var k := BestOf(TextRanks(texts)).value;
      && ParseDigits(texts[k]).Some?
      && (forall j :: 0 <= j < |texts| && ParseDigits(texts[j]).Some? ==>
            ParseDigits(texts[j]).value <= ParseDigits(texts[k]).value)
      && (forall j :: 0 <= j < k && ParseDigits(texts[j]).Some? ==>
            ParseDigits(texts[j]).value < ParseDigits(texts[k]).value)
  {
    var ranks := TextRanks(texts);
    var k := BestOf(ranks).value;
    assert IsFirstMaximum(ranks, k) by {
      BestOfIsFirstMaximum(ranks);
    }
    PlainRankAt(texts, k);
    forall j | 0 <= j < |texts| && ParseDigits(texts[j]).Some?
      ensures ParseDigits(texts[j]).value <= ParseDigits(texts[k]).value
      ensures j < k ==> ParseDigits(texts[j]).value < ParseDigits(texts[k]).value
    {
      PlainRankAt(texts, j);
      NumberAgainstMaximum(ranks, k, j, ParseDigits(texts[j]).value, ParseDigits(texts[k]).value);
    }
  }

  /** A numbered position compared with a numbered first maximum. */
  lemma NumberAgainstMaximum(ranks: seq<Rank>, k: int, j: int, m: nat, n: nat)
    requires IsFirstMaximum(ranks, k) && 0 <= j < |ranks|
    requires ranks[j] == Num(m) && ranks[k] == Num(n)
    ensures m <= n && (j < k ==> m < n)
  {
    if j < k {
      assert Below(ranks[j], ranks[k]);
    } else if k < j {
      assert !Below(ranks[k], ranks[j]);
    }
  }

  /** The rank at a position whose text does not mention "all". */
  lemma PlainRankAt(texts: seq<string>, j: int)
    requires 0 <= j < |texts| && !MentionsAll(texts[j])
    ensures TextRanks(texts)[j] == if ParseDigits(texts[j]).Some? then Num(ParseDigits(texts[j]).value) else NoRank
  {
    TextRanksAt(texts, j);
    RankOfPlain(texts[j]);
  }

  /** Without a mention of "all", the rank is the number of the text's digits, if any. */
  lemma RankOfPlain(text: string)
    requires !MentionsAll(text)
    ensures RankOf(text) == if ParseDigits(text).Some? then Num(ParseDigits(text).value) else NoRank
  {
  }

  // ---------------------------------------------------------------------------------------
  // Choosing among the page's `<select>`s

  /** Which select and which of its options `findPageSizeSelect` returns, with the option's rank. */
  datatype PageSizeChoice = PageSizeChoice(selectIndex: nat, optionIndex: nat, value: Rank)

  /** The rank of a select's winning option; `NoRank` when no option wins (the select is skipped). */
  function SelectRank(options: seq<OptionItem>): Rank {
    RankAt(OptionRanks(options), BestOf(OptionRanks(options)))
  }

  function SelectRanks(lists: seq<seq<OptionItem>>): (r: seq<Rank>)
    ensures |r| == |lists|
  {
    seq(|lists|, i requires 0 <= i < |lists| => SelectRank(lists[i]))
  }

  /** Each entry of `SelectRanks` is the rank of its select. */
  lemma SelectRanksAt(lists: seq<seq<OptionItem>>)
    ensures forall i :: 0 <= i < |lists| ==> SelectRanks(lists)[i] == SelectRank(lists[i])
  {
  }

  /** The choice for a kept select position. */
  function ChoiceFor(lists: seq<seq<OptionItem>>, kept: Option<nat>): Option<PageSizeChoice> {
    match kept
    case None => None
    case Some(s) =>
      if s < |lists| then
        match BestOf(OptionRanks(lists[s]))
        case None => None
        case Some(k) => Some(PageSizeChoice(s, k, SelectRank(lists[s])))
      else None
  }

  /**
   * `findPageSizeSelect` over the option lists of the page's selects, in document order: a select
   * replaces the kept one only when its winning option ranks strictly higher.
   */
  function PageSizeTarget(lists: seq<seq<OptionItem>>): Option<PageSizeChoice> {
    ChoiceFor(lists, BestOf(SelectRanks(lists)))
  }

  /** No select is chosen exactly when no select has a winning option. */
  lemma PageSizeTargetNone(lists: seq<seq<OptionItem>>)
    ensures PageSizeTarget(lists).None? <==> forall s :: 0 <= s < |lists| ==> SelectRank(lists[s]) == NoRank
  {
    var ranks := SelectRanks(lists);
    SelectRanksAt(lists);
    BestOfIsFirstMaximum(ranks);
    if BestOf(ranks).Some? {
      ChosenOption(lists[BestOf(ranks).value]);
    }
  }

  /** The choice names an existing select and one of its options. */
  lemma PageSizeTargetInRange(lists: seq<seq<OptionItem>>)
    ensures PageSizeTarget(lists).Some? ==>
      PageSizeTarget(lists).value.selectIndex < |lists| &&
      PageSizeTarget(lists).value.optionIndex < |lists[PageSizeTarget(lists).value.selectIndex]|
  {
  }

  /**
   * The chosen select has the greatest winning rank and is the first to have it; its option is
   * that select's winning option.
   */
  lemma PageSizeTargetSpec(lists: seq<seq<OptionItem>>)
    requires PageSizeTarget(lists).Some?
    ensures var c := PageSizeTarget(lists).value;
      && c.selectIndex < |lists|
      && BestOf(OptionRanks(lists[c.selectIndex])) == Some(c.optionIndex)
      && c.value == SelectRank(lists[c.selectIndex]) == RankOf(lists[c.selectIndex][c.optionIndex].text)
      && c.value != NoRank
      && (forall s :: 0 <= s < |lists| ==> !Below(c.value, SelectRank(lists[s])))
      && (forall s :: 0 <= s < c.selectIndex ==> Below(SelectRank(lists[s]), c.value))
  {
    var ranks := SelectRanks(lists);
    var s := BestOf(ranks).value;
    SelectRanksAt(lists);
    assert IsFirstMaximum(ranks, s) by {
      BestOfIsFirstMaximum(ranks);
    }
    ChosenOption(lists[s]);
    forall j | 0 <= j < |lists|
      ensures !Below(ranks[s], SelectRank(lists[j]))
    {
      MaximumNotBelow(ranks, s, j);
    }
  }

  /** No position ranks strictly above the first maximum. */
  lemma MaximumNotBelow(ranks: seq<Rank>, k: int, j: int)
    requires IsFirstMaximum(ranks, k) && 0 <= j < |ranks|
    ensures !Below(ranks[k], ranks[j])
  {
    BelowIsStrictTotalOrder(ranks[j], ranks[k], ranks[k]);
  }

  /** A select whose scan keeps a winner: the winner's rank is the select's rank. */
  lemma ChosenOption(options: seq<OptionItem>)
    requires SelectRank(options) != NoRank
    ensures BestOf(OptionRanks(options)).Some?
    ensures var k := BestOf(OptionRanks(options)).value;
      k < |options| && SelectRank(options) == RankOf(options[k].text)
  {
    var ranks := OptionRanks(options);
    var k := BestOf(ranks).value;
    OptionRanksAt(options, k);
  }

  /** A select offering "all" beats every select offering only numbers, wherever it stands. */
  lemma AllSelectBeatsNumeric(numeric: seq<OptionItem>, withAll: seq<OptionItem>, n: nat)
    requires SelectRank(numeric) == Num(n)
    requires exists i :: 0 <= i < |withAll| && MentionsAll(withAll[i].text)
    ensures PageSizeTarget([numeric, withAll]).Some? && PageSizeTarget([numeric, withAll]).value.selectIndex == 1
    ensures PageSizeTarget([withAll, numeric]).Some? && PageSizeTarget([withAll, numeric]).value.selectIndex == 0
  {
    assert SelectRank(withAll) == All by {
      SelectMentioningAllRanksAll(withAll);
    }
    assert SelectRanks([numeric, withAll]) == [Num(n), All];
    FirstAllWins(SelectRanks([numeric, withAll]), 1);
    assert SelectRanks([withAll, numeric]) == [All, Num(n)];
    FirstAllWins(SelectRanks([withAll, numeric]), 0);
  }

  /** A select with an option mentioning "all" ranks `All`. */
  lemma SelectMentioningAllRanksAll(withAll: seq<OptionItem>)
    requires exists i :: 0 <= i < |withAll| && MentionsAll(withAll[i].text)
    ensures SelectRank(withAll) == All
  {
    var i :| 0 <= i < |withAll| && MentionsAll(withAll[i].text);
    var r := OptionRanks(withAll);
    OptionRanksAt(withAll, i);
    var first := FirstAll(r, i);
    FirstAllWins(r, first);
  }

  /** The first position holding `All`, given that one does. */
  lemma FirstAll(ranks: seq<Rank>, i: int) returns (first: int)
    requires 0 <= i < |ranks| && ranks[i] == All
    ensures 0 <= first <= i && ranks[first] == All
    ensures forall j :: 0 <= j < first ==> ranks[j] != All
  {
    first := 0;
    while ranks[first] != All
      invariant 0 <= first <= i
      decreases i - first
      invariant forall j :: 0 <= j < first ==> ranks[j] != All
    {
      first := first + 1;
    }
  }

  /** An `<option>` element list of a `<select>` on the page, with its selection. */
  class SelectElement {
    var options: seq<OptionItem>
    var selectedIndex: int
    /** The events dispatched on this select, oldest first. */
    var events: seq<EventKind>

    constructor (options: seq<OptionItem>, selectedIndex: int)
      ensures this.options == options && this.selectedIndex == selectedIndex && events == []
    {
      this.options := options;
      this.selectedIndex := selectedIndex;
      events := [];
    }
  }

  datatype EventKind = InputEvent | ChangeEvent

  function OptionLists(selects: seq<SelectElement>): (lists: seq<seq<OptionItem>>)
    reads selects
    ensures |lists| == |selects|
  {
    seq(|selects|, i reads selects requires 0 <= i < |selects| => selects[i].options)
  }

  /** `findPageSizeSelect()` over the page's selects in document order. */
  method FindPageSizeSelect(selects: seq<SelectElement>) returns (best: Option<PageSizeChoice>)
    ensures best == PageSizeTarget(OptionLists(selects))
  {
    ghost var lists := OptionLists(selects);
    ghost var ranks := SelectRanks(lists);
    ghost var kept: Option<nat> := None;
    best := None;
    var i := 0;
    assert ranks[..i] == [];
    while i < |selects|
      invariant 0 <= i <= |selects|
      invariant kept == BestOf(ranks[..i])
      invariant best == ChoiceFor(lists, kept)
    {
      var bestOpt, bestVal := SelectBestOption(selects[i].options);
      ScanStep(lists, i, kept, bestOpt, bestVal);
      if bestOpt.Some? && (best.None? || Below(best.value.value, bestVal)) {
        best := Some(PageSizeChoice(i, bestOpt.value, bestVal));
        kept := Some(i);
      }
      i := i + 1;
    }
    assert ranks[..i] == ranks;
  }

  /**
   * One pass of the select loop: replacing the kept select exactly when the new select's
   * winning rank is strictly higher extends the scan over the select ranks by one position.
   */
  lemma ScanStep(lists: seq<seq<OptionItem>>, i: int, kept: Option<nat>, bestOpt: Option<nat>, bestVal: Rank)
    requires 0 <= i < |lists|
    requires kept == BestOf(SelectRanks(lists)[..i])
    requires bestOpt == BestOf(OptionRanks(lists[i]))
    requires bestVal == RankAt(OptionRanks(lists[i]), bestOpt)
    ensures var best := ChoiceFor(lists, kept);
      var take := bestOpt.Some? && (best.None? || Below(best.value.value, bestVal));
      && BestOf(SelectRanks(lists)[..i + 1]) == (if take then Some(i) else kept)
      && (take ==> ChoiceFor(lists, Some(i)) == Some(PageSizeChoice(i, bestOpt.value, bestVal)))
  {
    var ranks := SelectRanks(lists);
    var best := ChoiceFor(lists, kept);
    assert ranks[i] == bestVal;
    assert bestOpt.Some? <==> bestVal != NoRank by {
      WinnerIffRanked(lists[i]);
    }
    assert RankAt(ranks, kept) == if best.Some? then best.value.value else NoRank by {
      ChoiceRank(lists, kept);
    }
    assert BestOf(ranks[..i + 1]) == if Below(RankAt(ranks, kept), ranks[i]) then Some(i) else kept by {
      BestOfPrefix(ranks, i);
    }
  }

  /** A select has a winning option exactly when its rank is not `NoRank`. */
  lemma WinnerIffRanked(options: seq<OptionItem>)
    ensures BestOf(OptionRanks(options)).Some? <==> SelectRank(options) != NoRank
  {
    BestOfIsFirstMaximum(OptionRanks(options));
  }

  /** The rank recorded in the choice for a kept select is that select's rank. */
  lemma ChoiceRank(lists: seq<seq<OptionItem>>, kept: Option<nat>)
    requires kept.Some? ==> kept.value < |lists|
    ensures var best := ChoiceFor(lists, kept);
      RankAt(SelectRanks(lists), kept) == if best.Some? then best.value.value else NoRank
  {
    if kept.Some? {
      WinnerIffRanked(lists[kept.value]);
    }
  }

  // ---------------------------------------------------------------------------------------
  // The combobox fallback

  /**
   * A `[role="combobox"][aria-controls]` element after it was clicked: its current text
   * (`(value || textContent || '').trim()`) and the trimmed texts of the options of the listbox it
   * controls, or `None` when that listbox did not appear within the wait.
   */
  datatype ComboBox = ComboBox(current: string, listbox: Option<seq<string>>)

  /** Whether the listbox of `combo` yields a winning option. */
  predicate HasWinner(combo: ComboBox) {
    combo.listbox.Some? && BestOf(TextRanks(combo.listbox.value)).Some?
  }

  /** The first combobox, from position `i` on, whose listbox appeared and has a winning option. */
  function ComboTargetFrom(combos: seq<ComboBox>, i: nat): (r: Option<(nat, nat)>)
    ensures r.Some? ==> i <= r.value.0 < |combos| && HasWinner(combos[r.value.0])
    decreases |combos| - i
  {
    if i >= |combos| then None
    else if HasWinner(combos[i]) then Some((i, BestOf(TextRanks(combos[i].listbox.value)).value))
    else ComboTargetFrom(combos, i + 1)
  }

  /** The combobox found is the first with a winning option, and none is found iff none has one. */
  lemma {:induction false} ComboTargetFromSpec(combos: seq<ComboBox>, i: nat)
    ensures ComboTargetFrom(combos, i).Some? ==>
      forall j :: i <= j < ComboTargetFrom(combos, i).value.0 ==> !HasWinner(combos[j])
    ensures ComboTargetFrom(combos, i).None? <==> forall j :: i <= j < |combos| ==> !HasWinner(combos[j])
    decreases |combos| - i
  {
    if i < |combos| && !HasWinner(combos[i]) {
      ComboTargetFromSpec(combos, i + 1);
    }
  }

  /** `findComboBoxPageSize()`, given what each combobox's listbox turned out to be. */
  method FindComboBoxPageSize(combos: seq<ComboBox>) returns (r: Option<(nat, nat)>)
    ensures r == ComboTargetFrom(combos, 0)
    ensures r.Some? ==>
      && r.value.0 < |combos| && HasWinner(combos[r.value.0])
      && (forall j :: 0 <= j < r.value.0 ==> !HasWinner(combos[j]))
    ensures r.None? ==> forall j :: 0 <= j < |combos| ==> !HasWinner(combos[j])
  {
    var i := 0;
    while i < |combos|
      invariant 0 <= i <= |combos|
      invariant ComboTargetFrom(combos, 0) == ComboTargetFrom(combos, i)
    {
      var listbox := combos[i].listbox;
      var winner: Option<nat> := None;
      if listbox.Some? {
        var bestOpt, bestVal := ListboxBestOption(listbox.value);
        winner := bestOpt;
      }
      ComboStep(combos, i, winner);
      if winner.Some? {
        ComboTargetFromSpec(combos, 0);
        return Some((i, winner.value));
      }
      i := i + 1;
    }
    ComboTargetFromSpec(combos, 0);
    return None;
  }

  /** One step of the combobox scan: the winner found in combobox `i`, if any, decides the target. */
  lemma ComboStep(combos: seq<ComboBox>, i: nat, winner: Option<nat>)
    requires i < |combos|
    requires combos[i].listbox.Some? ==> winner == BestOf(TextRanks(combos[i].listbox.value))
    requires combos[i].listbox.None? ==> winner.None?
    ensures winner.Some? <==> HasWinner(combos[i])
    ensures winner.Some? ==> ComboTargetFrom(combos, i) == Some((i, winner.value))
    ensures winner.None? ==> ComboTargetFrom(combos, i) == ComboTargetFrom(combos, i + 1)
  {
  }

  // ---------------------------------------------------------------------------------------
  // adjustPageSize

  datatype ComboOutcome =
    | NoCombo                                   // no combobox offered a winning option
    | ComboAlreadySet(combo: nat)               // its current text already is the winner's
    | ClickOption(combo: nat, option: nat)      // the winning option is clicked

  datatype Adjustment =
    | AlreadySelected(selectIndex: nat)         // resolved at once, no event dispatched
    | Selected(selectIndex: nat, optionIndex: nat)
    | ViaComboBox(outcome: ComboOutcome)

  /** `select.options[select.selectedIndex]?.textContent.trim()`. */
  function SelectedText(options: seq<OptionItem>, selectedIndex: int): Option<string> {
    if 0 <= selectedIndex < |options| then Some(options[selectedIndex].text) else None
  }

  /** `select.value = v` selects the first option whose value is `v`, or none (-1). */
  function FirstWithValue(options: seq<OptionItem>, v: string): (k: int)
    ensures -1 <= k < |options|
    ensures 0 <= k ==> options[k].value == v && forall j :: 0 <= j < k ==> options[j].value != v
    ensures k == -1 ==> forall j :: 0 <= j < |options| ==> options[j].value != v
    decreases |options|
  {
    if options == [] then -1
    else if options[0].value == v then 0
    else
      var k := FirstWithValue(options[1..], v);
      if k == -1 then -1 else k + 1
  }

  /** The decision of the combobox branch, given the combobox target. */
  function ComboDecision(combos: seq<ComboBox>, target: Option<(nat, nat)>): ComboOutcome
    requires target.Some? ==> target.value.0 < |combos| && HasWinner(combos[target.value.0])
  {
    match target
    case None => NoCombo
    case Some((c, k)) =>
      var texts := combos[c].listbox.value;
      if k < |texts| && combos[c].current == texts[k] then ComboAlreadySet(c) else ClickOption(c, k)
  }

  /**
   * `adjustPageSize(table)`: the best select is set to its best option and notified by an
   * `input` then a `change` event, unless its selected text already is that option's; only when
   * no select qualifies is the combobox fallback tried.
   */
  method AdjustPageSize(selects: seq<SelectElement>, combos: seq<ComboBox>) returns (outcome: Adjustment)
    modifies selects
    ensures forall s :: s in selects ==> s.options == old(s.options)
    ensures var target := PageSizeTarget(OptionLists(selects));
      match target
      case None =>
        && outcome == ViaComboBox(ComboDecision(combos, ComboTargetFrom(combos, 0)))
        && forall s :: s in selects ==> unchanged(s)
      case Some(c) =>
        var sel := selects[c.selectIndex];
        var best := sel.options[c.optionIndex];
        if SelectedText(sel.options, old(sel.selectedIndex)) == Some(best.text) then
          && outcome == AlreadySelected(c.selectIndex)
          && forall s :: s in selects ==> unchanged(s)
        else
          && outcome == Selected(c.selectIndex, c.optionIndex)
          && sel.selectedIndex == FirstWithValue(sel.options, best.value)
          && sel.events == old(sel.events) + [InputEvent, ChangeEvent]
          && forall s :: s in selects && s != sel ==> unchanged(s)
  {
    ghost var lists := OptionLists(selects);
    var info := FindPageSizeSelect(selects);
    PageSizeTargetInRange(lists);
    if info.Some? {
      var sel := selects[info.value.selectIndex];
      var best := sel.options[info.value.optionIndex];
      var selectedText := SelectedText(sel.options, sel.selectedIndex);
      if selectedText == Some(best.text) {
        return AlreadySelected(info.value.selectIndex);
      }
      sel.selectedIndex := FirstWithValue(sel.options, best.value);
      sel.events := sel.events + [InputEvent];
      sel.events := sel.events + [ChangeEvent];
      assert OptionLists(selects) == lists;
      return Selected(info.value.selectIndex, info.value.optionIndex);
    }
    var comboInfo := FindComboBoxPageSize(combos);
    return ViaComboBox(ComboDecision(combos, comboInfo));
  }
}
