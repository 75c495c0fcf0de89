/**
 * The separator-joined string formatter (apps/utils/app/page.tsx): the input
 * text is cut into its non-empty lines, which are optionally mapped or
 * sliced and then joined with a separator; the page's buttons are the
 * options built on that.
 */
module Formatter {
  import opened JsString

  /** The optional `op` argument of `processValue`; any other `type` behaves as no operation. */
  datatype Op =
    | NoOp
    | MapOp(fn: string -> string)
    | SliceOp(start: nat)

  /** The page's three state fields: the input text, the output text and the separator. */
  datatype FormatterState = FormatterState(input: string, output: string, separator: string)

  /** The state when the page opens: the separator starts as a comma. */
  function Initial(): FormatterState {
    FormatterState("", "", ",")
  }

  /** `value.split("\n").filter(v => !!v)`. */
  function Items(value: string): (r: seq<string>)
    ensures forall k :: 0 <= k < |r| ==> r[k] != "" && '\n' !in r[k]
    ensures forall k :: 0 <= k < |r| ==> forall d :: d in r[k] ==> d in value
  {
    var pieces := Split(value, '\n');
    var r := DropEmpty(pieces);
    SplitPiecesFromString(value, '\n');
    assert forall k :: 0 <= k < |r| ==> exists j :: 0 <= j < |pieces| && pieces[j] == r[k];
    r
  }

  /** `sp || splitValue`: an absent or empty `sp` falls back to the page's separator. */
  function Separator(sp: string, splitValue: string): string {
    if sp != "" then sp else splitValue
  }

  /** `processValue(value, op, sp)` with the page's separator `splitValue`. */
  function ProcessValue(value: string, op: Op, sp: string, splitValue: string): string {
    var items := Items(value);
    var sep := Separator(sp, splitValue);
    match op
    case MapOp(fn) => Join(MapSeq(fn, items), sep)
    case SliceOp(start) => Join(if start <= |items| then items[start..] else [], sep)
    case NoOp => Join(items, sep)
  }

  // ---------------------------------------------------------------------
  // The items
  // ---------------------------------------------------------------------

  /**
   * The items, written one after the other, are the input without its line
   * breaks: nothing else (no `\r`, no blank) is removed and the order is kept.
   */
  lemma ItemsKeepEverythingButLineBreaks(value: string)
    ensures Concat(Items(value)) == Without(value, '\n')
  {
    ConcatDropEmpty(Split(value, '\n'));
    ConcatSplit(value, '\n');
  }

  /**
   * Lines without line breaks, joined by line breaks, come back as exactly
   * their non-empty ones, in order: the filter drops the empty lines and
   * nothing else.
   */
  lemma ItemsOfJoinedLines(lines: seq<string>)
    requires forall k :: 0 <= k < |lines| ==> '\n' !in lines[k]
    ensures Items(Join(lines, "\n")) == DropEmpty(lines)
  {
    if |lines| == 0 {
      assert Split("", '\n') == [""];
    } else {
      SplitJoin(lines, '\n');
    }
  }

  /** Input made only of line breaks (the empty input among them) has no items, so every output is empty. */
  lemma EmptyInputGivesEmptyOutput(value: string, op: Op, sp: string, splitValue: string)
    requires forall k :: 0 <= k < |value| ==> value[k] == '\n'
    ensures Items(value) == []
    ensures ProcessValue(value, op, sp, splitValue) == ""
  {
    ItemsKeepEverythingButLineBreaks(value);
    WithoutOnly(value, '\n');
    ConcatOfNonEmpty(Items(value));
  }

  /** Items are free of `c` when the input is. */
  lemma ItemsAvoid(value: string, c: char)
    requires c !in value
    ensures forall k :: 0 <= k < |Items(value)| ==> c !in Items(value)[k]
  {
  }

  // ---------------------------------------------------------------------
  // Joining, mapping and slicing
  // ---------------------------------------------------------------------

  /**
   * With a one-character separator that no item holds, the output splits
   * back into exactly the items: the join used `sp` when given, else the
   * page's separator.
   */
  lemma ProcessValueSplitsBack(value: string, sp: string, splitValue: string, c: char)
    requires Separator(sp, splitValue) == [c]
    requires Items(value) != []
    requires forall k :: 0 <= k < |Items(value)| ==> c !in Items(value)[k]
    ensures Split(ProcessValue(value, NoOp, sp, splitValue), c) == Items(value)
  {
    SplitJoin(Items(value), c);
  }

  /**
   * Mapping keeps the number of items and applies `fn` to each, in order; an
   * item that `fn` empties still gives its (empty) segment.
   */
  lemma MapAppliesToEachItem(value: string, fn: string -> string, sp: string, splitValue: string, c: char)
    requires Separator(sp, splitValue) == [c]
    requires Items(value) != []
    requires forall k :: 0 <= k < |Items(value)| ==> c !in fn(Items(value)[k])
    ensures Split(ProcessValue(value, MapOp(fn), sp, splitValue), c) == MapSeq(fn, Items(value))
  {
    SplitJoin(MapSeq(fn, Items(value)), c);
  }

  /** Slicing from `start` keeps the items from that position on, and nothing when there are not more. */
  lemma SliceDropsLeadingItems(value: string, start: nat, sp: string, splitValue: string, c: char)
    requires Separator(sp, splitValue) == [c]
    requires forall k :: 0 <= k < |Items(value)| ==> c !in Items(value)[k]
    ensures |Items(value)| <= start ==> ProcessValue(value, SliceOp(start), sp, splitValue) == ""
    ensures |Items(value)| > start ==> Split(ProcessValue(value, SliceOp(start), sp, splitValue), c) == Items(value)[start..]
  {
    var items := Items(value);
    if |items| > start {
      SplitJoin(items[start..], c);
    } else if start <= |items| {
      assert items[start..] == [];
    }
  }

  // ---------------------------------------------------------------------
  // The options
  // ---------------------------------------------------------------------

  /** Typing into the input: it is stored and the output becomes its items joined by the separator. */
  function OnInput(st: FormatterState, value: string): FormatterState {
    st.(input := value, output := ProcessValue(value, NoOp, "", st.separator))
  }

  /** The separator field's `onChange`. */
  function SetSeparator(st: FormatterState, value: string): FormatterState {
    st.(separator := value)
  }

  /**
   * Typing stores the input and shows its items joined by the separator,
   * nothing when there are none; with a one-character separator the input
   * does not hold, the output splits back into exactly the items.
   */
  lemma OnInputShowsItems(st: FormatterState, value: string, c: char)
    requires st.separator == [c] && c !in value
    ensures OnInput(st, value).input == value && OnInput(st, value).separator == st.separator
    ensures Items(value) == [] ==> OnInput(st, value).output == ""
    ensures Items(value) != [] ==> Split(OnInput(st, value).output, c) == Items(value)
  {
    ItemsAvoid(value, c);
    if Items(value) != [] {
      ProcessValueSplitsBack(value, "", [c], c);
    }
  }

  /**
   * The page opens empty, and the first typing shows the items joined by
   * commas; when the input has no comma, that output splits back into them.
   */
  lemma InitialSeparatesWithCommas(value: string)
    ensures Initial().input == "" && Initial().output == ""
    ensures OnInput(Initial(), value).output == Join(Items(value), ",")
    ensures ',' !in value && Items(value) != [] ==> Split(OnInput(Initial(), value).output, ',') == Items(value)
  {
    if ',' !in value {
      OnInputShowsItems(Initial(), value, ',');
    }
  }

  /**
   * Editing the separator changes neither text: the output keeps the old
   * separator until the next action. That action then joins with the new
   * one; an emptied separator field joins the items with nothing, so the
   * output is the input without its line breaks.
   */
  lemma SetSeparatorAppliesFromNextAction(st: FormatterState, sep: string, value: string, c: char)
    ensures SetSeparator(st, sep).input == st.input && SetSeparator(st, sep).output == st.output
    ensures OnInput(SetSeparator(st, sep), value).output == Join(Items(value), sep)
    ensures sep == "" ==> OnInput(SetSeparator(st, sep), value).output == Without(value, '\n')
    ensures sep == [c] && c !in value && Items(value) != [] ==>
      Split(OnInput(SetSeparator(st, sep), value).output, c) == Items(value)
  {
    if sep == "" {
      JoinWithNothing(Items(value));
      ItemsKeepEverythingButLineBreaks(value);
    }
    if sep == [c] && c !in value {
      OnInputShowsItems(SetSeparator(st, sep), value, c);
    }
  }

  /** `'${item}'`. */
  function SingleQuote(item: string): string {
    "'" + item + "'"
  }

  /** `"${item}"`. */
  function DoubleQuote(item: string): string {
    "\"" + item + "\""
  }

  predicate IsQuote(ch: char) {
    ch == '\'' || ch == '"'
  }

  /** `item.replace(/['"]/g, "")`: every single and double quote removed. */
  function StripQuotes(item: string): string
    decreases |item|
  {
    if |item| == 0 then ""
    else (if IsQuote(item[0]) then "" else [item[0]]) + StripQuotes(item[1..])
  }

  /** The functions the options pass as `op.fn`. */
  const SingleQuoteEach: string -> string := item => SingleQuote(item)
  const DoubleQuoteEach: string -> string := item => DoubleQuote(item)
  const StripQuotesEach: string -> string := item => StripQuotes(item)

  /** The "add single quotes" option. */
  function AddSingleQuotes(st: FormatterState): FormatterState {
    st.(output := ProcessValue(st.input, MapOp(SingleQuoteEach), "", st.separator))
  }

  /** The "add double quotes" option. */
  function AddDoubleQuotes(st: FormatterState): FormatterState {
    st.(output := ProcessValue(st.input, MapOp(DoubleQuoteEach), "", st.separator))
  }

  /** The "remove the first" option. */
  function DropFirst(st: FormatterState): FormatterState {
    st.(output := ProcessValue(st.input, SliceOp(1), "", st.separator))
  }

  /** The "one per line" option: the separator followed by a line break. */
  function OnePerLine(st: FormatterState): FormatterState {
    st.(output := ProcessValue(st.input, NoOp, st.separator + "\n", st.separator))
  }

  /** The "remove quotes" option. */
  function StripQuotesOption(st: FormatterState): FormatterState {
    st.(output := ProcessValue(st.input, MapOp(StripQuotesEach), "", st.separator))
  }

  /** The "clear" option. */
  function Clear(st: FormatterState): FormatterState {
    st.(input := "", output := "")
  }

  /**
   * The quote options wrap every item, and only the output changes; with a
   * one-character separator that is neither in the input nor the quote, the
   * output splits back into the wrapped items.
   */
  lemma QuoteOptionsWrapEachItem(st: FormatterState, c: char)
    requires st.separator == [c] && c !in st.input && c != '\'' && c != '"'
    requires Items(st.input) != []
    ensures AddSingleQuotes(st).input == st.input && AddSingleQuotes(st).separator == st.separator
    ensures AddDoubleQuotes(st).input == st.input && AddDoubleQuotes(st).separator == st.separator
    ensures Split(AddSingleQuotes(st).output, c) == MapSeq(SingleQuoteEach, Items(st.input))
    ensures Split(AddDoubleQuotes(st).output, c) == MapSeq(DoubleQuoteEach, Items(st.input))
  {
    ItemsAvoid(st.input, c);
    MapAppliesToEachItem(st.input, SingleQuoteEach, "", st.separator, c);
    MapAppliesToEachItem(st.input, DoubleQuoteEach, "", st.separator, c);
  }

  /** Removing the first item: nothing is left from at most one item, otherwise the rest in order. */
  lemma DropFirstKeepsTheRest(st: FormatterState, c: char)
    requires st.separator == [c] && c !in st.input
    ensures |Items(st.input)| <= 1 ==> DropFirst(st).output == ""
    ensures |Items(st.input)| > 1 ==> Split(DropFirst(st).output, c) == Items(st.input)[1..]
  {
    ItemsAvoid(st.input, c);
    SliceDropsLeadingItems(st.input, 1, "", st.separator, c);
  }

  /** Every item but the last followed by `suffix`. */
  function Suffixed(xs: seq<string>, suffix: string): seq<string> {
    seq(|xs|, i requires 0 <= i < |xs| => if i < |xs| - 1 then xs[i] + suffix else xs[i])
  }

  /** Joining with `s + c` is joining, with `c`, the items that all but the last carry `s`. */
  lemma {:induction false} JoinWithLongerSeparator(xs: seq<string>, s: string, c: char)
    requires |xs| >= 1
    ensures Join(xs, s + [c]) == Join(Suffixed(xs, s), [c])
    decreases |xs|
  {
    if |xs| > 1 {
      JoinWithLongerSeparator(xs[1..], s, c);
      var ys := Suffixed(xs, s);
      assert ys[1..] == Suffixed(xs[1..], s);
      assert ys[0] == xs[0] + s;
      assert xs[0] + (s + [c]) + Join(xs[1..], s + [c]) == ys[0] + [c] + Join(ys[1..], [c]);
    }
  }

  /**
   * "One per line": each item is on its own line, every line but the last
   * ending in the separator.
   */
  lemma OnePerLinePutsItemsOnLines(st: FormatterState)
    requires '\n' !in st.separator
    requires Items(st.input) != []
    ensures Split(OnePerLine(st).output, '\n') == Suffixed(Items(st.input), st.separator)
  {
    var items := Items(st.input);
    JoinWithLongerSeparator(items, st.separator, '\n');
    var lines := Suffixed(items, st.separator);
    assert forall k :: 0 <= k < |lines| ==> '\n' !in lines[k];
    SplitJoin(lines, '\n');
  }

  /** No quote survives, and every other character does (`StripQuotesAppend` gives the order). */
  lemma {:induction false} StripQuotesRemovesAllQuotes(x: string)
    ensures forall k :: 0 <= k < |StripQuotes(x)| ==> !IsQuote(StripQuotes(x)[k])
    ensures forall ch :: ch in x && !IsQuote(ch) ==> ch in StripQuotes(x)
    decreases |x|
  {
    if |x| > 0 {
      StripQuotesRemovesAllQuotes(x[1..]);
      assert x == [x[0]] + x[1..];
    }
  }

  /** A quote-free item is left as it is. */
  lemma {:induction false} StripQuotesKeepsQuoteFree(x: string)
    requires forall k :: 0 <= k < |x| ==> !IsQuote(x[k])
    ensures StripQuotes(x) == x
    decreases |x|
  {
    if |x| > 0 {
      StripQuotesKeepsQuoteFree(x[1..]);
      assert [x[0]] + x[1..] == x;
    }
  }

  /** Removing quotes twice is removing them once. */
  lemma StripQuotesIdempotent(x: string)
    ensures StripQuotes(StripQuotes(x)) == StripQuotes(x)
  {
    StripQuotesRemovesAllQuotes(x);
    StripQuotesKeepsQuoteFree(StripQuotes(x));
  }

  /** Quotes are removed piece by piece. */
  lemma {:induction false} StripQuotesAppend(a: string, b: string)
    ensures StripQuotes(a + b) == StripQuotes(a) + StripQuotes(b)
    decreases |a|
  {
    var ab := a + b;
    if |a| == 0 {
      assert ab == b;
    } else {
      assert ab[0] == a[0];
      assert ab[1..] == a[1..] + b;
      StripQuotesAppend(a[1..], b);
    }
  }

  /** Removing quotes undoes either quoting option on a quote-free item. */
  lemma StripQuotesUndoesQuoting(x: string)
    requires forall k :: 0 <= k < |x| ==> !IsQuote(x[k])
    ensures StripQuotes(SingleQuote(x)) == x
    ensures StripQuotes(DoubleQuote(x)) == x
  {
    StripQuotesKeepsQuoteFree(x);
    StripQuotesAppend("'" + x, "'");
    StripQuotesAppend("'", x);
    StripQuotesAppend("\"" + x, "\"");
    StripQuotesAppend("\"", x);
  }

  /** The "remove quotes" option's segments are the items without quotes, one per item. */
  lemma StripQuotesOptionStripsEachItem(st: FormatterState, c: char)
    requires st.separator == [c] && c !in st.input
    requires Items(st.input) != []
    ensures Split(StripQuotesOption(st).output, c) == MapSeq(StripQuotesEach, Items(st.input))
  {
    ItemsAvoid(st.input, c);
    forall k | 0 <= k < |Items(st.input)| ensures c !in StripQuotes(Items(st.input)[k]) {
      StripQuotesSubset(Items(st.input)[k], c);
    }
    MapAppliesToEachItem(st.input, StripQuotesEach, "", st.separator, c);
  }

  /** Removing quotes adds no character. */
  lemma {:induction false} StripQuotesSubset(x: string, c: char)
    requires c !in x
    ensures c !in StripQuotes(x)
    decreases |x|
  {
    if |x| > 0 {
      StripQuotesSubset(x[1..], c);
    }
  }

  /** An item made only of quotes is emptied. */
  lemma {:induction false} StripQuotesOfOnlyQuotes(x: string)
    requires forall k :: 0 <= k < |x| ==> IsQuote(x[k])
    ensures StripQuotes(x) == ""
    decreases |x|
  {
    if |x| > 0 {
      StripQuotesOfOnlyQuotes(x[1..]);
    }
  }

  /**
   * An item made only of quotes is not dropped by "remove quotes": it stays
   * in its place as an empty segment between two separators.
   */
  lemma StripQuotesKeepsEmptiedItems(st: FormatterState, c: char, k: int)
    requires st.separator == [c] && c !in st.input
    requires 0 <= k < |Items(st.input)|
    requires forall j :: 0 <= j < |Items(st.input)[k]| ==> IsQuote(Items(st.input)[k][j])
    ensures |Split(StripQuotesOption(st).output, c)| == |Items(st.input)|
    ensures Split(StripQuotesOption(st).output, c)[k] == ""
  {
    StripQuotesOptionStripsEachItem(st, c);
    StripQuotesOfOnlyQuotes(Items(st.input)[k]);
  }

  /** Clearing empties both texts and keeps the separator; every option then gives the empty text. */
  lemma ClearEmptiesBothTexts(st: FormatterState)
    ensures Clear(st).input == "" && Clear(st).output == "" && Clear(st).separator == st.separator
    ensures AddSingleQuotes(Clear(st)).output == "" && AddDoubleQuotes(Clear(st)).output == ""
    ensures DropFirst(Clear(st)).output == "" && OnePerLine(Clear(st)).output == ""
    ensures StripQuotesOption(Clear(st)).output == ""
  {
    var cleared := Clear(st);
    EmptyInputGivesEmptyOutput("", MapOp(SingleQuoteEach), "", st.separator);
    EmptyInputGivesEmptyOutput("", MapOp(DoubleQuoteEach), "", st.separator);
    EmptyInputGivesEmptyOutput("", SliceOp(1), "", st.separator);
    EmptyInputGivesEmptyOutput("", NoOp, st.separator + "\n", st.separator);
    EmptyInputGivesEmptyOutput("", MapOp(StripQuotesEach), "", st.separator);
  }
}
