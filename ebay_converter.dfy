/**
 * The eBay image link converter (apps/utils/app/ebay-image-converter/page.tsx):
 * every non-blank input line is converted on its own. A line holding an
 * `<img src="….webp"` tag is reduced to the image's address ending in `.jpg`;
 * any other line has each `.webp` rewritten to `.jpg`.
 */
module EbayConverter {
  import opened Wrappers
  import opened JsString

  /** The text `url.includes(...)` looks for. */
  const ImgTag: string := "<img src="
  /** The literal start of the pattern `<img src="([^"]+)\.webp"`. */
  const ImgPrefix: string := "<img src=\""
  const Webp: string := ".webp"
  const Jpg: string := ".jpg"

  // ---------------------------------------------------------------------
  // url.replace(/\.webp/g, ".jpg")
  // ---------------------------------------------------------------------

  /** Every `.webp`, scanning left to right, replaced by `.jpg`. */
  function ReplaceWebp(s: string): string
    decreases |s|
  {
    if |s| == 0 then s
    else if OccursAt(s, Webp, 0) then Jpg + ReplaceWebp(s[|Webp|..])
    else [s[0]] + ReplaceWebp(s[1..])
  }

  /** A dot-free text at the head of the rewritten line was already at the head of the line. */
  lemma {:induction false} DotFreeHeadComesFromLine(t: string, q: string)
    requires '.' !in q
    ensures (|q| <= |ReplaceWebp(t)| && ReplaceWebp(t)[..|q|] == q) ==> (|q| <= |t| && t[..|q|] == q)
    decreases |t|
  {
    var r := ReplaceWebp(t);
    if OccursAt(t, Webp, 0) {
      assert |r| > 0 && r[0] == '.';
    }
    if |t| > 0 && |q| > 0 && |q| <= |r| && r[..|q|] == q {
      assert q[0] in q && q[0] == r[0];
      if !OccursAt(t, Webp, 0) {
        var rest := ReplaceWebp(t[1..]);
        assert r[..|q|] == [t[0]] + rest[..|q| - 1] by {
          assert r == [t[0]] + rest;
        }
        assert rest[..|q| - 1] == q[1..];
        DotFreeHeadComesFromLine(t[1..], q[1..]);
        assert t[..|q|] == [t[0]] + t[1..][..|q| - 1];
      }
    }
  }

  /** No `.webp` is left after the rewrite. */
  lemma {:induction false} ReplaceWebpLeavesNoWebp(s: string)
    ensures !Contains(ReplaceWebp(s), Webp)
    decreases |s|
  {
    var r := ReplaceWebp(s);
    if |s| == 0 {
      forall i | 0 <= i <= |r| ensures !OccursAt(r, Webp, i) { }
    } else if OccursAt(s, Webp, 0) {
      var rest := ReplaceWebp(s[|Webp|..]);
      ReplaceWebpLeavesNoWebp(s[|Webp|..]);
      JpgStartsNoWebp(rest);
      PrependKeepsNoWebp(Jpg, rest);
    } else {
      var rest := ReplaceWebp(s[1..]);
      ReplaceWebpLeavesNoWebp(s[1..]);
      FirstCharThenHead(s, r, rest);
      PrependKeepsNoWebp([s[0]], rest);
    }
  }

  /** No `.webp` starts inside a leading `.jpg`. */
  lemma JpgStartsNoWebp(rest: string)
    ensures forall i | 0 <= i < |Jpg| :: !OccursAt(Jpg + rest, Webp, i)
  {
    var r := Jpg + rest;
    forall i | 0 <= i < |Jpg| ensures !OccursAt(r, Webp, i) {
      if i + |Webp| <= |r| {
        if i == 0 {
          assert r[1] != Webp[1];
        } else {
          assert r[i] != Webp[0];
        }
        assert r[i..i + |Webp|] != Webp;
      }
    }
  }

  /** A text without `.webp` gains none by a prefix in which no `.webp` starts. */
  lemma PrependKeepsNoWebp(x: string, rest: string)
    requires !Contains(rest, Webp)
    requires forall i | 0 <= i < |x| :: !OccursAt(x + rest, Webp, i)
    ensures !Contains(x + rest, Webp)
  {
    var r := x + rest;
    forall i | |x| <= i <= |r| ensures !OccursAt(r, Webp, i) {
      if i + |Webp| <= |r| {
        assert r[i..i + |Webp|] == rest[i - |x|..i - |x| + |Webp|];
      }
      assert !OccursAt(rest, Webp, i - |x|);
    }
  }

  /** A line that does not start with `.webp` does not start with one after the rewrite. */
  lemma FirstCharThenHead(s: string, r: string, rest: string)
    requires |s| > 0 && !OccursAt(s, Webp, 0)
    requires rest == ReplaceWebp(s[1..]) && r == [s[0]] + rest
    ensures !OccursAt(r, Webp, 0)
  {
    DotFreeHeadComesFromLine(s[1..], Webp[1..]);
    if |r| >= |Webp| {
      assert r[..|Webp|] == [s[0]] + rest[..|Webp| - 1];
    }
    if |s| >= |Webp| {
      assert s[..|Webp|] == [s[0]] + s[1..][..|Webp| - 1];
    }
    assert Webp == [Webp[0]] + Webp[1..];
  }

  /** A line without `.webp` is left as it is. */
  lemma {:induction false} ReplaceWebpKeepsLineWithoutWebp(s: string)
    requires !Contains(s, Webp)
    ensures ReplaceWebp(s) == s
    decreases |s|
  {
    if |s| > 0 {
      assert !OccursAt(s, Webp, 0);
      forall i | 0 <= i <= |s[1..]| ensures !OccursAt(s[1..], Webp, i) {
        assert !OccursAt(s, Webp, i + 1);
        if i + |Webp| <= |s[1..]| {
          assert s[1..][i..i + |Webp|] == s[i + 1..i + 1 + |Webp|];
        }
      }
      ReplaceWebpKeepsLineWithoutWebp(s[1..]);
      assert [s[0]] + s[1..] == s;
    }
  }

  /** Rewriting twice is rewriting once. */
  lemma ReplaceWebpIdempotent(s: string)
    ensures ReplaceWebp(ReplaceWebp(s)) == ReplaceWebp(s)
  {
    ReplaceWebpLeavesNoWebp(s);
    ReplaceWebpKeepsLineWithoutWebp(ReplaceWebp(s));
  }

  /**
   * Each `.webp` becomes `.jpg` where it stands and the text around it is
   * rewritten on its own: nothing else changes.
   */
  lemma {:induction false} ReplaceWebpAroundOccurrence(a: string, b: string)
    ensures ReplaceWebp(a + Webp + b) == ReplaceWebp(a) + Jpg + ReplaceWebp(b)
    decreases |a|
  {
    if |a| == 0 {
      assert a + Webp + b == Webp + b;
      ReplaceWebpAtStart(b);
    } else if OccursAt(a, Webp, 0) {
      var a' := a[|Webp|..];
      calc {
        ReplaceWebp(a + Webp + b);
        == { assert a == Webp + a'; assert a + Webp + b == Webp + (a' + Webp + b); }
        ReplaceWebp(Webp + (a' + Webp + b));
        == { ReplaceWebpAtStart(a' + Webp + b); }
        Jpg + ReplaceWebp(a' + Webp + b);
        == { ReplaceWebpAroundOccurrence(a', b); }
        Jpg + (ReplaceWebp(a') + Jpg + ReplaceWebp(b));
      }
    } else {
      calc {
        ReplaceWebp(a + Webp + b);
        == { ReplaceWebpOneChar(a, b); }
        [a[0]] + ReplaceWebp(a[1..] + Webp + b);
        == { ReplaceWebpAroundOccurrence(a[1..], b); }
        [a[0]] + (ReplaceWebp(a[1..]) + Jpg + ReplaceWebp(b));
      }
    }
  }

  /** A line that starts with `.webp` starts with `.jpg` after the rewrite. */
  lemma ReplaceWebpAtStart(b: string)
    ensures ReplaceWebp(Webp + b) == Jpg + ReplaceWebp(b)
  {
    var s := Webp + b;
    assert s[..|Webp|] == Webp;
    assert s[|Webp|..] == b;
  }

  /** A `.webp` placed after a text that does not start with one does not start the line. */
  lemma ReplaceWebpOneChar(a: string, b: string)
    requires |a| > 0 && !OccursAt(a, Webp, 0)
    ensures ReplaceWebp(a + Webp + b) == [a[0]] + ReplaceWebp(a[1..] + Webp + b)
  {
    var s := a + Webp + b;
    assert !OccursAt(s, Webp, 0) by {
      if |a| < |Webp| {
        assert s[|a|] == '.';
        assert Webp[|a|] != '.';
      } else {
        assert s[..|Webp|] == a[..|Webp|];
      }
    }
    assert s[1..] == a[1..] + Webp + b;
  }

  /** The rewrite adds no character other than those of `.jpg`. */
  lemma {:induction false} ReplaceWebpAddsOnlyJpg(s: string, c: char)
    requires c !in s && c !in Jpg
    ensures c !in ReplaceWebp(s)
    decreases |s|
  {
    if |s| > 0 {
      if OccursAt(s, Webp, 0) {
        ReplaceWebpAddsOnlyJpg(s[|Webp|..], c);
      } else {
        ReplaceWebpAddsOnlyJpg(s[1..], c);
      }
    }
  }

  // ---------------------------------------------------------------------
  // url.match(/<img src="([^"]+)\.webp"/)
  // ---------------------------------------------------------------------

  /** The length of the longest run of non-quote characters of `s` from index `i`. */
  function QuoteFreeRun(s: string, i: nat): (n: nat)
    requires i <= |s|
    ensures i + n <= |s|
    ensures forall k :: i <= k < i + n ==> s[k] != '"'
    ensures i + n == |s| || s[i + n] == '"'
    decreases |s| - i
  {
    if i == |s| || s[i] == '"' then 0 else 1 + QuoteFreeRun(s, i + 1)
  }

  /**
   * The capture group of a match starting at `i`: after the prefix, the
   * quote-free run must be longer than `.webp`, end in `.webp` and be
   * followed by a quote; the group is the run without `.webp`.
   */
  function MatchAt(s: string, i: nat): (r: Option<string>)
    ensures r.Some? ==> |r.value| >= 1 && '"' !in r.value
    ensures r.Some? ==> forall k :: 0 <= k < |r.value| ==> r.value[k] in s
  {
    if !OccursAt(s, ImgPrefix, i) then None
    else
      var start := i + |ImgPrefix|;
      var n := QuoteFreeRun(s, start);
      if n > |Webp| && start + n < |s| && s[start + n - |Webp|..start + n] == Webp then
        var g := s[start..start + n - |Webp|];
        assert forall k :: 0 <= k < |g| ==> g[k] == s[start + k];
        Some(g)
      else None
  }

  /**
   * The hand-written matcher agrees with the pattern: it captures `g` at `i`
   * exactly when `<img src="` + g + `.webp"` occurs at `i` with `g` non-empty
   * and free of quotes.
   */
  lemma MatchAtIsThePattern(s: string, i: nat, g: string)
    ensures MatchAt(s, i) == Some(g)
        <==> (OccursAt(s, ImgPrefix + g + Webp + "\"", i) && |g| >= 1 && '"' !in g)
  {
    PatternParts(s, i, g);
    if MatchAt(s, i) == Some(g) {
      MatchHasTheParts(s, i, g);
    }
    if OccursAt(s, ImgPrefix + g + Webp + "\"", i) && |g| >= 1 && '"' !in g {
      PartsMakeTheMatch(s, i, g);
    }
  }

  /** The pattern occurs where its four pieces occur one after the other. */
  lemma PatternParts(s: string, i: nat, g: string)
    ensures OccursAt(s, ImgPrefix + g + Webp + "\"", i)
        <==> (&& OccursAt(s, ImgPrefix, i)
              && OccursAt(s, g, i + |ImgPrefix|)
              && OccursAt(s, Webp, i + |ImgPrefix| + |g|)
              && OccursAt(s, "\"", i + |ImgPrefix| + |g| + |Webp|))
  {
    OccursAtConcat(s, ImgPrefix + g + Webp, "\"", i);
    OccursAtConcat(s, ImgPrefix + g, Webp, i);
    OccursAtConcat(s, ImgPrefix, g, i);
  }

  /** A capture is followed by `.webp` and a quote. */
  lemma MatchHasTheParts(s: string, i: nat, g: string)
    requires MatchAt(s, i) == Some(g)
    ensures && OccursAt(s, ImgPrefix, i)
            && OccursAt(s, g, i + |ImgPrefix|)
            && OccursAt(s, Webp, i + |ImgPrefix| + |g|)
            && OccursAt(s, "\"", i + |ImgPrefix| + |g| + |Webp|)
  {
    var start := i + |ImgPrefix|;
    var n := QuoteFreeRun(s, start);
    var e := start + |g| + |Webp|;
    assert n == |g| + |Webp|;
    assert s[e..e + 1] == "\"";
  }

  /** Quote-free text ending in `.webp` and followed by a quote is captured. */
  lemma PartsMakeTheMatch(s: string, i: nat, g: string)
    requires |g| >= 1 && '"' !in g
    requires && OccursAt(s, ImgPrefix, i)
             && OccursAt(s, g, i + |ImgPrefix|)
             && OccursAt(s, Webp, i + |ImgPrefix| + |g|)
             && OccursAt(s, "\"", i + |ImgPrefix| + |g| + |Webp|)
    ensures MatchAt(s, i) == Some(g)
  {
    var start := i + |ImgPrefix|;
    var e := start + |g| + |Webp|;
    forall k | start <= k < e ensures s[k] != '"' {
      if k < start + |g| {
        assert s[k] == s[start..start + |g|][k - start] == g[k - start];
      } else {
        assert s[k] == s[start + |g|..e][k - start - |g|] == Webp[k - start - |g|];
      }
    }
    assert s[e] == s[e..e + 1][0] == '"';
    var n := QuoteFreeRun(s, start);
    assert n == |g| + |Webp|;
  }

  /** The leftmost match from index `i` on. */
  function MatchFrom(s: string, i: nat): (r: Option<string>)
    requires i <= |s|
    ensures r.None? <==> forall j :: i <= j <= |s| ==> MatchAt(s, j).None?
    ensures r.Some? ==> exists j :: i <= j <= |s| && MatchAt(s, j) == r
                          && forall k :: i <= k < j ==> MatchAt(s, k).None?
    decreases |s| - i
  {
    if i == |s| then
      assert !OccursAt(s, ImgPrefix, i);
      None
    else
      var m := MatchAt(s, i);
      if m.Some? then m else MatchFrom(s, i + 1)
  }

  /** `url.match(...)`: the capture group of the leftmost match, if any. */
  function MatchImg(s: string): (r: Option<string>)
    ensures r.Some? ==> |r.value| >= 1 && '"' !in r.value
    ensures r.Some? ==> Contains(s, ImgPrefix)
  {
    var r := MatchFrom(s, 0);
    if r.Some? then
      ghost var j :| 0 <= j <= |s| && MatchAt(s, j) == r;
      assert OccursAt(s, ImgPrefix, j);
      r
    else r
  }

  // ---------------------------------------------------------------------
  // One line, and the whole text
  // ---------------------------------------------------------------------

  /** The conversion of one kept line. */
  function ConvertLine(line: string): string {
    if Contains(line, ImgTag) then
      match MatchImg(line)
      case Some(g) => g + Jpg
      case None => ReplaceWebp(line)
    else ReplaceWebp(line)
  }

  /** `<img src="` contains `<img src=`, so the `includes` test never blocks a match. */
  lemma ImgPrefixContainsImgTag(s: string)
    requires Contains(s, ImgPrefix)
    ensures Contains(s, ImgTag)
  {
    var i :| 0 <= i <= |s| && OccursAt(s, ImgPrefix, i);
    assert s[i..i + |ImgTag|] == s[i..i + |ImgPrefix|][..|ImgTag|];
    assert OccursAt(s, ImgTag, i);
  }

  /**
   * A matching line becomes its image address with `.jpg`, which holds no
   * quote; any other line has every `.webp` rewritten and keeps no `.webp`.
   */
  lemma ConvertLineCases(line: string)
    ensures MatchImg(line).Some? ==>
              && ConvertLine(line) == MatchImg(line).value + Jpg
              && '"' !in ConvertLine(line)
              && |ConvertLine(line)| > |Jpg|
              && ConvertLine(line)[|ConvertLine(line)| - |Jpg|..] == Jpg
    ensures MatchImg(line).None? ==> ConvertLine(line) == ReplaceWebp(line) && !Contains(ConvertLine(line), Webp)
  {
    var m := MatchImg(line);
    if m.Some? {
      ImgPrefixContainsImgTag(line);
      var r := m.value + Jpg;
      assert r[|r| - |Jpg|..] == Jpg;
    } else {
      ReplaceWebpLeavesNoWebp(line);
    }
  }

  /** A converted line holds no line break when the line held none. */
  lemma ConvertLineAddsNoLineBreak(line: string)
    requires '\n' !in line
    ensures '\n' !in ConvertLine(line)
  {
    ReplaceWebpAddsOnlyJpg(line, '\n');
    var m := MatchImg(line);
    if m.Some? {
      var j :| 0 <= j <= |line| && MatchAt(line, j) == m;
      assert '\n' !in m.value;
    }
  }

  /** The page's two text areas. */
  datatype ConverterState = ConverterState(input: string, output: string)

  /** `lines.filter(url => url.trim())`: the lines that are not blank, untrimmed and in order. */
  function KeepNonBlank(lines: seq<string>): (r: seq<string>)
    ensures |r| <= |lines|
    ensures forall k :: 0 <= k < |r| ==> !IsBlank(r[k]) && r[k] in lines
    ensures forall x :: x in lines && !IsBlank(x) ==> x in r
    decreases |lines|
  {
    if |lines| == 0 then []
    else if IsBlank(lines[0]) then KeepNonBlank(lines[1..])
    else [lines[0]] + KeepNonBlank(lines[1..])
  }

  /** The filter looks at one line at a time: one line is kept exactly when it is not blank. */
  lemma KeepNonBlankOfOne(x: string)
    ensures KeepNonBlank([x]) == (if IsBlank(x) then [] else [x])
  {
    assert [x][1..] == [];
  }

  /** Filtering a concatenation filters each part and keeps their order. */
  lemma {:induction false} KeepNonBlankAppend(a: seq<string>, b: seq<string>)
    ensures KeepNonBlank(a + b) == KeepNonBlank(a) + KeepNonBlank(b)
    decreases |a|
  {
    if |a| > 0 {
      KeepNonBlankAppend(a[1..], b);
      assert (a + b)[1..] == a[1..] + b;
    } else {
      assert a + b == b;
    }
  }

  /** The kept lines of an input text. */
  function KeptLines(input: string): seq<string> {
    KeepNonBlank(Split(input, '\n'))
  }

  /** The input area's `onChange`. */
  function SetInput(st: ConverterState, value: string): ConverterState {
    st.(input := value)
  }

  /** `convertUrls`: blank input is ignored, otherwise the output is the converted kept lines. */
  function ConvertUrls(st: ConverterState): ConverterState {
    if IsBlank(st.input) then st
    else st.(output := Join(MapSeq(ConvertLine, KeptLines(st.input)), "\n"))
  }

  /** `clearAll`. */
  function ClearAll(st: ConverterState): ConverterState {
    ConverterState("", "")
  }

  /** Blank input leaves both text areas as they were. */
  lemma BlankInputLeavesOutput(st: ConverterState)
    requires IsBlank(st.input)
    ensures ConvertUrls(st) == st
  {
  }

  /**
   * For input that is not blank, the output has one line per kept line, in
   * order, each the conversion of that line; there is at least one.
   */
  lemma {:induction false} ConvertUrlsLines(st: ConverterState)
    requires !IsBlank(st.input)
    ensures ConvertUrls(st).input == st.input
    ensures |KeptLines(st.input)| >= 1
    ensures Split(ConvertUrls(st).output, '\n') == MapSeq(ConvertLine, KeptLines(st.input))
  {
    var pieces := Split(st.input, '\n');
    var k :| 0 <= k < |st.input| && !IsJsWhitespace(st.input[k]);
    CharInSomePiece(st.input, '\n', k);
    var p :| 0 <= p < |pieces| && st.input[k] in pieces[p];
    assert !IsBlank(pieces[p]);
    assert pieces[p] in KeptLines(st.input);
    var kept := KeptLines(st.input);
    forall j | 0 <= j < |kept| ensures '\n' !in ConvertLine(kept[j]) {
      var q :| 0 <= q < |pieces| && pieces[q] == kept[j];
      ConvertLineAddsNoLineBreak(kept[j]);
    }
    SplitJoin(MapSeq(ConvertLine, kept), '\n');
  }

  /**
   * Typing only stores the text: the output stays as it was until the
   * convert button, which then converts the typed lines, or, when the typed
   * text is blank, still shows the earlier output.
   */
  lemma TypedInputWaitsForConvert(st: ConverterState, value: string)
    ensures SetInput(st, value).input == value && SetInput(st, value).output == st.output
    ensures IsBlank(value) ==> ConvertUrls(SetInput(st, value)).output == st.output
    ensures !IsBlank(value) ==>
      Split(ConvertUrls(SetInput(st, value)).output, '\n') == MapSeq(ConvertLine, KeptLines(value))
  {
    if !IsBlank(value) {
      ConvertUrlsLines(SetInput(st, value));
    }
  }

  /** Converting the output of a cleared page leaves it cleared. */
  lemma ClearAllEmptiesBoth(st: ConverterState)
    ensures ClearAll(st).input == "" && ClearAll(st).output == ""
    ensures ConvertUrls(ClearAll(st)) == ClearAll(st)
  {
  }
}
