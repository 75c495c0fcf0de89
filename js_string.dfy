/**
 * The JavaScript string primitives the pages and the rename endpoint rely
 * on, written out over `seq<char>`: `split` on a one-character separator,
 * `join`, `indexOf`, `lastIndexOf`, `replace` with a string pattern (first
 * occurrence only, with the `$` patterns of the replacement string), and the
 * emptiness test of `trim()`.
 */
module JsString {

  // ---------------------------------------------------------------------
  // Occurrences of a pattern
  // ---------------------------------------------------------------------

  /** `p` occurs in `s` starting at index `i`. */
  predicate OccursAt(s: string, p: string, i: int) {
    0 <= i && i + |p| <= |s| && s[i..i + |p|] == p
  }

  /** An occurrence of `a + b` is an occurrence of `a` directly followed by one of `b`. */
  lemma OccursAtConcat(s: string, a: string, b: string, i: int)
    ensures OccursAt(s, a + b, i) <==> OccursAt(s, a, i) && OccursAt(s, b, i + |a|)
  {
    if 0 <= i && i + |a| + |b| <= |s| {
      var x, y := s[i..i + |a|], s[i + |a|..i + |a| + |b|];
      assert s[i..i + |a| + |b|] == x + y;
      if x + y == a + b {
        assert x == (x + y)[..|a|] == (a + b)[..|a|] == a;
        assert y == (x + y)[|a|..] == (a + b)[|a|..] == b;
      }
    }
  }

  /** `s.includes(p)`. */
  predicate Contains(s: string, p: string) {
    exists i | 0 <= i <= |s| :: OccursAt(s, p, i)
  }

  /** The first occurrence of `p` at index `k` or later, or -1. */
  function IndexOfFrom(s: string, p: string, k: nat): (r: int)
    decreases |s| - k
    ensures r == -1 || (k <= r && OccursAt(s, p, r))
    ensures r == -1 ==> forall j :: k <= j ==> !OccursAt(s, p, j)
    ensures r != -1 ==> forall j :: k <= j < r ==> !OccursAt(s, p, j)
  {
    if k + |p| > |s| then -1
    else if s[k..k + |p|] == p then k
    else IndexOfFrom(s, p, k + 1)
  }

  /** `s.indexOf(p)`: the leftmost occurrence, or -1 when there is none. */
  function IndexOf(s: string, p: string): int {
    IndexOfFrom(s, p, 0)
  }

  /** `indexOf` gives -1 exactly when `p` does not occur, and otherwise its leftmost occurrence. */
  lemma IndexOfIsLeftmost(s: string, p: string)
    ensures IndexOf(s, p) == -1 <==> !Contains(s, p)
    ensures IndexOf(s, p) != -1 ==> OccursAt(s, p, IndexOf(s, p)) && forall j :: 0 <= j < IndexOf(s, p) ==> !OccursAt(s, p, j)
  {
  }

  /** `s.lastIndexOf(c)` for a one-character argument. */
  function LastIndexOf(s: string, c: char): (r: int)
    ensures -1 <= r < |s|
    ensures r == -1 <==> c !in s
    ensures r != -1 ==> s[r] == c && forall j :: r < j < |s| ==> s[j] != c
  {
    if |s| == 0 then -1
    else if s[|s| - 1] == c then |s| - 1
    else LastIndexOf(s[..|s| - 1], c)
  }

  // ---------------------------------------------------------------------
  // replace with a string pattern
  // ---------------------------------------------------------------------

  /**
   * The replacement text of `String.prototype.replace` when the pattern is a
   * string: `$$` gives `$`, `$&` the matched text, `` $` `` the text before
   * the match and `$'` the text after it; every other `$` is literal (a
   * string pattern has no capture groups).
   */
  function ExpandReplacement(rep: string, matched: string, before: string, after: string): (r: string)
    ensures '$' !in rep ==> r == rep
    decreases |rep|
  {
    if |rep| == 0 then ""
    else if rep[0] == '$' && |rep| >= 2 && rep[1] in {'$', '&', '`', '\''} then
      var piece := if rep[1] == '$' then "$"
                   else if rep[1] == '&' then matched
                   else if rep[1] == '`' then before
                   else after;
      piece + ExpandReplacement(rep[2..], matched, before, after)
    else
      [rep[0]] + ExpandReplacement(rep[1..], matched, before, after)
  }

  /** `s.replace(p, rep)` with a string `p`: only the first occurrence is replaced. */
  function ReplaceFirst(s: string, p: string, rep: string): string {
    var i := IndexOf(s, p);
    if i < 0 then s
    else s[..i] + ExpandReplacement(rep, p, s[..i], s[i + |p|..]) + s[i + |p|..]
  }

  /** A string without the pattern is left as it is. */
  lemma ReplaceFirstWithoutMatch(s: string, p: string, rep: string)
    requires !Contains(s, p)
    ensures ReplaceFirst(s, p, rep) == s
  {
    IndexOfIsLeftmost(s, p);
  }

  /** The leftmost occurrence, and only it, is replaced by a `$`-free replacement. */
  lemma ReplaceFirstReplacesLeftmost(s: string, p: string, rep: string, i: nat)
    requires '$' !in rep
    requires OccursAt(s, p, i) && forall j :: 0 <= j < i ==> !OccursAt(s, p, j)
    ensures ReplaceFirst(s, p, rep) == s[..i] + rep + s[i + |p|..]
  {
    var k := IndexOf(s, p);
    IndexOfIsLeftmost(s, p);
    assert Contains(s, p);
    assert !(k < i) && !(i < k);
  }

  /** Regrouping a concatenation, stated once so that proofs need not rediscover it. */
  lemma AppendAssoc(a: string, b: string, c: string)
    ensures a + (b + c) == a + b + c
  {
  }

  /** When `p` does not occur inside `x`, `replace` on `x + p + y` replaces the `p` after `x`. */
  lemma ReplaceFirstAfter(x: string, p: string, y: string, rep: string)
    requires '$' !in rep
    requires forall j :: 0 <= j < |x| ==> !OccursAt(x + p + y, p, j)
    ensures ReplaceFirst(x + p + y, p, rep) == x + rep + y
  {
    var s := x + p + y;
    assert s[|x|..|x| + |p|] == p;
    ReplaceFirstReplacesLeftmost(s, p, rep, |x|);
    assert s[..|x|] == x;
    assert s[|x| + |p|..] == y;
  }

  // ---------------------------------------------------------------------
  // split / join
  // ---------------------------------------------------------------------

  /** `s.split(sep)` for a one-character separator: always at least one piece. */
  function Split(s: string, sep: char): (r: seq<string>)
    ensures |r| >= 1
    ensures forall k :: 0 <= k < |r| ==> sep !in r[k]
    decreases |s|
  {
    if |s| == 0 then [""]
    else
      var rest := Split(s[1..], sep);
      if s[0] == sep then [""] + rest
      else [[s[0]] + rest[0]] + rest[1..]
  }

  /** `xs.join(sep)`. */
  function Join(xs: seq<string>, sep: string): string
    decreases |xs|
  {
    if |xs| == 0 then ""
    else if |xs| == 1 then xs[0]
    else xs[0] + sep + Join(xs[1..], sep)
  }

  /** The pieces written one after the other. */
  function Concat(xs: seq<string>): string
    decreases |xs|
  {
    if |xs| == 0 then "" else xs[0] + Concat(xs[1..])
  }

  /** Joining with the empty separator writes the pieces one after the other. */
  lemma {:induction false} JoinWithNothing(xs: seq<string>)
    ensures Join(xs, "") == Concat(xs)
    decreases |xs|
  {
    if |xs| > 1 {
      JoinWithNothing(xs[1..]);
      assert xs[0] + "" == xs[0];
    } else if |xs| == 1 {
      assert xs[1..] == [];
      assert xs[0] + "" == xs[0];
    }
  }

  /** `s` with every `c` removed. */
  function Without(s: string, c: char): (r: string)
    ensures c !in r
    ensures |r| <= |s|
    decreases |s|
  {
    if |s| == 0 then ""
    else (if s[0] == c then "" else [s[0]]) + Without(s[1..], c)
  }

  /** `xs.filter(v => !!v)`: the non-empty strings, in order. */
  function DropEmpty(xs: seq<string>): (r: seq<string>)
    ensures |r| <= |xs|
    ensures forall k :: 0 <= k < |r| ==> r[k] != "" && r[k] in xs
    ensures forall x :: x in xs && x != "" ==> x in r
    decreases |xs|
  {
    if |xs| == 0 then []
    else if xs[0] == "" then DropEmpty(xs[1..])
    else [xs[0]] + DropEmpty(xs[1..])
  }

  /** The filter looks at one element at a time: one element is kept exactly when it is non-empty. */
  lemma DropEmptyOfOne(x: string)
    ensures DropEmpty([x]) == (if x != "" then [x] else [])
  {
    assert [x][1..] == [];
  }

  /** Filtering a concatenation filters each part and keeps their order. */
  lemma {:induction false} DropEmptyAppend(a: seq<string>, b: seq<string>)
    ensures DropEmpty(a + b) == DropEmpty(a) + DropEmpty(b)
    decreases |a|
  {
    if |a| > 0 {
      DropEmptyAppend(a[1..], b);
      assert (a + b)[1..] == a[1..] + b;
    } else {
      assert a + b == b;
    }
  }

  /** Pieces that are all non-empty write out to the empty string only when there are none. */
  lemma ConcatOfNonEmpty(xs: seq<string>)
    requires forall k :: 0 <= k < |xs| ==> xs[k] != ""
    ensures Concat(xs) == "" <==> xs == []
  {
  }

  /** Removing `c` from a string made only of `c` leaves nothing. */
  lemma {:induction false} WithoutOnly(s: string, c: char)
    requires forall k :: 0 <= k < |s| ==> s[k] == c
    ensures Without(s, c) == ""
    decreases |s|
  {
    if |s| > 0 {
      WithoutOnly(s[1..], c);
    }
  }

  /** Applies `f` to every element (`xs.map(f)`). */
  function MapSeq<T, U>(f: T -> U, xs: seq<T>): seq<U> {
    seq(|xs|, i requires 0 <= i < |xs| => f(xs[i]))
  }

  /** A piece of `Split` never contains the separator, so splitting a piece is the piece. */
  lemma {:induction false} SplitNoSeparator(a: string, c: char)
    requires c !in a
    ensures Split(a, c) == [a]
    decreases |a|
  {
    if |a| > 0 {
      SplitNoSeparator(a[1..], c);
      assert [a[0]] + a[1..] == a;
    }
  }

  /** Every character of a piece comes from the string. */
  lemma {:induction false} SplitPiecesFromString(s: string, c: char)
    ensures forall k :: 0 <= k < |Split(s, c)| ==> forall d :: d in Split(s, c)[k] ==> d in s
    decreases |s|
  {
    if |s| > 0 {
      SplitPiecesFromString(s[1..], c);
      var rest := Split(s[1..], c);
      assert forall d :: d in s[1..] ==> d in s;
      if s[0] != c {
        assert forall d :: d in [s[0]] + rest[0] ==> d == s[0] || d in rest[0];
      }
    }
  }

  /** Splitting `a + sep + b` where `a` holds no separator yields `a` and then the pieces of `b`. */
  lemma {:induction false} SplitAfterPiece(a: string, b: string, c: char)
    requires c !in a
    ensures Split(a + [c] + b, c) == [a] + Split(b, c)
    decreases |a|
  {
    var s := a + [c] + b;
    if |a| == 0 {
      assert s[1..] == b;
    } else {
      assert s[1..] == a[1..] + [c] + b;
      SplitAfterPiece(a[1..], b, c);
      assert [a[0]] + a[1..] == a;
    }
  }

  /** Joining the pieces of a split with the same separator gives back the string. */
  lemma {:induction false} JoinSplit(s: string, c: char)
    ensures Join(Split(s, c), [c]) == s
    decreases |s|
  {
    if |s| > 0 {
      JoinSplit(s[1..], c);
      var rest := Split(s[1..], c);
      if s[0] == c {
        assert ([""] + rest)[1..] == rest;
        assert s == [c] + s[1..];
      } else {
        var xs := [[s[0]] + rest[0]] + rest[1..];
        if |rest| == 1 {
          assert s == [s[0]] + s[1..];
        } else {
          assert xs[1..] == rest[1..];
          assert s == [s[0]] + s[1..];
        }
      }
    }
  }

  /** Splitting a join whose pieces hold no separator gives back the pieces. */
  lemma {:induction false} SplitJoin(xs: seq<string>, c: char)
    requires |xs| >= 1
    requires forall k :: 0 <= k < |xs| ==> c !in xs[k]
    ensures Split(Join(xs, [c]), c) == xs
    decreases |xs|
  {
    if |xs| == 1 {
      SplitNoSeparator(xs[0], c);
    } else {
      SplitJoin(xs[1..], c);
      SplitAfterPiece(xs[0], Join(xs[1..], [c]), c);
      assert [xs[0]] + xs[1..] == xs;
    }
  }

  /** The pieces of a split, written together, are the string without its separators. */
  lemma {:induction false} ConcatSplit(s: string, c: char)
    ensures Concat(Split(s, c)) == Without(s, c)
    decreases |s|
  {
    if |s| > 0 {
      ConcatSplit(s[1..], c);
      var rest := Split(s[1..], c);
      if s[0] == c {
        assert ([""] + rest)[1..] == rest;
      } else {
        var xs := [[s[0]] + rest[0]] + rest[1..];
        assert xs[1..] == rest[1..];
        assert Concat(rest) == rest[0] + Concat(rest[1..]);
      }
    }
  }

  /** Dropping empty strings does not change the concatenation. */
  lemma {:induction false} ConcatDropEmpty(xs: seq<string>)
    ensures Concat(DropEmpty(xs)) == Concat(xs)
    decreases |xs|
  {
    if |xs| > 0 {
      ConcatDropEmpty(xs[1..]);
      if xs[0] != "" {
        assert ([xs[0]] + DropEmpty(xs[1..]))[1..] == DropEmpty(xs[1..]);
      }
    }
  }

  /** A character of `s` other than `c` appears in some piece of `Split(s, c)`. */
  lemma {:induction false} CharInSomePiece(s: string, c: char, i: int)
    requires 0 <= i < |s| && s[i] != c
    ensures exists k :: 0 <= k < |Split(s, c)| && s[i] in Split(s, c)[k]
    decreases |s|
  {
    var rest := Split(s[1..], c);
    if i == 0 {
      assert s[0] in Split(s, c)[0];
    } else {
      CharInSomePiece(s[1..], c, i - 1);
      var k :| 0 <= k < |rest| && s[1..][i - 1] in rest[k];
      if s[0] == c {
        assert Split(s, c)[k + 1] == rest[k];
      } else if k == 0 {
        assert Split(s, c)[0] == [s[0]] + rest[0];
      } else {
        assert Split(s, c)[k] == rest[k];
      }
    }
  }

  /**
   * The first piece of a split is the longest separator-free prefix: it is a
   * prefix of `s`, and unless it is all of `s` a separator follows it.
   */
  lemma {:induction false} SplitFirstPiece(s: string, c: char)
    ensures var first := Split(s, c)[0];
            && |first| <= |s| && s[..|first|] == first
            && (|first| < |s| ==> s[|first|] == c)
    decreases |s|
  {
    if |s| > 0 && s[0] != c {
      SplitFirstPiece(s[1..], c);
      var rest := Split(s[1..], c);
      assert Split(s, c)[0] == [s[0]] + rest[0];
      assert s[..|rest[0]| + 1] == [s[0]] + s[1..][..|rest[0]|];
    }
  }

  // ---------------------------------------------------------------------
  // trim()
  // ---------------------------------------------------------------------

  /** The characters `String.prototype.trim` removes: ECMAScript WhiteSpace and LineTerminator. */
  predicate IsJsWhitespace(c: char) {
    c in {'\t', '\n', '\U{B}', '\U{C}', '\r', ' ', '\U{A0}', '\U{1680}',
          '\U{2028}', '\U{2029}', '\U{202F}', '\U{205F}', '\U{3000}', '\U{FEFF}'}
    || ('\U{2000}' <= c <= '\U{200A}')
  }

  /** `s.trim()` is the empty string (a falsy value). */
  predicate IsBlank(s: string) {
    forall k :: 0 <= k < |s| ==> IsJsWhitespace(s[k])
  }
}
