/**
 * The text helpers of the terminal renderer: the control-character filter
 * applied to every decoded value, word wrapping, key capitalisation, and the
 * heatmap lines of the card (glyph row, axis line, peak hours).
 */
module RenderCard {
  import opened Js
  import Heatmap

  // ===========================================================================
  // stripCtrl

  /**
   * The characters stripCtrl removes: the C0 controls other than tab, line
   * feed and carriage return, DEL, and the C1 controls.
   */
  predicate IsCtrl(c: char) {
    var n := c as int;
    n <= 0x08 || n == 0x0B || n == 0x0C || (0x0E <= n <= 0x1F) || (0x7F <= n <= 0x9F)
  }

  predicate NoCtrl(s: string) {
    forall i :: 0 <= i < |s| ==> !IsCtrl(s[i])
  }

  /** stripCtrl: every control character removed, everything else kept in order. */
  function StripCtrl(s: string): (r: string)
    ensures |r| <= |s|
    ensures NoCtrl(r)
  {
    if |s| == 0 then [] else (if IsCtrl(s[0]) then [] else [s[0]]) + StripCtrl(s[1..])
  }

  /** Stripping works character by character: it distributes over concatenation. */
  lemma {:induction false} StripCtrlConcat(a: string, b: string)
    ensures StripCtrl(a + b) == StripCtrl(a) + StripCtrl(b)
    decreases |a|
  {
    if |a| == 0 {
      assert a + b == b;
    } else {
      var h := if IsCtrl(a[0]) then [] else [a[0]];
      assert (a + b)[0] == a[0];
      assert (a + b)[1..] == a[1..] + b;
      assert StripCtrl(a + b) == h + StripCtrl(a[1..] + b);
      StripCtrlConcat(a[1..], b);
      assert StripCtrl(a) == h + StripCtrl(a[1..]);
      ConcatAssoc(h, StripCtrl(a[1..]), StripCtrl(b));
    }
  }

  /** A character survives exactly when it was there and is not a control character. */
  lemma {:induction false} StripCtrlMembers(s: string, c: char)
    ensures c in StripCtrl(s) <==> c in s && !IsCtrl(c)
    decreases |s|
  {
    if |s| > 0 {
      StripCtrlMembers(s[1..], c);
      assert s == [s[0]] + s[1..];
    }
  }

  /** Text without control characters, tabs and line breaks included, is left as it is. */
  lemma {:induction false} StripCtrlClean(s: string)
    requires NoCtrl(s)
    ensures StripCtrl(s) == s
    decreases |s|
  {
    if |s| > 0 {
      StripCtrlClean(s[1..]);
    }
  }

  lemma StripCtrlIdempotent(s: string)
    ensures StripCtrl(StripCtrl(s)) == StripCtrl(s)
  {
    StripCtrlClean(StripCtrl(s));
  }

  // ===========================================================================
  // sanitizeData

  /** sanitizeData: strings are stripped, arrays and objects are rebuilt from their sanitised parts. */
  function Sanitized(v: JsonValue): JsonValue
    decreases v
  {
    match v
    case JStr(s) => JStr(StripCtrl(s))
    case JArr(items) => JArr(seq(|items|, i requires 0 <= i < |items| => Sanitized(items[i])))
    case JObj(entries) =>
      JObj(seq(|entries|, i requires 0 <= i < |entries| => (entries[i].0, Sanitized(entries[i].1))))
    case _ => v
  }

  /** sanitizeData, with its `map` over arrays and its loop filling the output object. */
  method SanitizeData(v: JsonValue) returns (r: JsonValue)
    ensures r == Sanitized(v)
    decreases v
  {
    match v {
      case JStr(s) =>
        r := JStr(StripCtrl(s));
      case JArr(items) =>
        var out: seq<JsonValue> := [];
        for i := 0 to |items|
          invariant |out| == i
          invariant forall k :: 0 <= k < i ==> out[k] == Sanitized(items[k])
        {
          var x := SanitizeData(items[i]);
          out := out + [x];
        }
        r := JArr(out);
      case JObj(entries) =>
        var out: seq<(string, JsonValue)> := [];
        for i := 0 to |entries|
          invariant |out| == i
          invariant forall k :: 0 <= k < i ==> out[k] == (entries[k].0, Sanitized(entries[k].1))
        {
          var (key, value) := entries[i];
          var x := SanitizeData(value);
          out := out + [(key, x)];
        }
        r := JObj(out);
      case _ =>
        r := v;
    }
  }

  /** The value with every string emptied: what sanitising must not change. */
  function Erase(v: JsonValue): JsonValue
    decreases v
  {
    match v
    case JStr(_) => JStr("")
    case JArr(items) => JArr(seq(|items|, i requires 0 <= i < |items| => Erase(items[i])))
    case JObj(entries) =>
      JObj(seq(|entries|, i requires 0 <= i < |entries| => (entries[i].0, Erase(entries[i].1))))
    case _ => v
  }

  /** No string value anywhere in `v` holds a control character (object keys are not inspected). */
  predicate Clean(v: JsonValue)
    decreases v
  {
    match v
    case JStr(s) => NoCtrl(s)
    case JArr(items) => forall i :: 0 <= i < |items| ==> Clean(items[i])
    case JObj(entries) => forall i :: 0 <= i < |entries| ==> Clean(entries[i].1)
    case _ => true
  }

  /** Sanitising keeps the shape: array lengths and order, object keys and order, every non-string scalar. */
  lemma {:induction false} SanitizeKeepsShape(v: JsonValue)
    ensures Erase(Sanitized(v)) == Erase(v)
    decreases v
  {
    match v
    case JArr(items) =>
      forall i | 0 <= i < |items|
        ensures Erase(Sanitized(items[i])) == Erase(items[i])
      {
        SanitizeKeepsShape(items[i]);
      }
    case JObj(entries) =>
      forall i | 0 <= i < |entries|
        ensures Erase(Sanitized(entries[i].1)) == Erase(entries[i].1)
      {
        SanitizeKeepsShape(entries[i].1);
      }
    case _ =>
  }

  /** After sanitising no string value holds a control character. */
  lemma {:induction false} SanitizedIsClean(v: JsonValue)
    ensures Clean(Sanitized(v))
    decreases v
  {
    match v
    case JArr(items) =>
      forall i | 0 <= i < |items|
        ensures Clean(Sanitized(items[i]))
      {
        SanitizedIsClean(items[i]);
      }
    case JObj(entries) =>
      forall i | 0 <= i < |entries|
        ensures Clean(Sanitized(entries[i].1))
      {
        SanitizedIsClean(entries[i].1);
      }
    case _ =>
  }

  /** A value that is already clean comes back unchanged. */
  lemma {:induction false} SanitizeCleanIsIdentity(v: JsonValue)
    requires Clean(v)
    ensures Sanitized(v) == v
    decreases v
  {
    match v
    case JStr(s) =>
      StripCtrlClean(s);
    case JArr(items) =>
      forall i | 0 <= i < |items|
        ensures Sanitized(items[i]) == items[i]
      {
        SanitizeCleanIsIdentity(items[i]);
      }
      assert Sanitized(v).items == items;
    case JObj(entries) =>
      forall i | 0 <= i < |entries|
        ensures Sanitized(entries[i].1) == entries[i].1
      {
        SanitizeCleanIsIdentity(entries[i].1);
      }
      assert Sanitized(v).entries == entries;
    case _ =>
  }

  lemma SanitizeIdempotent(v: JsonValue)
    ensures Sanitized(Sanitized(v)) == Sanitized(v)
  {
    SanitizedIsClean(v);
    SanitizeCleanIsIdentity(Sanitized(v));
  }

  /** All string values of `v`, in document order. */
  function Leaves(v: JsonValue): seq<string>
    decreases v
  {
    match v
    case JStr(s) => [s]
    case JArr(items) => Flatten(seq(|items|, i requires 0 <= i < |items| => Leaves(items[i])))
    case JObj(entries) => Flatten(seq(|entries|, i requires 0 <= i < |entries| => Leaves(entries[i].1)))
    case _ => []
  }

  function Flatten(xss: seq<seq<string>>): seq<string>
  {
    if |xss| == 0 then [] else xss[0] + Flatten(xss[1..])
  }

  function StripAll(ss: seq<string>): (r: seq<string>)
    ensures |r| == |ss|
  {
    seq(|ss|, i requires 0 <= i < |ss| => StripCtrl(ss[i]))
  }

  lemma {:induction false} StripAllFlatten(xss: seq<seq<string>>)
    ensures StripAll(Flatten(xss)) == Flatten(seq(|xss|, i requires 0 <= i < |xss| => StripAll(xss[i])))
    decreases |xss|
  {
    if |xss| > 0 {
      StripAllFlatten(xss[1..]);
      var f := seq(|xss|, i requires 0 <= i < |xss| => StripAll(xss[i]));
      assert f[1..] == seq(|xss| - 1, i requires 0 <= i < |xss| - 1 => StripAll(xss[1..][i]));
      assert StripAll(xss[0] + Flatten(xss[1..])) == StripAll(xss[0]) + StripAll(Flatten(xss[1..]));
    }
  }

  /** Every string value, and nothing else, becomes stripCtrl of itself, in the same order. */
  lemma {:induction false} SanitizeStripsEveryString(v: JsonValue)
    ensures Leaves(Sanitized(v)) == StripAll(Leaves(v))
    decreases v
  {
    match v
    case JStr(s) =>
    case JArr(items) =>
      var parts := seq(|items|, i requires 0 <= i < |items| => Leaves(items[i]));
      forall i | 0 <= i < |items|
        ensures Leaves(Sanitized(items[i])) == StripAll(parts[i])
      {
        SanitizeStripsEveryString(items[i]);
      }
      StripAllFlatten(parts);
      assert seq(|items|, i requires 0 <= i < |items| => Leaves(Sanitized(v).items[i]))
          == seq(|parts|, i requires 0 <= i < |parts| => StripAll(parts[i]));
    case JObj(entries) =>
      var parts := seq(|entries|, i requires 0 <= i < |entries| => Leaves(entries[i].1));
      forall i | 0 <= i < |entries|
        ensures Leaves(Sanitized(entries[i].1)) == StripAll(parts[i])
      {
        SanitizeStripsEveryString(entries[i].1);
      }
      StripAllFlatten(parts);
      assert seq(|entries|, i requires 0 <= i < |entries| => Leaves(Sanitized(v).entries[i].1))
          == seq(|parts|, i requires 0 <= i < |parts| => StripAll(parts[i]));
    case _ =>
  }

  // ===========================================================================
  // wordWrap

  /** `line ? line + ' ' + word : word` */
  function Extend(line: string, word: string): string {
    if line == "" then word else line + " " + word
  }

  /**
   * The lines the inner loop pushes for the remaining `words`, starting from
   * the current `line`, including the final push of a non-empty `line`.
   */
  function Fill(words: seq<string>, width: int, line: string): seq<string>
    decreases |words|
  {
    if |words| == 0 then (if line != "" then [line] else [])
    else if |line| + |words[0]| + 1 > width then [line] + Fill(words[1..], width, words[0])
    else Fill(words[1..], width, Extend(line, words[0]))
  }

  /** The lines of one paragraph: a blank paragraph gives a single empty line. */
  function WrapParagraph(para: string, width: int): seq<string> {
    if Trim(para) == "" then [""] else Fill(SplitWhitespace(para), width, "")
  }

  /** The lines of each paragraph, paragraph by paragraph. */
  function ParagraphLines(paras: seq<string>, width: int): (r: seq<seq<string>>)
    ensures |r| == |paras|
  {
    if |paras| == 0 then [] else [WrapParagraph(paras[0], width)] + ParagraphLines(paras[1..], width)
  }

  /** What wordWrap returns: the paragraphs between line feeds, each wrapped on its own. */
  function Wrapped(text: string, width: int): seq<string> {
    Flatten(ParagraphLines(SplitOn(text, '\n'), width))
  }

  lemma {:induction false} FlattenConcat(a: seq<seq<string>>, b: seq<seq<string>>)
    ensures Flatten(a + b) == Flatten(a) + Flatten(b)
    decreases |a|
  {
    if |a| == 0 {
      assert a + b == b;
    } else {
      assert (a + b)[0] == a[0];
      assert (a + b)[1..] == a[1..] + b;
      FlattenConcat(a[1..], b);
    }
  }

  lemma {:induction false} ParagraphLinesConcat(a: seq<string>, b: seq<string>, width: int)
    ensures ParagraphLines(a + b, width) == ParagraphLines(a, width) + ParagraphLines(b, width)
    decreases |a|
  {
    if |a| == 0 {
      assert a + b == b;
    } else {
      assert (a + b)[0] == a[0];
      assert (a + b)[1..] == a[1..] + b;
      ParagraphLinesConcat(a[1..], b, width);
    }
  }

  /** Paragraph `k` of the text gives entry `k` of the lines. */
  lemma {:induction false} ParagraphLinesAt(paras: seq<string>, width: int, k: int)
    requires 0 <= k < |paras|
    ensures ParagraphLines(paras, width)[k] == WrapParagraph(paras[k], width)
    decreases k
  {
    if k > 0 {
      assert ParagraphLines(paras, width)[k] == ParagraphLines(paras[1..], width)[k - 1];
      assert paras[1..][k - 1] == paras[k];
      ParagraphLinesAt(paras[1..], width, k - 1);
    }
  }

  /** The inner loop of wordWrap over the words of one paragraph, with the final push. */
  method FillLines(words: seq<string>, maxWidth: int) returns (lines: seq<string>)
    ensures lines == Fill(words, maxWidth, "")
  {
    lines := [];
    var line := "";
    for j := 0 to |words|
      invariant lines + Fill(words[j..], maxWidth, line) == Fill(words, maxWidth, "")
    {
      var word := words[j];
      assert words[j..][1..] == words[j + 1..];
      if |line| + |word| + 1 > maxWidth {
        lines := lines + [line];
        line := word;
      } else {
        line := if line != "" then line + " " + word else word;
      }
    }
    if line != "" {
      lines := lines + [line];
    }
  }

  lemma ParagraphLinesOne(para: string, width: int)
    ensures ParagraphLines([para], width) == [WrapParagraph(para, width)]
  {
    assert [para][1..] == [];
  }

  lemma FlattenOne(lines: seq<string>)
    ensures Flatten([lines]) == lines
  {
    assert [lines][1..] == [];
  }

  lemma WrappedPrefixStep(pre: seq<string>, para: string, width: int)
    ensures Flatten(ParagraphLines(pre + [para], width))
         == Flatten(ParagraphLines(pre, width)) + WrapParagraph(para, width)
  {
    var lines := WrapParagraph(para, width);
    ParagraphLinesConcat(pre, [para], width);
    ParagraphLinesOne(para, width);
    FlattenConcat(ParagraphLines(pre, width), [lines]);
    FlattenOne(lines);
  }

  lemma WrappedPrefixAt(paras: seq<string>, p: int, width: int)
    requires 0 <= p < |paras|
    ensures Flatten(ParagraphLines(paras[..p + 1], width))
         == Flatten(ParagraphLines(paras[..p], width)) + WrapParagraph(paras[p], width)
  {
    assert paras[..p + 1] == paras[..p] + [paras[p]];
    WrappedPrefixStep(paras[..p], paras[p], width);
  }

  /** wordWrap, with its loop over paragraphs. */
  method WordWrap(text: string, maxWidth: int) returns (result: seq<string>)
    ensures result == Wrapped(text, maxWidth)
  {
    result := [];
    var paras := SplitOn(text, '\n');
    for p := 0 to |paras|
      invariant result == Flatten(ParagraphLines(paras[..p], maxWidth))
    {
      var lines := WrapParagraphLines(paras[p], maxWidth);
      WrappedPrefixAt(paras, p, maxWidth);
      result := result + lines;
    }
    assert paras[..|paras|] == paras;
  }

  /** One turn of wordWrap's outer loop: a blank paragraph pushes one empty line, any other is filled. */
  method WrapParagraphLines(para: string, maxWidth: int) returns (lines: seq<string>)
    ensures lines == WrapParagraph(para, maxWidth)
  {
    if Trim(para) == "" {
      lines := [""];
    } else {
      lines := FillLines(SplitWhitespace(para), maxWidth);
    }
  }

  /** Text joined at a line feed wraps as the two parts wrapped one after the other. */
  lemma WrapAtLineFeed(a: string, b: string, width: int)
    ensures Wrapped(a + "\n" + b, width) == Wrapped(a, width) + Wrapped(b, width)
  {
    SplitOnConcat(a, b, '\n');
    ParagraphLinesConcat(SplitOn(a, '\n'), SplitOn(b, '\n'), width);
    FlattenConcat(ParagraphLines(SplitOn(a, '\n'), width), ParagraphLines(SplitOn(b, '\n'), width));
  }

  /** A blank (empty or whitespace-only) paragraph contributes exactly one empty line. */
  lemma BlankParagraphOneLine(para: string, width: int)
    requires '\n' !in para && AllWhitespace(para)
    ensures Wrapped(para, width) == [""]
  {
    SplitOnNoSeparator(para, '\n');
    TrimEmptyIffAllWhitespace(para);
    assert WrapParagraph(para, width) == [""];
    ParagraphLinesOne(para, width);
    FlattenOne([""]);
  }

  /** A line is acceptable when it fits the width or is one of the words. */
  predicate Fits(line: string, width: int, all: seq<string>) {
    |line| <= width || line in all
  }

  lemma {:induction false} FillFits(words: seq<string>, width: int, line: string, all: seq<string>)
    requires width >= 0
    requires forall k :: 0 <= k < |words| ==> words[k] in all
    requires Fits(line, width, all)
    ensures forall l :: l in Fill(words, width, line) ==> Fits(l, width, all)
    decreases |words|
  {
    if |words| > 0 {
      if |line| + |words[0]| + 1 > width {
        FillFits(words[1..], width, words[0], all);
      } else {
        FillFits(words[1..], width, Extend(line, words[0]), all);
      }
    }
  }

  /**
   * Width bound: for a non-negative width every line of a paragraph fits the
   * width or is one single word of it, so no line longer than the width holds
   * two words.
   */
  lemma ParagraphWidth(para: string, width: int)
    requires width >= 0
    ensures forall l :: l in WrapParagraph(para, width) ==>
      |l| <= width || (l in SplitWhitespace(para) && NoWhitespace(l))
  {
    var words := SplitWhitespace(para);
    SplitWhitespaceWords(para);
    if Trim(para) != "" {
      assert forall k :: 0 <= k < |words| ==> words[k] in words;
      FillFits(words, width, "", words);
      forall l | l in WrapParagraph(para, width) && |l| > width
        ensures l in words && NoWhitespace(l)
      {
        assert Fits(l, width, words);
        var k :| 0 <= k < |words| && words[k] == l;
      }
    }
  }

  lemma {:induction false} FlattenMembers(xss: seq<seq<string>>, l: string)
    requires l in Flatten(xss)
    ensures exists k :: 0 <= k < |xss| && l in xss[k]
    decreases |xss|
  {
    if l !in xss[0] {
      FlattenMembers(xss[1..], l);
      var k :| 0 <= k < |xss[1..]| && l in xss[1..][k];
      assert l in xss[k + 1];
    }
  }

  /** Over the whole text, a line longer than the width is a single word. */
  lemma WrapWidth(text: string, width: int)
    requires width >= 0
    ensures forall l :: l in Wrapped(text, width) ==> |l| <= width || NoWhitespace(l)
  {
    var paras := SplitOn(text, '\n');
    forall l | l in Wrapped(text, width)
      ensures |l| <= width || NoWhitespace(l)
    {
      FlattenMembers(ParagraphLines(paras, width), l);
      var k :| 0 <= k < |paras| && l in ParagraphLines(paras, width)[k];
      ParagraphLinesAt(paras, width, k);
      ParagraphWidth(paras[k], width);
    }
  }

  /** The non-empty strings of `ws`, in order. */
  function NonEmpty(ws: seq<string>): (r: seq<string>)
    ensures forall k :: 0 <= k < |r| ==> r[k] != ""
  {
    if |ws| == 0 then [] else (if ws[0] == "" then [] else [ws[0]]) + NonEmpty(ws[1..])
  }

  lemma {:induction false} NonEmptyConcat(a: seq<string>, b: seq<string>)
    ensures NonEmpty(a + b) == NonEmpty(a) + NonEmpty(b)
    decreases |a|
  {
    if |a| == 0 {
      assert a + b == b;
    } else {
      assert (a + b)[0] == a[0];
      assert (a + b)[1..] == a[1..] + b;
      NonEmptyConcat(a[1..], b);
    }
  }

  /** The words written on some lines: the non-empty pieces between spaces, line after line. */
  function Tokens(lines: seq<string>): seq<string>
    decreases |lines|
  {
    if |lines| == 0 then [] else NonEmpty(SplitOn(lines[0], ' ')) + Tokens(lines[1..])
  }

  lemma {:induction false} TokensConcat(a: seq<string>, b: seq<string>)
    ensures Tokens(a + b) == Tokens(a) + Tokens(b)
    decreases |a|
  {
    if |a| == 0 {
      assert a + b == b;
    } else {
      assert (a + b)[0] == a[0];
      assert (a + b)[1..] == a[1..] + b;
      TokensConcat(a[1..], b);
    }
  }

  lemma TokensExtend(line: string, word: string)
    requires ' ' !in word
    ensures Tokens([Extend(line, word)]) == Tokens([line]) + NonEmpty([word])
  {
    SplitOnNoSeparator(word, ' ');
    assert [Extend(line, word)][1..] == [] && [line][1..] == [];
    if line != "" {
      assert line + " " + word == line + [' '] + word;
      SplitOnConcat(line, word, ' ');
      NonEmptyConcat(SplitOn(line, ' '), [word]);
    }
  }

  lemma TokensOne(line: string)
    ensures Tokens([line]) == NonEmpty(SplitOn(line, ' '))
  {
    assert [line][1..] == [];
  }

  lemma {:induction false} FillTokens(words: seq<string>, width: int, line: string)
    requires forall k :: 0 <= k < |words| ==> ' ' !in words[k]
    ensures Tokens(Fill(words, width, line)) == Tokens([line]) + NonEmpty(words)
    decreases |words|
  {
    if |words| == 0 {
      TokensOne("");
    } else {
      var w, rest := words[0], words[1..];
      assert forall k :: 0 <= k < |rest| ==> ' ' !in rest[k] by {
        forall k | 0 <= k < |rest| ensures ' ' !in rest[k] {
          assert rest[k] == words[k + 1];
        }
      }
      WordsSplit(words);
      if |line| + |w| + 1 > width {
        FillTokens(rest, width, w);
        FillBreakTokens(line, w, rest, width);
      } else {
        FillTokens(rest, width, Extend(line, w));
        TokensExtend(line, w);
      }
    }
  }

  /** The non-empty words of a list are those of its head followed by those of its tail. */
  lemma WordsSplit(words: seq<string>)
    requires |words| > 0
    ensures NonEmpty(words) == NonEmpty([words[0]]) + NonEmpty(words[1..])
  {
    var head := if words[0] == "" then [] else [words[0]];
    assert [words[0]][1..] == [];
    assert NonEmpty([words[0]]) == head + NonEmpty([]);
    assert NonEmpty([words[0]]) == head;
  }

  /** When the current line is pushed, its words come before those of the next line. */
  lemma FillBreakTokens(line: string, w: string, rest: seq<string>, width: int)
    requires ' ' !in w
    requires Tokens(Fill(rest, width, w)) == Tokens([w]) + NonEmpty(rest)
    ensures Tokens([line] + Fill(rest, width, w)) == Tokens([line]) + NonEmpty([w]) + NonEmpty(rest)
  {
    TokensConcat([line], Fill(rest, width, w));
    SplitOnNoSeparator(w, ' ');
    TokensOne(w);
  }

  lemma NoWhitespaceNoSpace(s: string)
    requires NoWhitespace(s)
    ensures ' ' !in s
  {
  }

  /**
   * Word preservation: the words on a paragraph's lines are exactly the
   * paragraph's non-empty words, each once, in their original order.
   */
  lemma ParagraphKeepsWords(para: string, width: int)
    ensures Tokens(WrapParagraph(para, width)) == NonEmpty(SplitWhitespace(para))
  {
    var words := SplitWhitespace(para);
    if Trim(para) == "" {
      TrimEmptyIffAllWhitespace(para);
      SplitAllWhitespace(para);
      NonEmptyOfEmpties(words);
      assert Tokens([""]) == [];
    } else {
      SplitWhitespaceWords(para);
      forall k | 0 <= k < |words|
        ensures ' ' !in words[k]
      {
        NoWhitespaceNoSpace(words[k]);
      }
      FillTokens(words, width, "");
      assert Tokens([""]) == [];
    }
  }

  lemma {:induction false} NonEmptyOfEmpties(ws: seq<string>)
    requires forall k :: 0 <= k < |ws| ==> ws[k] == ""
    ensures NonEmpty(ws) == []
    decreases |ws|
  {
    if |ws| > 0 {
      NonEmptyOfEmpties(ws[1..]);
    }
  }

  /**
   * A paragraph whose first word does not fit in `width - 1` columns starts
   * with an empty line, because the loop pushes the empty current line before
   * placing that word.
   */
  lemma LongFirstWordPushesEmptyLine(para: string, width: int)
    requires Trim(para) != ""
    requires |SplitWhitespace(para)[0]| + 1 > width
    ensures WrapParagraph(para, width)[0] == ""
  {
  }

  // ===========================================================================
  // capitalize

  /** capitalize: the first character upper-cased, every later `_` turned into `/`. */
  function Capitalize(s: string): (r: string)
    ensures |r| == |s|
    ensures |s| > 0 ==> r[0] == UpperAscii(s[0])
    ensures forall i :: 1 <= i < |s| ==> r[i] == if s[i] == '_' then '/' else s[i]
  {
    if |s| == 0 then ""
    else
      ReplaceCharPointwise(s[1..], '_', '/');
      [UpperAscii(s[0])] + ReplaceAll(s[1..], '_', "/")
  }

  /** After capitalising no `_` is left past the first character, and capitalising again changes nothing. */
  lemma CapitalizeIdempotent(s: string)
    ensures forall i :: 1 <= i < |Capitalize(s)| ==> Capitalize(s)[i] != '_'
    ensures Capitalize(Capitalize(s)) == Capitalize(s)
  {
  }

  // ===========================================================================
  // The heatmap lines of the card

  /** `Math.max(...data, 1)`: the scale of the glyphs, never below 1. */
  function GlyphScale(data: seq<int>): (m: int)
    ensures m >= 1
    ensures forall i :: 0 <= i < |data| ==> data[i] <= m
    ensures m == 1 || exists i :: 0 <= i < |data| && data[i] == m
  {
    if |data| == 0 then 1
    else
      var t := GlyphScale(data[1..]);
      assert forall i :: 1 <= i < |data| ==> data[i] == data[1..][i - 1];
      if data[0] > t then data[0] else t
  }

  /**
   * The glyph of one bucket: a space for 0, then quarters of the scale
   * (`v / max` below 0.25, 0.5, 0.75, else full), compared exactly on integers.
   */
  function Glyph(v: int, max: int): (g: char)
    requires max >= 1
    ensures g == ' ' <==> v == 0
    ensures v >= max ==> g == '█'
    ensures 0 < v && 4 * v < max ==> g == '░'
  {
    if v == 0 then ' '
    else if 4 * v < max then '░'
    else if 2 * v < max then '▒'
    else if 4 * v < 3 * max then '▓'
    else '█'
  }

  /** How dense a glyph is, from the space (0) to the full block (4). */
  function Density(g: char): (n: int)
    ensures 0 <= n <= 4
  {
    if g == ' ' then 0 else if g == '░' then 1 else if g == '▒' then 2 else if g == '▓' then 3 else 4
  }

  /**
   * For non-negative counts the glyphs grow with the value: a space exactly
   * for 0, a visible glyph for any activity, and the full block at the scale.
   */
  lemma GlyphMonotone(u: int, v: int, max: int)
    requires max >= 1 && 0 <= u <= v
    ensures Density(Glyph(u, max)) <= Density(Glyph(v, max))
    ensures Glyph(v, max) == ' ' <==> v == 0
    ensures v >= max ==> Glyph(v, max) == '█'
  {
  }

  /** Which quarter of the scale a positive value reaches decides its glyph. */
  lemma GlyphQuarters(v: int, max: int)
    requires max >= 1 && v > 0
    ensures Density(Glyph(v, max)) == 1 + (if 4 * v >= max then 1 else 0)
                                        + (if 4 * v >= 2 * max then 1 else 0)
                                        + (if 4 * v >= 3 * max then 1 else 0)
  {
  }

  /** The glyph row: one glyph per bucket of the rotated day. */
  function Blocks(data: seq<int>): (b: string)
    ensures |b| == |data|
  {
    seq(|data|, i requires 0 <= i < |data| => Glyph(data[i], GlyphScale(data)))
  }

  /**
   * The two heatmap lines the card prints for a `claude` section: the glyph
   * row and the axis line below it, as written (labels padded to 8, 7, 7
   * and 4), or nothing when there is no hour distribution.
   */
  function HeatmapLines(cl: Heatmap.ClaudeSection): (r: Option<(string, string)>)
    ensures r.Some? <==> Heatmap.HourDist(cl).Some?
    ensures r.Some? ==> |r.value.0| == Heatmap.Hours
  {
    match Heatmap.HourDist(cl)
    case None => None
    case Some(dist) =>
      var view := Heatmap.Rotate(Some(dist));
      Some((Blocks(view.data), AxisLineAsWritten(Heatmap.AxisLabels(view.startHour))))
  }

  /** The heatmap lines with the axis line corrected so that each label sits under the glyph it names. */
  function HeatmapLinesCorrected(cl: Heatmap.ClaudeSection): (r: Option<(string, string)>)
    ensures r.Some? <==> Heatmap.HourDist(cl).Some?
    ensures r.Some? ==> r.value.0 == HeatmapLines(cl).value.0
  {
    match Heatmap.HourDist(cl)
    case None => None
    case Some(dist) =>
      var view := Heatmap.Rotate(Some(dist));
      Some((Blocks(view.data), AxisLine(Heatmap.AxisLabels(view.startHour))))
  }

  /** Glyph `i` of a rotated day shows the hour `(i + startHour) % 24`, against the scale of the whole day. */
  lemma BlocksOfRotation(dist: seq<int>)
    requires |dist| == Heatmap.Hours
    ensures var view := Heatmap.Rotate(Some(dist));
      && |Blocks(view.data)| == Heatmap.Hours
      && forall i :: 0 <= i < Heatmap.Hours ==>
           Blocks(view.data)[i] == Glyph(dist[(i + view.startHour) % Heatmap.Hours], GlyphScale(dist))
  {
    Heatmap.RotateIsCyclicShift(dist);
    var view := Heatmap.Rotate(Some(dist));
    BlocksOfShift(view.data, dist, view.startHour);
  }

  lemma BlocksOfShift(data: seq<int>, dist: seq<int>, k: int)
    requires |data| == |dist| == Heatmap.Hours && 0 <= k < Heatmap.Hours
    requires forall i :: 0 <= i < Heatmap.Hours ==> data[i] == dist[(i + k) % Heatmap.Hours]
    requires multiset(data) == multiset(dist)
    ensures |Blocks(data)| == Heatmap.Hours
    ensures forall i :: 0 <= i < Heatmap.Hours ==>
      Blocks(data)[i] == Glyph(dist[(i + k) % Heatmap.Hours], GlyphScale(dist))
  {
    ScaleOfSameValues(data, dist);
  }

  /**
   * The glyph row is there exactly when an hour distribution is, and then it
   * is the glyph row of the rotated distribution.
   */
  lemma HeatmapGlyphs(cl: Heatmap.ClaudeSection)
    ensures HeatmapLines(cl).Some? <==> Heatmap.HourDist(cl).Some?
    ensures HeatmapLines(cl).Some? ==>
      && |Heatmap.HourDist(cl).value| == Heatmap.Hours
      && HeatmapLines(cl).value.0 == Blocks(Heatmap.Rotate(Heatmap.HourDist(cl)).data)
  {
  }

  /**
   * The axis line the card prints holds the five labels of the rotated day in
   * columns 0, 8, 15, 22 and 26, and is 26 columns plus the last label wide.
   */
  lemma HeatmapAxisAsWritten(cl: Heatmap.ClaudeSection)
    ensures HeatmapLines(cl).Some? ==>
      var view := Heatmap.Rotate(Heatmap.HourDist(cl));
      var labels := Heatmap.AxisLabels(view.startHour);
      var line := HeatmapLines(cl).value.1;
      && 26 + |labels[4]| == |line|
      && line[0..|labels[0]|] == labels[0]
      && line[8..8 + |labels[1]|] == labels[1]
      && line[15..15 + |labels[2]|] == labels[2]
      && line[22..22 + |labels[3]|] == labels[3]
      && line[26..26 + |labels[4]|] == labels[4]
  {
    if HeatmapLines(cl).Some? {
      var view := Heatmap.Rotate(Heatmap.HourDist(cl));
      AxisLabelsShort(view.startHour);
      AxisLineAsWrittenColumns(Heatmap.AxisLabels(view.startHour));
    }
  }

  /**
   * The column layout the heatmap promises: the glyph in column `i` shows
   * the count of hour `(i + startHour) % 24`, and label `k` starts in column
   * `AxisPositions[k]` and names the hour of that column.
   */
  predicate AlignedAt(dist: seq<int>, glyphs: string, line: string, labels: seq<string>, startHour: int)
  {
    && |dist| == Heatmap.Hours && |glyphs| == Heatmap.Hours && |labels| == 5
    && 0 <= startHour < Heatmap.Hours
    && (forall k :: 0 <= k < 5 ==>
         var p := Heatmap.AxisPositions[k];
         && p + |labels[k]| <= |line|
         && line[p..p + |labels[k]|] == labels[k]
         && ParseInt(labels[k]) == (p + startHour) % Heatmap.Hours)
    && (forall i :: 0 <= i < Heatmap.Hours ==>
         glyphs[i] == Glyph(dist[(i + startHour) % Heatmap.Hours], GlyphScale(dist)))
  }

  /** The corrected heatmap lines keep the layout of `AlignedAt`. */
  lemma HeatmapLinesAligned(cl: Heatmap.ClaudeSection)
    ensures HeatmapLinesCorrected(cl).Some? ==>
      var dist := Heatmap.HourDist(cl).value;
      var view := Heatmap.Rotate(Some(dist));
      AlignedAt(dist, HeatmapLinesCorrected(cl).value.0, HeatmapLinesCorrected(cl).value.1,
                Heatmap.AxisLabels(view.startHour), view.startHour)
  {
    if HeatmapLinesCorrected(cl).Some? {
      RotationAligned(Heatmap.HourDist(cl).value);
    }
  }

  /** The alignment of the corrected lines, for one 24-bucket day. */
  lemma RotationAligned(dist: seq<int>)
    requires |dist| == Heatmap.Hours
    ensures var view := Heatmap.Rotate(Some(dist));
      var labels := Heatmap.AxisLabels(view.startHour);
      AlignedAt(dist, Blocks(view.data), AxisLine(labels), labels, view.startHour)
  {
    Heatmap.RotateIsCyclicShift(dist);
    var view := Heatmap.Rotate(Some(dist));
    AlignedOfShift(view.data, dist, view.startHour);
  }

  /** The alignment for any cyclic shift of a day by `k` hours. */
  lemma AlignedOfShift(data: seq<int>, dist: seq<int>, k: int)
    requires |data| == |dist| == Heatmap.Hours && 0 <= k < Heatmap.Hours
    requires forall i :: 0 <= i < Heatmap.Hours ==> data[i] == dist[(i + k) % Heatmap.Hours]
    requires multiset(data) == multiset(dist)
    ensures var labels := Heatmap.AxisLabels(k);
      AlignedAt(dist, Blocks(data), AxisLine(labels), labels, k)
  {
    BlocksOfShift(data, dist, k);
    AxisLineAligned(k);
  }

  /** Two days with the same values have the same scale. */
  lemma ScaleOfSameValues(a: seq<int>, b: seq<int>)
    requires multiset(a) == multiset(b)
    ensures GlyphScale(a) == GlyphScale(b)
  {
    forall i | 0 <= i < |a|
      ensures a[i] <= GlyphScale(b)
    {
      assert a[i] in multiset(a);
    }
    forall i | 0 <= i < |b|
      ensures b[i] <= GlyphScale(a)
    {
      assert b[i] in multiset(b);
    }
    var ma, mb := GlyphScale(a), GlyphScale(b);
    if ma != 1 {
      var i :| 0 <= i < |a| && a[i] == ma;
      assert ma in multiset(b);
    }
    if mb != 1 {
      var j :| 0 <= j < |b| && b[j] == mb;
      assert mb in multiset(a);
    }
  }

  // ---------------------------------------------------------------------------
  // The axis line

  /** The axis line as the card writes it: the five labels padded to 8, 7, 7 and 4 columns. */
  function AxisLineAsWritten(labels: seq<string>): (line: string)
    requires |labels| == 5
    ensures |line| >= 26 + |labels[4]| && |line| >= |labels[0]|
    ensures line[..|labels[0]|] == labels[0]
    ensures line[|line| - |labels[4]|..] == labels[4]
  {
    var head := PadEnd(labels[0], 8);
    var line := PadEnd(labels[0], 8) + PadEnd(labels[1], 7) + PadEnd(labels[2], 7) + PadEnd(labels[3], 4) + labels[4];
    assert line == head + (line[|head|..]);
    line
  }

  /** In the as-written line, labels of at most two characters start in columns 0, 8, 15, 22 and 26. */
  lemma AxisLineAsWrittenColumns(labels: seq<string>)
    requires |labels| == 5 && forall k :: 0 <= k < 5 ==> |labels[k]| <= 2
    ensures var line := AxisLineAsWritten(labels);
      && 26 + |labels[4]| == |line|
      && line[0..|labels[0]|] == labels[0]
      && (forall i :: |labels[0]| <= i < 8 ==> line[i] == ' ')
      && line[8..8 + |labels[1]|] == labels[1]
      && line[15..15 + |labels[2]|] == labels[2]
      && line[22..22 + |labels[3]|] == labels[3]
      && line[26..26 + |labels[4]|] == labels[4]
  {
    var a, b, c, d, e := PadEnd(labels[0], 8), PadEnd(labels[1], 7), PadEnd(labels[2], 7), PadEnd(labels[3], 4), labels[4];
    var line := AxisLineAsWritten(labels);
    assert |a| == 8 && |b| == 7 && |c| == 7 && |d| == 4;
    assert line == [] + a + (b + c + d + e);
    LabelInLine([], labels[0], 8, b + c + d + e);
    assert forall i :: 0 <= i < 8 ==> line[i] == a[i];
    assert line == a + b + (c + d + e);
    LabelInLine(a, labels[1], 7, c + d + e);
    assert line == (a + b) + c + (d + e);
    LabelInLine(a + b, labels[2], 7, d + e);
    assert line == (a + b + c) + d + e;
    LabelInLine(a + b + c, labels[3], 4, e);
    assert line == (a + b + c + d) + e;
    assert line[26..26 + |e|] == e;
  }

  /**
   * With no rotation the as-written axis line puts the "6" label in column 8,
   * under the bucket of hour 8, leaves column 6 blank, and runs to 28 columns
   * under a 24-glyph row.
   */
  lemma AxisLineAsWrittenMisaligned()
    ensures var line := AxisLineAsWritten(Heatmap.AxisLabels(0));
      && |line| == 28
      && line[6] == ' ' && line[8..9] == "6"
      && line[15..17] == "12" && line[22..24] == "18" && line[26..28] == "23"
  {
    Heatmap.AxisLabelsUnrotated();
    AxisLineAsWrittenColumns(Heatmap.AxisLabels(0));
  }

  /** The axis line with each label in the column of the bucket it names: columns 0, 6, 12, 18 and 23. */
  function AxisLine(labels: seq<string>): (line: string)
    requires |labels| == 5
    ensures |line| >= 23 + |labels[4]| && |line| >= |labels[0]|
    ensures line[..|labels[0]|] == labels[0]
    ensures line[|line| - |labels[4]|..] == labels[4]
  {
    var head := PadEnd(labels[0], 6);
    var line := PadEnd(labels[0], 6) + PadEnd(labels[1], 6) + PadEnd(labels[2], 6) + PadEnd(labels[3], 5) + labels[4];
    assert line == head + (line[|head|..]);
    line
  }

  lemma {:induction false} HourTextShort(n: nat)
    requires n < 100
    ensures 1 <= |NatToString(n)| <= 2
  {
  }

  /** A label padded to width `w` and placed after `x` starts in column `|x|`. */
  lemma LabelInLine(x: string, lab: string, w: int, z: string)
    requires |lab| <= w
    ensures var line := x + PadEnd(lab, w) + z;
      |x| + |lab| <= |line| && line[|x|..|x| + |lab|] == lab
  {
    var pad := PadEnd(lab, w);
    var line := x + pad + z;
    assert line[|x|..|x| + |pad|] == pad;
    assert line[|x|..|x| + |lab|] == pad[..|lab|];
  }

  /** Every axis label is an hour of one or two digits. */
  lemma AxisLabelsShort(startHour: int)
    requires 0 <= startHour < Heatmap.Hours
    ensures forall k :: 0 <= k < 5 ==> |Heatmap.AxisLabels(startHour)[k]| <= 2
  {
    forall k | 0 <= k < 5
      ensures |Heatmap.AxisLabels(startHour)[k]| <= 2
    {
      HourTextShort((Heatmap.AxisPositions[k] + startHour) % Heatmap.Hours);
    }
  }

  /** Labels of at most two characters each start in columns 0, 6, 12, 18 and 23. */
  lemma AxisLineColumns(labels: seq<string>)
    requires |labels| == 5 && forall k :: 0 <= k < 5 ==> |labels[k]| <= 2
    ensures var line := AxisLine(labels);
      && 23 + |labels[4]| == |line|
      && line[0..|labels[0]|] == labels[0]
      && line[6..6 + |labels[1]|] == labels[1]
      && line[12..12 + |labels[2]|] == labels[2]
      && line[18..18 + |labels[3]|] == labels[3]
      && line[23..23 + |labels[4]|] == labels[4]
  {
    var a, b, c, d, e := PadEnd(labels[0], 6), PadEnd(labels[1], 6), PadEnd(labels[2], 6), PadEnd(labels[3], 5), labels[4];
    var line := AxisLine(labels);
    assert |a| == 6 && |b| == 6 && |c| == 6 && |d| == 5;
    assert line == [] + a + (b + c + d + e);
    LabelInLine([], labels[0], 6, b + c + d + e);
    assert line == a + b + (c + d + e);
    LabelInLine(a, labels[1], 6, c + d + e);
    assert line == (a + b) + c + (d + e);
    LabelInLine(a + b, labels[2], 6, d + e);
    assert line == (a + b + c) + d + e;
    LabelInLine(a + b + c, labels[3], 5, e);
    assert line == (a + b + c + d) + e;
    assert line[23..23 + |e|] == e;
  }

  /**
   * In the axis line, label `k` starts in column `AxisPositions[k]`, the
   * column of the glyph whose hour it names: that bucket shows hour
   * `(AxisPositions[k] + startHour) % 24`, and the label reads back as that hour.
   */
  lemma AxisLineAligned(startHour: int)
    requires 0 <= startHour < Heatmap.Hours
    ensures var labels := Heatmap.AxisLabels(startHour);
      var line := AxisLine(labels);
      forall k :: 0 <= k < 5 ==>
        var p := Heatmap.AxisPositions[k];
        && p + |labels[k]| <= |line|
        && line[p..p + |labels[k]|] == labels[k]
        && ParseInt(labels[k]) == (p + startHour) % Heatmap.Hours
  {
    var labels := Heatmap.AxisLabels(startHour);
    Heatmap.AxisLabelsAreHours(startHour);
    AxisLabelsShort(startHour);
    AxisLineColumns(labels);
    var line := AxisLine(labels);
    forall k | 0 <= k < 5
      ensures var p := Heatmap.AxisPositions[k];
        p + |labels[k]| <= |line| && line[p..p + |labels[k]|] == labels[k]
    {
      var p := Heatmap.AxisPositions[k];
      assert p == if k == 0 then 0 else if k == 1 then 6 else if k == 2 then 12 else if k == 3 then 18 else 23;
    }
  }

  // ---------------------------------------------------------------------------
  // Peak hours

  /** The label of one peak hour: `h > 12 ? (h - 12) + "pm" : h + "am"`. */
  function PeakLabel(h: int): (r: string)
    ensures |r| >= 3
    ensures r[|r| - 2..] == if h > 12 then "pm" else "am"
    ensures ParseInt(r[..|r| - 2]) == if h > 12 then h - 12 else h
  {
    var n := if h > 12 then h - 12 else h;
    var t := IntToString(n);
    var r := t + (if h > 12 then "pm" else "am");
    IntToStringRoundTrip(n);
    assert r[..|r| - 2] == t;
    r
  }

  /** The ` (peak: …)` suffix of the rhythm line; nothing when `peak_hours` is missing or falsy. */
  function PeakSuffix(peakHours: Option<seq<int>>): (r: string)
    ensures peakHours.None? ==> r == ""
    ensures peakHours.Some? ==> |r| >= 9 && r[..8] == " (peak: " && r[|r| - 1] == ')'
    ensures peakHours == Some([]) ==> r == " (peak: )"
  {
    match peakHours
    case None => ""
    case Some(hs) => " (peak: " + Join(seq(|hs|, i requires 0 <= i < |hs| => PeakLabel(hs[i])), "-") + ")"
  }

  /** The label of a non-negative hour holds no `-`, so the joined labels split apart again. */
  lemma PeakLabelNoDash(h: int)
    requires h >= 0
    ensures '-' !in PeakLabel(h)
  {
    var n := if h > 12 then h - 12 else h;
    var t := IntToString(n);
    assert forall i :: 0 <= i < |t| ==> IsDigit(t[i]);
    assert PeakLabel(h) == t + (if h > 12 then "pm" else "am");
  }

  /**
   * The text between ` (peak: ` and `)` is the labels of the peak hours
   * joined by `-`: it splits back into exactly those labels, and each
   * label reads back as its hour.
   */
  lemma PeakSuffixReadsBack(hs: seq<int>)
    requires |hs| > 0
    requires forall i :: 0 <= i < |hs| ==> hs[i] >= 0
    ensures var r := PeakSuffix(Some(hs));
      var parts := SplitOn(r[8..|r| - 1], '-');
      && parts == seq(|hs|, i requires 0 <= i < |hs| => PeakLabel(hs[i]))
      && forall i :: 0 <= i < |hs| ==> PeakHour(parts[i]) == hs[i]
  {
    var labels := seq(|hs|, i requires 0 <= i < |hs| => PeakLabel(hs[i]));
    var joined := Join(labels, "-");
    var r := PeakSuffix(Some(hs));
    assert r == " (peak: " + joined + ")";
    assert r[8..|r| - 1] == joined;
    forall i | 0 <= i < |labels|
      ensures '-' !in labels[i]
    {
      PeakLabelNoDash(hs[i]);
    }
    JoinSplitRoundTrip(labels, '-');
    forall i | 0 <= i < |hs|
      ensures PeakHour(labels[i]) == hs[i]
    {
      PeakLabelRoundTrip(hs[i]);
    }
  }

  /** Reads a peak label back: the number, plus 12 when it ends in "pm". */
  function PeakHour(tag: string): int
  {
    if |tag| < 2 then 0
    else ParseInt(tag[..|tag| - 2]) + (if tag[|tag| - 2..] == "pm" then 12 else 0)
  }

  /** Peak labels lose nothing: every hour reads back from its label, so distinct hours get distinct labels. */
  lemma PeakLabelRoundTrip(h: int)
    ensures PeakHour(PeakLabel(h)) == h
  {
    var n := if h > 12 then h - 12 else h;
    var t := IntToString(n);
    IntToStringRoundTrip(n);
    var tag := PeakLabel(h);
    assert tag == t + (if h > 12 then "pm" else "am");
    assert tag[..|tag| - 2] == t;
  }

  lemma PeakLabelsDistinct(g: int, h: int)
    ensures PeakLabel(g) == PeakLabel(h) <==> g == h
  {
    PeakLabelRoundTrip(g);
    PeakLabelRoundTrip(h);
  }

  /** Hours up to 12 are written with "am", so noon reads "12am" and midnight "0am"; later hours count from 1pm. */
  lemma PeakLabelExamples()
    ensures PeakLabel(0) == "0am" && PeakLabel(9) == "9am" && PeakLabel(12) == "12am"
    ensures PeakLabel(13) == "1pm" && PeakLabel(23) == "11pm"
  {
    assert NatToString(12) == "12" && NatToString(11) == "11";
  }
}
