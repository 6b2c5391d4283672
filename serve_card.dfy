/**
 * The helpers of the HTML card server: entity escaping for HTML and for the
 * chat prompt, the link allow-list, the chat question and the card data handed
 * to the model, the project status class, the field-name fallback of the
 * `claude` section, and the heatmap cells of the page.
 */
module ServeCard {
  import opened Js
  import Heatmap

  // ===========================================================================
  // esc and escapeXml

  /** `'' + v` for the values a YAML card holds (objects print as "[object Object]"). */
  function ToJsString(v: JsonValue): (r: string)
    ensures v.JStr? ==> r == v.s
    ensures v.JNum? ==> ParseInt(r) == v.n
    ensures v.JBool? ==> (r == "true" <==> v.b)
    decreases v
  {
    match v
    // `JNull` stands for both null and undefined, and `'' + undefined` would be
    // "undefined"; the branch is never taken, since TextOf and the array case
    // below map JNull to "" and the written card entries exclude it.
    case JNull => "null"
    case JBool(b) => if b then "true" else "false"
    case JNum(n) => IntToStringRoundTrip(n); IntToString(n)
    case JStr(s) => s
    case JArr(items) =>
      Join(seq(|items|, i requires 0 <= i < |items| => if items[i].JNull? then "" else ToJsString(items[i])), ",")
    case JObj(_) => "[object Object]"
  }

  /** `'' + (v ?? '')`: the text of a value, empty for null and undefined. */
  function TextOf(v: JsonValue): string
  {
    if v.JNull? then "" else ToJsString(v)
  }

  /** esc on text: the four replacements in the order the source applies them, `&` first. */
  function Esc(s: string): (r: string)
    ensures (forall i :: 0 <= i < |s| ==> s[i] !in "&<>\"") ==> r == s
  {
    ReplaceAll(ReplaceAll(ReplaceAll(ReplaceAll(s, '&', "&amp;"), '<', "&lt;"), '>', "&gt;"), '"', "&quot;")
  }

  /** esc on any value. */
  function EscValue(v: JsonValue): (r: string)
    ensures v.JNull? ==> r == ""
    ensures '<' !in r && '"' !in r
  {
    EscSafe(TextOf(v));
    Esc(TextOf(v))
  }

  /** escapeXml on text: esc followed by `'` to `&apos;`. */
  function EscapeXml(s: string): (r: string)
    ensures (forall i :: 0 <= i < |s| ==> s[i] !in "&<>\"'") ==> r == s
  {
    ReplaceAll(Esc(s), '\'', "&apos;")
  }

  /** The entity one character becomes under escapeXml (under esc too, except for `'`). */
  function EscChar(c: char): (r: string)
    ensures |r| >= 1
  {
    if c == '&' then "&amp;"
    else if c == '<' then "&lt;"
    else if c == '>' then "&gt;"
    else if c == '"' then "&quot;"
    else if c == '\'' then "&apos;"
    else [c]
  }

  /** A reference definition of escaping: each character replaced by its entity in one pass. */
  function EscapeEach(s: string, apos: bool): string
  {
    if |s| == 0 then ""
    else (if s[0] == '\'' && !apos then "'" else EscChar(s[0])) + EscapeEach(s[1..], apos)
  }

  lemma EscSplit(a: string, b: string)
    ensures Esc(a + b) == Esc(a) + Esc(b)
  {
    ReplaceAllConcat(a, b, '&', "&amp;");
    var a1, b1 := ReplaceAll(a, '&', "&amp;"), ReplaceAll(b, '&', "&amp;");
    ReplaceAllConcat(a1, b1, '<', "&lt;");
    var a2, b2 := ReplaceAll(a1, '<', "&lt;"), ReplaceAll(b1, '<', "&lt;");
    ReplaceAllConcat(a2, b2, '>', "&gt;");
    var a3, b3 := ReplaceAll(a2, '>', "&gt;"), ReplaceAll(b2, '>', "&gt;");
    ReplaceAllConcat(a3, b3, '"', "&quot;");
  }

  /** The text esc writes for one character: its entity, except that `'` stays as it is. */
  function EscHead(c: char): string {
    if c == '\'' then "'" else EscChar(c)
  }

  lemma EscOneChar(c: char)
    ensures Esc([c]) == EscHead(c)
  {
    if c == '&' {
      assert ReplaceAll([c], '&', "&amp;") == "&amp;" + ReplaceAll([], '&', "&amp;");
      assert '<' !in "&amp;" && '>' !in "&amp;" && '"' !in "&amp;";
    } else if c == '<' {
      assert ReplaceAll([c], '<', "&lt;") == "&lt;" + ReplaceAll([], '<', "&lt;");
      assert '>' !in "&lt;" && '"' !in "&lt;";
    } else if c == '>' {
      assert ReplaceAll([c], '>', "&gt;") == "&gt;" + ReplaceAll([], '>', "&gt;");
      assert '"' !in "&gt;";
    } else if c == '"' {
      assert ReplaceAll([c], '"', "&quot;") == "&quot;" + ReplaceAll([], '"', "&quot;");
    }
  }

  /** esc of a string with a known first character: that character's text, then the rest escaped. */
  lemma EscCons(c: char, t: string)
    ensures Esc([c] + t) == EscHead(c) + Esc(t)
  {
    EscSplit([c], t);
    EscOneChar(c);
  }

  /** The chain of four global replacements is the same as escaping character by character. */
  lemma {:induction false} EscIsOnePass(s: string)
    ensures Esc(s) == EscapeEach(s, false)
    decreases |s|
  {
    if |s| > 0 {
      var c, t := s[0], s[1..];
      assert s == [c] + t;
      assert EscapeEach(s, false) == EscHead(c) + EscapeEach(t, false);
      EscCons(c, t);
      EscIsOnePass(t);
    }
  }

  lemma EscCharNoApostrophe(c: char)
    requires c != '\''
    ensures '\'' !in EscChar(c)
  {
  }

  lemma {:induction false} ApostropheReplaceOnePass(s: string)
    ensures ReplaceAll(EscapeEach(s, false), '\'', "&apos;") == EscapeEach(s, true)
    decreases |s|
  {
    if |s| > 0 {
      var head := if s[0] == '\'' then "'" else EscChar(s[0]);
      assert EscapeEach(s, false) == head + EscapeEach(s[1..], false);
      ReplaceAllConcat(head, EscapeEach(s[1..], false), '\'', "&apos;");
      ApostropheReplaceOnePass(s[1..]);
      if s[0] == '\'' {
        assert ReplaceAll(head, '\'', "&apos;") == "&apos;" + ReplaceAll([], '\'', "&apos;");
      } else {
        EscCharNoApostrophe(s[0]);
      }
    }
  }

  lemma EscapeXmlIsOnePass(s: string)
    ensures EscapeXml(s) == EscapeEach(s, true)
  {
    EscIsOnePass(s);
    ApostropheReplaceOnePass(s);
  }

  /** On text without `'`, escapeXml and esc agree. */
  lemma EscapeXmlWithoutApostrophe(s: string)
    requires '\'' !in s
    ensures EscapeXml(s) == Esc(s)
  {
    EscIsOnePass(s);
    EscapeXmlIsOnePass(s);
    EachWithoutApostrophe(s);
  }

  lemma {:induction false} EachWithoutApostrophe(s: string)
    requires '\'' !in s
    ensures EscapeEach(s, true) == EscapeEach(s, false)
    decreases |s|
  {
    if |s| > 0 {
      assert s[0] in s;
      assert forall c :: c in s[1..] ==> c in s;
      EachWithoutApostrophe(s[1..]);
    }
  }

  /** What escaping leaves: no raw `<`, `>` or `"`, and no raw `'` either under escapeXml. */
  lemma {:induction false} EscapeEachSafe(s: string, apos: bool)
    ensures '<' !in EscapeEach(s, apos) && '>' !in EscapeEach(s, apos) && '"' !in EscapeEach(s, apos)
    ensures apos ==> '\'' !in EscapeEach(s, apos)
    decreases |s|
  {
    if |s| > 0 {
      EscapeEachSafe(s[1..], apos);
      var head := if s[0] == '\'' && !apos then "'" else EscChar(s[0]);
      assert EscapeEach(s, apos) == head + EscapeEach(s[1..], apos);
      EscCharSafe(s[0]);
    }
  }

  /** No entity holds a raw `<`, `>`, `"` or `'`. */
  lemma EscCharSafe(c: char)
    ensures '<' !in EscChar(c) && '>' !in EscChar(c) && '"' !in EscChar(c) && '\'' !in EscChar(c)
  {
  }

  lemma EscSafe(s: string)
    ensures '<' !in Esc(s) && '>' !in Esc(s) && '"' !in Esc(s)
  {
    EscIsOnePass(s);
    EscapeEachSafe(s, false);
  }

  lemma EscapeXmlSafe(s: string)
    ensures '<' !in EscapeXml(s) && '>' !in EscapeXml(s) && '"' !in EscapeXml(s) && '\'' !in EscapeXml(s)
  {
    EscapeXmlIsOnePass(s);
    EscapeEachSafe(s, true);
  }

  /** Decodes the five entities escaping writes, left to right. */
  function Unescape(s: string): string
    decreases |s|
  {
    if |s| == 0 then ""
    else if s[0] != '&' then [s[0]] + Unescape(s[1..])
    else if StartsWith(s, "&amp;") then "&" + Unescape(s[5..])
    else if StartsWith(s, "&lt;") then "<" + Unescape(s[4..])
    else if StartsWith(s, "&gt;") then ">" + Unescape(s[4..])
    else if StartsWith(s, "&quot;") then "\"" + Unescape(s[6..])
    else if StartsWith(s, "&apos;") then "'" + Unescape(s[6..])
    else "&" + Unescape(s[1..])
  }

  /** A string that differs from `p` at position `i` does not start with `p`. */
  lemma NotPrefixAt(s: string, i: int, p: string)
    requires 0 <= i < |p| && (|s| <= i || s[i] != p[i])
    ensures !StartsWith(s, p)
  {
    if |p| <= |s| {
      assert s[..|p|][i] == s[i];
    }
  }

  lemma UnescapePlain(c: char, rest: string)
    requires c != '&'
    ensures Unescape([c] + rest) == [c] + Unescape(rest)
  {
    assert ([c] + rest)[1..] == rest;
  }

  lemma UnescapeEntity(e: string, rest: string, c: char)
    requires c in "&<>\"'" && e == EscChar(c)
    ensures Unescape(e + rest) == [c] + Unescape(rest)
  {
    var t := e + rest;
    assert t[..|e|] == e;
    assert t[|e|..] == rest;
    assert t[0] == '&' && t[1] == e[1] && t[2] == e[2];
    if c != '&' {
      NotPrefixAt(t, 2, "&amp;");
    }
    if c != '&' && c != '<' {
      NotPrefixAt(t, 1, "&lt;");
    }
    if c == '"' || c == '\'' {
      NotPrefixAt(t, 1, "&gt;");
    }
    if c == '\'' {
      NotPrefixAt(t, 1, "&quot;");
    }
  }

  lemma UnescapeHead(e: string, rest: string, c: char)
    requires e == EscChar(c) || (e == "'" && c == '\'')
    ensures Unescape(e + rest) == [c] + Unescape(rest)
  {
    if c in "&<>\"'" && e == EscChar(c) {
      UnescapeEntity(e, rest, c);
    } else {
      assert e == [c];
      UnescapePlain(c, rest);
    }
  }

  /** Decoding the entities gives back the text that was escaped, under esc and under escapeXml. */
  lemma {:induction false} EscapeEachRoundTrip(s: string, apos: bool)
    ensures Unescape(EscapeEach(s, apos)) == s
    decreases |s|
  {
    if |s| > 0 {
      var head := if s[0] == '\'' && !apos then "'" else EscChar(s[0]);
      UnescapeHead(head, EscapeEach(s[1..], apos), s[0]);
      EscapeEachRoundTrip(s[1..], apos);
      assert s == [s[0]] + s[1..];
    }
  }

  lemma EscRoundTrip(s: string)
    ensures Unescape(Esc(s)) == s
  {
    EscIsOnePass(s);
    EscapeEachRoundTrip(s, false);
  }

  lemma EscapeXmlRoundTrip(s: string)
    ensures Unescape(EscapeXml(s)) == s
  {
    EscapeXmlIsOnePass(s);
    EscapeEachRoundTrip(s, true);
  }

  // ===========================================================================
  // safeHref

  /** The schemes a link may use, checked against the trimmed, lower-cased text. */
  predicate AllowedLink(url: string): (ok: bool)
    ensures ok ==> !StartsWith(ToLower(Trim(url)), "javascript:")
  {
    var s := ToLower(Trim(url));
    var ok := StartsWith(s, "https://") || StartsWith(s, "http://") || StartsWith(s, "mailto:");
    if ok then
      var p := if StartsWith(s, "https://") then "https://" else if StartsWith(s, "http://") then "http://" else "mailto:";
      PrefixFirstChar(s, p);
      NotPrefixAt(s, 0, "javascript:");
      ok
    else ok
  }

  /** safeHref: the link itself when its scheme is allowed, else "#". */
  function SafeHref(url: string): (r: string)
    ensures r == url || r == "#"
    ensures r == url <==> AllowedLink(url) || url == "#"
  {
    if AllowedLink(url) then url else "#"
  }

  lemma HashIsNoLink()
    ensures ToLower(Trim("#")) == "#"
    ensures !StartsWith(ToLower(Trim("#")), "javascript:")
  {
    assert !IsWhitespace('#');
    assert TrimStart("#") == "#";
    assert TrimEnd("#") == "#";
  }

  lemma PrefixFirstChar(s: string, p: string)
    requires |p| > 0 && StartsWith(s, p)
    ensures |s| > 0 && s[0] == p[0]
  {
    assert s[..|p|][0] == s[0];
  }

  /** Whatever comes out of safeHref never starts a `javascript:` link. */
  lemma SafeHrefNoScript(url: string)
    ensures !StartsWith(ToLower(Trim(SafeHref(url))), "javascript:")
  {
    var r := SafeHref(url);
    if !AllowedLink(url) {
      assert r == "#";
      HashIsNoLink();
    }
  }

  /** A `javascript:` link, in any letter case and with any surrounding whitespace, becomes "#". */
  lemma ScriptLinkRejected(url: string)
    requires StartsWith(ToLower(Trim(url)), "javascript:")
    ensures SafeHref(url) == "#"
  {
    var s := ToLower(Trim(url));
    PrefixFirstChar(s, "javascript:");
    NotPrefixAt(s, 0, "https://");
    NotPrefixAt(s, 0, "http://");
    NotPrefixAt(s, 0, "mailto:");
  }

  // ===========================================================================
  // The chat prompt

  /** The first at most 500 characters of the question. */
  function Truncate(q: string): (r: string)
    ensures |r| <= 500 && |r| <= |q| && r == q[..|r|]
    ensures |q| <= 500 ==> r == q
    ensures |q| > 500 ==> |r| == 500
  {
    if |q| <= 500 then q else q[..500]
  }

  /** The question as placed inside the `<user_question>` element: cut to 500 characters, then escapeXml. */
  function SanitizeQuestion(q: string): (r: string)
    ensures '<' !in r && '>' !in r
  {
    EscapeXmlSafe(Truncate(q));
    EscapeXml(Truncate(q))
  }

  /**
   * The sanitised question holds no `<` or `>`, so it cannot close the element
   * or open another one, and decoding it gives back exactly the first 500
   * characters of the question.
   */
  lemma SanitizeQuestionSafe(q: string)
    ensures '<' !in SanitizeQuestion(q) && '>' !in SanitizeQuestion(q)
    ensures Unescape(SanitizeQuestion(q)) == Truncate(q)
  {
    EscapeXmlSafe(Truncate(q));
    EscapeXmlRoundTrip(Truncate(q));
  }

  /**
   * buildChatPrompt with its fixed instructions as `rules`: the card data and
   * the question, each inside its element.
   */
  function ChatPrompt(rules: string, safeData: string, question: string): (p: string)
    ensures |rules| + 15 + |safeData| <= |p|
    ensures p[..|rules|] == rules
    ensures p[|rules|..|rules| + 15 + |safeData|] == "<devcard_data>\n" + safeData
    ensures |p| == |rules| + 15 + |safeData| + 34 + |SanitizeQuestion(question)| + 17
    ensures p[|rules| + 15 + |safeData|..|rules| + 15 + |safeData| + 34] == "\n</devcard_data>\n\n<user_question>\n"
  {
    var data := "<devcard_data>\n" + safeData;
    var mid := "\n</devcard_data>\n\n<user_question>\n";
    var rest := mid + SanitizeQuestion(question) + "\n</user_question>";
    SplitThree(rules, data, rest);
    ConcatAssoc(mid, SanitizeQuestion(question), "\n</user_question>");
    assert rest[..34] == mid;
    rules + data + rest
  }

  /**
   * The prompt ends with the sanitised question and the closing tag, right
   * after the text `ChatPrompt` places after the card data (which ends with
   * the opening `<user_question>`), and nothing in that element is a `<`.
   */
  lemma ChatPromptEndsWithQuestion(rules: string, safeData: string, question: string)
    ensures var p := ChatPrompt(rules, safeData, question);
      var tail := SanitizeQuestion(question) + "\n</user_question>";
      && |tail| <= |p|
      && |p| - |tail| == |rules| + 15 + |safeData| + 34
      && p[|p| - |tail|..] == tail
      && '<' !in p[|p| - |tail|..|p| - 17]
  {
    var sq := SanitizeQuestion(question);
    var p := ChatPrompt(rules, safeData, question);
    var head := rules + ("<devcard_data>\n" + safeData);
    var mid := "\n</devcard_data>\n\n<user_question>\n";
    var tail := sq + "\n</user_question>";
    ConcatAssoc(mid, sq, "\n</user_question>");
    ConcatAssoc(head, mid, tail);
    assert p == (head + mid) + tail;
    assert p[|head + mid|..|head + mid| + |sq|] == sq;
  }

  // ===========================================================================
  // buildSafeCardData

  /** The key buildSafeCardData deletes before writing the card data. */
  const PrivateKey: string := "private_note"

  /** An entry is written when it is not the private note and its value is neither null nor undefined. */
  predicate Written(entry: (string, JsonValue)) {
    entry.0 != PrivateKey && !entry.1.JNull?
  }

  /** The entries that are written, in their order. */
  function Kept(entries: seq<(string, JsonValue)>): (r: seq<(string, JsonValue)>)
    ensures |r| <= |entries|
    ensures forall k :: 0 <= k < |r| ==> Written(r[k]) && r[k] in entries
  {
    if |entries| == 0 then []
    else (if Written(entries[0]) then [entries[0]] else []) + Kept(entries[1..])
  }

  /** One `key: value` line; objects and arrays go through the JSON serialiser `stringify`. */
  function EntryLine(entry: (string, JsonValue), stringify: JsonValue -> string): string
  {
    entry.0 + ": " + (if entry.1.JArr? || entry.1.JObj? then stringify(entry.1) else ToJsString(entry.1))
  }

  function Lines(entries: seq<(string, JsonValue)>, stringify: JsonValue -> string): (r: seq<string>)
    ensures |r| == |entries|
  {
    seq(|entries|, i requires 0 <= i < |entries| => EntryLine(entries[i], stringify))
  }

  /** What buildSafeCardData returns for a card's entries. */
  function SafeCardData(entries: seq<(string, JsonValue)>, stringify: JsonValue -> string): (r: string)
    ensures '<' !in r && '>' !in r
  {
    EscapeXmlSafe(Join(Lines(Kept(entries), stringify), "\n"));
    EscapeXml(Join(Lines(Kept(entries), stringify), "\n"))
  }

  /** buildSafeCardData, with its loop over the entries of the copied card. */
  method BuildSafeCardData(entries: seq<(string, JsonValue)>, stringify: JsonValue -> string)
    returns (r: string)
    ensures r == SafeCardData(entries, stringify)
  {
    var lines: seq<string> := [];
    for i := 0 to |entries|
      invariant lines == Lines(Kept(entries[..i]), stringify)
    {
      KeptSnoc(entries, i);
      var (key, val) := entries[i];
      if key != PrivateKey && !val.JNull? {
        LinesSnoc(Kept(entries[..i]), entries[i], stringify);
        lines := lines + [EntryLine((key, val), stringify)];
      }
    }
    assert entries[..|entries|] == entries;
    r := EscapeXml(Join(lines, "\n"));
  }

  lemma LinesSnoc(entries: seq<(string, JsonValue)>, e: (string, JsonValue), stringify: JsonValue -> string)
    ensures Lines(entries + [e], stringify) == Lines(entries, stringify) + [EntryLine(e, stringify)]
  {
    var l, r := Lines(entries + [e], stringify), Lines(entries, stringify) + [EntryLine(e, stringify)];
    forall k | 0 <= k < |entries| + 1
      ensures l[k] == r[k]
    {
      if k < |entries| {
        assert (entries + [e])[k] == entries[k];
      }
    }
  }

  lemma {:induction false} KeptConcat(a: seq<(string, JsonValue)>, b: seq<(string, JsonValue)>)
    ensures Kept(a + b) == Kept(a) + Kept(b)
    decreases |a|
  {
    if |a| == 0 {
      assert a + b == b;
    } else {
      assert (a + b)[0] == a[0];
      assert (a + b)[1..] == a[1..] + b;
      KeptConcat(a[1..], b);
    }
  }

  lemma KeptSnoc(entries: seq<(string, JsonValue)>, i: int)
    requires 0 <= i < |entries|
    ensures Kept(entries[..i + 1]) == Kept(entries[..i]) + (if Written(entries[i]) then [entries[i]] else [])
  {
    assert entries[..i + 1] == entries[..i] + [entries[i]];
    KeptConcat(entries[..i], [entries[i]]);
    assert Kept([entries[i]]) == (if Written(entries[i]) then [entries[i]] else []) + Kept([]);
  }

  /**
   * The written entries are exactly the entries that are neither the private
   * note nor null, and they keep their order: filtering distributes over
   * concatenation, so no entry moves past another.
   */
  lemma {:induction false} KeptExactly(entries: seq<(string, JsonValue)>, e: (string, JsonValue))
    ensures e in Kept(entries) <==> e in entries && Written(e)
    decreases |entries|
  {
    if |entries| > 0 {
      KeptExactly(entries[1..], e);
      assert entries == [entries[0]] + entries[1..];
    }
  }

  /** No written line belongs to the private note, and the whole text is escaped: no raw `<` or `>`. */
  lemma SafeCardDataSafe(entries: seq<(string, JsonValue)>, stringify: JsonValue -> string)
    ensures forall k :: 0 <= k < |Kept(entries)| ==> Kept(entries)[k].0 != PrivateKey
    ensures '<' !in SafeCardData(entries, stringify) && '>' !in SafeCardData(entries, stringify)
  {
    EscapeXmlSafe(Join(Lines(Kept(entries), stringify), "\n"));
  }

  // ===========================================================================
  // The project status class

  const ValidStatuses: set<string> := {"shipped", "wip", "concept", "archived"}

  /** `proj.status || ''` */
  function StatusOf(project: seq<(string, JsonValue)>): (r: JsonValue)
    ensures Truthy(r) || r == JStr("")
    ensures Truthy(r) <==> Truthy(Get(project, "status"))
    ensures Truthy(r) ==> r == Get(project, "status")
  {
    Or(Get(project, "status"), JStr(""))
  }

  /** The CSS class of a status: an allowed status names itself, anything else is "default". */
  function StatusClass(status: JsonValue): (cls: string)
    ensures cls in ValidStatuses || cls == "default"
    ensures cls in ValidStatuses <==> status.JStr? && status.s in ValidStatuses
    ensures status.JStr? && status.s in ValidStatuses ==> cls == status.s
  {
    if status.JStr? && status.s in ValidStatuses then status.s else "default"
  }

  /**
   * The status tag of a project line: none for a falsy status, otherwise a
   * span whose class names the status class, around the escaped status in
   * brackets; that text holds no raw `<` or `"` and decodes back to the status.
   */
  function StatusTag(status: JsonValue): (tag: string)
    ensures !Truthy(status) ==> tag == ""
    ensures Truthy(status) ==>
      var open := "<span class=\"tag tag-" + StatusClass(status) + "\">[";
      && |open| + 8 <= |tag|
      && tag[..|open|] == open
      && tag[|tag| - 8..] == "]</span>"
      && var text := tag[|open|..|tag| - 8];
         '<' !in text && '"' !in text && Unescape(text) == TextOf(status)
  {
    if Truthy(status) then
      var open := "<span class=\"tag tag-" + StatusClass(status) + "\">[";
      var e := EscValue(status);
      EscRoundTrip(TextOf(status));
      SplitThree(open, e, "]</span>");
      open + e + "]</span>"
    else ""
  }

  /** "default" is not itself a status, so an unknown or empty status is shown with the default class. */
  lemma StatusDefaultIffUnknown(status: JsonValue)
    ensures StatusClass(status) == "default" <==> !(status.JStr? && status.s in ValidStatuses)
  {
    assert "default"[0] == 'd';
    assert "shipped"[0] != 'd' && "wip"[0] != 'd' && "concept"[0] != 'd' && "archived"[0] != 'd';
  }

  /** The three parts of `a + b + c`, read back by position. */
  lemma SplitThree(a: string, b: string, c: string)
    ensures var s := a + b + c;
      && |s| == |a| + |b| + |c|
      && s[..|a|] == a && s[|a|..|a| + |b|] == b && s[|a| + |b|..] == c
  {
    var s := a + b + c;
    assert s[..|a|] == a;
    assert s[|a|..|a| + |b|] == b;
  }

  // ===========================================================================
  // Field-name fallback of the claude section

  /** `cl.since || cl.active_since || ''` */
  function Since(cl: seq<(string, JsonValue)>): (r: JsonValue)
    ensures Truthy(Get(cl, "since")) ==> r == Get(cl, "since")
    ensures Truthy(r) ==> r == Get(cl, "since") || r == Get(cl, "active_since")
    ensures !Truthy(r) ==> r == JStr("")
    ensures !Truthy(Get(cl, "since")) && Truthy(Get(cl, "active_since")) ==> r == Get(cl, "active_since")
  {
    Or(Or(Get(cl, "since"), Get(cl, "active_since")), JStr(""))
  }

  /** `cl.messages || cl.total_messages || 0` */
  function Messages(cl: seq<(string, JsonValue)>): (r: JsonValue)
    ensures Truthy(Get(cl, "messages")) ==> r == Get(cl, "messages")
    ensures Truthy(r) ==> r == Get(cl, "messages") || r == Get(cl, "total_messages")
    ensures !Truthy(r) ==> r == JNum(0)
    ensures !Truthy(Get(cl, "messages")) && Truthy(Get(cl, "total_messages")) ==> r == Get(cl, "total_messages")
  {
    Or(Or(Get(cl, "messages"), Get(cl, "total_messages")), JNum(0))
  }

  /** `cl.model || cl.primary_model || ''` */
  function Model(cl: seq<(string, JsonValue)>): (r: JsonValue)
    ensures Truthy(Get(cl, "model")) ==> r == Get(cl, "model")
    ensures Truthy(r) ==> r == Get(cl, "model") || r == Get(cl, "primary_model")
    ensures !Truthy(r) ==> r == JStr("")
    ensures !Truthy(Get(cl, "model")) && Truthy(Get(cl, "primary_model")) ==> r == Get(cl, "primary_model")
  {
    Or(Or(Get(cl, "model"), Get(cl, "primary_model")), JStr(""))
  }

  /**
   * Each field prefers its first name, falls back to its second name when the
   * first is missing or falsy, and to the default when both are.
   */
  lemma FallbackOrder(cl: seq<(string, JsonValue)>, legacy: string, current: string, default: JsonValue)
    ensures var r := Or(Or(Get(cl, legacy), Get(cl, current)), default);
      && (Truthy(Get(cl, legacy)) ==> r == Get(cl, legacy))
      && (!Truthy(Get(cl, legacy)) && Truthy(Get(cl, current)) ==> r == Get(cl, current))
      && (!Truthy(Get(cl, legacy)) && !Truthy(Get(cl, current)) ==> r == default)
      && (Truthy(r) || r == default)
  {
  }

  /** A field found only under its first name reads the same as when found only under its second name. */
  lemma EitherNameAgrees(x: JsonValue, default: JsonValue)
    ensures Or(Or(x, JNull), default) == Or(Or(JNull, x), default)
  {
  }

  /** Property access on an object of three entries. */
  lemma GetOfThree(e: seq<(string, JsonValue)>, key: string)
    requires |e| == 3
    ensures Get(e, key) == if key == e[0].0 then e[0].1 else if key == e[1].0 then e[1].1
                           else if key == e[2].0 then e[2].1 else JNull
  {
    assert e[1..][1..] == [e[2]];
    assert e[1..][1..][1..] == [];
  }

  /** A card written with only the new names shows the same values as one written with the old names. */
  lemma FallbackNamesAgree(since: JsonValue, messages: JsonValue, model: JsonValue)
    ensures var old_ := [("since", since), ("messages", messages), ("model", model)];
      var new_ := [("active_since", since), ("total_messages", messages), ("primary_model", model)];
      && Since(old_) == Since(new_)
      && Messages(old_) == Messages(new_)
      && Model(old_) == Model(new_)
  {
    var old_ := [("since", since), ("messages", messages), ("model", model)];
    var new_ := [("active_since", since), ("total_messages", messages), ("primary_model", model)];
    assert "since"[0] == 's' && "messages"[0] == 'm' && "model"[0] == 'm' && "model"[1] == 'o' && "messages"[1] == 'e';
    GetOfThree(old_, "since");
    GetOfThree(old_, "active_since");
    GetOfThree(new_, "since");
    GetOfThree(new_, "active_since");
    EitherNameAgrees(since, JStr(""));
    GetOfThree(old_, "messages");
    GetOfThree(old_, "total_messages");
    GetOfThree(new_, "messages");
    GetOfThree(new_, "total_messages");
    EitherNameAgrees(messages, JNum(0));
    GetOfThree(old_, "model");
    GetOfThree(old_, "primary_model");
    GetOfThree(new_, "model");
    GetOfThree(new_, "primary_model");
    EitherNameAgrees(model, JStr(""));
  }

  // ===========================================================================
  // The heatmap cells of the page

  /** One heatmap cell: the hour it stands for, its count, and its title text. */
  datatype Cell = Cell(hour: int, count: int, title: string)

  /** `${hour}:00 — ${v} session${v !== 1 ? 's' : ''}` */
  function CellTitle(hour: int, v: int): (t: string)
    ensures |IntToString(hour)| + 3 <= |t| && t[..|IntToString(hour)| + 3] == IntToString(hour) + ":00"
    ensures v == 1 <==> t[|t| - 1] == 'n'
    ensures v != 1 <==> t[|t| - 1] == 's'
    ensures |IntToString(hour)| + 6 <= |t| - (if v != 1 then 9 else 8)
    ensures ParseInt(t[|IntToString(hour)| + 6..|t| - (if v != 1 then 9 else 8)]) == v
  {
    var h := IntToString(hour);
    var n := IntToString(v);
    var tail := " session" + (if v != 1 then "s" else "");
    var t := h + ":00 — " + n + tail;
    SplitThree(h + ":00 — ", n, tail);
    IntToStringRoundTrip(v);
    t
  }

  /** The cells of a rotated day: cell `i` stands for hour `(i + startHour) % 24`. */
  function Cells(view: Heatmap.RotatedView): (cells: seq<Cell>)
    ensures |cells| == |view.data|
  {
    seq(|view.data|, i requires 0 <= i < |view.data| =>
      var hour := JsRem(i + view.startHour, Heatmap.Hours);
      Cell(hour, view.data[i], CellTitle(hour, view.data[i])))
  }

  /** The heatmap cells of the page for a `claude` section, or none without an hour distribution. */
  function HeatmapCells(cl: Heatmap.ClaudeSection): (r: Option<seq<Cell>>)
    ensures r.Some? <==> Heatmap.HourDist(cl).Some?
    ensures r.Some? ==> |r.value| == Heatmap.Hours
  {
    match Heatmap.HourDist(cl)
    case None => None
    case Some(dist) => Some(Cells(Heatmap.Rotate(Some(dist))))
  }

  /** The cell that stands for hour `h` of a day rotated to start at `s`. */
  function CellOfHour(h: int, s: int): int
  {
    (h - s + 24) % 24
  }

  /**
   * For a 24-hour day: 24 cells, cell `i` titled with the hour
   * `(i + startHour) % 24` and showing that hour's count.
   */
  lemma CellsShowTheirHour(dist: seq<int>)
    requires |dist| == Heatmap.Hours
    ensures var view := Heatmap.Rotate(Some(dist));
      var cells := Cells(view);
      && |cells| == Heatmap.Hours
      && forall i :: 0 <= i < Heatmap.Hours ==>
           && cells[i].hour == (i + view.startHour) % Heatmap.Hours
           && cells[i].count == dist[cells[i].hour]
  {
  }

  lemma CellHour(view: Heatmap.RotatedView, i: int)
    requires 0 <= i < |view.data| && view.startHour >= 0
    ensures Cells(view)[i].hour == (i + view.startHour) % Heatmap.Hours
    ensures Cells(view)[i].count == view.data[i]
  {
  }

  /** No two cells of a day stand for the same hour. */
  lemma CellsDistinct(view: Heatmap.RotatedView)
    requires |view.data| == Heatmap.Hours && 0 <= view.startHour < Heatmap.Hours
    ensures forall i, j :: 0 <= i < j < Heatmap.Hours ==> Cells(view)[i].hour != Cells(view)[j].hour
  {
    forall i, j | 0 <= i < j < Heatmap.Hours
      ensures Cells(view)[i].hour != Cells(view)[j].hour
    {
      CellHour(view, i);
      CellHour(view, j);
      ModDistinct(i, j, view.startHour);
    }
  }

  /** Hour `h` is shown by cell `CellOfHour(h, startHour)`. */
  lemma CellsCover(view: Heatmap.RotatedView)
    requires |view.data| == Heatmap.Hours && 0 <= view.startHour < Heatmap.Hours
    ensures forall h :: 0 <= h < Heatmap.Hours ==>
      0 <= CellOfHour(h, view.startHour) < Heatmap.Hours && Cells(view)[CellOfHour(h, view.startHour)].hour == h
  {
    forall h | 0 <= h < Heatmap.Hours
      ensures 0 <= CellOfHour(h, view.startHour) < Heatmap.Hours
      ensures Cells(view)[CellOfHour(h, view.startHour)].hour == h
    {
      ModBack(h, view.startHour);
      CellHour(view, CellOfHour(h, view.startHour));
    }
  }

  /** The cells under the axis positions show the hours their labels name. */
  lemma CellsUnderLabels(view: Heatmap.RotatedView)
    requires |view.data| == Heatmap.Hours && 0 <= view.startHour < Heatmap.Hours
    ensures forall k :: 0 <= k < |Heatmap.AxisPositions| ==>
      IntToString(Cells(view)[Heatmap.AxisPositions[k]].hour) == Heatmap.AxisLabels(view.startHour)[k]
  {
  }

  lemma ModDistinct(i: int, j: int, s: int)
    requires 0 <= i < j < 24 && 0 <= s < 24
    ensures (i + s) % 24 != (j + s) % 24
  {
  }

  lemma ModBack(h: int, s: int)
    requires 0 <= h < 24 && 0 <= s < 24
    ensures ((h - s + 24) % 24 + s) % 24 == h
  {
  }

  /** The title of a cell, as the page writes it: escaped, so it cannot leave its attribute. */
  lemma CellTitleSafe(hour: int, v: int)
    ensures '"' !in Esc(CellTitle(hour, v)) && '<' !in Esc(CellTitle(hour, v))
  {
    EscSafe(CellTitle(hour, v));
  }
}
