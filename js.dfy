/**
 * The few JavaScript built-ins that the devcard scripts lean on, given the
 * meaning ECMAScript gives them, so that the modules modelling the scripts
 * can be read line by line against the original code.
 */
module Js {

  datatype Option<+T> = None | Some(value: T)

  /**
   * A decoded YAML/JSON value. `JNull` stands for both `null` and `undefined`;
   * an object is the ordered list of its own entries, as `Object.entries`
   * returns them. Numbers are integers in this model.
   */
  datatype JsonValue =
    | JNull
    | JBool(b: bool)
    | JNum(n: int)
    | JStr(s: string)
    | JArr(items: seq<JsonValue>)
    | JObj(entries: seq<(string, JsonValue)>)

  /** JavaScript truthiness: `null`, `undefined`, `false`, `0` and `""` are falsy. */
  predicate Truthy(v: JsonValue) {
    match v
    case JNull => false
    case JBool(b) => b
    case JNum(n) => n != 0
    case JStr(s) => s != ""
    case JArr(_) => true
    case JObj(_) => true
  }

  /** `a || b`: the left operand when it is truthy, else the right one. */
  function Or(a: JsonValue, b: JsonValue): (r: JsonValue)
    ensures Truthy(a) ==> r == a
    ensures !Truthy(a) ==> r == b
  {
    if Truthy(a) then a else b
  }

  /**
   * Property access on an object: the value of the first entry with that key,
   * `undefined` (here `JNull`) when no entry has it.
   */
  function Get(entries: seq<(string, JsonValue)>, key: string): (r: JsonValue)
    ensures r != JNull ==> exists i :: 0 <= i < |entries| && entries[i] == (key, r)
    ensures forall i :: 0 <= i < |entries| && entries[i].0 == key && (forall j :: 0 <= j < i ==> entries[j].0 != key) ==>
              r == entries[i].1
    ensures (forall i :: 0 <= i < |entries| ==> entries[i].0 != key) ==> r == JNull
    decreases |entries|
  {
    if |entries| == 0 then JNull
    else if entries[0].0 == key then entries[0].1
    else Get(entries[1..], key)
  }

  // ---------------------------------------------------------------------------
  // Numbers and their decimal text

  /** JavaScript `a % b`: the remainder has the sign of the dividend. */
  function JsRem(a: int, b: int): (r: int)
    requires b != 0
    ensures a >= 0 && b > 0 ==> r == a % b
  {
    if a >= 0 then a % b else -((-a) % b)
  }

  function Digit(d: int): (c: char)
    requires 0 <= d < 10
    ensures '0' <= c <= '9'
  {
    (('0' as int) + d) as char
  }

  predicate IsDigit(c: char) {
    '0' <= c <= '9'
  }

  function DigitValue(c: char): (d: nat)
    ensures d < 10
  {
    if IsDigit(c) then (c as int) - ('0' as int) else 0
  }

  /** `String(n)` for a non-negative integer: decimal digits, no padding. */
  function NatToString(n: nat): (s: string)
    ensures |s| >= 1
    ensures forall i :: 0 <= i < |s| ==> IsDigit(s[i])
    decreases n
  {
    if n < 10 then [Digit(n)] else NatToString(n / 10) + [Digit(n % 10)]
  }

  /** `String(i)` for any integer: a leading minus sign for negatives. */
  function IntToString(i: int): (s: string)
    ensures |s| >= 1
  {
    if i < 0 then "-" + NatToString(-i) else NatToString(i)
  }

  /** Reads a string of decimal digits back. */
  function ParseNat(s: string): nat
  {
    if |s| == 0 then 0 else ParseNat(s[..|s| - 1]) * 10 + DigitValue(s[|s| - 1])
  }

  function ParseInt(s: string): int
  {
    if |s| > 0 && s[0] == '-' then 0 - ParseNat(s[1..]) as int else ParseNat(s) as int
  }

  lemma {:induction false} NatToStringRoundTrip(n: nat)
    ensures ParseNat(NatToString(n)) == n
    decreases n
  {
    var s := NatToString(n);
    if n < 10 {
      assert s == [Digit(n)];
      assert s[..0] == [];
    } else {
      NatToStringRoundTrip(n / 10);
      assert s[..|s| - 1] == NatToString(n / 10);
    }
  }

  lemma IntToStringRoundTrip(i: int)
    ensures ParseInt(IntToString(i)) == i
  {
    if i < 0 {
      var t := NatToString(-i);
      NatToStringRoundTrip(-i);
      assert ("-" + t)[1..] == t;
    } else {
      NatToStringRoundTrip(i);
      assert IsDigit(NatToString(i)[0]);
    }
  }

  lemma NatToStringInjective(m: nat, n: nat)
    ensures NatToString(m) == NatToString(n) <==> m == n
  {
    if NatToString(m) == NatToString(n) {
      NatToStringRoundTrip(m);
      NatToStringRoundTrip(n);
    }
  }

  // ---------------------------------------------------------------------------
  // Characters

  /**
   * The characters `\s` matches and `String.prototype.trim` removes (ECMAScript
   * WhiteSpace and LineTerminator code points).
   */
  predicate IsWhitespace(c: char) {
    var n := c as int;
    n == 0x09 || n == 0x0A || n == 0x0B || n == 0x0C || n == 0x0D || n == 0x20
    || n == 0xA0 || n == 0x1680 || (0x2000 <= n <= 0x200A) || n == 0x2028 || n == 0x2029
    || n == 0x202F || n == 0x205F || n == 0x3000 || n == 0xFEFF
  }

  predicate NoWhitespace(s: string) {
    forall i :: 0 <= i < |s| ==> !IsWhitespace(s[i])
  }

  predicate AllWhitespace(s: string) {
    forall i :: 0 <= i < |s| ==> IsWhitespace(s[i])
  }

  function UpperAscii(c: char): (u: char)
    ensures 'a' <= c <= 'z' ==> u as int == c as int - 32
    ensures !('a' <= c <= 'z') ==> u == c
  {
    if 'a' <= c <= 'z' then (c as int - 32) as char else c
  }

  function LowerAscii(c: char): (l: char)
    ensures 'A' <= c <= 'Z' ==> l as int == c as int + 32
    ensures !('A' <= c <= 'Z') ==> l == c
  {
    if 'A' <= c <= 'Z' then (c as int + 32) as char else c
  }

  /** `toLowerCase()`, on the ASCII letters. */
  function ToLower(s: string): (r: string)
    ensures |r| == |s|
    ensures forall i :: 0 <= i < |s| ==> r[i] == LowerAscii(s[i])
  {
    if |s| == 0 then [] else [LowerAscii(s[0])] + ToLower(s[1..])
  }

  // ---------------------------------------------------------------------------
  // Strings

  predicate StartsWith(s: string, prefix: string) {
    |prefix| <= |s| && s[..|prefix|] == prefix
  }

  function TrimStart(s: string): (r: string)
    ensures |r| <= |s| && r == s[|s| - |r|..]
    ensures r == [] || !IsWhitespace(r[0])
    ensures AllWhitespace(s[..|s| - |r|])
  {
    if |s| > 0 && IsWhitespace(s[0]) then TrimStart(s[1..]) else s
  }

  function TrimEnd(s: string): (r: string)
    ensures |r| <= |s| && r == s[..|r|]
    ensures r == [] || !IsWhitespace(r[|r| - 1])
    ensures AllWhitespace(s[|r|..])
  {
    if |s| > 0 && IsWhitespace(s[|s| - 1]) then TrimEnd(s[..|s| - 1]) else s
  }

  /** `trim()`: whitespace removed from both ends. */
  function Trim(s: string): string {
    TrimEnd(TrimStart(s))
  }

  /** `trim()` leaves nothing exactly when the string is all whitespace. */
  lemma TrimEmptyIffAllWhitespace(s: string)
    ensures Trim(s) == "" <==> AllWhitespace(s)
  {
    var t := TrimStart(s);
    if t != [] {
      assert s[|s| - |t|] == t[0];
    }
  }

  /** `s.replace(/c/g, rep)` for a one-character pattern. */
  function ReplaceAll(s: string, c: char, rep: string): (r: string)
    ensures c !in s ==> r == s
  {
    if |s| == 0 then []
    else (if s[0] == c then rep else [s[0]]) + ReplaceAll(s[1..], c, rep)
  }

  /** Replacing a character by a single character works position by position. */
  lemma {:induction false} ReplaceCharPointwise(s: string, c: char, d: char)
    ensures |ReplaceAll(s, c, [d])| == |s|
    ensures forall i :: 0 <= i < |s| ==> ReplaceAll(s, c, [d])[i] == if s[i] == c then d else s[i]
    decreases |s|
  {
    if |s| > 0 {
      ReplaceCharPointwise(s[1..], c, d);
    }
  }

  lemma {:induction false} ReplaceAllConcat(a: string, b: string, c: char, rep: string)
    ensures ReplaceAll(a + b, c, rep) == ReplaceAll(a, c, rep) + ReplaceAll(b, c, rep)
    decreases |a|
  {
    if |a| == 0 {
      assert a + b == b;
    } else {
      assert (a + b)[0] == a[0];
      assert (a + b)[1..] == a[1..] + b;
      ReplaceAllConcat(a[1..], b, c, rep);
    }
  }

  /** `parts.join(sep)`. */
  function Join(parts: seq<string>, sep: string): string
  {
    if |parts| == 0 then ""
    else if |parts| == 1 then parts[0]
    else parts[0] + sep + Join(parts[1..], sep)
  }

  /** `s.split(sep)` for a one-character separator. */
  function SplitOn(s: string, sep: char): (parts: seq<string>)
    ensures |parts| >= 1
  {
    if |s| == 0 then [""]
    else
      var rest := SplitOn(s[1..], sep);
      if s[0] == sep then [""] + rest
      else [[s[0]] + rest[0]] + rest[1..]
  }

  /** No piece holds the separator. */
  lemma {:induction false} SplitOnSepFree(s: string, sep: char)
    ensures forall k :: 0 <= k < |SplitOn(s, sep)| ==> sep !in SplitOn(s, sep)[k]
    decreases |s|
  {
    if |s| > 0 {
      var rest := SplitOn(s[1..], sep);
      SplitOnSepFree(s[1..], sep);
      var parts := SplitOn(s, sep);
      if s[0] == sep {
        assert parts == [""] + rest;
        forall k | 1 <= k < |parts|
          ensures sep !in parts[k]
        {
          assert parts[k] == rest[k - 1];
        }
      } else {
        assert parts == [[s[0]] + rest[0]] + rest[1..];
        forall k | 1 <= k < |parts|
          ensures sep !in parts[k]
        {
          assert parts[k] == rest[k];
        }
      }
    }
  }

  /** Joining the pieces with the separator gives back the string. */
  lemma {:induction false} SplitOnJoin(s: string, sep: char)
    ensures Join(SplitOn(s, sep), [sep]) == s
    decreases |s|
  {
    if |s| > 0 {
      var rest := SplitOn(s[1..], sep);
      SplitOnJoin(s[1..], sep);
      var parts := SplitOn(s, sep);
      if s[0] == sep {
        assert parts == [""] + rest;
        assert parts[1..] == rest;
        assert s == [sep] + s[1..];
      } else {
        var x := [s[0]] + rest[0];
        assert parts == [x] + rest[1..];
        assert parts[0] == x && parts[1..] == rest[1..];
        assert s == [s[0]] + s[1..];
        if |rest| == 1 {
          assert Join(parts, [sep]) == x;
        } else {
          var tail := Join(rest[1..], [sep]);
          assert Join(parts, [sep]) == x + [sep] + tail;
          assert s[1..] == rest[0] + [sep] + tail;
          ConcatAssoc([s[0]], rest[0], [sep] + tail);
          ConcatAssoc(x, [sep], tail);
          ConcatAssoc(rest[0], [sep], tail);
        }
      }
    }
  }

  lemma ConsAssoc<T>(x: T, u: seq<T>, v: seq<T>)
    ensures ([x] + u) + v == [x] + (u + v)
  {
  }

  lemma ConcatAssoc<T>(u: seq<T>, v: seq<T>, w: seq<T>)
    ensures (u + v) + w == u + (v + w)
  {
  }

  /** Splitting at a separator placed between two strings splits each of them. */
  lemma {:induction false} SplitOnConcat(a: string, b: string, sep: char)
    ensures SplitOn(a + [sep] + b, sep) == SplitOn(a, sep) + SplitOn(b, sep)
    decreases |a|
  {
    if |a| == 0 {
      assert a + [sep] + b == [sep] + b;
      assert ([sep] + b)[1..] == b;
    } else {
      var s := a + [sep] + b;
      assert s[1..] == a[1..] + [sep] + b;
      assert s[0] == a[0];
      SplitOnConcat(a[1..], b, sep);
      var r, ra := SplitOn(s[1..], sep), SplitOn(a[1..], sep);
      assert r == ra + SplitOn(b, sep);
      if a[0] == sep {
        assert SplitOn(s, sep) == [""] + r;
        assert SplitOn(a, sep) == [""] + ra;
        assert SplitOn(a, sep) + SplitOn(b, sep) == [""] + r;
      } else {
        var x := [a[0]] + ra[0];
        assert r[0] == ra[0];
        assert SplitOn(s, sep) == [x] + r[1..];
        assert SplitOn(a, sep) == [x] + ra[1..];
        assert r[1..] == ra[1..] + SplitOn(b, sep);
        ConsAssoc(x, ra[1..], SplitOn(b, sep));
      }
    }
  }

  /** A string without the separator is a single piece. */
  lemma {:induction false} SplitOnNoSeparator(s: string, sep: char)
    requires sep !in s
    ensures SplitOn(s, sep) == [s]
    decreases |s|
  {
    if |s| > 0 {
      assert s[0] != sep;
      SplitOnNoSeparator(s[1..], sep);
      assert [s[1..]][1..] == [];
      assert s == [s[0]] + s[1..];
    }
  }

  /** Joining separator-free pieces and splitting at the separator gives the pieces back. */
  lemma {:induction false} JoinSplitRoundTrip(parts: seq<string>, sep: char)
    requires |parts| > 0
    requires forall i :: 0 <= i < |parts| ==> sep !in parts[i]
    ensures SplitOn(Join(parts, [sep]), sep) == parts
    decreases |parts|
  {
    SplitOnNoSeparator(parts[0], sep);
    if |parts| > 1 {
      var rest := parts[1..];
      JoinSplitRoundTrip(rest, sep);
      SplitOnConcat(parts[0], Join(rest, [sep]), sep);
      assert parts == [parts[0]] + rest;
    }
  }

  /** `s.split(/\s+/)`: the pieces between maximal runs of whitespace. */
  function SplitWhitespace(s: string): (words: seq<string>)
    ensures |words| >= 1
    decreases |s|
  {
    if |s| == 0 then [""]
    else if IsWhitespace(s[0]) then [""] + SplitWhitespace(TrimStart(s))
    else
      var rest := SplitWhitespace(s[1..]);
      [[s[0]] + rest[0]] + rest[1..]
  }

  /** No piece of `split(/\s+/)` holds whitespace. */
  lemma {:induction false} SplitWhitespaceWords(s: string)
    ensures forall k :: 0 <= k < |SplitWhitespace(s)| ==> NoWhitespace(SplitWhitespace(s)[k])
    decreases |s|
  {
    if |s| > 0 {
      var words := SplitWhitespace(s);
      if IsWhitespace(s[0]) {
        var t := TrimStart(s);
        assert t == TrimStart(s[1..]);
        SplitWhitespaceWords(t);
        assert words == [""] + SplitWhitespace(t);
        AllWordsCons("", SplitWhitespace(t));
      } else {
        var rest := SplitWhitespace(s[1..]);
        SplitWhitespaceWords(s[1..]);
        assert words == [[s[0]] + rest[0]] + rest[1..];
        NoWhitespaceCons(s[0], rest[0]);
        AllWordsTail(rest);
        AllWordsCons([s[0]] + rest[0], rest[1..]);
      }
    }
  }

  lemma AllWordsCons(w: string, ws: seq<string>)
    requires NoWhitespace(w)
    requires forall k :: 0 <= k < |ws| ==> NoWhitespace(ws[k])
    ensures forall k :: 0 <= k < |[w] + ws| ==> NoWhitespace(([w] + ws)[k])
  {
    forall k | 0 <= k < |[w] + ws|
      ensures NoWhitespace(([w] + ws)[k])
    {
      if k > 0 {
        assert ([w] + ws)[k] == ws[k - 1];
      }
    }
  }

  lemma AllWordsTail(ws: seq<string>)
    requires |ws| >= 1
    requires forall k :: 0 <= k < |ws| ==> NoWhitespace(ws[k])
    ensures forall k :: 0 <= k < |ws[1..]| ==> NoWhitespace(ws[1..][k])
  {
    forall k | 0 <= k < |ws[1..]|
      ensures NoWhitespace(ws[1..][k])
    {
      assert ws[1..][k] == ws[k + 1];
    }
  }

  lemma NoWhitespaceCons(c: char, w: string)
    requires !IsWhitespace(c) && NoWhitespace(w)
    ensures NoWhitespace([c] + w)
  {
    forall i | 0 <= i < |[c] + w|
      ensures !IsWhitespace(([c] + w)[i])
    {
      if i > 0 {
        assert ([c] + w)[i] == w[i - 1];
      }
    }
  }

  /** Splitting an all-whitespace string yields only empty pieces. */
  lemma SplitAllWhitespace(s: string)
    requires AllWhitespace(s)
    ensures forall k :: 0 <= k < |SplitWhitespace(s)| ==> SplitWhitespace(s)[k] == ""
  {
    if |s| > 0 {
      var t := TrimStart(s);
      assert SplitWhitespace(s) == [""] + SplitWhitespace(t);
    }
  }

  /** `s.padEnd(n)`: spaces appended up to length `n`. */
  function PadEnd(s: string, n: int): (r: string)
    ensures |r| == if |s| >= n then |s| else n
    ensures r[..|s|] == s
    ensures forall i :: |s| <= i < |r| ==> r[i] == ' '
    decreases n - |s|
  {
    if |s| >= n then s else PadEnd(s + " ", n)
  }
}
