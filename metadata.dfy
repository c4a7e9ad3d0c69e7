/**
 * Metadata values and the codec between a list of image paths and the
 * single string the vector store can hold.
 *
 * The writing side is Python's str() of a list (src/vectorstore.py:51);
 * the reading side is the tolerant decoding in src/chain.py:39-53, which
 * hands strings that start with "[" to ast.literal_eval. The model of
 * literal_eval reads a list display of single- or double-quoted string
 * literals with their backslash escapes, which covers every form str() of
 * a list of strings produces.
 */
module Metadata {
  import opened PyCore

  /** A metadata value as the code sees it: what the store keeps (str, int,
      bool), None for a key that dict.get does not find, and a list of
      strings (the extractor's image lists). */
  datatype Value = NoneValue | Str(s: string) | Int(i: int) | Bool(b: bool) | StrList(items: seq<string>)

  /** Python truthiness of a value. */
  predicate Truthy(v: Value)
  {
    match v
    case NoneValue => false
    case Str(s) => s != []
    case Int(i) => i != 0
    case Bool(b) => b
    case StrList(l) => l != []
  }

  function Min(a: nat, b: nat): nat { if a <= b then a else b }

  /** Python's v[:n]; None, int and bool raise TypeError (None here). */
  function SliceTo(v: Value, n: nat): (r: Option<Value>)
    ensures r.Some? <==> v.Str? || v.StrList?
    ensures v.Str? ==> r.Some? && r.value.Str? && |r.value.s| == Min(|v.s|, n) && StartsWith(v.s, r.value.s)
    ensures v.StrList? ==> r.Some? && r.value.StrList? && |r.value.items| == Min(|v.items|, n)
                           && r.value.items == v.items[..|r.value.items|]
  {
    match v
    case Str(s) => Some(Str(s[..Min(|s|, n)]))
    case StrList(l) => Some(StrList(l[..Min(|l|, n)]))
    case _ => None
  }

  // ---------------------------------------------------------------------
  // repr() of a string, as str() of a list writes each element

  function HexDigit(d: nat): (c: char)
    requires d < 16
  {
    if d < 10 then ('0' as int + d) as char else ('a' as int + d - 10) as char
  }

  function HexValue(c: char): Option<nat>
  {
    if '0' <= c <= '9' then Some(c as int - '0' as int)
    else if 'a' <= c <= 'f' then Some(c as int - 'a' as int + 10)
    else if 'A' <= c <= 'F' then Some(c as int - 'A' as int + 10)
    else None
  }

  lemma HexRoundTrip(d: nat)
    requires d < 16
    ensures HexValue(HexDigit(d)) == Some(d)
  {
  }

  /** Characters repr() writes as \xhh: C0 controls, DEL, C1 controls, NBSP, soft hyphen. */
  predicate NeedsHexEscape(c: char)
  {
    c < ' ' || ('\U{7F}' <= c <= '\U{A0}') || c == '\U{AD}'
  }

  /** repr() quotes with ' unless the text holds a ' and no ". */
  function QuoteFor(s: string): (q: char)
    ensures q == '\'' || q == '"'
  {
    if '\'' in s && '"' !in s then '"' else '\''
  }

  function EscapeChar(c: char, q: char): string
  {
    if c == q || c == '\\' then ['\\', c]
    else if c == '\t' then "\\t"
    else if c == '\n' then "\\n"
    else if c == '\r' then "\\r"
    else if NeedsHexEscape(c) then ['\\', 'x', HexDigit(c as int / 16), HexDigit(c as int % 16)]
    else [c]
  }

  function Escape(s: string, q: char): string
    decreases |s|
  {
    if s == [] then [] else EscapeChar(s[0], q) + Escape(s[1..], q)
  }

  /** Python's repr(s). */
  function Repr(s: string): (r: string)
    ensures |r| >= 2 && (r[0] == '\'' || r[0] == '"')
  {
    var q := QuoteFor(s);
    [q] + Escape(s, q) + [q]
  }

  function ReprItems(l: seq<string>): string
    decreases |l|
  {
    if l == [] then ""
    else if |l| == 1 then Repr(l[0])
    else Repr(l[0]) + ", " + ReprItems(l[1..])
  }

  /** Python's str(l) for a list of strings: "['a', 'b']". */
  function EncodeList(l: seq<string>): (s: string)
    ensures StartsWith(s, "[")
  {
    "[" + ReprItems(l) + "]"
  }

  /** Python's str(v). */
  function PyStr(v: Value): string
  {
    match v
    case NoneValue => "None"
    case Str(s) => s
    case Int(i) => IntToString(i)
    case Bool(b) => if b then "True" else "False"
    case StrList(l) => EncodeList(l)
  }

  // ---------------------------------------------------------------------
  // ast.literal_eval on a list display of string literals

  /** Whitespace the tokenizer skips inside a bracketed expression. */
  predicate IsListSpace(c: char)
  {
    c == ' ' || c == '\t' || c == '\n' || c == '\r' || c == '\U{C}'
  }

  predicate AllListSpace(s: string)
  {
    forall i :: 0 <= i < |s| ==> IsListSpace(s[i])
  }

  function SkipSpace(s: string): (r: string)
    ensures |r| <= |s|
    decreases |s|
  {
    if s != [] && IsListSpace(s[0]) then SkipSpace(s[1..]) else s
  }

  /** The one-letter escapes of a Python string literal. */
  function SimpleEscape(c: char): Option<char>
  {
    match c
    case '\\' => Some('\\')
    case '\'' => Some('\'')
    case '"' => Some('"')
    case 'n' => Some('\n')
    case 'r' => Some('\r')
    case 't' => Some('\t')
    case 'a' => Some('\U{7}')
    case 'b' => Some('\U{8}')
    case 'f' => Some('\U{C}')
    case 'v' => Some('\U{B}')
    case _ => None
  }

  function PrependAll(t: string, r: Option<(string, string)>): Option<(string, string)>
  {
    match r
    case None => None
    case Some((v, rest)) => Some((t + v, rest))
  }

  /** The value of the first n characters of s read as hexadecimal digits. */
  function HexRun(s: string, n: nat): Option<nat>
    requires n <= |s|
    decreases n
  {
    if n == 0 then Some(0)
    else match (HexRun(s, n - 1), HexValue(s[n - 1]))
      case (Some(a), Some(d)) => Some(a * 16 + d)
      case _ => None
  }

  predicate IsOctalDigit(c: char)
  {
    '0' <= c <= '7'
  }

  /** A code point that is a Unicode scalar value, so a Dafny char. */
  predicate IsScalar(v: nat)
  {
    v < 0xD800 || (0xE000 <= v < 0x11_0000)
  }

  /** Reads an escape sequence from just after its backslash: the text it
      stands for and how many characters after the backslash it uses.
      A backslash before a newline continues the literal; an unknown escape
      keeps its backslash and the next character is read as usual; \x, \u
      and \U take exactly 2, 4 and 8 hexadecimal digits; \ooo takes one to
      three octal digits. */
  function ParseEscape(e: string): (r: Option<(string, nat)>)
    ensures r.Some? ==> r.value.1 <= |e|
  {
    if e == [] then None
    else
      var c := e[0];
      if c == '\n' then Some(([], 1))
      else if c == '\r' || c == 'N' then None
      else if SimpleEscape(c).Some? then Some(([SimpleEscape(c).value], 1))
      else if c == 'x' || c == 'u' || c == 'U' then
        var n := if c == 'x' then 2 else if c == 'u' then 4 else 8;
        if |e| < n + 1 then None
        else match HexRun(e[1..], n)
          case None => None
          case Some(v) => if IsScalar(v) then Some(([v as char], n + 1)) else None
      else if IsOctalDigit(c) then
        var d0 := c as int - '0' as int;
        if |e| >= 2 && IsOctalDigit(e[1]) then
          var d1 := e[1] as int - '0' as int;
          if |e| >= 3 && IsOctalDigit(e[2]) then
            Some(([(d0 * 64 + d1 * 8 + (e[2] as int - '0' as int)) as char], 3))
          else Some(([(d0 * 8 + d1) as char], 2))
        else Some(([d0 as char], 1))
      else Some(("\\", 0))
  }

  /** Reads the body of a string literal opened by quote q, up to and
      including the closing q; gives the decoded text and what follows. */
  function ParseBody(s: string, q: char): (r: Option<(string, string)>)
    ensures r.Some? ==> |r.value.1| < |s|
    decreases |s|
  {
    if s == [] then None
    else if s[0] == q then Some(([], s[1..]))
    else if s[0] == '\n' || s[0] == '\r' || s[0] == '\0' then None
    else if s[0] == '\\' then
      match ParseEscape(s[1..])
      case None => None
      case Some((t, k)) => PrependAll(t, ParseBody(s[1 + k..], q))
    else PrependAll([s[0]], ParseBody(s[1..], q))
  }

  /** The elements of a list display from just after "[" and any space. */
  function ParseItems(s: string): Option<seq<string>>
    decreases |s|
  {
    if s == [] then None
    else if s[0] == ']' then (if AllListSpace(s[1..]) then Some([]) else None)
    else if s[0] == '\'' || s[0] == '"' then
      match ParseBody(s[1..], s[0])
      case None => None
      case Some((v, rest)) =>
        var r := SkipSpace(rest);
        if r == [] then None
        else if r[0] == ']' then (if AllListSpace(r[1..]) then Some([v]) else None)
        else if r[0] == ',' then
          match ParseItems(SkipSpace(r[1..]))
          case None => None
          case Some(vs) => Some([v] + vs)
        else None
    else None
  }

  /** ast.literal_eval(s) when it yields a list of strings; None where it raises. */
  function ParseList(s: string): Option<seq<string>>
  {
    if s != [] && s[0] == '[' then ParseItems(SkipSpace(s[1..])) else None
  }

  // ---------------------------------------------------------------------
  // The tolerant decoding of src/chain.py:39-53

  /** The metadata value chain.py reads, "[]" when the key is missing. */
  function ImagePathValue(metadata: map<string, Value>): Value
  {
    if "image_path" in metadata then metadata["image_path"] else Str("[]")
  }

  /** img_paths as chain.py computes it from the stored value: a list is
      used as it is, a "["-string is parsed (a failed parse gives []),
      any other string is one path, anything else gives []. */
  function DecodeImagePaths(v: Value): seq<string>
  {
    match v
    case StrList(l) => l
    case Str(s) =>
      if StartsWith(s, "[") then
        (match ParseList(s) case Some(l) => l case None => [])
      else [s]
    case _ => []
  }

  // ---------------------------------------------------------------------
  // Round trip

  /** One escaped character followed by a parsable remainder parses to
      that character in front of the remainder's text. */
  lemma EscapeCharParses(c: char, q: char, tail: string, v: string, rest: string)
    requires q == '\'' || q == '"'
    requires ParseBody(tail, q) == Some((v, rest))
    ensures ParseBody(EscapeChar(c, q) + tail, q) == Some(([c] + v, rest))
  {
    if c == q || c == '\\' {
      assert SimpleEscape(c) == Some(c);
      SimpleEscapeParses(c, c, q, tail, v, rest);
    } else if c == '\t' {
      SimpleEscapeParses('t', c, q, tail, v, rest);
    } else if c == '\n' {
      SimpleEscapeParses('n', c, q, tail, v, rest);
    } else if c == '\r' {
      SimpleEscapeParses('r', c, q, tail, v, rest);
    } else if NeedsHexEscape(c) {
      HexCharParses(c, q, tail, v, rest);
    } else {
      var input := EscapeChar(c, q) + tail;
      assert input == [c] + tail && input[1..] == tail;
    }
  }

  /** A one-letter escape reads as the character it stands for. */
  lemma SimpleEscapeParses(e: char, c: char, q: char, tail: string, v: string, rest: string)
    requires q == '\'' || q == '"'
    requires SimpleEscape(e) == Some(c)
    requires ParseBody(tail, q) == Some((v, rest))
    ensures ParseBody(['\\', e] + tail, q) == Some(([c] + v, rest))
  {
    var input := ['\\', e] + tail;
    assert input[1..] == [e] + tail && input[2..] == tail;
  }

  /** A character repr() writes as \xhh reads back as itself. */
  lemma HexCharParses(c: char, q: char, tail: string, v: string, rest: string)
    requires q == '\'' || q == '"'
    requires NeedsHexEscape(c)
    requires ParseBody(tail, q) == Some((v, rest))
    ensures ParseBody(['\\', 'x', HexDigit(c as int / 16), HexDigit(c as int % 16)] + tail, q) == Some(([c] + v, rest))
  {
    var h, l := c as int / 16, c as int % 16;
    var input := ['\\', 'x', HexDigit(h), HexDigit(l)] + tail;
    HexEscapeParses(h, l, tail);
    assert input == ['\\'] + (['x', HexDigit(h), HexDigit(l)] + tail);
    assert input[1..] == ['x', HexDigit(h), HexDigit(l)] + tail;
    assert input[4..] == tail;
    assert (h * 16 + l) as char == c;
  }

  /** The \xhh escape repr() writes reads back as the character it encodes. */
  lemma HexEscapeParses(h: nat, l: nat, tail: string)
    requires h < 16 && l < 16
    ensures ParseEscape(['x', HexDigit(h), HexDigit(l)] + tail) == Some(([(h * 16 + l) as char], 3))
  {
    var e := ['x', HexDigit(h), HexDigit(l)] + tail;
    HexRoundTrip(h);
    HexRoundTrip(l);
    assert e[1..][0] == HexDigit(h) && e[1..][1] == HexDigit(l);
    assert HexRun(e[1..], 1) == Some(h);
    assert HexRun(e[1..], 2) == Some(h * 16 + l);
  }

  lemma {:induction false} EscapeParses(s: string, q: char, rest: string)
    requires q == '\'' || q == '"'
    ensures ParseBody(Escape(s, q) + [q] + rest, q) == Some((s, rest))
    decreases |s|
  {
    if s == [] {
      ClosingQuoteParses(q, rest);
      assert Escape(s, q) + [q] + rest == [q] + rest;
    } else {
      var tail := Escape(s[1..], q) + [q] + rest;
      EscapeParses(s[1..], q, rest);
      EscapeUnfold(s, q, rest);
      EscapeCharParses(s[0], q, tail, s[1..], rest);
      assert [s[0]] + s[1..] == s;
    }
  }

  /** The closing quote ends the literal, leaving what follows it. */
  lemma ClosingQuoteParses(q: char, rest: string)
    ensures ParseBody([q] + rest, q) == Some(([], rest))
  {
    assert ([q] + rest)[1..] == rest;
  }

  /** The escaped text of a non-empty string, followed by more text, begins
      with the escape of its first character. */
  lemma EscapeUnfold(s: string, q: char, rest: string)
    requires s != []
    ensures Escape(s, q) + [q] + rest == EscapeChar(s[0], q) + (Escape(s[1..], q) + [q] + rest)
  {
  }

  lemma ReprParses(x: string, rest: string)
    ensures ParseItems(Repr(x) + rest) == ParseItemsAfter(x, rest)
  {
    var q := QuoteFor(x);
    var input := Repr(x) + rest;
    assert input[0] == q;
    assert input[1..] == Escape(x, q) + [q] + rest;
    EscapeParses(x, q, rest);
  }

  /** What ParseItems continues with once an element x has been read. */
  function ParseItemsAfter(v: string, rest: string): Option<seq<string>>
  {
    var r := SkipSpace(rest);
    if r == [] then None
    else if r[0] == ']' then (if AllListSpace(r[1..]) then Some([v]) else None)
    else if r[0] == ',' then
      match ParseItems(SkipSpace(r[1..]))
      case None => None
      case Some(vs) => Some([v] + vs)
    else None
  }

  /** Skipping one blank before a non-blank. */
  lemma SkipOneSpace(t: string)
    requires t != [] && !IsListSpace(t[0])
    ensures SkipSpace([' '] + t) == t
  {
    assert ([' '] + t)[1..] == t;
  }

  /** After an element, ", " followed by more elements continues the list. */
  lemma ParseAfterComma(x: string, tail: string, vs: seq<string>)
    requires tail != [] && (tail[0] == '\'' || tail[0] == '"')
    requires ParseItems(tail + "]") == Some(vs)
    ensures ParseItemsAfter(x, ", " + tail + "]") == Some([x] + vs)
  {
    var t := tail + "]";
    assert t[0] == tail[0];
    SkipOneSpace(t);
    var rest := [','] + ([' '] + t);
    assert rest == ", " + tail + "]";
    assert rest[0] == ',' && rest[1..] == [' '] + t;
  }

  lemma {:induction false} ItemsParse(l: seq<string>)
    requires l != []
    ensures ParseItems(ReprItems(l) + "]") == Some(l)
    decreases |l|
  {
    if |l| == 1 {
      assert ReprItems(l) + "]" == Repr(l[0]) + "]";
      ReprParses(l[0], "]");
      assert SkipSpace("]") == "]";
      assert ParseItemsAfter(l[0], "]") == Some([l[0]]);
      assert l == [l[0]];
    } else {
      var tail := ReprItems(l[1..]);
      ItemsParse(l[1..]);
      assert ReprItems(l) + "]" == Repr(l[0]) + (", " + tail + "]");
      ReprParses(l[0], ", " + tail + "]");
      assert tail[0] == Repr(l[1])[0];
      ParseAfterComma(l[0], tail, l[1..]);
      assert l == [l[0]] + l[1..];
    }
  }

  /** ast.literal_eval(str(l)) == l for every list of strings. */
  lemma ParseRoundTrip(l: seq<string>)
    ensures ParseList(EncodeList(l)) == Some(l)
  {
    var s := EncodeList(l);
    assert s[1..] == ReprItems(l) + "]";
    if l == [] {
      assert s[1..] == "]";
    } else {
      ItemsParse(l);
      assert ReprItems(l)[0] == '\'' || ReprItems(l)[0] == '"';
    }
  }

  /** The central round trip: the stringified list reads back as the same
      paths in the same order. */
  lemma DecodeRoundTrip(l: seq<string>)
    ensures DecodeImagePaths(Str(PyStr(StrList(l)))) == l
  {
    ParseRoundTrip(l);
  }

  /** A bare path is read as the one-element list holding it. */
  lemma DecodeBarePath(p: string)
    requires p == [] || p[0] != '['
    ensures DecodeImagePaths(Str(p)) == [p]
  {
  }

  /** A backslash before a newline continues the literal and stands for nothing. */
  lemma LineContinuationParses(tail: string, q: char)
    requires q == '\'' || q == '"'
    ensures ParseBody(['\\', '\n'] + tail, q) == ParseBody(tail, q)
  {
    var s := ['\\', '\n'] + tail;
    assert s[1..] == ['\n'] + tail && s[2..] == tail;
    match ParseBody(tail, q)
    case None =>
    case Some((v, rest)) => assert [] + v == v;
  }

  /** An unknown escape keeps its backslash, and the character after it is
      read as an ordinary one (as in a Windows path such as C:\data). */
  lemma UnknownEscapeKeepsBackslash(c: char, tail: string, q: char)
    requires q == '\'' || q == '"'
    requires c != '\n' && c != '\r' && c != 'N' && SimpleEscape(c).None?
    requires c != 'x' && c != 'u' && c != 'U' && !IsOctalDigit(c)
    ensures ParseBody(['\\', c] + tail, q) == PrependAll("\\", ParseBody([c] + tail, q))
  {
    var s := ['\\', c] + tail;
    assert s[1..] == [c] + tail;
  }

  /** A three-digit octal escape stands for the character with that code. */
  lemma OctalEscapeParses(d0: nat, d1: nat, d2: nat, tail: string, q: char)
    requires q == '\'' || q == '"'
    requires d0 < 8 && d1 < 8 && d2 < 8
    ensures var digits := [DigitChar(d0), DigitChar(d1), DigitChar(d2)];
      ParseBody(['\\'] + digits + tail, q) == PrependAll([(d0 * 64 + d1 * 8 + d2) as char], ParseBody(tail, q))
  {
    var digits := [DigitChar(d0), DigitChar(d1), DigitChar(d2)];
    var s := ['\\'] + digits + tail;
    var e := s[1..];
    assert e == digits + tail;
    assert e[0] == DigitChar(d0) && e[1] == DigitChar(d1) && e[2] == DigitChar(d2);
    assert ParseEscape(e) == Some(([(d0 * 64 + d1 * 8 + d2) as char], 3));
    assert s[1 + 3..] == tail;
  }

  /** A \u escape with four hexadecimal digits stands for that code point
      when it is a Unicode scalar value. */
  lemma UnicodeEscapeParses(hex: string, tail: string, q: char, v: nat)
    requires q == '\'' || q == '"'
    requires |hex| == 4 && HexRun(hex, 4) == Some(v) && IsScalar(v)
    ensures ParseBody(['\\', 'u'] + hex + tail, q) == PrependAll([v as char], ParseBody(tail, q))
  {
    var s := ['\\', 'u'] + hex + tail;
    var e := s[1..];
    assert e == ['u'] + hex + tail;
    HexRunPrefix(hex, tail, 4);
    assert e[1..] == hex + tail;
    assert s[1 + 5..] == tail;
  }

  /** Hexadecimal digits are read the same whatever follows them. */
  lemma {:induction false} HexRunPrefix(hex: string, tail: string, n: nat)
    requires n <= |hex|
    ensures HexRun(hex + tail, n) == HexRun(hex, n)
    decreases n
  {
    if n > 0 {
      HexRunPrefix(hex, tail, n - 1);
      assert (hex + tail)[n - 1] == hex[n - 1];
    }
  }

  /** A "["-string that does not parse gives [] rather than an error. */
  lemma DecodeMalformed(s: string)
    requires StartsWith(s, "[") && ParseList(s).None?
    ensures DecodeImagePaths(Str(s)) == []
  {
  }

  /** A NUL character inside a quoted element makes literal_eval raise, so
      the stored string gives no paths. */
  lemma NulInElementDecodesEmpty(q: char, rest: string)
    requires q == '\'' || q == '"'
    ensures DecodeImagePaths(Str(['[', q, '\0'] + rest)) == []
  {
    var s := ['[', q, '\0'] + rest;
    assert s[..1] == "[";
    assert s[1..] == [q, '\0'] + rest && s[1..][1..] == ['\0'] + rest;
  }

  /** A missing key reads as "[]", which gives no paths. */
  lemma DecodeMissingKey(metadata: map<string, Value>)
    requires "image_path" !in metadata
    ensures DecodeImagePaths(ImagePathValue(metadata)) == []
  {
    assert ParseList("[]") == Some([]) by { ParseRoundTrip([]); }
  }
}
