/**
 * The handful of Python built-ins the ingestion and prompt code leans on:
 * str() of an integer, str.strip(), substring tests, str.split, and the
 * POSIX os.path.join / os.path.basename used to name page images.
 */
module PyCore {

  datatype Option<T> = None | Some(value: T)

  datatype Result<T, E> = Ok(value: T) | Err(error: E)

  // ---------------------------------------------------------------------
  // str(n) for integers

  function DigitChar(d: nat): (c: char)
    requires d < 10
    ensures '0' <= c <= '9'
  {
    ('0' as int + d) as char
  }

  /** Python's str(n) for a non-negative integer: decimal, no leading zeros. */
  function NatToString(n: nat): (s: string)
    ensures |s| >= 1
    ensures forall i :: 0 <= i < |s| ==> '0' <= s[i] <= '9'
    ensures n >= 10 ==> |s| >= 2
    decreases n
  {
    if n < 10 then [DigitChar(n)] else NatToString(n / 10) + [DigitChar(n % 10)]
  }

  /** The value a string of decimal digits denotes (the inverse of NatToString). */
  function DecimalValue(s: string): nat
    decreases |s|
  {
    if s == [] then 0
    else
      var c := s[|s| - 1];
      var d := if '0' <= c <= '9' then c as int - '0' as int else 0;
      DecimalValue(s[..|s| - 1]) * 10 + d
  }

  lemma {:induction false} DecimalRoundTrip(n: nat)
    ensures DecimalValue(NatToString(n)) == n
    decreases n
  {
    var s := NatToString(n);
    if n >= 10 {
      DecimalRoundTrip(n / 10);
      assert s[..|s| - 1] == NatToString(n / 10);
    }
  }

  /** Distinct numbers have distinct decimal renderings. */
  lemma NatToStringInjective(a: nat, b: nat)
    requires NatToString(a) == NatToString(b)
    ensures a == b
  {
    DecimalRoundTrip(a);
    DecimalRoundTrip(b);
  }

  /** Python's str(i) for any integer. */
  function IntToString(i: int): (s: string)
    ensures |s| >= 1
    ensures i < 0 <==> s[0] == '-'
  {
    if i < 0 then "-" + NatToString(-i) else NatToString(i)
  }

  /** A number rendered between a fixed prefix and a fixed suffix identifies it. */
  lemma DecoratedNumberInjective(pre: string, suf: string, a: nat, b: nat)
    requires pre + NatToString(a) + suf == pre + NatToString(b) + suf
    ensures a == b
  {
    var x, y := pre + NatToString(a) + suf, pre + NatToString(b) + suf;
    assert |NatToString(a)| == |NatToString(b)|;
    assert NatToString(a) == x[|pre|..|x| - |suf|];
    assert NatToString(b) == y[|pre|..|y| - |suf|];
    NatToStringInjective(a, b);
  }

  // ---------------------------------------------------------------------
  // str.strip() and str.isspace()

  /** The characters Python's str.isspace() accepts. */
  predicate IsSpace(c: char)
  {
    c == ' ' || ('\t' <= c <= '\r') || ('\U{1C}' <= c <= '\U{1F}')
    || c == '\U{85}' || c == '\U{A0}' || c == '\U{1680}'
    || ('\U{2000}' <= c <= '\U{200A}') || c == '\U{2028}' || c == '\U{2029}'
    || c == '\U{202F}' || c == '\U{205F}' || c == '\U{3000}'
  }

  /** Every character is whitespace (vacuously so for ""). */
  predicate IsBlank(s: string)
  {
    forall i :: 0 <= i < |s| ==> IsSpace(s[i])
  }

  /** The number of whitespace characters s starts with. */
  function LeadingSpace(s: string): (k: nat)
    ensures k <= |s|
    ensures forall i :: 0 <= i < k ==> IsSpace(s[i])
    ensures k < |s| ==> !IsSpace(s[k])
    decreases |s|
  {
    if s != [] && IsSpace(s[0]) then
      var k := LeadingSpace(s[1..]);
      assert forall i :: 1 <= i < k + 1 ==> s[i] == s[1..][i - 1];
      k + 1
    else 0
  }

  /** The number of whitespace characters s ends with. */
  function TrailingSpace(s: string): (k: nat)
    ensures k <= |s|
    ensures forall i :: |s| - k <= i < |s| ==> IsSpace(s[i])
    ensures k < |s| ==> !IsSpace(s[|s| - k - 1])
    decreases |s|
  {
    if s != [] && IsSpace(s[|s| - 1]) then TrailingSpace(s[..|s| - 1]) + 1 else 0
  }

  function StripLeft(s: string): string
  {
    s[LeadingSpace(s)..]
  }

  function StripRight(s: string): string
  {
    s[..|s| - TrailingSpace(s)]
  }

  /** Python's s.strip() with no argument. */
  function Strip(s: string): string
  {
    StripRight(StripLeft(s))
  }

  /** `not s.strip()` holds exactly when s is empty or all whitespace. */
  lemma StripEmptyIffBlank(s: string)
    ensures Strip(s) == [] <==> IsBlank(s)
  {
    var k := LeadingSpace(s);
    if k < |s| {
      var l := s[k..];
      assert l[0] == s[k] && !IsSpace(l[0]);
      assert TrailingSpace(l) < |l|;
    }
  }

  // ---------------------------------------------------------------------
  // Substrings and splitting

  predicate StartsWith(s: string, prefix: string)
  {
    |prefix| <= |s| && s[..|prefix|] == prefix
  }

  /** Python's `sub in s` for strings. */
  predicate Contains(s: string, sub: string)
    decreases |s|
  {
    StartsWith(s, sub) || (s != [] && Contains(s[1..], sub))
  }

  /** Text placed anywhere in a string is found in it. */
  lemma {:induction false} ContainsMiddle(a: string, c: string, b: string)
    ensures Contains(a + c + b, c)
    decreases |a|
  {
    if a == [] {
      assert a + c + b == c + b && (c + b)[..|c|] == c;
    } else {
      ContainsMiddle(a[1..], c, b);
      assert (a + c + b)[1..] == a[1..] + c + b;
    }
  }

  /** A substring of s is a substring of s followed by anything. */
  lemma {:induction false} ContainsBefore(s: string, t: string, sub: string)
    requires Contains(s, sub)
    ensures Contains(s + t, sub)
    decreases |s|
  {
    if StartsWith(s, sub) {
      assert (s + t)[..|sub|] == s[..|sub|];
    } else {
      ContainsBefore(s[1..], t, sub);
      assert (s + t)[1..] == s[1..] + t;
    }
  }

  /** A substring of s is a substring of anything followed by s. */
  lemma {:induction false} ContainsAfter(t: string, s: string, sub: string)
    requires Contains(s, sub)
    ensures Contains(t + s, sub)
    decreases |t|
  {
    if t == [] {
      assert t + s == s;
    } else {
      ContainsAfter(t[1..], s, sub);
      assert (t + s)[1..] == t[1..] + s;
    }
  }

  /** The index of the first `sep` in s, or |s| when there is none. */
  function IndexOf(s: string, sep: char): (k: nat)
    ensures k <= |s|
    ensures forall i :: 0 <= i < k ==> s[i] != sep
    ensures k < |s| ==> s[k] == sep
    decreases |s|
  {
    if s == [] then 0 else if s[0] == sep then 0 else 1 + IndexOf(s[1..], sep)
  }

  /** Searching past a stretch without the separator. */
  lemma {:induction false} IndexOfAfter(a: string, b: string, sep: char)
    requires sep !in a
    ensures IndexOf(a + b, sep) == |a| + IndexOf(b, sep)
    decreases |a|
  {
    if a != [] {
      assert (a + b)[0] == a[0] && (a + b)[1..] == a[1..] + b;
      IndexOfAfter(a[1..], b, sep);
    } else {
      assert a + b == b;
    }
  }

  /** Python's s.split(sep) for a one-character separator. */
  function Split(s: string, sep: char): (parts: seq<string>)
    ensures |parts| >= 1
    ensures sep !in s ==> parts == [s]
    ensures sep in s ==> |parts| >= 2
    decreases |s|
  {
    var k := IndexOf(s, sep);
    if k == |s| then [s] else [s[..k]] + Split(s[k + 1..], sep)
  }

  /** Splitting at the first separator. */
  lemma SplitAtFirst(a: string, rest: string, sep: char)
    requires sep !in a
    ensures Split(a + [sep] + rest, sep) == [a] + Split(rest, sep)
  {
    var s := a + [sep] + rest;
    assert s == a + ([sep] + rest);
    assert ([sep] + rest)[0] == sep;
    IndexOfAfter(a, [sep] + rest, sep);
    assert s[..|a|] == a && s[|a| + 1..] == rest;
  }

  /** The field between the first and the second separator. */
  lemma SplitSecondField(a: string, b: string, c: string, sep: char)
    requires sep !in a && sep !in b
    ensures Split(a + [sep] + b + [sep] + c, sep)[1] == b
  {
    assert a + [sep] + b + [sep] + c == a + [sep] + (b + [sep] + c);
    SplitAtFirst(a, b + [sep] + c, sep);
    SplitAtFirst(b, c, sep);
  }

  // ---------------------------------------------------------------------
  // POSIX paths

  /** The index just past the last '/' of p, 0 when there is none. */
  function AfterLastSlash(p: string): (k: nat)
    ensures k <= |p|
    ensures k > 0 ==> p[k - 1] == '/'
    ensures forall i :: k <= i < |p| ==> p[i] != '/'
    decreases |p|
  {
    if p == [] then 0 else if p[|p| - 1] == '/' then |p| else AfterLastSlash(p[..|p| - 1])
  }

  /** os.path.basename: the part after the last '/'. */
  function Basename(p: string): (b: string)
    ensures '/' !in b
  {
    p[AfterLastSlash(p)..]
  }

  /** os.path.join(a, b) with two arguments. */
  function Join(a: string, b: string): string
  {
    if StartsWith(b, "/") then b
    else if a == [] || a[|a| - 1] == '/' then a + b
    else a + "/" + b
  }

  /** Joining a relative name starts with the directory, or with the name
      when the directory is empty. */
  lemma JoinFirstChar(dir: string, x: string)
    requires x != [] && x[0] != '/'
    ensures Join(dir, x) != []
    ensures Join(dir, x)[0] == if dir == [] then x[0] else dir[0]
  {
    assert !StartsWith(x, "/");
  }

  /** For relative names, joining under one directory is injective. */
  lemma JoinInjective(dir: string, x: string, y: string)
    requires x != [] && x[0] != '/' && y != [] && y[0] != '/'
    requires Join(dir, x) == Join(dir, y)
    ensures x == y
  {
    assert !StartsWith(x, "/") && !StartsWith(y, "/");
    var pre := if dir == [] || dir[|dir| - 1] == '/' then dir else dir + "/";
    assert Join(dir, x) == pre + x && Join(dir, y) == pre + y;
    assert x == (pre + x)[|pre|..];
    assert y == (pre + y)[|pre|..];
  }
}
