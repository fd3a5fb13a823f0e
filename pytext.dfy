/**
 * The parts of Python's `str` and `int` behaviour that the parsers of this
 * program rely on: `isspace`, `strip`, `split()`, `split(sep)`, `splitlines`,
 * `str.replace(c, "")`, `int(text)` and `str(n)`, on Dafny strings.
 */
module PyText {
  import opened Wrappers

  /** `c.isspace()`: whitespace for `strip()`, `split()` and `int()`. */
  predicate IsSpace(c: char) {
    || c == ' '
    || ('\t' <= c <= '\r')
    || ('\U{1c}' <= c <= '\U{1f}')
    || c == '\U{85}' || c == '\U{a0}' || c == '\U{1680}'
    || ('\U{2000}' <= c <= '\U{200a}')
    || c == '\U{2028}' || c == '\U{2029}' || c == '\U{202f}' || c == '\U{205f}' || c == '\U{3000}'
  }

  /** The line boundaries of `str.splitlines()` ("\r\n" counts as one). */
  predicate IsLineBreak(c: char) {
    || ('\n' <= c <= '\r')
    || ('\U{1c}' <= c <= '\U{1e}')
    || c == '\U{85}' || c == '\U{2028}' || c == '\U{2029}'
  }

  predicate IsDigit(c: char) { '0' <= c <= '9' }

  predicate NoSpace(w: string) { forall i :: 0 <= i < |w| ==> !IsSpace(w[i]) }

  predicate NoBreak(w: string) { forall i :: 0 <= i < |w| ==> !IsLineBreak(w[i]) }

  predicate AllDigits(d: string) { forall i :: 0 <= i < |d| ==> IsDigit(d[i]) }

  // ---------------------------------------------------------------- strip

  /** Length of the leading run of whitespace in `s`. */
  function LeadingSpaces(s: string): (n: nat)
    ensures n <= |s| && (n < |s| ==> !IsSpace(s[n]))
    ensures forall i :: 0 <= i < n ==> IsSpace(s[i])
  {
    if s != [] && IsSpace(s[0]) then 1 + LeadingSpaces(s[1..]) else 0
  }

  /** `s.lstrip()`: drops exactly the leading run of whitespace. */
  function TrimLeft(s: string): string {
    s[LeadingSpaces(s)..]
  }

  /** `s.rstrip()`: drops exactly the trailing run of whitespace. */
  function TrimRight(s: string): (r: string)
    ensures |r| <= |s| && r == s[..|r|]
    ensures r != [] ==> !IsSpace(r[|r| - 1])
    ensures forall i :: |r| <= i < |s| ==> IsSpace(s[i])
  {
    if s != [] && IsSpace(s[|s| - 1]) then TrimRight(s[..|s| - 1]) else s
  }

  /** `s.strip()`. */
  function Strip(s: string): (r: string)
    ensures r != [] ==> !IsSpace(r[0]) && !IsSpace(r[|r| - 1])
    ensures r == [] <==> forall i :: 0 <= i < |s| ==> IsSpace(s[i])
    ensures (s == [] || (!IsSpace(s[0]) && !IsSpace(s[|s| - 1]))) ==> r == s
  {
    TrimRight(TrimLeft(s))
  }

  // ---------------------------------------------------------------- split()

  /** Length of the longest prefix of `s` without whitespace. */
  function WordLength(s: string): (n: nat)
    ensures n <= |s| && (n < |s| ==> IsSpace(s[n]))
    ensures forall i :: 0 <= i < n ==> !IsSpace(s[i])
  {
    if s == [] || IsSpace(s[0]) then 0 else 1 + WordLength(s[1..])
  }

  /** `s.split()`: the maximal runs of non-whitespace characters, in order. */
  function SplitWs(s: string): (r: seq<string>)
    ensures AreWords(r)
    decreases |s|
  {
    var t := TrimLeft(s);
    TrimLeftStarts(s);
    if t == [] then []
    else
      var n := WordLength(t);
      FirstWord(t);
      var w, rest := t[..n], SplitWs(t[n..]);
      ConsWords(w, rest);
      [w] + rest
  }

  lemma TrimLeftStarts(s: string)
    ensures |TrimLeft(s)| <= |s| && (TrimLeft(s) != [] ==> !IsSpace(TrimLeft(s)[0]))
  {
  }

  lemma FirstWord(t: string)
    requires t != [] && !IsSpace(t[0])
    ensures 0 < WordLength(t) <= |t| && NoSpace(t[..WordLength(t)])
  {
    var n := WordLength(t);
    forall i | 0 <= i < n ensures !IsSpace(t[..n][i]) {
      assert t[..n][i] == t[i];
    }
  }

  predicate AreWords(ws: seq<string>) {
    forall k :: 0 <= k < |ws| ==> ws[k] != [] && NoSpace(ws[k])
  }

  lemma ConsWords(w: string, rest: seq<string>)
    requires w != [] && NoSpace(w) && AreWords(rest)
    ensures AreWords([w] + rest)
  {
    forall k | 0 <= k < |[w] + rest| ensures ([w] + rest)[k] != [] && NoSpace(([w] + rest)[k]) {
      if k > 0 {
        assert ([w] + rest)[k] == rest[k - 1];
      }
    }
  }

  /** Tokens joined by one separator character, as `sep.join(words)`. */
  function JoinWith(words: seq<string>, sep: char): string {
    if words == [] then []
    else if |words| == 1 then words[0]
    else words[0] + [sep] + JoinWith(words[1..], sep)
  }

  lemma {:induction false} WordOfJoined(w: string, rest: string)
    requires NoSpace(w)
    requires rest == [] || IsSpace(rest[0])
    ensures WordLength(w + rest) == |w|
  {
    if w == [] {
      assert w + rest == rest;
    } else {
      assert (w + rest)[0] == w[0];
      assert (w + rest)[1..] == w[1..] + rest;
      WordOfJoined(w[1..], rest);
    }
  }

  /** A whitespace-free token followed by whitespace (or nothing) is split off first. */
  lemma SplitWsCons(w: string, rest: string)
    requires w != [] && NoSpace(w)
    requires rest == [] || IsSpace(rest[0])
    ensures SplitWs(w + rest) == [w] + SplitWs(rest)
  {
    var s := w + rest;
    WordOfJoined(w, rest);
    assert s[0] == w[0];
    assert TrimLeft(s) == s;
    assert s[..|w|] == w;
    assert s[|w|..] == rest;
  }

  /** Leading whitespace does not change what `split()` returns. */
  lemma SplitWsSkip(c: char, t: string)
    requires IsSpace(c)
    ensures SplitWs([c] + t) == SplitWs(t)
  {
    var s := [c] + t;
    assert s[1..] == t;
    assert LeadingSpaces(s) == 1 + LeadingSpaces(t);
    assert TrimLeft(s) == TrimLeft(t);
  }

  lemma SplitWsStep(w: string, sep: char, tail: string)
    requires w != [] && NoSpace(w) && IsSpace(sep)
    ensures SplitWs(w + [sep] + tail) == [w] + SplitWs(tail)
  {
    var rest := [sep] + tail;
    assert w + [sep] + tail == w + rest;
    SplitWsCons(w, rest);
    SplitWsSkip(sep, tail);
  }

  /** Words that `split()` can produce: non-empty and whitespace-free. */
  predicate AreTokens(words: seq<string>) {
    forall k :: 0 <= k < |words| ==> words[k] != [] && NoSpace(words[k])
  }

  /** The first word of a joined list is split off, and the rest are still tokens. */
  lemma SplitWsJoinStep(words: seq<string>, sep: char)
    requires IsSpace(sep) && AreTokens(words) && |words| > 1
    ensures AreTokens(words[1..])
    ensures SplitWs(JoinWith(words, sep)) == [words[0]] + SplitWs(JoinWith(words[1..], sep))
  {
    var more := words[1..];
    forall k | 0 <= k < |more| ensures more[k] != [] && NoSpace(more[k]) {
      assert more[k] == words[k + 1];
    }
    SplitWsStep(words[0], sep, JoinWith(more, sep));
  }

  lemma {:induction false} SplitWsJoin(words: seq<string>, sep: char)
    requires IsSpace(sep) && AreTokens(words)
    ensures SplitWs(JoinWith(words, sep)) == words
    decreases |words|
  {
    if |words| == 1 {
      SplitWsCons(words[0], []);
      assert words[0] + [] == words[0];
    } else if |words| > 1 {
      SplitWsJoinStep(words, sep);
      SplitWsJoin(words[1..], sep);
      assert [words[0]] + words[1..] == words;
    }
  }

  // ---------------------------------------------------------------- split(sep)

  /** `s.split(sep)` for a one-character separator: always at least one piece. */
  function SplitOn(s: string, sep: char): (r: seq<string>)
    ensures |r| >= 1
    ensures forall k :: 0 <= k < |r| ==> sep !in r[k]
    ensures sep !in s ==> r == [s]
    ensures sep in s ==> |r| >= 2
  {
    if s == [] then [[]]
    else
      var rest := SplitOn(s[1..], sep);
      assert [s[0]] + s[1..] == s;
      if s[0] == sep then [[]] + rest else [[s[0]] + rest[0]] + rest[1..]
  }

  /** Joining the pieces of `split(sep)` with `sep` gives back the text. */
  lemma {:induction false} SplitOnJoin(s: string, sep: char)
    ensures JoinWith(SplitOn(s, sep), sep) == s
  {
    if s != [] {
      var rest := SplitOn(s[1..], sep);
      SplitOnJoin(s[1..], sep);
      if s[0] == sep {
        assert SplitOn(s, sep) == [[]] + rest;
      } else if |rest| > 1 {
        assert JoinWith(rest, sep) == rest[0] + [sep] + JoinWith(rest[1..], sep);
        assert SplitOn(s, sep)[1..] == rest[1..];
      }
    }
  }

  /** Splitting `a + sep + b` where `a` has no `sep` yields `a` first. */
  lemma {:induction false} SplitOnAt(a: string, b: string, sep: char)
    requires sep !in a
    ensures SplitOn(a + [sep] + b, sep) == [a] + SplitOn(b, sep)
    decreases |a|
  {
    if a == [] {
      assert (a + [sep] + b)[1..] == b;
    } else {
      assert (a + [sep] + b)[1..] == a[1..] + [sep] + b;
      SplitOnAt(a[1..], b, sep);
      assert [a[0]] + a[1..] == a;
    }
  }

  // ---------------------------------------------------------------- splitlines()

  /** Index of the first line boundary in `s`, or `|s|` when there is none. */
  function LineEnd(s: string): (i: nat)
    ensures i <= |s| && (i < |s| ==> IsLineBreak(s[i]))
    ensures NoBreak(s[..i])
  {
    if s == [] || IsLineBreak(s[0]) then 0
    else
      var j := LineEnd(s[1..]);
      assert s[..j + 1] == [s[0]] + s[1..][..j];
      j + 1
  }

  /** `s.splitlines()`: no trailing empty line, "\r\n" is one boundary. */
  function SplitLines(s: string): (r: seq<string>)
    ensures forall k :: 0 <= k < |r| ==> NoBreak(r[k])
    decreases |s|
  {
    if s == [] then []
    else
      var i := LineEnd(s);
      if i == |s| then [s]
      else
        var next := if s[i] == '\r' && i + 1 < |s| && s[i + 1] == '\n' then i + 2 else i + 1;
        [s[..i]] + SplitLines(s[next..])
  }

  lemma {:induction false} LineEndAt(l: string, rest: string)
    requires NoBreak(l) && rest != [] && IsLineBreak(rest[0])
    ensures LineEnd(l + rest) == |l|
    decreases |l|
  {
    if l == [] {
      assert l + rest == rest;
    } else {
      assert (l + rest)[0] == l[0];
      assert (l + rest)[1..] == l[1..] + rest;
      LineEndAt(l[1..], rest);
    }
  }

  /** A break-free line followed by "\n" is split off as the first line. */
  lemma SplitLinesCons(l: string, rest: string)
    requires NoBreak(l)
    ensures SplitLines(l + ['\n'] + rest) == [l] + SplitLines(rest)
  {
    var s := l + ['\n'] + rest;
    assert s == l + (['\n'] + rest);
    LineEndAt(l, ['\n'] + rest);
    assert s[..|l|] == l;
    assert s[|l| + 1..] == rest;
  }

  /** `splitlines()` recovers lines joined by "\n", provided the last one is not empty. */
  lemma {:induction false} SplitLinesJoin(lines: seq<string>)
    requires lines != [] && lines[|lines| - 1] != []
    requires forall k :: 0 <= k < |lines| ==> NoBreak(lines[k])
    ensures SplitLines(JoinWith(lines, '\n')) == lines
    decreases |lines|
  {
    if |lines| > 1 {
      SplitLinesCons(lines[0], JoinWith(lines[1..], '\n'));
      SplitLinesJoin(lines[1..]);
      assert [lines[0]] + lines[1..] == lines;
    }
  }

  // ---------------------------------------------------------------- replace

  /** `s.replace(c, "")`. */
  function RemoveAll(s: string, c: char): (r: string)
    ensures c !in r
    ensures |r| <= |s|
    ensures c !in s ==> r == s
  {
    if s == [] then [] else (if s[0] == c then [] else [s[0]]) + RemoveAll(s[1..], c)
  }

  lemma {:induction false} RemoveAllConcat(a: string, b: string, c: char)
    ensures RemoveAll(a + b, c) == RemoveAll(a, c) + RemoveAll(b, c)
  {
    if a == [] {
      assert a + b == b;
    } else {
      var x, t := a[0], a[1..];
      assert a == [x] + t;
      assert a + b == [x] + (t + b);
      var h := if x == c then [] else [x];
      RemoveAllCons(x, t + b, c);
      RemoveAllCons(x, t, c);
      RemoveAllConcat(t, b, c);
      ConcatAssoc(h, RemoveAll(t, c), RemoveAll(b, c));
    }
  }

  lemma ConcatAssoc(p: string, q: string, r: string)
    ensures p + (q + r) == (p + q) + r
  {
  }

  lemma RemoveAllCons(x: char, t: string, c: char)
    ensures RemoveAll([x] + t, c) == (if x == c then [] else [x]) + RemoveAll(t, c)
  {
    assert ([x] + t)[1..] == t;
  }

  // ---------------------------------------------------------------- int() and str()

  function DigitValue(c: char): nat
    requires IsDigit(c)
  {
    c as nat - '0' as nat
  }

  function DigitChar(d: nat): (c: char)
    requires d < 10
    ensures IsDigit(c) && DigitValue(c) == d
  {
    ('0' as nat + d) as char
  }

  /** The number a string of decimal digits denotes. */
  function DecimalValue(d: string): nat
    requires AllDigits(d)
  {
    if d == [] then 0 else 10 * DecimalValue(d[..|d| - 1]) + DigitValue(d[|d| - 1])
  }

  /** Digits grouped by single underscores, as `int()` accepts them ("1_000"). */
  predicate IsDigitGroups(s: string) {
    && |s| > 0 && IsDigit(s[0]) && IsDigit(s[|s| - 1])
    && (forall i :: 0 <= i < |s| ==> IsDigit(s[i]) || s[i] == '_')
    && NoDoubleUnderscore(s)
  }

  predicate NoDoubleUnderscore(s: string) {
    |s| < 2 || (!(s[0] == '_' && s[1] == '_') && NoDoubleUnderscore(s[1..]))
  }

  function DropUnderscores(s: string): (r: string)
    requires forall i :: 0 <= i < |s| ==> IsDigit(s[i]) || s[i] == '_'
    ensures AllDigits(r)
    ensures AllDigits(s) ==> r == s
  {
    if s == [] then [] else (if s[0] == '_' then [] else [s[0]]) + DropUnderscores(s[1..])
  }

  /**
   * `int(text)`: surrounding whitespace, an optional sign, then digit
   * groups; anything else raises ValueError, modelled as None.
   */
  function ParseInt(text: string): (r: Option<int>)
    ensures r.Some? <==> var t := Strip(text);
      IsDigitGroups(if |t| > 0 && (t[0] == '-' || t[0] == '+') then t[1..] else t)
  {
    ParseSigned(Strip(text))
  }

  /** `int()` of text with no surrounding whitespace: an optional sign, then digit groups. */
  function ParseSigned(t: string): (r: Option<int>)
    ensures r.Some? <==> IsDigitGroups(if |t| > 0 && (t[0] == '-' || t[0] == '+') then t[1..] else t)
  {
    var signed := |t| > 0 && (t[0] == '-' || t[0] == '+');
    var body := if signed then t[1..] else t;
    if IsDigitGroups(body) then
      var n: int := DecimalValue(DropUnderscores(body));
      Some(if signed && t[0] == '-' then -n else n)
    else None
  }

  /** `str(n)` for a natural number: canonical decimal, no leading zero. */
  function NatToDecimal(n: nat): (r: string)
    ensures |r| >= 1 && AllDigits(r)
    ensures DecimalValue(r) == n
    ensures r[0] == '0' ==> n == 0
  {
    if n < 10 then [DigitChar(n)]
    else
      var r := NatToDecimal(n / 10) + [DigitChar(n % 10)];
      assert r[..|r| - 1] == NatToDecimal(n / 10);
      r
  }

  /** `str(n)` for any integer. */
  function IntToDecimal(n: int): string {
    if n < 0 then "-" + NatToDecimal(-n) else NatToDecimal(n)
  }

  /** A plain run of digits is a valid digit-group string with no underscore to drop. */
  lemma {:induction false} DigitsAreGroups(d: string)
    requires |d| > 0 && AllDigits(d)
    ensures IsDigitGroups(d) && DropUnderscores(d) == d
    decreases |d|
  {
    if |d| >= 2 {
      DigitsAreGroups(d[1..]);
    }
  }

  /** Text that starts and ends with non-whitespace is its own `strip()`. */
  lemma StripKeeps(s: string)
    requires s != [] && !IsSpace(s[0]) && !IsSpace(s[|s| - 1])
    ensures Strip(s) == s
  {
  }

  /** `int()` of stripped text holding only digits. */
  lemma ParseStrippedDigits(d: string)
    requires |d| > 0 && AllDigits(d)
    requires Strip(d) == d
    ensures ParseInt(d) == Some(DecimalValue(d) as int)
  {
    ParseSignedDigits(d);
  }

  lemma ParseSignedDigits(d: string)
    requires |d| > 0 && AllDigits(d)
    ensures ParseSigned(d) == Some(DecimalValue(d) as int)
  {
    DigitsAreGroups(d);
  }

  lemma ParseSignedNegative(d: string)
    requires |d| > 0 && AllDigits(d)
    ensures ParseSigned("-" + d) == Some(-(DecimalValue(d) as int))
  {
    var s := "-" + d;
    assert s[0] == '-' && s[1..] == d;
    DigitsAreGroups(d);
  }

  /** `int()` of stripped text holding "-" and then digits. */
  lemma ParseStrippedNegative(s: string, d: string)
    requires |d| > 0 && AllDigits(d)
    requires s == "-" + d && Strip(s) == s
    ensures ParseInt(s) == Some(-(DecimalValue(d) as int))
  {
    ParseSignedNegative(d);
  }

  /** `int()` of a plain run of digits. */
  lemma ParseUnsigned(d: string)
    requires |d| > 0 && AllDigits(d)
    ensures ParseInt(d) == Some(DecimalValue(d) as int)
  {
    StripKeeps(d);
    ParseStrippedDigits(d);
  }

  /** `int()` of "-" followed by digits. */
  lemma ParseNegative(d: string)
    requires |d| > 0 && AllDigits(d)
    ensures ParseInt("-" + d) == Some(-(DecimalValue(d) as int))
  {
    var s := "-" + d;
    assert s[|s| - 1] == d[|d| - 1];
    StripKeeps(s);
    ParseStrippedNegative(s, d);
  }

  /** `int(str(n)) == n`. */
  lemma ParseIntDecimal(n: int)
    ensures ParseInt(IntToDecimal(n)) == Some(n)
  {
    if n < 0 {
      ParseNegative(NatToDecimal(-n));
    } else {
      ParseUnsigned(NatToDecimal(n));
    }
  }

  /** `str(n)` is non-empty and holds only digits and a leading "-". */
  lemma DecimalIsPlain(n: int)
    ensures IntToDecimal(n) != [] && NoSpace(IntToDecimal(n)) && NoBreak(IntToDecimal(n))
    ensures ',' !in IntToDecimal(n) && ':' !in IntToDecimal(n)
  {
    var d := NatToDecimal(if n < 0 then -n else n);
    assert forall i :: 0 <= i < |d| ==> IsDigit(d[i]);
    if n < 0 {
      var s := IntToDecimal(n);
      assert forall i :: 1 <= i < |s| ==> s[i] == d[i - 1];
    }
  }

  /** Whitespace in front of text that starts with non-whitespace is exactly what `lstrip()` removes. */
  lemma {:induction false} LeadingSpacesPadded(pad: string, x: string)
    requires forall i :: 0 <= i < |pad| ==> IsSpace(pad[i])
    requires x != [] && !IsSpace(x[0])
    ensures LeadingSpaces(pad + x) == |pad|
    decreases |pad|
  {
    if pad == [] {
      assert pad + x == x;
    } else {
      assert (pad + x)[1..] == pad[1..] + x;
      LeadingSpacesPadded(pad[1..], x);
    }
  }

  /** `(pad + x).strip() == x` when `pad` is whitespace and `x` has non-whitespace ends. */
  lemma StripPadded(pad: string, x: string)
    requires forall i :: 0 <= i < |pad| ==> IsSpace(pad[i])
    requires x != [] && !IsSpace(x[0]) && !IsSpace(x[|x| - 1])
    ensures Strip(pad + x) == x
  {
    LeadingSpacesPadded(pad, x);
    assert (pad + x)[|pad|..] == x;
  }

  /** Whitespace after text that ends with non-whitespace is exactly what `rstrip()` removes. */
  lemma {:induction false} TrimRightPadded(x: string, pad: string)
    requires forall i :: 0 <= i < |pad| ==> IsSpace(pad[i])
    requires x == [] || !IsSpace(x[|x| - 1])
    ensures TrimRight(x + pad) == x
    decreases |pad|
  {
    if pad == [] {
      assert x + pad == x;
    } else {
      assert (x + pad)[|x + pad| - 1] == pad[|pad| - 1];
      assert (x + pad)[..|x + pad| - 1] == x + pad[..|pad| - 1];
      TrimRightPadded(x, pad[..|pad| - 1]);
    }
  }

  /** `(p + x + q).strip() == x` for whitespace `p` and `q` around a stripped `x`. */
  lemma StripPaddedBoth(p: string, x: string, q: string)
    requires forall i :: 0 <= i < |p| ==> IsSpace(p[i])
    requires forall i :: 0 <= i < |q| ==> IsSpace(q[i])
    requires x == [] || (!IsSpace(x[0]) && !IsSpace(x[|x| - 1]))
    ensures Strip(p + x + q) == x
  {
    var s := p + x + q;
    if x == [] {
      assert s == p + q;
      forall i | 0 <= i < |s| ensures IsSpace(s[i]) {
        if i >= |p| {
          assert s[i] == q[i - |p|];
        }
      }
    } else {
      assert s == p + (x + q);
      assert (x + q)[0] == x[0];
      LeadingSpacesPadded(p, x + q);
      assert s[|p|..] == x + q;
      TrimRightPadded(x, q);
    }
  }

  /**
   * What `strip()` keeps: the text after the leading whitespace run, up to
   * a point from which only whitespace follows. With the ends of the
   * result being non-whitespace, this fixes `Strip(s)` completely.
   */
  lemma StripExtent(s: string)
    ensures var n := LeadingSpaces(s);
      && n + |Strip(s)| <= |s| && Strip(s) == s[n..n + |Strip(s)|]
      && (forall i :: 0 <= i < n ==> IsSpace(s[i]))
      && (forall i :: n + |Strip(s)| <= i < |s| ==> IsSpace(s[i]))
  {
    var n := LeadingSpaces(s);
    var t := s[n..];
    assert TrimLeft(s) == t;
    var r := TrimRight(t);
    assert Strip(s) == r;
    SpacesAfterShift(s, n, t, |r|);
  }

  lemma SpacesAfterShift(s: string, n: nat, t: string, m: nat)
    requires n <= |s| && t == s[n..] && m <= |t|
    requires forall i :: m <= i < |t| ==> IsSpace(t[i])
    ensures t[..m] == s[n..n + m]
    ensures forall i :: n + m <= i < |s| ==> IsSpace(s[i])
  {
    forall i | n + m <= i < |s| ensures IsSpace(s[i]) {
      assert s[i] == t[i - n];
    }
  }

  lemma NoBreakConcat(a: string, b: string)
    requires NoBreak(a) && NoBreak(b)
    ensures NoBreak(a + b)
  {
    forall i | 0 <= i < |a + b| ensures !IsLineBreak((a + b)[i]) {
      if i >= |a| {
        assert (a + b)[i] == b[i - |a|];
      }
    }
  }

  // ---------------------------------------------------------------- os.path.join

  /** `os.path.join(a, b)` on POSIX: an absolute `b` replaces `a`; otherwise one '/' separates them. */
  function PathJoin(a: string, b: string): (r: string)
    ensures |b| > 0 && b[0] == '/' ==> r == b
    ensures !(|b| > 0 && b[0] == '/') ==> |r| >= |a| + |b| && r[..|a|] == a && r[|r| - |b|..] == b
    ensures !(|b| > 0 && b[0] == '/') ==>
      (|r| == |a| + |b| <==> a == [] || a[|a| - 1] == '/') &&
      (|r| != |a| + |b| ==> |r| == |a| + |b| + 1 && r[|a|] == '/')
  {
    if |b| > 0 && b[0] == '/' then b
    else if a == [] || a[|a| - 1] == '/' then a + b
    else a + "/" + b
  }
}
