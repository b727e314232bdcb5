/** The Python string built-ins the rkt runtime relies on, over `seq<char>`:
    `str.strip()`, `str.splitlines()`, `str.split(sep)`, `str.split(sep, 1)`,
    `str(int)`, `int(str)` and `os.path.join(a, b)`. */
module Text {
  import opened Outcomes

  /** Characters `str.isspace()` accepts, hence the ones `str.strip()` removes. */
  predicate IsSpace(c: char) {
    || c == ' ' || c == '\t' || c == '\n' || c == '\r'
    || c == '\U{000B}' || c == '\U{000C}'
    || ('\U{001C}' <= c <= '\U{001F}')
    || c == '\U{0085}' || c == '\U{00A0}' || c == '\U{1680}'
    || ('\U{2000}' <= c <= '\U{200A}')
    || c == '\U{2028}' || c == '\U{2029}' || c == '\U{202F}'
    || c == '\U{205F}' || c == '\U{3000}'
  }

  /** Characters at which `str.splitlines()` ends a line (`\r\n` counts once). */
  predicate IsLineBreak(c: char) {
    || c == '\n' || c == '\r'
    || c == '\U{000B}' || c == '\U{000C}'
    || c == '\U{001C}' || c == '\U{001D}' || c == '\U{001E}'
    || c == '\U{0085}' || c == '\U{2028}' || c == '\U{2029}'
  }

  predicate NoLineBreaks(s: string) {
    forall i :: 0 <= i < |s| ==> !IsLineBreak(s[i])
  }

  predicate IsDigit(c: char) {
    '0' <= c <= '9'
  }

  predicate AllDigits(s: string) {
    forall i :: 0 <= i < |s| ==> IsDigit(s[i])
  }

  // ---------------------------------------------------------------------------
  // str.strip()
  // ---------------------------------------------------------------------------

  /** Length of the longest all-whitespace prefix of `s`. */
  function LeadingSpaces(s: string): (n: nat)
    ensures n <= |s|
    ensures forall i :: 0 <= i < n ==> IsSpace(s[i])
    ensures n < |s| ==> !IsSpace(s[n])
  {
    if |s| > 0 && IsSpace(s[0]) then 1 + LeadingSpaces(s[1..]) else 0
  }

  /** Length of the longest all-whitespace suffix of `s`. */
  function TrailingSpaces(s: string): (n: nat)
    ensures n <= |s|
    ensures forall i :: |s| - n <= i < |s| ==> IsSpace(s[i])
    ensures n < |s| ==> !IsSpace(s[|s| - n - 1])
  {
    if |s| > 0 && IsSpace(s[|s| - 1]) then 1 + TrailingSpaces(s[..|s| - 1]) else 0
  }

  /** `s.strip()`: `s` without its leading and trailing whitespace. The result
      is the infix of `s` starting at `LeadingSpaces(s)`, everything around it
      is whitespace, and it neither starts nor ends with whitespace. */
  function Strip(s: string): (r: string)
    ensures |r| <= |s| - LeadingSpaces(s)
    ensures r == s[LeadingSpaces(s)..LeadingSpaces(s) + |r|]
    ensures forall i :: 0 <= i < |s| && !(LeadingSpaces(s) <= i < LeadingSpaces(s) + |r|) ==> IsSpace(s[i])
    ensures |r| > 0 ==> !IsSpace(r[0]) && !IsSpace(r[|r| - 1])
  {
    var t := s[LeadingSpaces(s)..];
    t[..|t| - TrailingSpaces(t)]
  }

  lemma StripNoSpaces(s: string)
    requires forall i :: 0 <= i < |s| ==> !IsSpace(s[i])
    ensures Strip(s) == s
  {
    assert LeadingSpaces(s) == 0 by {
      if |s| > 0 { assert !IsSpace(s[0]); }
    }
    if |s| > 0 {
      assert !IsSpace(s[|s| - 1]);
    }
  }

  // ---------------------------------------------------------------------------
  // str.splitlines()
  // ---------------------------------------------------------------------------

  /** Index of the first line break in `s`, or `|s|` when there is none. */
  function LineEnd(s: string): (n: nat)
    ensures n <= |s|
    ensures forall i :: 0 <= i < n ==> !IsLineBreak(s[i])
    ensures n < |s| ==> IsLineBreak(s[n])
  {
    if |s| == 0 || IsLineBreak(s[0]) then 0 else 1 + LineEnd(s[1..])
  }

  /** Where the terminator starting at the line break `s[n]` ends: `\r\n`
      counts as one terminator, any other line break as one on its own. */
  function TerminatorEnd(s: string, n: nat): (next: nat)
    requires n < |s| && IsLineBreak(s[n])
    ensures n < next <= |s| && next <= n + 2
  {
    if s[n] == '\r' && n + 1 < |s| && s[n + 1] == '\n' then n + 2 else n + 1
  }

  /** A line terminator `str.splitlines()` recognises. */
  predicate IsTerminator(t: string) {
    t == "\r\n" || (|t| == 1 && IsLineBreak(t[0]))
  }

  /** Each line followed by its own terminator. */
  function Interleave(lines: seq<string>, ends: seq<string>): string
    requires |lines| == |ends|
  {
    if lines == [] then [] else lines[0] + ends[0] + Interleave(lines[1..], ends[1..])
  }

  /** Each line is free of line breaks and followed by a terminator, except
      that a last, non-empty line may stand unterminated; and a `\r` is never
      separated from a `\n` right after it. */
  ghost predicate Delimited(lines: seq<string>, ends: seq<string>)
    requires |lines| == |ends|
  {
    lines != [] ==>
      && NoLineBreaks(lines[0])
      && if |lines| == 1 then IsTerminator(ends[0]) || (ends[0] == [] && lines[0] != [])
         else
           && IsTerminator(ends[0])
           && !(ends[0] == "\r" && lines[1] == [] && ends[1] == "\n")
           && Delimited(lines[1..], ends[1..])
  }

  /** `lines` are the lines of `s` and `ends` their terminators: put together
      they rebuild `s`, and they are delimited as `str.splitlines()` does it. */
  ghost predicate LinesOf(s: string, lines: seq<string>, ends: seq<string>) {
    |ends| == |lines| && Interleave(lines, ends) == s && Delimited(lines, ends)
  }

  /** The terminators `SplitLines` removes, one per line. */
  function LineEnds(s: string): seq<string>
    decreases |s|
  {
    if s == [] then []
    else
      var n := LineEnd(s);
      if n == |s| then [[]]
      else
        var next := TerminatorEnd(s, n);
        [s[n..next]] + LineEnds(s[next..])
  }

  /** `s.splitlines()`: the lines of `s` without their terminators; a final
      terminator does not open an extra empty line and `\r\n` is one
      terminator. `SplitLinesRebuilds` shows that with the terminators it
      removed, the lines rebuild `s`. */
  function SplitLines(s: string): (lines: seq<string>)
    ensures forall k :: 0 <= k < |lines| ==> NoLineBreaks(lines[k])
    ensures lines == [] <==> s == []
    decreases |s|
  {
    if s == [] then []
    else
      var n := LineEnd(s);
      if n == |s| then [s]
      else [s[..n]] + SplitLines(s[TerminatorEnd(s, n)..])
  }

  /** The lines of `s` and the terminators removed from them, interleaved,
      give back `s`; every terminator is one of those `splitlines` knows. */
  lemma {:induction false} SplitLinesRebuilds(s: string)
    ensures LinesOf(s, SplitLines(s), LineEnds(s))
    decreases |s|
  {
    if s == [] {
    } else {
      var n := LineEnd(s);
      if n == |s| {
        assert Interleave([s], [[]]) == s + [] + [];
      } else {
        var next := TerminatorEnd(s, n);
        SplitLinesRebuilds(s[next..]);
        TerminatedLine(s, n, next, SplitLines(s[next..]), LineEnds(s[next..]));
      }
    }
  }

  /** Splitting off the first line and its terminator keeps `LinesOf`. */
  lemma TerminatedLine(s: string, n: nat, next: nat, rest: seq<string>, ends: seq<string>)
    requires n < |s| && n == LineEnd(s) && next == TerminatorEnd(s, n)
    requires LinesOf(s[next..], rest, ends)
    ensures LinesOf(s, [s[..n]] + rest, [s[n..next]] + ends)
  {
    var lines, all := [s[..n]] + rest, [s[n..next]] + ends;
    assert lines[1..] == rest && all[1..] == ends;
    assert Interleave(lines, all) == lines[0] + all[0] + Interleave(rest, ends);
    assert lines[0] + all[0] + Interleave(rest, ends) == s[..n] + s[n..next] + s[next..];
    SlicesRebuild(s, n, next);
    TerminatorAt(s, n, next);
    assert rest != [] && rest[0] == [] && ends[0] == "\n" ==> s[next..][0] == '\n';
  }

  lemma SlicesRebuild(s: string, i: nat, j: nat)
    requires i <= j <= |s|
    ensures s[..i] + s[i..j] + s[j..] == s
  {
    assert s[..i] + s[i..j] == s[..j];
  }

  /** The terminator at a line break is one `IsTerminator` accepts, and a lone
      `\r` is not followed by `\n`. */
  lemma TerminatorAt(s: string, n: nat, next: nat)
    requires n < |s| && IsLineBreak(s[n]) && next == TerminatorEnd(s, n)
    ensures IsTerminator(s[n..next])
    ensures s[n..next] == "\r" && next < |s| ==> s[next] != '\n'
  {
    if next == n + 2 {
      assert s[n..next] == [s[n], s[n + 1]];
    } else {
      assert s[n..next] == [s[n]];
    }
  }

  /** Each line followed by `\n`: the text `SplitLines` takes apart. */
  function JoinLines(lines: seq<string>): string {
    if lines == [] then [] else lines[0] + "\n" + JoinLines(lines[1..])
  }

  lemma {:induction false} LineEndOfTerminated(line: string, rest: string)
    requires NoLineBreaks(line)
    ensures LineEnd(line + "\n" + rest) == |line|
    decreases |line|
  {
    if line != [] {
      assert (line + "\n" + rest)[1..] == line[1..] + "\n" + rest;
      LineEndOfTerminated(line[1..], rest);
    }
  }

  /** A line ended by `\n` is split off the front of the text. */
  lemma SplitLinesTerminated(line: string, rest: string)
    requires NoLineBreaks(line)
    ensures SplitLines(line + "\n" + rest) == [line] + SplitLines(rest)
  {
    var s := line + "\n" + rest;
    LineEndOfTerminated(line, rest);
    assert s[|line|] == '\n';
    assert s[..|line|] == line;
    assert s[|line| + 1..] == rest;
  }

  /** Lines without line breaks survive joining and splitting unchanged. */
  lemma {:induction false} SplitLinesJoinLines(lines: seq<string>)
    requires forall k :: 0 <= k < |lines| ==> NoLineBreaks(lines[k])
    ensures SplitLines(JoinLines(lines)) == lines
    decreases |lines|
  {
    if lines != [] {
      var rest := JoinLines(lines[1..]);
      assert JoinLines(lines) == lines[0] + "\n" + rest;
      SplitLinesTerminated(lines[0], rest);
      SplitLinesJoinLines(lines[1..]);
      assert lines == [lines[0]] + lines[1..];
    }
  }

  // ---------------------------------------------------------------------------
  // str.split(sep, 1) and str.split(sep)
  // ---------------------------------------------------------------------------

  /** Index of the first `c` in `s`, or `|s|` when `c` does not occur. */
  function IndexOf(s: string, c: char): (n: nat)
    ensures n <= |s|
    ensures forall i :: 0 <= i < n ==> s[i] != c
    ensures n < |s| ==> s[n] == c
    ensures n == |s| <==> c !in s
  {
    if |s| == 0 || s[0] == c then 0 else 1 + IndexOf(s[1..], c)
  }

  /** `s.split(c, 1)` unpacked into two names: the text before the first `c` and
      everything after it, or `None` when `c` does not occur (the unpacking fails). */
  function SplitFirst(s: string, c: char): (r: Option<(string, string)>)
    ensures r.Some? <==> c in s
    ensures r.Some? ==> c !in r.value.0 && s == r.value.0 + [c] + r.value.1
  {
    var n := IndexOf(s, c);
    if n == |s| then None else Some((s[..n], s[n + 1..]))
  }

  /** The parts with `c` between neighbours: what `c.join(parts)` gives. */
  function JoinWith(parts: seq<string>, c: char): string {
    if parts == [] then []
    else if |parts| == 1 then parts[0]
    else parts[0] + [c] + JoinWith(parts[1..], c)
  }

  /** `s.split(c)`: the pieces between the occurrences of `c`; there is one more
      piece than there are occurrences and no piece contains `c`.
      `SplitJoin` shows that joining the pieces with `c` gives `s` back. */
  function Split(s: string, c: char): (parts: seq<string>)
    ensures |parts| == multiset(s)[c] + 1
    ensures forall k :: 0 <= k < |parts| ==> c !in parts[k]
    decreases |s|
  {
    var n := IndexOf(s, c);
    if n == |s| then
      assert multiset(s)[c] == 0;
      [s]
    else
      assert s == s[..n] + [c] + s[n + 1..];
      assert multiset(s[..n])[c] == 0;
      [s[..n]] + Split(s[n + 1..], c)
  }

  /** `c.join(s.split(c)) == s`. */
  lemma {:induction false} SplitJoin(s: string, c: char)
    ensures JoinWith(Split(s, c), c) == s
    decreases |s|
  {
    var n := IndexOf(s, c);
    if n == |s| {
      assert Split(s, c) == [s];
    } else {
      SplitJoin(s[n + 1..], c);
      JoinAtSeparator(s, c, n, Split(s[n + 1..], c));
      assert Split(s, c) == [s[..n]] + Split(s[n + 1..], c);
    }
  }

  /** Joining the text before position `n` with the pieces that rebuild the
      text after it gives `s` back, when `s[n]` is the separator. */
  lemma JoinAtSeparator(s: string, c: char, n: nat, rest: seq<string>)
    requires n < |s| && s[n] == c
    requires rest != [] && JoinWith(rest, c) == s[n + 1..]
    ensures JoinWith([s[..n]] + rest, c) == s
  {
    assert ([s[..n]] + rest)[1..] == rest;
    assert s == s[..n] + [c] + s[n + 1..];
  }

  /** The text after the last `c` in `s`, or all of `s` when `c` does not occur. */
  function AfterLast(s: string, c: char): (r: string)
    ensures |r| <= |s| && c !in r
  {
    if s == [] || s[|s| - 1] == c then []
    else AfterLast(s[..|s| - 1], c) + [s[|s| - 1]]
  }

  lemma {:induction false} AfterLastOf(a: string, c: char, b: string)
    requires c !in b
    ensures AfterLast(a + [c] + b, c) == b
    decreases |b|
  {
    var s := a + [c] + b;
    if b == [] {
      assert s[|s| - 1] == c;
    } else {
      var front := b[..|b| - 1];
      assert s[..|s| - 1] == a + [c] + front;
      AfterLastOf(a, c, front);
      assert b == front + [b[|b| - 1]];
    }
  }

  /** A text split at a separator that does not occur after it: the parts
      before and after are determined by the text. */
  lemma SeparatedAtLast(a: string, b: string, a2: string, b2: string, c: char)
    requires a + [c] + b == a2 + [c] + b2 && c !in b && c !in b2
    ensures a == a2 && b == b2
  {
    var s := a + [c] + b;
    AfterLastOf(a, c, b);
    AfterLastOf(a2, c, b2);
    assert a == s[..|a|];
    assert a2 == (a2 + [c] + b2)[..|a2|];
  }

  lemma SplitAroundSeparator(a: string, c: char, b: string)
    requires c !in a && c !in b
    ensures Split(a + [c] + b, c) == [a, b]
  {
    var s := a + [c] + b;
    assert IndexOf(s, c) == |a| by {
      assert s[|a|] == c;
      assert forall i :: 0 <= i < |a| ==> s[i] == a[i];
    }
    assert s[..|a|] == a;
    assert s[|a| + 1..] == b;
  }

  // ---------------------------------------------------------------------------
  // str(n) and int(s)
  // ---------------------------------------------------------------------------

  function DigitChar(d: nat): (c: char)
    requires d < 10
    ensures IsDigit(c)
  {
    ('0' as int + d) as char
  }

  function DigitValue(c: char): (d: nat)
    requires IsDigit(c)
    ensures d < 10
  {
    c as int - '0' as int
  }

  /** Decimal digits of `n` without leading zeros. */
  function NatToString(n: nat): (r: string)
    ensures |r| > 0 && AllDigits(r)
    ensures r[0] == '0' ==> n == 0 && |r| == 1
  {
    if n < 10 then [DigitChar(n)]
    else
      var front := NatToString(n / 10);
      assert (front + [DigitChar(n % 10)])[0] == front[0];
      front + [DigitChar(n % 10)]
  }

  /** `str(n)` for a Python int. */
  function IntToString(n: int): (r: string)
    ensures |r| > 0
    ensures r[0] == '-' <==> n < 0
    ensures forall i :: 0 < i < |r| ==> IsDigit(r[i])
    ensures n >= 0 ==> IsDigit(r[0])
    ensures n >= 0 && r[0] == '0' ==> r == "0"
    ensures n < 0 ==> |r| >= 2 && r[1] != '0'
  {
    if n < 0 then "-" + NatToString(-n) else NatToString(n)
  }

  /** The value of a string of decimal digits, most significant first. */
  function DigitsValue(ds: string): nat
    requires AllDigits(ds)
  {
    if ds == [] then 0 else DigitsValue(ds[..|ds| - 1]) * 10 + DigitValue(ds[|ds| - 1])
  }

  /** `int(s)` for a base-10 string: surrounding whitespace, an optional sign and
      at least one ASCII digit; `None` where Python raises `ValueError`. */
  function ParseInt(s: string): Option<int> {
    var t := Strip(s);
    if |t| > 0 && (t[0] == '-' || t[0] == '+') then
      var ds := t[1..];
      if |ds| > 0 && AllDigits(ds) then
        var v: int := DigitsValue(ds);
        Some(if t[0] == '-' then -v else v)
      else None
    else if |t| > 0 && AllDigits(t) then Some(DigitsValue(t))
    else None
  }

  lemma {:induction false} DigitsValueOfNat(n: nat)
    ensures DigitsValue(NatToString(n)) == n
  {
    if n >= 10 {
      var ds := NatToString(n);
      assert ds[..|ds| - 1] == NatToString(n / 10);
      DigitsValueOfNat(n / 10);
    }
  }

  lemma NumeralHasNoSpaces(s: string)
    requires forall i :: 0 <= i < |s| ==> IsDigit(s[i]) || s[i] == '-'
    ensures forall i :: 0 <= i < |s| ==> !IsSpace(s[i])
  {
  }

  /** `int(str(n)) == n` for every Python int `n`. */
  lemma ParseIntOfIntToString(n: int)
    ensures ParseInt(IntToString(n)) == Some(n)
  {
    if n < 0 {
      ParseIntOfNegative(n);
    } else {
      ParseIntOfNat(n);
    }
  }

  lemma ParseIntOfNat(n: int)
    requires n >= 0
    ensures ParseInt(IntToString(n)) == Some(n)
  {
    var s := NatToString(n);
    assert IntToString(n) == s;
    NumeralHasNoSpaces(s);
    StripNoSpaces(s);
    DigitsValueOfNat(n);
  }

  lemma ParseIntOfNegative(n: int)
    requires n < 0
    ensures ParseInt(IntToString(n)) == Some(n)
  {
    var ds := NatToString(-n);
    var s := "-" + ds;
    assert IntToString(n) == s;
    assert Strip(s) == s by {
      assert forall i :: 1 <= i < |s| ==> s[i] == ds[i - 1];
      NumeralHasNoSpaces(s);
      StripNoSpaces(s);
    }
    assert DigitsValue(ds) == -n by {
      DigitsValueOfNat(-n);
    }
    assert s[0] == '-' && s[1..] == ds && |ds| > 0 && AllDigits(ds);
  }

  lemma IntToStringHasNoChar(n: int, c: char)
    requires c != '-' && !IsDigit(c)
    ensures c !in IntToString(n)
  {
    var s := IntToString(n);
    if n < 0 {
      assert s == "-" + NatToString(-n);
      assert forall i :: 1 <= i < |s| ==> IsDigit(s[i]);
    }
  }

  // ---------------------------------------------------------------------------
  // os.path.join(a, b)
  // ---------------------------------------------------------------------------

  /** `os.path.join(a, b)` on POSIX: an absolute `b` replaces `a`; otherwise
      `b` is appended, with a `/` in between unless `a` is empty or ends in one. */
  function PathJoin(a: string, b: string): (r: string)
    ensures |b| > 0 && b[0] == '/' ==> r == b
    ensures !(|b| > 0 && b[0] == '/') ==> |r| >= |a| + |b| && r[..|a|] == a && r[|r| - |b|..] == b
    ensures !(|b| > 0 && b[0] == '/') ==> |r| <= |a| + |b| + 1
    ensures !(|b| > 0 && b[0] == '/') ==> (|r| == |a| + |b| <==> a == [] || a[|a| - 1] == '/')
    ensures !(|b| > 0 && b[0] == '/') && |r| == |a| + |b| + 1 ==> r[|a|] == '/'
  {
    if |b| > 0 && b[0] == '/' then b
    else if a == [] || a[|a| - 1] == '/' then a + b
    else a + "/" + b
  }
}
