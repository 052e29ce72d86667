/** Python string primitives used by the bot, stated on `seq<char>`.
    Whitespace is Python's: the characters for which `str.isspace()` holds,
    which is also what `\s` matches in a `str` regular expression and what
    `str.split()` and `str.strip()` remove. */
module Text {

  datatype Option<+T> = None | Some(value: T)

  /** Python truth of an optional string: present and non-empty. */
  predicate Truthy(s: Option<string>) {
    s.Some? && s.value != []
  }

  /** The characters for which Python's `str.isspace()` holds: the space,
      tab to carriage return, the four information separators, NEL,
      no-break space, the Ogham space mark, the Unicode spaces U+2000 to
      U+200A, the line and paragraph separators, and U+202F, U+205F and
      U+3000. */
  predicate IsSpace(c: char) {
    || c == ' ' || '\t' <= c <= '\r' || '\U{1c}' <= c <= '\U{1f}'
    || c == '\U{85}' || c == '\U{a0}' || c == '\U{1680}'
    || '\U{2000}' <= c <= '\U{200a}' || c == '\U{2028}' || c == '\U{2029}'
    || c == '\U{202f}' || c == '\U{205f}' || c == '\U{3000}'
  }

  predicate StartsWith(s: string, p: string) {
    |p| <= |s| && s[..|p|] == p
  }

  predicate EndsWith(s: string, p: string) {
    |p| <= |s| && s[|s| - |p|..] == p
  }

  /** Python's `p in s` for strings. */
  predicate Contains(s: string, p: string)
    decreases |s|
  {
    StartsWith(s, p) || (s != [] && Contains(s[1..], p))
  }

  lemma {:induction false} ContainsAt(s: string, p: string, i: nat)
    requires i + |p| <= |s| && s[i..i + |p|] == p
    ensures Contains(s, p)
    decreases i
  {
    if i > 0 {
      assert s[1..][i - 1..i - 1 + |p|] == s[i..i + |p|];
      ContainsAt(s[1..], p, i - 1);
    } else {
      assert s[..|p|] == s[0..0 + |p|];
    }
  }

  lemma {:induction false} ContainsLength(s: string, p: string)
    ensures Contains(s, p) ==> |p| <= |s|
    decreases |s|
  {
    if s != [] {
      ContainsLength(s[1..], p);
    }
  }

  lemma {:induction false} ContainsChar(s: string, c: char)
    ensures Contains(s, [c]) <==> c in s
    decreases |s|
  {
    if s != [] {
      ContainsChar(s[1..], c);
      assert c in s <==> s[0] == c || c in s[1..];
    }
  }

  /** ASCII lower-casing: the case folding the model applies. */
  function Lower(c: char): (r: char)
    ensures 'A' <= c <= 'Z' ==> r as int == c as int + 32
    ensures !('A' <= c <= 'Z') ==> r == c
  {
    if 'A' <= c <= 'Z' then (c as int + 32) as char else c
  }

  function Fold(s: string): (r: string)
    ensures |r| == |s|
    ensures forall i :: 0 <= i < |s| ==> r[i] == Lower(s[i])
  {
    seq(|s|, i requires 0 <= i < |s| => Lower(s[i]))
  }

  /** `s.startswith(p)` under the case folding of `re.IGNORECASE`, or exactly
      when `ci` is false. */
  predicate StartsWithCase(s: string, p: string, ci: bool) {
    |p| <= |s| && (if ci then Fold(s[..|p|]) == Fold(p) else s[..|p|] == p)
  }

  lemma {:induction false} ExactImpliesCase(s: string, p: string, ci: bool)
    requires StartsWith(s, p)
    ensures StartsWithCase(s, p, ci)
  {
  }

  /** Python's `s.lstrip()`. */
  function TrimLeft(s: string): (r: string)
    ensures |r| <= |s| && r == s[|s| - |r|..]
    ensures r == [] || !IsSpace(r[0])
    decreases |s|
  {
    if s != [] && IsSpace(s[0]) then TrimLeft(s[1..]) else s
  }

  /** All that `lstrip` cuts off is whitespace. */
  lemma {:induction false} TrimLeftCut(s: string)
    ensures forall i :: 0 <= i < |s| - |TrimLeft(s)| ==> IsSpace(s[i])
    decreases |s|
  {
    if s != [] && IsSpace(s[0]) {
      TrimLeftCut(s[1..]);
      assert forall i :: 1 <= i < |s| ==> s[i] == s[1..][i - 1];
    }
  }

  /** Python's `s.rstrip()`. */
  function TrimRight(s: string): (r: string)
    ensures |r| <= |s| && r == s[..|r|]
    ensures r == [] || !IsSpace(r[|r| - 1])
    decreases |s|
  {
    if s != [] && IsSpace(s[|s| - 1]) then
      var t := s[..|s| - 1];
      var r := TrimRight(t);
      assert t[..|r|] == s[..|r|];
      r
    else s
  }

  /** All that `rstrip` cuts off is whitespace. */
  lemma {:induction false} TrimRightCut(s: string)
    ensures forall i :: |TrimRight(s)| <= i < |s| ==> IsSpace(s[i])
    decreases |s|
  {
    if s != [] && IsSpace(s[|s| - 1]) {
      var t := s[..|s| - 1];
      TrimRightCut(t);
      assert forall i :: 0 <= i < |t| ==> t[i] == s[i];
    }
  }

  /** A string that starts with a non-whitespace character keeps it under
      `rstrip`. */
  lemma {:induction false} TrimRightKeeps(s: string)
    requires s != [] && !IsSpace(s[0])
    ensures TrimRight(s) != []
  {
    TrimRightCut(s);
  }

  /** Python's `s.strip()`: `s` without its leading and trailing
      whitespace. */
  function Strip(s: string): (r: string)
    ensures |r| <= |s|
    ensures r == [] || (!IsSpace(r[0]) && !IsSpace(r[|r| - 1]))
  {
    TrimRight(TrimLeft(s))
  }

  /** The strip of `s` is the slice of `s` between a run of leading and a
      run of trailing whitespace. */
  lemma {:induction false} StripSlice(s: string) returns (lo: nat, hi: nat)
    ensures lo <= hi <= |s| && Strip(s) == s[lo..hi]
    ensures forall i :: 0 <= i < lo ==> IsSpace(s[i])
    ensures forall i :: hi <= i < |s| ==> IsSpace(s[i])
  {
    var t := TrimLeft(s);
    var r := TrimRight(t);
    TrimLeftCut(s);
    TrimRightCut(t);
    lo := |s| - |t|;
    hi := lo + |r|;
    assert r == s[lo..hi];
    forall i | hi <= i < |s|
      ensures IsSpace(s[i])
    {
      assert s[i] == t[i - lo];
    }
  }

  /** A string that neither starts nor ends with whitespace is its own strip. */
  lemma {:induction false} StripUntouched(s: string)
    requires s == [] || (!IsSpace(s[0]) && !IsSpace(s[|s| - 1]))
    ensures Strip(s) == s
  {
    assert TrimLeft(s) == s;
    assert TrimRight(s) == s;
  }

  /** Python's `s.replace(pat, rep)` for a non-empty `pat`: occurrences are
      found left to right and never overlap. */
  function Replace(s: string, pat: string, rep: string): string
    requires pat != []
    decreases |s|
  {
    if |s| < |pat| then s
    else if s[..|pat|] == pat then rep + Replace(s[|pat|..], pat, rep)
    else [s[0]] + Replace(s[1..], pat, rep)
  }

  /** Replacing a pattern that does not occur changes nothing. */
  lemma {:induction false} ReplaceAbsent(s: string, pat: string, rep: string)
    requires pat != [] && !Contains(s, pat)
    ensures Replace(s, pat, rep) == s
    decreases |s|
  {
    if |s| >= |pat| {
      ReplaceAbsent(s[1..], pat, rep);
    }
  }

  /** A stretch without the pattern's first character passes through untouched. */
  lemma {:induction false} ReplacePeel(w: string, x: string, pat: string, rep: string)
    requires pat != [] && pat[0] !in w
    ensures Replace(w + x, pat, rep) == w + Replace(x, pat, rep)
    decreases |w|
  {
    if w == [] {
      assert w + x == x;
    } else {
      var s := w + x;
      if |s| < |pat| {
        assert Replace(x, pat, rep) == x;
      } else {
        assert s[..|pat|][0] == w[0] && w[0] in w;
        assert s[..|pat|] != pat;
        assert Replace(s, pat, rep) == [w[0]] + Replace(s[1..], pat, rep);
        assert s[1..] == w[1..] + x;
        ReplacePeel(w[1..], x, pat, rep);
      }
    }
  }

  /** Where the pattern does not start, the first character is kept. */
  lemma {:induction false} ReplaceKeep(s: string, pat: string, rep: string)
    requires pat != [] && s != [] && !StartsWith(s, pat)
    ensures Replace(s, pat, rep) == [s[0]] + Replace(s[1..], pat, rep)
  {
    if |s| < |pat| {
      assert Replace(s[1..], pat, rep) == s[1..];
      assert s == [s[0]] + s[1..];
    }
  }

  /** A pattern at the very start is replaced. */
  lemma {:induction false} ReplaceAtStart(b: string, pat: string, rep: string)
    requires pat != []
    ensures Replace(pat + b, pat, rep) == rep + Replace(b, pat, rep)
  {
    var s := pat + b;
    assert s[..|pat|] == pat;
    assert s[|pat|..] == b;
  }

  /** Dropping the first character of `a` keeps the pattern out of `a`'s positions. */
  lemma {:induction false} NoPatternShift(a: string, b: string, pat: string)
    requires a != []
    requires forall i :: 0 <= i < |a| ==> !StartsWith((a + pat + b)[i..], pat)
    ensures !StartsWith(a + pat + b, pat)
    ensures (a + pat + b)[1..] == a[1..] + pat + b
    ensures forall i :: 0 <= i < |a[1..]| ==> !StartsWith((a[1..] + pat + b)[i..], pat)
  {
    var s := a + pat + b;
    var t := a[1..] + pat + b;
    assert s[0..] == s;
    assert s[1..] == t;
    forall i | 0 <= i < |a[1..]|
      ensures !StartsWith(t[i..], pat)
    {
      assert t[i..] == s[i + 1..];
    }
  }

  /** The first occurrence of the pattern is replaced where it stands: the
      text before it is kept and the rest is replaced in turn. */
  lemma {:induction false} ReplaceFirst(a: string, b: string, pat: string, rep: string)
    requires pat != []
    requires forall i :: 0 <= i < |a| ==> !StartsWith((a + pat + b)[i..], pat)
    ensures Replace(a + pat + b, pat, rep) == a + rep + Replace(b, pat, rep)
    decreases |a|
  {
    if a == [] {
      assert a + pat + b == pat + b;
      ReplaceAtStart(b, pat, rep);
    } else {
      NoPatternShift(a, b, pat);
      ReplaceKeep(a + pat + b, pat, rep);
      ReplaceFirst(a[1..], b, pat, rep);
      assert a == [a[0]] + a[1..];
    }
  }

  /** Index of the first `c` in `s`. */
  function IndexOf(s: string, c: char): (k: nat)
    requires c in s
    ensures k < |s| && s[k] == c && c !in s[..k]
  {
    if s[0] == c then 0
    else
      assert c in s[1..];
      var k := IndexOf(s[1..], c);
      assert s[..k + 1] == [s[0]] + s[1..][..k];
      k + 1
  }

  /** Python's `s.split(sep)` for a one-character separator. */
  function Split(s: string, sep: char): (parts: seq<string>)
    ensures |parts| >= 1
    ensures forall i :: 0 <= i < |parts| ==> sep !in parts[i]
    decreases |s|
  {
    if sep !in s then [s]
    else
      var k := IndexOf(s, sep);
      [s[..k]] + Split(s[k + 1..], sep)
  }

  /** Python's `sep.join(parts)`. */
  function Join(parts: seq<string>, sep: char): string {
    if parts == [] then []
    else if |parts| == 1 then parts[0]
    else parts[0] + [sep] + Join(parts[1..], sep)
  }

  /** Joining the pieces of a split gives the string back. */
  lemma {:induction false} JoinSplit(s: string, sep: char)
    ensures Join(Split(s, sep), sep) == s
    decreases |s|
  {
    if sep in s {
      var k := IndexOf(s, sep);
      JoinSplit(s[k + 1..], sep);
      JoinCons(s[..k], Split(s[k + 1..], sep), sep);
      assert s == s[..k] + [sep] + s[k + 1..];
    }
  }

  /** A join of several parts is the first, the separator and the join of
      the rest. */
  lemma JoinCons(first: string, rest: seq<string>, sep: char)
    requires rest != []
    ensures Join([first] + rest, sep) == first + [sep] + Join(rest, sep)
  {
    assert ([first] + rest)[1..] == rest;
  }

  /** Splitting a join of separator-free pieces gives the pieces back. */
  lemma {:induction false} SplitJoin(parts: seq<string>, sep: char)
    requires |parts| >= 1
    requires forall i :: 0 <= i < |parts| ==> sep !in parts[i]
    ensures Split(Join(parts, sep), sep) == parts
    decreases |parts|
  {
    if |parts| > 1 {
      var s := Join(parts, sep);
      assert s == parts[0] + [sep] + Join(parts[1..], sep);
      assert s[|parts[0]|] == sep;
      assert s[..|parts[0]|] == parts[0];
      var k := IndexOf(s, sep);
      assert s[..k] == parts[0];
      assert s[k + 1..] == Join(parts[1..], sep);
      SplitJoin(parts[1..], sep);
    }
  }

  /** A split into exactly two pieces means exactly one separator, between them. */
  lemma {:induction false} SplitTwo(s: string, sep: char)
    requires |Split(s, sep)| == 2
    ensures s == Split(s, sep)[0] + [sep] + Split(s, sep)[1]
  {
    JoinSplit(s, sep);
  }

  predicate IsDigit(c: char) {
    '0' <= c <= '9'
  }

  predicate AllDigits(s: string) {
    forall i :: 0 <= i < |s| ==> IsDigit(s[i])
  }

  /** Value of a string of decimal digits, as Python's `int()` reads it. */
  function DigitsValue(s: string): nat
    requires AllDigits(s)
    decreases |s|
  {
    if s == [] then 0
    else DigitsValue(s[..|s| - 1]) * 10 + (s[|s| - 1] as int - '0' as int)
  }

  /** Decimal digits of `n`, as Python's `str(n)` writes it. */
  function DigitsOf(n: nat): (s: string)
    ensures s != [] && AllDigits(s)
    decreases n
  {
    if n < 10 then ['0' + n as char] else DigitsOf(n / 10) + ['0' + (n % 10) as char]
  }

  /** Reading back the digits of a number gives the number. */
  lemma {:induction false} DigitsRoundTrip(n: nat)
    ensures DigitsValue(DigitsOf(n)) == n
    decreases n
  {
    var s := DigitsOf(n);
    if n >= 10 {
      DigitsRoundTrip(n / 10);
      assert s[..|s| - 1] == DigitsOf(n / 10);
    }
  }
}
