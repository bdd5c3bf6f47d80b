/**
 * String building blocks for the regular expressions and the string methods
 * the Python code uses: a leftmost search (re.search), runs of a character
 * class, str.split on one character and str.rfind.
 */
module Text {
  import opened Wrappers

  predicate StartsWith(s: string, prefix: string) {
    |prefix| <= |s| && s[..|prefix|] == prefix
  }

  /** Past the first character of an occurrence, the rest of the pattern occurs. */
  lemma {:induction false} StartsWithNext(s: string, i: nat, p: string)
    requires i < |s| && |p| > 0 && StartsWith(s[i..], p)
    ensures StartsWith(s[i + 1..], p[1..])
  {
    forall j | 0 <= j < |p| - 1
      ensures s[i + 1..][j] == p[1..][j]
    {
      assert s[i + 1..][j] == s[i..][j + 1];
    }
  }

  /** An occurrence of `p + q` is an occurrence of `p`. */
  lemma {:induction false} StartsWithPrefix(s: string, p: string, q: string)
    requires StartsWith(s, p + q)
    ensures StartsWith(s, p)
  {
    assert s[..|p|] == (p + q)[..|p|];
  }

  /** Concatenation regroups freely. */
  lemma ConcatAssoc(a: string, b: string, c: string)
    ensures a + b + c == a + (b + c)
  {
  }

  /**
   * The leftmost position where `p` holds of the rest of `s`: how re.search
   * tries a pattern at 0, 1, ..., |s| and stops at the first match.
   */
  function Find(s: string, p: string -> bool): (r: Option<nat>)
    ensures r.Some? ==> r.value <= |s| && p(s[r.value..])
    ensures r.Some? ==> forall j :: 0 <= j < r.value ==> !p(s[j..])
    ensures r.None? ==> forall j :: 0 <= j <= |s| ==> !p(s[j..])
    decreases |s|
  {
    if p(s) then Some(0)
    else if s == [] then None
    else
      assert forall j :: 1 <= j <= |s| ==> s[1..][j - 1..] == s[j..];
      match Find(s[1..], p)
      case None => None
      case Some(k) => Some(k + 1)
  }

  /** Python's `sub in s`. */
  function Contains(s: string, sub: string): (b: bool)
    ensures b <==> exists i :: 0 <= i <= |s| && StartsWith(s[i..], sub)
  {
    Find(s, t => StartsWith(t, sub)).Some?
  }

  /** The character classes the patterns use. */
  datatype CharClass =
    | Space                 // \s
    | AsciiAlnum            // [a-zA-Z0-9]
    | HexDigit              // [0-9A-Fa-f]
    | NotChar(c: char)      // [^c]
    | NotSpaceNor(c: char)  // [^\sc]

  predicate InClass(c: char, k: CharClass) {
    match k
    case Space => IsSpace(c)
    case AsciiAlnum => IsAsciiAlnum(c)
    case HexDigit => IsHexDigit(c)
    case NotChar(x) => c != x
    case NotSpaceNor(x) => !IsSpace(c) && c != x
  }

  /**
   * The length of the longest run of class-`k` characters in `s` starting at
   * position `i`: how far a greedy `[...]*` tried there reaches.
   */
  function SpanAt(s: string, i: nat, k: CharClass): (n: nat)
    requires i <= |s|
    ensures i + n <= |s|
    decreases |s| - i
  {
    if i == |s| || !InClass(s[i], k) then 0 else 1 + SpanAt(s, i + 1, k)
  }

  /** The span is a run of class characters, ended by the end of `s` or by another character. */
  lemma {:induction false} SpanAtChars(s: string, i: nat, k: CharClass)
    requires i <= |s|
    ensures forall j :: i <= j < i + SpanAt(s, i, k) ==> InClass(s[j], k)
    ensures i + SpanAt(s, i, k) < |s| ==> !InClass(s[i + SpanAt(s, i, k)], k)
    decreases |s| - i
  {
    if i < |s| && InClass(s[i], k) {
      SpanAtChars(s, i + 1, k);
    }
  }

  /** Conversely, a run of `n` class characters at `i`, ended by the end of `s` or by another character, is the span. */
  lemma {:induction false} SpanAtRun(s: string, i: nat, n: nat, k: CharClass)
    requires i + n <= |s|
    requires forall j :: i <= j < i + n ==> InClass(s[j], k)
    requires i + n == |s| || !InClass(s[i + n], k)
    ensures SpanAt(s, i, k) == n
    decreases n
  {
    if n > 0 {
      SpanAtRun(s, i + 1, n - 1, k);
    }
  }

  /** The text at `i` is a run `x` of class characters followed by `t`, which does not start with one. */
  lemma {:induction false} RunOf(s: string, i: nat, x: string, t: string, k: CharClass)
    requires i <= |s| && s[i..] == x + t
    requires forall j :: 0 <= j < |x| ==> InClass(x[j], k)
    requires t == [] || !InClass(t[0], k)
    ensures SpanAt(s, i, k) == |x|
    ensures s[i + |x|..] == t
  {
    assert forall j :: i <= j < |s| ==> s[j] == s[i..][j - i];
    SpanAtRun(s, i, |x|, k);
    assert s[i + |x|..] == s[i..][|x|..];
  }

  /** A slice splits at any point between its ends. */
  lemma {:induction false} SliceSplit(s: string, a: nat, b: nat, c: nat)
    requires a <= b <= c <= |s|
    ensures s[a..c] == s[a..b] + s[b..c]
  {
    assert forall j :: 0 <= j < c - a ==> s[a..c][j] == s[a + j];
  }

  /** Characters Python's `\s` matches in a str pattern (those for which str.isspace holds). */
  predicate IsSpace(c: char) {
    c == ' ' || c == '\t' || c == '\n' || c == '\r' || c == '\U{000B}' || c == '\U{000C}'
    || ('\U{001C}' <= c <= '\U{001F}') || c == '\U{0085}' || c == '\U{00A0}' || c == '\U{1680}'
    || ('\U{2000}' <= c <= '\U{200A}') || c == '\U{2028}' || c == '\U{2029}' || c == '\U{202F}'
    || c == '\U{205F}' || c == '\U{3000}'
  }

  /** The class `[a-zA-Z0-9]`. */
  predicate IsAsciiAlnum(c: char) {
    ('a' <= c <= 'z') || ('A' <= c <= 'Z') || ('0' <= c <= '9')
  }

  /** The class `[0-9A-Fa-f]`. */
  predicate IsHexDigit(c: char) {
    ('0' <= c <= '9') || ('a' <= c <= 'f') || ('A' <= c <= 'F')
  }

  /** A greedy run of class `k` that stops at `e`: `s` ends there or holds another character there. */
  predicate RunEndsAt(s: string, e: nat, k: CharClass) {
    e == |s| || (e < |s| && !InClass(s[e], k))
  }

  /** Where a run stops, read in a suffix of `s` or in `s` itself. */
  lemma {:induction false} RunEndsAtShift(s: string, i: nat, e: nat, k: CharClass)
    requires i + e <= |s|
    ensures RunEndsAt(s[i..], e, k) <==> RunEndsAt(s, i + e, k)
  {
    if i + e < |s| {
      assert s[i..][e] == s[i + e];
    }
  }

  /** Where `lit` followed by one or more characters of class `cls` starts `s`. */
  predicate LiteralThenRunAt(s: string, lit: string, cls: CharClass) {
    StartsWith(s, lit) && SpanAt(s, |lit|, cls) > 0
  }

  /** Where re.search finds `lit(C+)`. */
  function FirstLiteralRun(s: string, lit: string, cls: CharClass): (r: Option<nat>)
    ensures r.Some? ==> r.value <= |s| && LiteralThenRunAt(s[r.value..], lit, cls)
    ensures r.Some? ==> forall j :: 0 <= j < r.value ==> !LiteralThenRunAt(s[j..], lit, cls)
    ensures r.None? ==> forall j :: 0 <= j <= |s| ==> !LiteralThenRunAt(s[j..], lit, cls)
  {
    Find(s, t => LiteralThenRunAt(t, lit, cls))
  }

  /** The run of class-`cls` characters right after the literal `lit` at the start of `t`. */
  function RunAfter(t: string, lit: string, cls: CharClass): string
    requires |lit| <= |t|
  {
    t[|lit|..|lit| + SpanAt(t, |lit|, cls)]
  }

  /** At a match of `lit(C+)` at `k`, the run after `lit` is non-empty, all C and greedy. */
  lemma {:induction false} RunAfterMatch(s: string, k: nat, lit: string, cls: CharClass)
    requires k <= |s| && LiteralThenRunAt(s[k..], lit, cls)
    ensures var run := RunAfter(s[k..], lit, cls);
            |run| > 0 && (forall i :: 0 <= i < |run| ==> InClass(run[i], cls))
            && StartsWith(s[k..], lit + run) && RunEndsAt(s, k + |lit| + |run|, cls)
  {
    var t := s[k..];
    var run := RunAfter(t, lit, cls);
    SpanAtChars(t, |lit|, cls);
    assert t[..|lit| + |run|] == lit + run;
    RunEndsAtShift(s, k, |lit| + |run|, cls);
  }

  /**
   * The greedy group of the leftmost match of `lit(C+)` in `s`, for a literal
   * `lit` without regular-expression metacharacters and a character class C:
   * at the leftmost match, the run after `lit` stops only where C does.
   */
  function LiteralThenRun(s: string, lit: string, cls: CharClass): (r: Option<string>)
    ensures r.Some? ==> |r.value| > 0 && forall i :: 0 <= i < |r.value| ==> InClass(r.value[i], cls)
    ensures r.Some? <==> FirstLiteralRun(s, lit, cls).Some?
    ensures r.Some? ==> var i := FirstLiteralRun(s, lit, cls).value;
                        StartsWith(s[i..], lit + r.value) && RunEndsAt(s, i + |lit| + |r.value|, cls)
  {
    match FirstLiteralRun(s, lit, cls)
    case None => None
    case Some(k) =>
      RunAfterMatch(s, k, lit, cls);
      Some(RunAfter(s[k..], lit, cls))
  }

  /** Where `lit` and a greedy run of class `cls` start `t`, the run is what follows the literal. */
  lemma {:induction false} RunAfterOf(t: string, lit: string, cls: CharClass, run: string)
    requires |run| > 0 && forall j :: 0 <= j < |run| ==> InClass(run[j], cls)
    requires StartsWith(t, lit + run) && RunEndsAt(t, |lit| + |run|, cls)
    ensures LiteralThenRunAt(t, lit, cls) && RunAfter(t, lit, cls) == run
  {
    assert t[..|lit| + |run|] == lit + run;
    assert forall j :: |lit| <= j < |lit| + |run| ==> t[j] == run[j - |lit|];
    SpanAtRun(t, |lit|, |run|, cls);
    assert t[..|lit|] == lit;
    assert t[|lit|..|lit| + |run|] == run;
  }

  /**
   * Conversely, the leftmost place where `lit` is followed by a run of
   * class-`cls` characters, taken up to where the class stops, is the match.
   */
  lemma {:induction false} LiteralThenRunIs(s: string, lit: string, cls: CharClass, i: nat, run: string)
    requires i <= |s| && forall j :: 0 <= j < i ==> !LiteralThenRunAt(s[j..], lit, cls)
    requires |run| > 0 && forall j :: 0 <= j < |run| ==> InClass(run[j], cls)
    requires StartsWith(s[i..], lit + run) && RunEndsAt(s, i + |lit| + |run|, cls)
    ensures LiteralThenRun(s, lit, cls) == Some(run)
  {
    RunEndsAtShift(s, i, |lit| + |run|, cls);
    RunAfterOf(s[i..], lit, cls, run);
    assert FirstLiteralRun(s, lit, cls) == Some(i);
  }

  /** The `[a-zA-Z0-9]+` group of the leftmost match of `lit([a-zA-Z0-9]+)` in `s`. */
  function LiteralThenAlnum(s: string, lit: string): Option<string> {
    LiteralThenRun(s, lit, AsciiAlnum)
  }

  /** str.split(sep): the pieces between occurrences of `sep`. */
  function Split(s: string, sep: char): (parts: seq<string>)
    ensures |parts| >= 1
    ensures forall k :: 0 <= k < |parts| ==> sep !in parts[k]
    decreases |s|
  {
    var n := SpanAt(s, 0, NotChar(sep));
    SpanAtChars(s, 0, NotChar(sep));
    if n == |s| then [s] else [s[..n]] + Split(s[n + 1..], sep)
  }

  /** sep.join(parts). */
  function Join(parts: seq<string>, sep: char): string
    requires |parts| >= 1
  {
    if |parts| == 1 then parts[0] else parts[0] + [sep] + Join(parts[1..], sep)
  }

  /** Splitting loses nothing: joining the pieces again gives back the string. */
  lemma {:induction false} JoinSplit(s: string, sep: char)
    ensures Join(Split(s, sep), sep) == s
    decreases |s|
  {
    var n := SpanAt(s, 0, NotChar(sep));
    SpanAtChars(s, 0, NotChar(sep));
    if n < |s| {
      JoinSplit(s[n + 1..], sep);
      assert s == s[..n] + [sep] + s[n + 1..];
    }
  }

  /** Splitting a string that starts with a piece free of `sep` and then `sep`. */
  lemma {:induction false} SplitCons(x: string, sep: char, y: string)
    requires sep !in x
    ensures Split(x + [sep] + y, sep) == [x] + Split(y, sep)
  {
    var s := x + [sep] + y;
    RunOf(s, 0, x, [sep] + y, NotChar(sep));
    assert s[..|x|] == x;
  }

  /** A string without `sep` splits into itself alone. */
  lemma {:induction false} SplitNoSep(s: string, sep: char)
    requires sep !in s
    ensures Split(s, sep) == [s]
  {
    SpanAtRun(s, 0, |s|, NotChar(sep));
  }

  /** Joining pieces free of `sep` and splitting again gives back the pieces. */
  lemma {:induction false} SplitJoin(parts: seq<string>, sep: char)
    requires |parts| >= 1
    requires forall k :: 0 <= k < |parts| ==> sep !in parts[k]
    ensures Split(Join(parts, sep), sep) == parts
  {
    if |parts| == 1 {
      SplitNoSep(parts[0], sep);
    } else {
      SplitJoin(parts[1..], sep);
      SplitCons(parts[0], sep, Join(parts[1..], sep));
      assert parts == [parts[0]] + parts[1..];
    }
  }

  /** The position of the last occurrence of `c` in `s`. */
  function LastIndexOf(s: string, c: char): (r: Option<nat>)
    ensures r.Some? ==> r.value < |s| && s[r.value] == c
    ensures r.Some? ==> forall j :: r.value < j < |s| ==> s[j] != c
    ensures r.None? <==> c !in s
  {
    if s == [] then None
    else if s[|s| - 1] == c then Some(|s| - 1)
    else
      assert s == s[..|s| - 1] + [s[|s| - 1]];
      LastIndexOf(s[..|s| - 1], c)
  }
}
