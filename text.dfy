/**
 * The handful of Python `str` operations the parsers rely on, stated over
 * `string` (a sequence of Unicode scalar values):
 *  - `str.isspace()` / `str.strip()`,
 *  - `str.split(sep)` and its inverse `sep.join(parts)`,
 *  - `str.splitlines()` as far as non-blank lines are concerned,
 *  - `str.find(sub)` / `sub in s`,
 *  - `str.lower()` restricted to ASCII letters.
 */
module Text {
  import opened Wrappers

  /** No element occurs twice. */
  predicate Distinct<T(==)>(s: seq<T>) {
    forall i, j | 0 <= i < j < |s| :: s[i] != s[j]
  }

  lemma DistinctCons<T>(x: T, s: seq<T>)
    ensures Distinct([x] + s) <==> x !in s && Distinct(s)
  {
    if x !in s && Distinct(s) {
      forall i, j | 0 <= i < j < |[x] + s| ensures ([x] + s)[i] != ([x] + s)[j] {
        if i > 0 { assert ([x] + s)[i] == s[i - 1]; }
        assert ([x] + s)[j] == s[j - 1];
      }
    }
    if Distinct([x] + s) {
      forall i, j | 0 <= i < j < |s| ensures s[i] != s[j] {
        assert s[i] == ([x] + s)[i + 1] && s[j] == ([x] + s)[j + 1];
      }
      forall i | 0 <= i < |s| ensures s[i] != x {
        assert s[i] == ([x] + s)[i + 1] && x == ([x] + s)[0];
      }
    }
  }

  lemma DistinctSnoc<T>(s: seq<T>, x: T)
    ensures Distinct(s + [x]) <==> x !in s && Distinct(s)
  {
    if Distinct(s + [x]) {
      forall i | 0 <= i < |s| ensures s[i] != x {
        assert s[i] == (s + [x])[i] && x == (s + [x])[|s|];
      }
      forall i, j | 0 <= i < j < |s| ensures s[i] != s[j] {
        assert s[i] == (s + [x])[i] && s[j] == (s + [x])[j];
      }
    }
  }

  lemma DistinctConcat<T>(a: seq<T>, b: seq<T>)
    requires Distinct(a) && Distinct(b)
    requires forall i, j | 0 <= i < |a| && 0 <= j < |b| :: a[i] != b[j]
    ensures Distinct(a + b)
  {
    forall i, j | 0 <= i < j < |a + b| ensures (a + b)[i] != (a + b)[j] {
      if j >= |a| {
        assert (a + b)[j] == b[j - |a|];
        if i >= |a| {
          assert (a + b)[i] == b[i - |a|];
        }
      }
    }
  }

  /** The characters for which Python's `str.isspace()` is true. */
  predicate IsSpace(c: char) {
    || ('\t' <= c <= '\r')                 // \t \n \v \f \r
    || ('\U{1C}' <= c <= '\U{1F}')         // file, group, record and unit separators
    || c == ' '
    || c == '\U{85}' || c == '\U{A0}' || c == '\U{1680}'
    || ('\U{2000}' <= c <= '\U{200A}')
    || c == '\U{2028}' || c == '\U{2029}' || c == '\U{202F}' || c == '\U{205F}' || c == '\U{3000}'
  }

  predicate AllSpace(s: string) {
    forall i | 0 <= i < |s| :: IsSpace(s[i])
  }

  /** Neither starts nor ends with whitespace: what `strip()` returns. */
  predicate IsStripped(s: string) {
    s == [] || (!IsSpace(s[0]) && !IsSpace(s[|s| - 1]))
  }

  function StripLeft(s: string): string {
    if s != [] && IsSpace(s[0]) then StripLeft(s[1..]) else s
  }

  function StripRight(s: string): string {
    if s != [] && IsSpace(s[|s| - 1]) then StripRight(s[..|s| - 1]) else s
  }

  /** `lstrip()` removes a whitespace prefix and leaves text that does not start with whitespace. */
  lemma {:induction false} StripLeftSpec(s: string)
    ensures var r := StripLeft(s); |r| <= |s| && r == s[|s| - |r|..] && AllSpace(s[..|s| - |r|])
    ensures StripLeft(s) == [] || !IsSpace(StripLeft(s)[0])
  {
    if s != [] && IsSpace(s[0]) {
      StripLeftSpec(s[1..]);
      var r := StripLeft(s[1..]);
      assert s[|s| - |r|..] == s[1..][|s| - 1 - |r|..];
    }
  }

  /** `rstrip()` removes a whitespace suffix and leaves text that does not end with whitespace. */
  lemma {:induction false} StripRightSpec(s: string)
    ensures var r := StripRight(s); |r| <= |s| && r == s[..|r|] && AllSpace(s[|r|..])
    ensures StripRight(s) == [] || !IsSpace(StripRight(s)[|StripRight(s)| - 1])
  {
    if s != [] && IsSpace(s[|s| - 1]) {
      var t := s[..|s| - 1];
      StripRightSpec(t);
      var r := StripRight(t);
      assert s[..|r|] == t[..|r|];
      assert forall i | 0 <= i < |s| - |r| - 1 :: s[|r|..][i] == t[|r|..][i];
    }
  }

  /**
   * Python's `s.strip()`. StripSpec shows it neither starts nor ends with
   * whitespace and is empty exactly when `s` is all whitespace; StripFramed
   * that it is a slice of `s` framed by whitespace; StripUnique that these
   * facts determine it.
   */
  function Strip(s: string): (r: string)
    ensures |r| <= |s|
  {
    StripLeftSpec(s);
    StripRightSpec(StripLeft(s));
    StripRight(StripLeft(s))
  }

  /** What `strip()` returns neither starts nor ends with whitespace, and is empty exactly for all-whitespace text. */
  lemma StripSpec(s: string)
    ensures IsStripped(Strip(s))
    ensures Strip(s) == [] <==> AllSpace(s)
  {
    var l := StripLeft(s);
    StripLeftSpec(s);
    StripRightSpec(l);
    var r := StripRight(l);
    if r == [] {
      assert AllSpace(l) by {
        assert l[|r|..] == l;
      }
      assert s == s[..|s| - |l|] + l;
    } else {
      var i := |s| - |l|;
      assert s[i] == l[0] && !IsSpace(l[0]);
    }
  }

  /** `strip()` removes whitespace from both ends and nothing else. */
  lemma StripFramed(s: string) returns (i: nat)
    ensures i + |Strip(s)| <= |s| && s[i..i + |Strip(s)|] == Strip(s)
    ensures AllSpace(s[..i]) && AllSpace(s[i + |Strip(s)|..])
  {
    var l := StripLeft(s);
    StripLeftSpec(s);
    StripRightSpec(l);
    var r := StripRight(l);
    i := |s| - |l|;
    FramedSlice(s, l, r);
  }

  lemma FramedSlice(s: string, l: string, r: string)
    requires |l| <= |s| && l == s[|s| - |l|..] && AllSpace(s[..|s| - |l|])
    requires |r| <= |l| && r == l[..|r|] && AllSpace(l[|r|..])
    ensures var i := |s| - |l|; s[i..i + |r|] == r && AllSpace(s[i + |r|..])
  {
    var i := |s| - |l|;
    assert s[i..i + |r|] == l[..|r|];
    assert s[i + |r|..] == l[|r|..];
  }

  lemma {:induction false} StripLeftOfSpaces(p: string, t: string)
    requires AllSpace(p)
    requires t == [] || !IsSpace(t[0])
    ensures StripLeft(p + t) == t
  {
    if p != [] {
      assert (p + t)[1..] == p[1..] + t;
      StripLeftOfSpaces(p[1..], t);
    }
  }

  lemma {:induction false} StripRightOfSpaces(t: string, q: string)
    requires AllSpace(q)
    requires t == [] || !IsSpace(t[|t| - 1])
    ensures StripRight(t + q) == t
  {
    if q != [] {
      assert (t + q)[..|t + q| - 1] == t + q[..|q| - 1];
      StripRightOfSpaces(t, q[..|q| - 1]);
    }
  }

  /** Whatever whitespace surrounds an already stripped text, `strip()` recovers that text exactly. */
  lemma StripUnique(p: string, core: string, q: string)
    requires AllSpace(p) && AllSpace(q) && IsStripped(core)
    ensures Strip(p + core + q) == core
  {
    if core == [] {
      StripSpec(p + core + q);
      assert AllSpace(p + core + q) by {
        forall i | 0 <= i < |p + core + q| ensures IsSpace((p + core + q)[i]) {
          if i >= |p| { assert (p + core + q)[i] == q[i - |p|]; }
        }
      }
    } else {
      assert p + core + q == p + (core + q);
      StripLeftOfSpaces(p, core + q);
      StripRightOfSpaces(core, q);
    }
  }

  /** A stripped text is left as it is. */
  lemma StripStripped(s: string)
    requires IsStripped(s)
    ensures Strip(s) == s
  {
    StripUnique([], s, []);
    assert [] + s + [] == s;
  }

  /** `strip()` is idempotent. */
  lemma StripIdempotent(s: string)
    ensures Strip(Strip(s)) == Strip(s)
  {
    StripSpec(s);
    StripStripped(Strip(s));
  }

  predicate NoneIn(s: string, seps: set<char>) {
    forall i | 0 <= i < |s| :: s[i] !in seps
  }

  /** How many characters of `s` belong to `seps`. */
  function CountIn(s: string, seps: set<char>): nat {
    if s == [] then 0 else (if s[0] in seps then 1 else 0) + CountIn(s[1..], seps)
  }

  /** Stripping takes characters away and adds none. */
  lemma StripKeepsAbsent(s: string, seps: set<char>)
    requires NoneIn(s, seps)
    ensures NoneIn(Strip(s), seps)
  {
    var i := StripFramed(s);
    forall k | 0 <= k < |Strip(s)| ensures Strip(s)[k] !in seps {
      assert Strip(s)[k] == s[i + k];
    }
  }

  /**
   * Python's `s.split(sep)` generalised to a set of one-character separators:
   * the pieces between consecutive separators, empty pieces included.
   * There is always one more piece than there are separators, and no piece
   * contains a separator.
   */
  function Split(s: string, seps: set<char>): (parts: seq<string>)
    ensures |parts| == CountIn(s, seps) + 1
    ensures forall k | 0 <= k < |parts| :: NoneIn(parts[k], seps)
  {
    if s == [] then [[]]
    else
      var rest := Split(s[1..], seps);
      if s[0] in seps then [[]] + rest
      else [[s[0]] + rest[0]] + rest[1..]
  }

  /** Python's `sep.join(parts)`. */
  function Join(parts: seq<string>, sep: char): string {
    if |parts| == 0 then []
    else if |parts| == 1 then parts[0]
    else parts[0] + [sep] + Join(parts[1..], sep)
  }

  /** Joining the pieces with the separator gives back the text. */
  lemma {:induction false} JoinSplit(s: string, sep: char)
    ensures Join(Split(s, {sep}), sep) == s
  {
    if s != [] {
      JoinSplit(s[1..], sep);
      var rest := Split(s[1..], {sep});
      if s[0] != sep {
        if |rest| == 1 {
          assert [s[0]] + rest[0] == s;
        } else {
          assert rest == [rest[0]] + rest[1..];
          assert Join(rest, sep) == rest[0] + [sep] + Join(rest[1..], sep);
          assert s == [s[0]] + s[1..];
        }
      } else {
        assert s == [sep] + s[1..];
      }
    }
  }

  /** A join adds no character of `seps` beyond what the pieces hold, when `sep` is not in `seps`. */
  lemma {:induction false} JoinNoneIn(parts: seq<string>, sep: char, seps: set<char>)
    requires sep !in seps
    requires forall k | 0 <= k < |parts| :: NoneIn(parts[k], seps)
    ensures NoneIn(Join(parts, sep), seps)
  {
    if |parts| > 1 {
      JoinNoneIn(parts[1..], sep, seps);
      var t := Join(parts[1..], sep);
      forall i | 0 <= i < |parts[0] + [sep] + t| ensures (parts[0] + [sep] + t)[i] !in seps {
        if i > |parts[0]| { assert (parts[0] + [sep] + t)[i] == t[i - |parts[0]| - 1]; }
      }
    }
  }

  lemma {:induction false} SplitPrefix(x: string, t: string, seps: set<char>)
    requires NoneIn(x, seps)
    ensures Split(x + t, seps) == [x + Split(t, seps)[0]] + Split(t, seps)[1..]
  {
    if x != [] {
      assert (x + t)[0] == x[0] && x[0] !in seps;
      assert (x + t)[1..] == x[1..] + t;
      SplitPrefix(x[1..], t, seps);
      var rest := Split(x[1..] + t, seps);
      assert Split(x + t, seps) == [[x[0]] + rest[0]] + rest[1..];
      assert rest[0] == x[1..] + Split(t, seps)[0];
      assert rest[1..] == Split(t, seps)[1..];
      assert [x[0]] + (x[1..] + Split(t, seps)[0]) == x + Split(t, seps)[0];
    } else {
      var st := Split(t, seps);
      assert x + t == t && x + st[0] == st[0];
      assert st == [st[0]] + st[1..];
    }
  }

  /** Splitting the joined pieces gives back the pieces, when none holds a separator. */
  lemma {:induction false} SplitJoin(parts: seq<string>, sep: char, seps: set<char>)
    requires |parts| >= 1 && sep in seps
    requires forall k | 0 <= k < |parts| :: NoneIn(parts[k], seps)
    ensures Split(Join(parts, sep), seps) == parts
  {
    if |parts| == 1 {
      SplitPrefix(parts[0], [], seps);
      assert parts[0] + [] == parts[0];
    } else {
      var tail := Join(parts[1..], sep);
      SplitJoin(parts[1..], sep, seps);
      assert parts[0] + [sep] + tail == parts[0] + ([sep] + tail);
      SplitPrefix(parts[0], [sep] + tail, seps);
      assert ([sep] + tail)[1..] == tail;
      assert parts[0] + [] == parts[0];
      assert parts == [parts[0]] + parts[1..];
    }
  }

  /** The line boundaries of Python's `str.splitlines()`. */
  const LineBreaks: set<char> :=
    {'\n', '\r', '\U{0B}', '\U{0C}', '\U{1C}', '\U{1D}', '\U{1E}', '\U{85}', '\U{2028}', '\U{2029}'}

  /** Printable ASCII text holds no line break. */
  lemma PrintableHasNoBreaks(s: string)
    requires forall i | 0 <= i < |s| :: ' ' <= s[i] <= '~'
    ensures NoneIn(s, LineBreaks)
  {
  }

  /**
   * The lines of a text. Every line boundary ends a line; the "\r\n" pair
   * therefore leaves an empty line between its two characters, which the
   * callers drop together with every other blank line.
   */
  function Lines(content: string): (lines: seq<string>)
    ensures |lines| == CountIn(content, LineBreaks) + 1
    ensures forall k | 0 <= k < |lines| :: NoneIn(lines[k], LineBreaks)
  {
    Split(content, LineBreaks)
  }

  /** A line that `strip()` turns into the empty string (see StripSpec). */
  predicate IsBlank(line: string) {
    AllSpace(line)
  }

  /** The lines that are not blank after stripping, in their original order. */
  function NonBlank(lines: seq<string>): (r: seq<string>)
    ensures |r| <= |lines|
    ensures forall k | 0 <= k < |r| :: !IsBlank(r[k])
  {
    if lines == [] then []
    else if IsBlank(lines[0]) then NonBlank(lines[1..])
    else [lines[0]] + NonBlank(lines[1..])
  }

  /** Dropping blank lines commutes with concatenation, so the order of the kept lines is the input order. */
  lemma {:induction false} NonBlankAppend(a: seq<string>, b: seq<string>)
    ensures NonBlank(a + b) == NonBlank(a) + NonBlank(b)
  {
    if a == [] {
      assert a + b == b;
    } else {
      assert (a + b)[0] == a[0] && (a + b)[1..] == a[1..] + b;
      NonBlankAppend(a[1..], b);
    }
  }

  /** `t` occurs in `s` starting at index `i`. */
  predicate OccursAt(s: string, t: string, i: nat) {
    i + |t| <= |s| && s[i..i + |t|] == t
  }

  /** Python's `s.find(t, start)`, with `None` for -1: the first occurrence at or after `start`. */
  function FindFrom(s: string, t: string, start: nat): (r: Option<nat>)
    decreases |s| - start
    ensures r.Some? ==> start <= r.value && OccursAt(s, t, r.value)
    ensures r.Some? ==> forall i: nat | start <= i < r.value :: !OccursAt(s, t, i)
    ensures r.None? ==> forall i: nat | start <= i :: !OccursAt(s, t, i)
  {
    if start + |t| > |s| then None
    else if s[start..start + |t|] == t then Some(start)
    else FindFrom(s, t, start + 1)
  }

  function Find(s: string, t: string): Option<nat> {
    FindFrom(s, t, 0)
  }

  /** Python's `t in s`. */
  predicate Contains(s: string, t: string)
    ensures Contains(s, t) <==> exists i: nat :: OccursAt(s, t, i)
  {
    Find(s, t).Some?
  }

  function LowerChar(c: char): char {
    if 'A' <= c <= 'Z' then (c as int + 32) as char else c
  }

  /** `s.lower()` for ASCII letters; every other character is left as it is. */
  function Lower(s: string): string {
    seq(|s|, i requires 0 <= i < |s| => LowerChar(s[i]))
  }

  /** Python's `needle.lower() in haystack.lower()`. */
  predicate ContainsIgnoringCase(haystack: string, needle: string): (b: bool)
    ensures b <==> exists i: nat :: OccursAt(Lower(haystack), Lower(needle), i)
  {
    Contains(Lower(haystack), Lower(needle))
  }

  /** Lower-casing both sides keeps an exact occurrence, so an exact match is also a case-insensitive one. */
  lemma ExactMatchIgnoringCase(haystack: string, needle: string, i: nat)
    requires OccursAt(haystack, needle, i)
    ensures ContainsIgnoringCase(haystack, needle)
  {
    var h, n := Lower(haystack), Lower(needle);
    assert h[i..i + |n|] == n by {
      forall k | 0 <= k < |n| ensures h[i + k] == n[k] {
        assert haystack[i + k] == haystack[i..i + |needle|][k];
      }
    }
    assert OccursAt(h, n, i);
  }
}
