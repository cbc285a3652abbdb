/**
 * The few Python `str` operations the modelled code relies on:
 * `isspace`, `strip`, `find`, `split(sep)`, `sep.join(parts)` and `lower`.
 */
module Strings {

  /** Python's `str.isspace()` for a single character: the ASCII
      whitespace and separator controls plus the Unicode space separators. */
  predicate IsSpace(c: char) {
    var n := c as int;
    || n == 0x20
    || (0x09 <= n <= 0x0D)
    || (0x1C <= n <= 0x1F)
    || n == 0x85
    || n == 0xA0
    || n == 0x1680
    || (0x2000 <= n <= 0x200A)
    || n == 0x2028
    || n == 0x2029
    || n == 0x202F
    || n == 0x205F
    || n == 0x3000
  }

  /** A character that ends a line when Python reads a text file. */
  predicate IsLineBreak(c: char) {
    c == '\n' || c == '\r'
  }

  predicate AllSpace(s: string) {
    forall i :: 0 <= i < |s| ==> IsSpace(s[i])
  }

  /** Index of the first non-space character at or after `i`. */
  function SkipLeading(s: string, i: nat): (n: nat)
    requires i <= |s|
    requires forall j :: 0 <= j < i ==> IsSpace(s[j])
    ensures i <= n <= |s|
    ensures forall j :: 0 <= j < n ==> IsSpace(s[j])
    ensures n == |s| || !IsSpace(s[n])
    decreases |s| - i
  {
    if i < |s| && IsSpace(s[i]) then SkipLeading(s, i + 1) else i
  }

  /** Scanning down from `j` but never below `lo`: the end of the last
      non-space character. */
  function SkipTrailing(s: string, lo: nat, j: nat): (m: nat)
    requires lo <= j <= |s|
    requires forall k :: j <= k < |s| ==> IsSpace(s[k])
    ensures lo <= m <= j
    ensures forall k :: m <= k < |s| ==> IsSpace(s[k])
    ensures m == lo || !IsSpace(s[m - 1])
    decreases j
  {
    if lo < j && IsSpace(s[j - 1]) then SkipTrailing(s, lo, j - 1) else j
  }

  /** The slice `s[a..b]` that `s.strip()` keeps. */
  function StripBounds(s: string): (ab: (nat, nat))
    ensures ab.0 <= ab.1 <= |s|
    ensures forall j :: 0 <= j < ab.0 ==> IsSpace(s[j])
    ensures forall j :: ab.1 <= j < |s| ==> IsSpace(s[j])
    ensures ab.0 == ab.1 || (!IsSpace(s[ab.0]) && !IsSpace(s[ab.1 - 1]))
  {
    var a := SkipLeading(s, 0);
    (a, SkipTrailing(s, a, |s|))
  }

  /** True when `s` neither starts nor ends with whitespace. */
  predicate IsStripped(s: string) {
    s == [] || (!IsSpace(s[0]) && !IsSpace(s[|s| - 1]))
  }

  /** Python's `s.strip()` with no argument. */
  function Strip(s: string): (r: string)
    ensures IsStripped(r)
    ensures |r| <= |s|
  {
    var ab := StripBounds(s);
    s[ab.0..ab.1]
  }

  /** Stripping removes exactly the whitespace run on each side: whatever
      stripped core `m` is surrounded by whitespace, `strip` gives back `m`. */
  lemma {:induction false} StripExact(s: string, x: string, m: string, y: string)
    requires s == x + m + y
    requires AllSpace(x) && AllSpace(y) && IsStripped(m)
    ensures Strip(s) == m
  {
    var ab := StripBounds(s);
    if m == [] {
      assert AllSpace(s) by {
        forall i | 0 <= i < |s| ensures IsSpace(s[i]) {
          if i < |x| { assert s[i] == x[i]; } else { assert s[i] == y[i - |x|]; }
        }
      }
      assert ab.0 == ab.1;
    } else {
      StripStart(s, x, m + y);
      StripEnd(s, x + m, y);
      assert s[|x|..|x| + |m|] == m;
    }
  }

  /** Leading whitespace `x` followed by a non-space: `strip` starts right
      after `x`. */
  lemma StripStart(s: string, x: string, rest: string)
    requires s == x + rest && AllSpace(x) && rest != [] && !IsSpace(rest[0])
    ensures StripBounds(s).0 == |x|
  {
    var ab := StripBounds(s);
    assert s[|x|] == rest[0];
    assert ab.0 <= |x|;
    assert ab.0 < ab.1;
    assert forall j :: 0 <= j < |x| ==> s[j] == x[j];
  }

  /** A non-space followed by trailing whitespace `y`: `strip` ends right
      before `y`. */
  lemma StripEnd(s: string, pre: string, y: string)
    requires s == pre + y && AllSpace(y) && pre != [] && !IsSpace(pre[|pre| - 1])
    ensures StripBounds(s).1 == |pre|
  {
    var ab := StripBounds(s);
    assert s[|pre| - 1] == pre[|pre| - 1];
    assert ab.1 >= |pre|;
    assert ab.0 < ab.1;
    assert forall j :: |pre| <= j < |s| ==> s[j] == y[j - |pre|];
  }

  /** `strip` is idempotent and leaves an already-stripped string alone. */
  lemma StripStripped(s: string)
    requires IsStripped(s)
    ensures Strip(s) == s
  {
    StripExact(s, [], s, []);
  }

  lemma StripIdempotent(s: string)
    ensures Strip(Strip(s)) == Strip(s)
  {
    StripStripped(Strip(s));
  }

  /** Cutting `x` after its leading whitespace keeps what `strip` keeps. */
  lemma LeadingCore(x: string)
    ensures var a := StripBounds(x).0;
      && AllSpace(x[..a])
      && (x[a..] == [] || !IsSpace(x[a]))
      && Strip(x[a..]) == Strip(x)
      && (x[a..] != [] ==> Strip(x) != [] && Strip(x)[0] == x[a])
  {
    var ab := StripBounds(x);
    assert forall j :: 0 <= j < ab.0 ==> x[..ab.0][j] == x[j];
    if ab.0 == ab.1 {
      assert ab.0 == |x|;
    } else {
      CoreStrip(x);
    }
  }

  /** With something left to keep, stripping from the first non-space on
      keeps the same slice. */
  lemma CoreStrip(x: string)
    requires StripBounds(x).0 < StripBounds(x).1
    ensures Strip(x[StripBounds(x).0..]) == Strip(x)
  {
    var ab := StripBounds(x);
    var a, b := ab.0, ab.1;
    var core, tail := x[a..b], x[b..];
    assert x[a..] == [] + core + tail;
    TrailingSpaces(x);
    StripExact(x[a..], [], core, tail);
  }

  lemma TrailingSpaces(x: string)
    ensures AllSpace(x[StripBounds(x).1..])
  {
    var b := StripBounds(x).1;
    forall j | 0 <= j < |x| - b ensures IsSpace(x[b..][j]) {
      assert x[b..][j] == x[b + j];
    }
  }

  /** Every character `strip` keeps occurs in the input. */
  lemma StripChars(s: string, c: char)
    requires c in Strip(s)
    ensures c in s
  {
    var ab := StripBounds(s);
    var r := s[ab.0..ab.1];
    var i :| 0 <= i < |r| && r[i] == c;
    assert s[ab.0 + i] == c;
  }

  /** A string that starts with a non-space keeps its first character. */
  lemma StripKeepsFirst(s: string)
    requires s != [] && !IsSpace(s[0])
    ensures Strip(s) != [] && Strip(s)[0] == s[0]
  {
    var ab := StripBounds(s);
    assert ab.0 == 0;
    assert ab.0 < ab.1;
  }

  /** A string without line breaks keeps none after stripping; a single
      trailing line break is removed by the strip itself. */
  lemma StripRemovesFinalBreak(s: string)
    requires forall j :: 0 <= j < |s| && IsLineBreak(s[j]) ==> j == |s| - 1
    ensures forall j :: 0 <= j < |Strip(s)| ==> !IsLineBreak(Strip(s)[j])
  {
    var ab := StripBounds(s);
    var r := Strip(s);
    forall j | 0 <= j < |r| ensures !IsLineBreak(r[j]) {
      assert r[j] == s[ab.0 + j];
      assert r[|r| - 1] == s[ab.1 - 1];
    }
  }

  /** Python's `s.find(c)`, with `|s|` standing for "absent". */
  function Find(s: string, c: char): (i: nat)
    ensures i <= |s|
    ensures i < |s| ==> s[i] == c
    ensures forall j :: 0 <= j < i ==> s[j] != c
  {
    if |s| == 0 then 0
    else if s[0] == c then 0
    else 1 + Find(s[1..], c)
  }

  /** `find` returns the first occurrence. */
  lemma {:induction false} FindAt(s: string, c: char, i: nat)
    requires i < |s| && s[i] == c && c !in s[..i]
    ensures Find(s, c) == i
    decreases i
  {
    if i > 0 {
      assert s[0] == s[..i][0];
      assert s[1..][..i - 1] == s[..i][1..];
      FindAt(s[1..], c, i - 1);
    }
  }

  /** Python's `sep.join(parts)`. */
  function Join(sep: string, parts: seq<string>): (r: string)
    ensures |parts| >= 1 ==> parts[0] <= r
  {
    if |parts| == 0 then ""
    else if |parts| == 1 then parts[0]
    else parts[0] + sep + Join(sep, parts[1..])
  }

  /** The generator filter `p for p in parts if p`. */
  function NonEmptyOnly(parts: seq<string>): (r: seq<string>)
    ensures forall i :: 0 <= i < |r| ==> r[i] != []
    ensures (forall i :: 0 <= i < |parts| ==> parts[i] != []) ==> r == parts
  {
    if |parts| == 0 then []
    else if parts[0] == [] then NonEmptyOnly(parts[1..])
    else [parts[0]] + NonEmptyOnly(parts[1..])
  }

  /** Python's `s.split(sep)` for a one-character separator: never empty,
      one more field than there are separators. */
  function Split(s: string, sep: char): (r: seq<string>)
    ensures |r| >= 1
    decreases |s|
  {
    if |s| == 0 then [""]
    else if s[0] == sep then [""] + Split(s[1..], sep)
    else
      var rest := Split(s[1..], sep);
      [[s[0]] + rest[0]] + rest[1..]
  }

  /** A string without the separator is a single field. */
  lemma {:induction false} SplitSingle(s: string, sep: char)
    requires sep !in s
    ensures Split(s, sep) == [s]
    decreases |s|
  {
    if |s| > 0 {
      assert s[0] != sep;
      SplitSingle(s[1..], sep);
      assert [s[0]] + s[1..] == s;
    }
  }

  /** Splitting at a separator distributes over the two sides. */
  lemma {:induction false} SplitConcat(x: string, sep: char, y: string)
    ensures Split(x + [sep] + y, sep) == Split(x, sep) + Split(y, sep)
    decreases |x|
  {
    if |x| == 0 {
      assert x + [sep] + y == [sep] + y;
      SplitHead(sep, y, sep);
    } else {
      var c, t := x[0], x[1..] + [sep] + y;
      var L, Y := Split(x[1..], sep), Split(y, sep);
      var first: string := if c == sep then "" else [c] + L[0];
      var tail := if c == sep then L else L[1..];
      calc {
        Split(x + [sep] + y, sep);
        == { assert x + [sep] + y == [c] + t; }
        Split([c] + t, sep);
        == { SplitHead(c, t, sep); SplitConcat(x[1..], sep, y); AppendHeadTail(L, Y); }
        [first] + (tail + Y);
        == { AppendAssoc([first], tail, Y); }
        ([first] + tail) + Y;
        == { assert x == [c] + x[1..]; SplitHead(c, x[1..], sep); }
        Split(x, sep) + Y;
      }
    }
  }

  lemma AppendHeadTail<T>(a: seq<T>, b: seq<T>)
    requires |a| >= 1
    ensures (a + b)[0] == a[0] && (a + b)[1..] == a[1..] + b
  {
  }

  lemma AppendAssoc<T>(a: seq<T>, b: seq<T>, c: seq<T>)
    ensures a + (b + c) == (a + b) + c
  {
  }

  /** One step of `Split`: a leading separator closes an empty field, any
      other character starts the first field. */
  lemma SplitHead(c: char, t: string, sep: char)
    ensures Split([c] + t, sep) ==
      if c == sep then [""] + Split(t, sep)
      else [[c] + Split(t, sep)[0]] + Split(t, sep)[1..]
  {
    assert ([c] + t)[0] == c;
    assert ([c] + t)[1..] == t;
  }

  /** `split` undoes `join` when no part contains the separator. */
  lemma {:induction false} SplitJoin(parts: seq<string>, sep: char)
    requires |parts| >= 1
    requires forall i :: 0 <= i < |parts| ==> sep !in parts[i]
    ensures Split(Join([sep], parts), sep) == parts
    decreases |parts|
  {
    if |parts| == 1 {
      SplitSingle(parts[0], sep);
    } else {
      SplitJoin(parts[1..], sep);
      SplitConcat(parts[0], sep, Join([sep], parts[1..]));
      SplitSingle(parts[0], sep);
      assert [parts[0]] + parts[1..] == parts;
    }
  }

  /** Python's `str.lower()` restricted to ASCII letters. */
  function LowerAscii(s: string): (r: string)
    ensures |r| == |s|
    ensures forall i :: 0 <= i < |s| ==> (r[i] == s[i] <==> !('A' <= s[i] <= 'Z'))
  {
    seq(|s|, i requires 0 <= i < |s| =>
      if 'A' <= s[i] <= 'Z' then (s[i] as int + 32) as char else s[i])
  }
}
