/**
 * One line of a `.env` file: how `read_env_file` parses a line and how
 * `write_env_file` emits an entry, and how the two fit together.
 */
module LineFormat {
  import opened Wrappers
  import opened Strings
  import opened TextFile

  /** A key the parser can give back unchanged: stripped, without `=` or
      line breaks, and not starting with the comment marker. */
  predicate IsWellFormedKey(k: string) {
    && IsStripped(k)
    && '=' !in k
    && NoLineBreak(k)
    && (k == [] || k[0] != '#')
  }

  /** The body of the loop in `read_env_file` for one line: strip it, skip
      it when blank, a comment or without `=`, otherwise split at the first
      `=` and strip both sides. */
  function ParseLine(line: string): (e: Option<(string, string)>)
    ensures e.Some? ==> '=' !in e.value.0 && IsStripped(e.value.0) && IsStripped(e.value.1)
    ensures e.None? <==> (Strip(line) == [] || Strip(line)[0] == '#' || '=' !in Strip(line))
  {
    var l := Strip(line);
    if l != [] && l[0] != '#' && '=' in l then
      var i := Find(l, '=');
      assert '=' !in l[..i] by {
        forall c | c in l[..i] ensures c != '=' {
          var j :| 0 <= j < i && l[..i][j] == c;
        }
      }
      StripCharsAvoid(l[..i], '=');
      Some((Strip(l[..i]), Strip(l[i + 1..])))
    else None
  }

  /** A character absent from `s` is absent from `strip(s)`. */
  lemma StripCharsAvoid(s: string, c: char)
    requires c !in s
    ensures c !in Strip(s)
  {
    if c in Strip(s) {
      StripChars(s, c);
    }
  }

  /** The line `write_env_file` emits for one entry. */
  function EnvLine(k: string, v: string): string {
    k + "=" + v + "\n"
  }

  lemma EnvLineEnds(k: string, v: string)
    ensures EnvLine(k, v) != [] && EnvLine(k, v)[|EnvLine(k, v)| - 1] == '\n'
  {
  }

  /** A line emitted for a break-free key and value is one whole line. */
  lemma EnvLineIsLine(k: string, v: string)
    requires NoLineBreak(k) && NoLineBreak(v)
    ensures IsLine(EnvLine(k, v))
  {
    var l := EnvLine(k, v);
    var body := k + "=" + v;
    assert l[..|l| - 1] == body;
    forall j | 0 <= j < |body| ensures !IsLineBreak(body[j]) {
      if j < |k| { assert body[j] == k[j]; }
      else if j > |k| { assert body[j] == v[j - |k| - 1]; }
    }
  }

  /** `v` without its trailing whitespace (empty when `v` is all
      whitespace). */
  function RightStripped(v: string): (w: string)
    ensures w == [] || !IsSpace(w[|w| - 1])
    ensures |w| <= |v| && w == v[..|w|] && AllSpace(v[|w|..])
  {
    var ab := StripBounds(v);
    if ab.0 == ab.1 then
      assert AllSpace(v) by {
        forall j | 0 <= j < |v| ensures IsSpace(v[j]) {
          assert j < ab.0 || j >= ab.1;
        }
      }
      assert v[0..] == v;
      []
    else v[..ab.1]
  }

  /** Dropping the trailing whitespace first does not change the strip. */
  lemma StripRightStripped(v: string)
    ensures Strip(RightStripped(v)) == Strip(v)
  {
    var ab := StripBounds(v);
    var w := RightStripped(v);
    if ab.0 < ab.1 {
      StripExact(w, v[..ab.0], v[ab.0..ab.1], []);
    }
  }

  /** `k=w` has no whitespace at either end when the key is well formed
      and `w` does not end in whitespace. */
  lemma KeyValueStripped(k: string, w: string)
    requires IsWellFormedKey(k)
    requires w == [] || !IsSpace(w[|w| - 1])
    ensures IsStripped(k + "=" + w)
  {
    var c := k + "=" + w;
    assert !IsSpace('=');
    assert c[0] == (if k == [] then '=' else k[0]);
    assert c[|c| - 1] == (if w == [] then '=' else w[|w| - 1]);
  }

  lemma AllSpaceNewline(t: string)
    requires AllSpace(t)
    ensures AllSpace(t + "\n")
  {
    var y := t + "\n";
    assert forall j :: 0 <= j < |t| ==> y[j] == t[j];
    assert y[|t|] == '\n';
  }

  /** An emitted line is the key, `=`, the value without its trailing
      whitespace, then that whitespace and the newline. */
  lemma EnvLineParts(k: string, v: string)
    ensures EnvLine(k, v) == [] + (k + "=" + RightStripped(v)) + (v[|RightStripped(v)|..] + "\n")
  {
    var w := RightStripped(v);
    var e := v[|w|..];
    var lhs := EnvLine(k, v);
    var rhs := [] + (k + "=" + w) + (e + "\n");
    assert |lhs| == |rhs|;
    forall j | 0 <= j < |lhs| ensures lhs[j] == rhs[j] {
      if j < |k| {
        assert lhs[j] == k[j] == rhs[j];
      } else if j == |k| {
        assert lhs[j] == '=' == rhs[j];
      } else if j < |k| + 1 + |w| {
        assert lhs[j] == v[j - |k| - 1] == w[j - |k| - 1] == rhs[j];
      } else if j < |lhs| - 1 {
        assert lhs[j] == v[j - |k| - 1] == e[j - |k| - 1 - |w|] == rhs[j];
      }
    }
  }

  /** Stripping an emitted line removes the newline and the value's
      trailing whitespace, nothing in front of the key. */
  lemma StripEnvLine(k: string, v: string)
    requires IsWellFormedKey(k)
    ensures Strip(EnvLine(k, v)) == k + "=" + RightStripped(v)
  {
    var w := RightStripped(v);
    EnvLineParts(k, v);
    KeyValueStripped(k, w);
    AllSpaceNewline(v[|w|..]);
    StripExact(EnvLine(k, v), [], k + "=" + w, v[|w|..] + "\n");
  }

  /** An emitted line parses back to its key and its stripped value, split
      at the `=` the serialiser wrote even when the value holds more. */
  lemma ParseEnvLine(k: string, v: string)
    requires IsWellFormedKey(k)
    ensures ParseLine(EnvLine(k, v)) == Some((k, Strip(v)))
  {
    var w := RightStripped(v);
    calc {
      ParseLine(EnvLine(k, v));
      == { ParseStripped(EnvLine(k, v)); }
      ParseLine(Strip(EnvLine(k, v)));
      == { StripEnvLine(k, v); }
      ParseLine(CoreLine(k, w));
      == { CoreLineSplit(k, w); }
      Some((Strip(k), Strip(w)));
      == { StripStripped(k); StripRightStripped(v); }
      Some((k, Strip(v)));
    }
  }

  /** Any kept line, hand-written ones included, is split at its first
      `=` and both sides are stripped: whitespace around the key, around
      the value and around the `=` itself is dropped, and a value may hold
      further `=` characters. */
  lemma ParseAssignment(x: string, y: string)
    requires '=' !in x
    requires Strip(x) == [] || Strip(x)[0] != '#'
    ensures ParseLine(x + "=" + y) == Some((Strip(x), Strip(y)))
  {
    var line := x + "=" + y;
    var w := RightStripped(y);
    var m := CoreLine(x[StripBounds(x).0..], w);
    calc {
      ParseLine(line);
      == { ParseStripped(line); }
      ParseLine(Strip(line));
      == { StripLine(x, y); }
      ParseLine(m);
      == { KeySplit(x, w); }
      Some((Strip(x), Strip(w)));
      == { StripRightStripped(y); }
      Some((Strip(x), Strip(y)));
    }
  }

  /** `CoreLineSplit` for the key part of `x` from its first non-space. */
  lemma KeySplit(x: string, w: string)
    requires '=' !in x
    requires Strip(x) == [] || Strip(x)[0] != '#'
    requires w == [] || !IsSpace(w[|w| - 1])
    ensures var a := StripBounds(x).0;
      ParseLine(CoreLine(x[a..], w)) == Some((Strip(x), Strip(w)))
  {
    var a := StripBounds(x).0;
    LeadingCore(x);
    SuffixAvoids(x, a, '=');
    var core := x[a..];
    assert core == [] || core[0] != '#' by {
      if core != [] { assert core[0] == x[a]; }
    }
    CoreLineSplit(core, w);
  }

  /** The parser only looks at the stripped line. */
  lemma ParseStripped(line: string)
    ensures ParseLine(line) == ParseLine(Strip(line))
  {
    StripIdempotent(line);
  }

  /** Stripping `x=y` keeps the key part from its first non-space and the
      value part up to its last non-space. */
  lemma StripLine(x: string, y: string)
    requires '=' !in x
    ensures var a := StripBounds(x).0;
      && (x[a..] == [] || !IsSpace(x[a..][0]))
      && '=' !in x[a..]
      && Strip(x + "=" + y) == CoreLine(x[a..], RightStripped(y))
  {
    var a := StripBounds(x).0;
    var w := RightStripped(y);
    LeadingCore(x);
    SuffixAvoids(x, a, '=');
    LineParts(x, y, a, w);
    StripExact(x + "=" + y, x[..a], CoreLine(x[a..], w), y[|w|..]);
  }

  lemma SuffixAvoids(x: string, a: nat, c: char)
    requires a <= |x| && c !in x
    ensures c !in x[a..]
  {
    forall d | d in x[a..] ensures d != c {
      var j :| 0 <= j < |x| - a && x[a..][j] == d;
      assert x[a + j] == d;
    }
  }

  lemma LineParts(x: string, y: string, a: nat, w: string)
    requires a <= |x| && |w| <= |y| && w == y[..|w|]
    ensures x + "=" + y == x[..a] + (x[a..] + "=" + w) + y[|w|..]
  {
    assert x == x[..a] + x[a..];
    assert y == w + y[|w|..];
  }

  /** A key part without leading whitespace joined by `=` to a value part
      without trailing whitespace. */
  function CoreLine(core: string, w: string): (m: string)
    requires core == [] || !IsSpace(core[0])
    requires w == [] || !IsSpace(w[|w| - 1])
    ensures m == core + "=" + w
    ensures IsStripped(m)
  {
    assert !IsSpace('=');
    var m := core + "=" + w;
    assert m[|m| - 1] == (if w == [] then '=' else w[|w| - 1]);
    m
  }

  /** The parser splits a core line at the joining `=`. */
  lemma CoreLineSplit(core: string, w: string)
    requires '=' !in core
    requires core == [] || !IsSpace(core[0])
    requires w == [] || !IsSpace(w[|w| - 1])
    requires core == [] || core[0] != '#'
    ensures ParseLine(CoreLine(core, w)) == Some((Strip(core), Strip(w)))
  {
    var m := CoreLine(core, w);
    assert m[|core|] == '=';
    assert m[..|core|] == core;
    assert m[|core| + 1..] == w;
    assert m[0] != '#' by {
      if core != [] { assert m[0] == core[0]; }
    }
    ParseStrippedAt(m, |core|);
  }

  /** A stripped line whose first `=` is at `i` splits there. */
  lemma ParseStrippedAt(l: string, i: nat)
    requires IsStripped(l) && l != [] && l[0] != '#'
    requires i < |l| && l[i] == '=' && '=' !in l[..i]
    ensures ParseLine(l) == Some((Strip(l[..i]), Strip(l[i + 1..])))
  {
    StripStripped(l);
    FindAt(l, '=', i);
  }

  /** A parsed line gives a key the parser can give back unchanged and a
      value without line breaks. */
  lemma ParseLineWellFormed(line: string)
    requires IsFileLine(line) && ParseLine(line).Some?
    ensures GoodEntry(ParseLine(line).value.0, ParseLine(line).value.1)
  {
    StripRemovesFinalBreak(line);
    var l := Strip(line);
    var i := Find(l, '=');
    SidesWellFormed(l, i);
  }

  /** The two sides of a stripped, break-free line split at its first `=`. */
  lemma SidesWellFormed(l: string, i: nat)
    requires IsStripped(l) && NoLineBreak(l) && l != [] && l[0] != '#'
    requires i < |l| && i == Find(l, '=')
    ensures GoodEntry(Strip(l[..i]), Strip(l[i + 1..]))
  {
    var key, value := l[..i], l[i + 1..];
    var k, v := Strip(key), Strip(value);
    forall j | 0 <= j < |k| ensures !IsLineBreak(k[j]) {
      StripChars(key, k[j]);
    }
    forall j | 0 <= j < |v| ensures !IsLineBreak(v[j]) {
      StripChars(value, v[j]);
    }
    assert '=' !in key;
    StripCharsAvoid(key, '=');
    if k != [] {
      assert key[0] == l[0];
      StripKeepsFirst(key);
    }
    StripIdempotent(key);
  }

  /** An entry the parser can produce from a genuine file line. */
  predicate GoodEntry(k: string, v: string) {
    IsWellFormedKey(k) && IsStripped(v) && NoLineBreak(v)
  }
}
