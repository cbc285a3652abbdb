/**
 * Python text files on a POSIX system. Writing stores the text exactly as
 * given. Reading in text mode uses universal newlines: `\r\n` and a lone
 * `\r` both become `\n`, and iterating over the file yields the text one
 * line at a time, each line ending with its `\n` except possibly the last.
 */
module TextFile {
  import opened Strings

  predicate NoLineBreak(s: string) {
    forall j :: 0 <= j < |s| ==> !IsLineBreak(s[j])
  }

  /** A line as text-mode iteration delivers it: a line break can only be
      its final `\n`. */
  predicate IsFileLine(line: string) {
    forall j :: 0 <= j < |line| && IsLineBreak(line[j]) ==> j == |line| - 1 && line[j] == '\n'
  }

  /** The text of several writes, one after another. */
  function Concat(parts: seq<string>): (t: string)
    ensures |parts| >= 1 ==> parts[0] <= t
  {
    if |parts| == 0 then "" else parts[0] + Concat(parts[1..])
  }

  /** Index of the first line break, `|t|` when there is none. */
  function BreakAt(t: string): (i: nat)
    ensures i <= |t|
    ensures i < |t| ==> IsLineBreak(t[i])
    ensures forall j :: 0 <= j < i ==> !IsLineBreak(t[j])
  {
    if |t| == 0 then 0
    else if IsLineBreak(t[0]) then 0
    else 1 + BreakAt(t[1..])
  }

  /** Where the line that ends at break `i` of `t` is followed by the next
      one: after `\r\n` taken together, otherwise after the single break. */
  function NextLineStart(t: string, i: nat): (n: nat)
    requires i < |t| && IsLineBreak(t[i])
    ensures i < n <= |t|
  {
    if t[i] == '\r' && i + 1 < |t| && t[i + 1] == '\n' then i + 2 else i + 1
  }

  /** The lines that iterating over a file holding `t` yields. */
  function TextLines(t: string): (lines: seq<string>)
    ensures forall k :: 0 <= k < |lines| ==> IsFileLine(lines[k]) && lines[k] != []
    ensures t == [] <==> lines == []
    decreases |t|
  {
    if t == [] then []
    else
      var i := BreakAt(t);
      if i == |t| then [t]
      else
        var line := t[..i] + "\n";
        assert forall j :: 0 <= j < i ==> line[j] == t[j];
        [line] + TextLines(t[NextLineStart(t, i)..])
  }

  /** Text that ends at a line break is read line by line independently of
      what follows it. */
  lemma {:induction false} TextLinesAppend(a: string, b: string)
    requires a == [] || a[|a| - 1] == '\n'
    ensures TextLines(a + b) == TextLines(a) + TextLines(b)
    decreases |a|
  {
    if a == [] {
      assert a + b == b;
    } else {
      var i := BreakAt(a);
      var n := NextLineStart(a, i);
      var line := a[..i] + "\n";
      var rest := a[n..];
      assert rest == [] || rest[|rest| - 1] == '\n';
      calc {
        TextLines(a + b);
        == { AppendLineStart(a, b); TextLinesStep(a + b); }
        [line] + TextLines(rest + b);
        == { TextLinesAppend(rest, b); }
        [line] + (TextLines(rest) + TextLines(b));
        == { AppendAssoc([line], TextLines(rest), TextLines(b)); }
        ([line] + TextLines(rest)) + TextLines(b);
        == { TextLinesStep(a); }
        TextLines(a) + TextLines(b);
      }
    }
  }

  /** One step of `TextLines` on text holding a break. */
  lemma TextLinesStep(t: string)
    requires BreakAt(t) < |t|
    ensures TextLines(t) == [t[..BreakAt(t)] + "\n"] + TextLines(t[NextLineStart(t, BreakAt(t))..])
  {
  }

  /** In text ending at a newline, the first line and where the next one
      starts do not depend on anything appended. */
  lemma AppendLineStart(a: string, b: string)
    requires a != [] && a[|a| - 1] == '\n'
    ensures BreakAt(a) < |a| && BreakAt(a + b) == BreakAt(a)
    ensures NextLineStart(a + b, BreakAt(a)) == NextLineStart(a, BreakAt(a))
    ensures (a + b)[..BreakAt(a)] == a[..BreakAt(a)]
    ensures (a + b)[NextLineStart(a, BreakAt(a))..] == a[NextLineStart(a, BreakAt(a))..] + b
  {
    var t := a + b;
    var i := BreakAt(a);
    assert i < |a|;
    BreakAtPrefix(a, b);
    if a[i] == '\r' {
      assert i + 1 < |a|;
      assert t[i + 1] == a[i + 1];
    }
  }

  /** A break inside `a` is found before anything appended to it is looked at. */
  lemma {:induction false} BreakAtPrefix(a: string, b: string)
    requires BreakAt(a) < |a|
    ensures BreakAt(a + b) == BreakAt(a)
    decreases |a|
  {
    if !IsLineBreak(a[0]) {
      assert (a + b)[1..] == a[1..] + b;
      BreakAtPrefix(a[1..], b);
    }
  }

  /** `BreakAt` finds the first break. */
  lemma {:induction false} BreakAtFirst(t: string, i: nat)
    requires i < |t| && IsLineBreak(t[i])
    requires forall j :: 0 <= j < i ==> !IsLineBreak(t[j])
    ensures BreakAt(t) == i
    decreases i
  {
    if i > 0 {
      BreakAtFirst(t[1..], i - 1);
    }
  }

  /** A break-free line with its newline is read back as itself. */
  lemma OneLine(body: string)
    requires NoLineBreak(body)
    ensures TextLines(body + "\n") == [body + "\n"]
  {
    var t := body + "\n";
    assert forall j :: 0 <= j < |body| ==> t[j] == body[j];
    BreakAtFirst(t, |body|);
    assert t[..|body|] == body;
    assert t[|body| + 1..] == [];
  }

  /** Writing whole lines one after another: the text is read back as
      the concatenation of what each part reads as. */
  lemma {:induction false} TextLinesConcat(parts: seq<string>)
    requires forall k :: 0 <= k < |parts| ==> parts[k] != [] && parts[k][|parts[k]| - 1] == '\n'
    ensures TextLines(Concat(parts)) == FlatLines(parts)
    decreases |parts|
  {
    if |parts| > 0 {
      TextLinesAppend(parts[0], Concat(parts[1..]));
      TextLinesConcat(parts[1..]);
    }
  }

  /** The lines of each part read on its own, one part after another. */
  function FlatLines(parts: seq<string>): seq<string>
  {
    if |parts| == 0 then [] else TextLines(parts[0]) + FlatLines(parts[1..])
  }

  /** Every non-empty part reads as at least one line. */
  lemma {:induction false} FlatLinesCount(parts: seq<string>)
    requires forall k :: 0 <= k < |parts| ==> parts[k] != []
    ensures |FlatLines(parts)| >= |parts|
    decreases |parts|
  {
    if |parts| > 0 {
      FlatLinesCount(parts[1..]);
    }
  }

  /** Break-free lines each ended by a newline are read back unchanged:
      reading undoes writing them. */
  lemma {:induction false} TextLinesOfLines(lines: seq<string>)
    requires forall k :: 0 <= k < |lines| ==> IsLine(lines[k])
    ensures TextLines(Concat(lines)) == lines
    decreases |lines|
  {
    if |lines| > 0 {
      var l := lines[0];
      OneLine(l[..|l| - 1]);
      assert l[..|l| - 1] + "\n" == l;
      TextLinesAppend(l, Concat(lines[1..]));
      TextLinesOfLines(lines[1..]);
    }
  }

  /** A line as `write` emits it: break-free text ended by one newline. */
  predicate IsLine(l: string) {
    l != [] && l[|l| - 1] == '\n' && NoLineBreak(l[..|l| - 1])
  }

  /** Without carriage returns nothing is translated, so the lines join
      back into exactly the text. */
  lemma {:induction false} LinesJoinToText(t: string)
    requires '\r' !in t
    ensures Concat(TextLines(t)) == t
    decreases |t|
  {
    if t != [] {
      var i := BreakAt(t);
      if i == |t| {
        assert Concat(TextLines(t)) == t + [];
      } else {
        assert t[i] == '\n';
        var n := NextLineStart(t, i);
        assert n == i + 1;
        var rest := t[n..];
        assert '\r' !in rest by {
          forall c | c in rest ensures c != '\r' {
            var j :| 0 <= j < |rest| && rest[j] == c;
            assert t[n + j] == c;
          }
        }
        calc {
          Concat(TextLines(t));
          == { TextLinesStep(t); }
          Concat([t[..i] + "\n"] + TextLines(rest));
          == { ConcatCons(t[..i] + "\n", TextLines(rest)); }
          (t[..i] + "\n") + Concat(TextLines(rest));
          == { LinesJoinToText(rest); }
          (t[..i] + "\n") + rest;
          == { assert t == t[..i] + [t[i]] + rest; }
          t;
        }
      }
    }
  }

  /** Writing two runs of text one after the other. */
  lemma {:induction false} ConcatAppend(xs: seq<string>, ys: seq<string>)
    ensures Concat(xs + ys) == Concat(xs) + Concat(ys)
    decreases |xs|
  {
    if xs == [] {
      assert xs + ys == ys;
    } else {
      calc {
        Concat(xs + ys);
        == { assert xs + ys == [xs[0]] + (xs[1..] + ys); ConcatCons(xs[0], xs[1..] + ys); }
        xs[0] + Concat(xs[1..] + ys);
        == { ConcatAppend(xs[1..], ys); }
        xs[0] + (Concat(xs[1..]) + Concat(ys));
        == { AppendAssoc(xs[0], Concat(xs[1..]), Concat(ys)); }
        (xs[0] + Concat(xs[1..])) + Concat(ys);
      }
    }
  }

  /** Writing part `i` as two pieces gives the same text. */
  lemma ConcatSplice(parts: seq<string>, i: nat, a: string, b: string)
    requires i < |parts| && parts[i] == a + b
    ensures Concat(parts[..i] + [a, b] + parts[i + 1..]) == Concat(parts)
  {
    var pre, post := parts[..i], parts[i + 1..];
    assert parts == pre + ([parts[i]] + post);
    assert pre + [a, b] + post == pre + ([a] + ([b] + post));
    ConcatAppend(pre, [parts[i]] + post);
    ConcatAppend(pre, [a] + ([b] + post));
    ConcatCons(parts[i], post);
    ConcatCons(a, [b] + post);
    ConcatCons(b, post);
    AppendAssoc(a, b, Concat(post));
  }

  lemma ConcatCons(x: string, rest: seq<string>)
    ensures Concat([x] + rest) == x + Concat(rest)
  {
    assert ([x] + rest)[1..] == rest;
  }
}
