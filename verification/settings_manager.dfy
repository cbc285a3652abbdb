/**
 * Runtime settings of the backend, kept in a `.env` file of `KEY=value`
 * lines and mirrored into the process environment.
 *
 * The file is `Option<Lines>`: `None` when it does not exist, otherwise the
 * lines Python's text-mode iteration yields, each with its `\n` (the last
 * one possibly without). The process environment is a map passed in and
 * returned; the dictionaries the code builds keep Python's insertion order.
 */
module SettingsManager {
  import opened Wrappers
  import opened Strings
  import opened PyDict
  import opened TextFile
  import opened LineFormat

  type Lines = seq<string>

  const AuthEnabledKey: string := "AUTH_ENABLED"
  const AuthUserKey: string := "AUTH_USER"
  const AuthPassKey: string := "AUTH_PASS"
  const FileRetentionHoursKey: string := "FILE_RETENTION_HOURS"
  const RedisUrlKey: string := "REDIS_URL"
  const BackendHostKey: string := "BACKEND_HOST"
  const BackendPortKey: string := "BACKEND_PORT"

  /** The service settings `update_auth_settings` fills in when absent. */
  const ServiceDefaults: seq<(string, string)> := [
    (FileRetentionHoursKey, "1"),
    (RedisUrlKey, "redis://127.0.0.1:6379/0"),
    (BackendHostKey, "0.0.0.0"),
    (BackendPortKey, "8000")
  ]

  /** The content `initialize_env_if_missing` writes, in order. */
  const InitialEntries: seq<(string, string)> := [(AuthEnabledKey, "false")] + ServiceDefaults

  /** Fallbacks of the lookups when neither the environment nor the file
      has the key. */
  const DefaultAuthEnabled: string := "false"
  const DefaultAuthUser: string := ""
  const DefaultAuthPass: string := "changeme"

  // ---------------------------------------------------------------------
  // Reading and writing the file
  // ---------------------------------------------------------------------

  predicate AllFileLines(file: Option<Lines>) {
    file.Some? ==> forall i :: 0 <= i < |file.value| ==> IsFileLine(file.value[i])
  }

  /** One parsed line: `None` for a skipped line, else a key and value. */
  type Assignment = Option<(string, string)>

  /** The loop of `read_env_file` once each line has been parsed: every
      assignment is applied in file order. */
  function ApplyAssignments(es: seq<Assignment>): (d: Dict)
    ensures Valid(d)
    decreases |es|
  {
    if |es| == 0 then Empty
    else
      var d := ApplyAssignments(es[..|es| - 1]);
      var e := es[|es| - 1];
      if e.Some? then Set(d, e.value.0, e.value.1) else d
  }

  /** The per-line results of the parser, in file order. */
  function ParseEach(lines: Lines): (es: seq<Assignment>)
    ensures |es| == |lines|
  {
    seq(|lines|, i requires 0 <= i < |lines| => ParseLine(lines[i]))
  }

  /** The loop of `read_env_file` over the given lines. */
  function ParseLines(lines: Lines): (d: Dict)
    ensures Valid(d)
  {
    ApplyAssignments(ParseEach(lines))
  }

  /** `read_env_file`: an absent file reads as the empty dictionary. */
  function ReadEnvFile(file: Option<Lines>): (d: Dict)
    ensures Valid(d)
    ensures file.None? ==> d == Empty
  {
    if file.None? then Empty else ParseLines(file.value)
  }

  /** The lines `write_env_file` emits, one per entry in insertion order. */
  function EnvLines(d: Dict): (ls: seq<string>)
    requires Valid(d)
    ensures |ls| == |d.keys|
    ensures forall i :: 0 <= i < |ls| ==> ls[i] == EnvLine(d.keys[i], d.entries[d.keys[i]])
  {
    seq(|d.keys|, i requires 0 <= i < |d.keys| =>
      var k := d.keys[i];
      EnvLine(k, d.entries[k]))
  }

  /** No key or value holds a line break. */
  predicate BreakFree(d: Dict) {
    forall k :: k in d.entries ==> NoLineBreak(k) && NoLineBreak(d.entries[k])
  }

  /** `write_env_file`, as the lines a later read of the file yields. The
      text written is the entries' lines one after another; it reads back
      as exactly those lines when nothing holds a line break, and as more
      lines than entries otherwise. */
  function WriteEnvFile(d: Dict): (lines: Lines)
    requires Valid(d)
    ensures forall i :: 0 <= i < |lines| ==> IsFileLine(lines[i])
    ensures |lines| >= |d.keys|
    ensures BreakFree(d) ==> lines == EnvLines(d)
  {
    WrittenLines(d);
    TextLines(Concat(EnvLines(d)))
  }

  /** Reading the written text back: at least one line per entry, and
      exactly the emitted lines when nothing holds a line break. */
  lemma WrittenLines(d: Dict)
    requires Valid(d)
    ensures |TextLines(Concat(EnvLines(d)))| >= |d.keys|
    ensures BreakFree(d) ==> TextLines(Concat(EnvLines(d))) == EnvLines(d)
  {
    var ls := EnvLines(d);
    forall i | 0 <= i < |ls| ensures ls[i] != [] && ls[i][|ls[i]| - 1] == '\n' {
      EnvLineEnds(d.keys[i], d.entries[d.keys[i]]);
    }
    TextLinesConcat(ls);
    FlatLinesCount(ls);
    if BreakFree(d) {
      forall i | 0 <= i < |ls| ensures IsLine(ls[i]) {
        EnvLineIsLine(d.keys[i], d.entries[d.keys[i]]);
      }
      TextLinesOfLines(ls);
    }
  }

  /** A value holding one line break: the file gets the entry's line cut in
      two, the second half read as a line of its own, and every other
      entry's line as before. */
  lemma WrittenWithBrokenValue(d: Dict, i: nat, p: string, q: string)
    requires Valid(d) && i < |d.keys|
    requires d.entries[d.keys[i]] == p + "\n" + q
    requires NoLineBreak(d.keys[i]) && NoLineBreak(p) && NoLineBreak(q)
    requires forall k :: k in d.entries && k != d.keys[i] ==> NoLineBreak(k) && NoLineBreak(d.entries[k])
    ensures WriteEnvFile(d) == EnvLines(d)[..i] + [d.keys[i] + "=" + p + "\n", q + "\n"] + EnvLines(d)[i + 1..]
  {
    var ls := EnvLines(d);
    var k := d.keys[i];
    var a, b := k + "=" + p + "\n", q + "\n";
    assert ls[i] == a + b;
    ConcatSplice(ls, i, a, b);
    var parts := ls[..i] + [a, b] + ls[i + 1..];
    forall j | 0 <= j < |parts| ensures IsLine(parts[j]) {
      if j < i {
        assert parts[j] == ls[j] && d.keys[j] != k;
        EnvLineIsLine(d.keys[j], d.entries[d.keys[j]]);
      } else if j == i {
        EnvLineIsLine(k, p);
        assert EnvLine(k, p) == a;
      } else if j == i + 1 {
        assert b[..|b| - 1] == q;
      } else {
        assert parts[j] == ls[j - 1] && d.keys[j - 1] != k;
        EnvLineIsLine(d.keys[j - 1], d.entries[d.keys[j - 1]]);
      }
    }
    TextLinesOfLines(parts);
  }

  // ---------------------------------------------------------------------
  // What the parser keeps
  // ---------------------------------------------------------------------

  /** Assignment `e` sets key `k`. */
  predicate SetsKey(e: Assignment, k: string) {
    e.Some? && e.value.0 == k
  }

  /** When a key is assigned more than once, the last assignment wins. */
  lemma {:induction false} LastAssignmentApplied(es: seq<Assignment>, i: nat, k: string, v: string)
    requires i < |es| && es[i] == Some((k, v))
    requires forall j :: i < j < |es| ==> !SetsKey(es[j], k)
    ensures k in ApplyAssignments(es).entries && ApplyAssignments(es).entries[k] == v
    decreases |es|
  {
    var n := |es|;
    if i < n - 1 {
      var prefix := es[..n - 1];
      assert forall j :: i < j < |prefix| ==> prefix[j] == es[j];
      LastAssignmentApplied(prefix, i, k, v);
      assert !SetsKey(es[n - 1], k);
    }
  }

  /** A key no assignment sets is absent. */
  lemma {:induction false} UnsetKeyAbsent(es: seq<Assignment>, k: string)
    requires forall j :: 0 <= j < |es| ==> !SetsKey(es[j], k)
    ensures k !in ApplyAssignments(es).entries
    decreases |es|
  {
    if |es| > 0 {
      var prefix := es[..|es| - 1];
      assert forall j :: 0 <= j < |prefix| ==> prefix[j] == es[j];
      UnsetKeyAbsent(prefix, k);
      assert !SetsKey(es[|es| - 1], k);
    }
  }

  /** In terms of lines: the value of a key is the one on the last line
      that assigns it, and a key no line assigns is absent. */
  lemma LastLineWins(lines: Lines, i: nat, k: string, v: string)
    requires i < |lines| && ParseLine(lines[i]) == Some((k, v))
    requires forall j :: i < j < |lines| ==> !SetsKey(ParseLine(lines[j]), k)
    ensures k in ReadEnvFile(Some(lines)).entries && ReadEnvFile(Some(lines)).entries[k] == v
  {
    LastAssignmentApplied(ParseEach(lines), i, k, v);
  }

  lemma UnassignedKeyAbsent(lines: Lines, k: string)
    requires forall j :: 0 <= j < |lines| ==> !SetsKey(ParseLine(lines[j]), k)
    ensures k !in ReadEnvFile(Some(lines)).entries
  {
    UnsetKeyAbsent(ParseEach(lines), k);
  }

  /** Applying only good assignments gives a dictionary of good entries. */
  lemma {:induction false} GoodAssignmentsGiveGoodEntries(es: seq<Assignment>)
    requires forall j :: 0 <= j < |es| && es[j].Some? ==> GoodEntry(es[j].value.0, es[j].value.1)
    ensures forall k :: k in ApplyAssignments(es).entries ==> GoodEntry(k, ApplyAssignments(es).entries[k])
    decreases |es|
  {
    if |es| > 0 {
      var prefix := es[..|es| - 1];
      assert forall j :: 0 <= j < |prefix| ==> prefix[j] == es[j];
      GoodAssignmentsGiveGoodEntries(prefix);
    }
  }

  /** Everything the parser produces from genuine file lines is stripped
      and free of line breaks, with keys it can give back unchanged. */
  lemma ParsedEntriesWellFormed(file: Option<Lines>)
    requires AllFileLines(file)
    ensures forall k :: k in ReadEnvFile(file).entries ==> GoodEntry(k, ReadEnvFile(file).entries[k])
  {
    if file.Some? {
      var es := ParseEach(file.value);
      forall j | 0 <= j < |es| && es[j].Some?
        ensures GoodEntry(es[j].value.0, es[j].value.1)
      {
        ParseLineWellFormed(file.value[j]);
      }
      GoodAssignmentsGiveGoodEntries(es);
    }
  }

  // ---------------------------------------------------------------------
  // Writing then reading
  // ---------------------------------------------------------------------

  /** The entries of `d` as assignments, in insertion order. */
  function AsAssignments(d: Dict): (es: seq<Assignment>)
    requires Valid(d)
    ensures |es| == |d.keys|
  {
    seq(|d.keys|, i requires 0 <= i < |d.keys| => Some((d.keys[i], d.entries[d.keys[i]])))
  }

  /** The first `n` entries of `d`. */
  ghost function Prefix(d: Dict, n: nat): Dict
    requires Valid(d) && n <= |d.keys|
  {
    Dict(d.keys[..n], map k | k in d.keys[..n] :: d.entries[k])
  }

  /** Replaying a dictionary's entries in order rebuilds it. */
  lemma {:induction false} ReplayPrefix(d: Dict, n: nat)
    requires Valid(d) && n <= |d.keys|
    ensures ApplyAssignments(AsAssignments(d)[..n]) == Prefix(d, n)
    decreases n
  {
    var es := AsAssignments(d);
    if n == 0 {
      assert es[..0] == [];
      assert Prefix(d, 0) == Empty;
    } else {
      assert es[..n][..n - 1] == es[..n - 1];
      ReplayPrefix(d, n - 1);
      PrefixStep(d, n);
    }
  }

  /** One more entry of the order extends the prefix by exactly that key. */
  lemma PrefixStep(d: Dict, n: nat)
    requires Valid(d) && 0 < n <= |d.keys|
    ensures Set(Prefix(d, n - 1), d.keys[n - 1], d.entries[d.keys[n - 1]]) == Prefix(d, n)
  {
    var k := d.keys[n - 1];
    var before := Prefix(d, n - 1);
    assert k !in d.keys[..n - 1] by {
      forall j | 0 <= j < n - 1 ensures d.keys[j] != k {
        assert d.keys[j] != d.keys[n - 1];
      }
    }
    assert d.keys[..n] == d.keys[..n - 1] + [k];
    var r := Set(before, k, d.entries[k]);
    assert r.keys == d.keys[..n];
    assert r.entries == Prefix(d, n).entries;
  }

  lemma ReplayRebuilds(d: Dict)
    requires Valid(d)
    ensures ApplyAssignments(AsAssignments(d)) == d
  {
    ReplayPrefix(d, |d.keys|);
    assert AsAssignments(d)[..|d.keys|] == AsAssignments(d);
    assert d.keys[..|d.keys|] == d.keys;
  }

  /** The dictionary with every value stripped, in the same order. */
  function StripValues(d: Dict): (r: Dict)
    requires Valid(d)
    ensures Valid(r)
    ensures r.keys == d.keys && r.entries.Keys == d.entries.Keys
  {
    Dict(d.keys, map k | k in d.entries :: Strip(d.entries[k]))
  }

  /** Reading back what `write_env_file` wrote gives the same keys in the
      same order, each value stripped. A value holding a line break would
      come back as several lines, so values here are break-free. */
  lemma WriteThenRead(d: Dict)
    requires Valid(d)
    requires forall k :: k in d.entries ==> IsWellFormedKey(k) && NoLineBreak(d.entries[k])
    ensures ReadEnvFile(Some(WriteEnvFile(d))) == StripValues(d)
  {
    assert BreakFree(d) by {
      forall k | k in d.entries ensures NoLineBreak(k) && NoLineBreak(d.entries[k]) {
        assert IsWellFormedKey(k);
      }
    }
    var lines := EnvLines(d);
    assert WriteEnvFile(d) == lines;
    var s := StripValues(d);
    forall i | 0 <= i < |lines| ensures ParseEach(lines)[i] == AsAssignments(s)[i] {
      ParseEnvLine(d.keys[i], d.entries[d.keys[i]]);
    }
    assert ParseEach(lines) == AsAssignments(s);
    ReplayRebuilds(s);
  }

  /** With stripped values the round trip is exact. */
  lemma WriteThenReadExact(d: Dict)
    requires Valid(d)
    requires forall k :: k in d.entries ==> GoodEntry(k, d.entries[k])
    ensures ReadEnvFile(Some(WriteEnvFile(d))) == d
  {
    WriteThenRead(d);
    forall k | k in d.entries ensures Strip(d.entries[k]) == d.entries[k] {
      StripStripped(d.entries[k]);
    }
  }

  /** Rewriting the file unchanged (the read-modify-write with no
      modification) does not change what it reads as. */
  lemma RereadIsStable(file: Option<Lines>)
    requires AllFileLines(file)
    ensures ReadEnvFile(Some(WriteEnvFile(ReadEnvFile(file)))) == ReadEnvFile(file)
  {
    ParsedEntriesWellFormed(file);
    WriteThenReadExact(ReadEnvFile(file));
  }

  // ---------------------------------------------------------------------
  // The settings keys
  // ---------------------------------------------------------------------

  /** The seven keys the module names are pairwise different. */
  lemma SettingsKeysDistinct()
    ensures AuthEnabledKey != AuthUserKey && AuthEnabledKey != AuthPassKey
    ensures AuthUserKey != AuthPassKey
    ensures forall i :: 0 <= i < |ServiceDefaults| ==>
      var k := ServiceDefaults[i].0;
      k != AuthEnabledKey && k != AuthUserKey && k != AuthPassKey
    ensures forall i, j :: 0 <= i < j < |ServiceDefaults| ==> ServiceDefaults[i].0 != ServiceDefaults[j].0
  {
    assert |AuthEnabledKey| == 12 && |AuthUserKey| == 9 && |AuthPassKey| == 9;
    assert |FileRetentionHoursKey| == 20 && |RedisUrlKey| == 9;
    assert |BackendHostKey| == 12 && |BackendPortKey| == 12;
    assert AuthUserKey[5] != AuthPassKey[5];
    assert RedisUrlKey[0] != AuthUserKey[0] && RedisUrlKey[0] != AuthPassKey[0];
    assert BackendHostKey[0] != AuthEnabledKey[0] && BackendPortKey[0] != AuthEnabledKey[0];
    assert BackendHostKey[8] != BackendPortKey[8];
  }

  /** Every key the module writes reads back unchanged. */
  lemma AuthKeysWellFormed()
    ensures IsWellFormedKey(AuthEnabledKey) && IsWellFormedKey(AuthUserKey) && IsWellFormedKey(AuthPassKey)
  {
  }

  lemma ServiceDefaultsWellFormed()
    ensures forall i :: 0 <= i < |ServiceDefaults| ==> GoodEntry(ServiceDefaults[i].0, ServiceDefaults[i].1)
  {
    RetentionGood();
    RedisGood();
    HostGood();
    PortGood();
  }

  lemma RetentionGood()
    ensures GoodEntry(FileRetentionHoursKey, "1")
  {
    PrintableGood(FileRetentionHoursKey, "1");
  }

  lemma RedisGood()
    ensures GoodEntry(RedisUrlKey, "redis://127.0.0.1:6379/0")
  {
    PrintableGood(RedisUrlKey, "redis://127.0.0.1:6379/0");
  }

  lemma HostGood()
    ensures GoodEntry(BackendHostKey, "0.0.0.0")
  {
    PrintableGood(BackendHostKey, "0.0.0.0");
  }

  lemma PortGood()
    ensures GoodEntry(BackendPortKey, "8000")
  {
    PrintableGood(BackendPortKey, "8000");
  }

  /** Visible ASCII: no whitespace and no line break. */
  predicate Printable(s: string) {
    forall j :: 0 <= j < |s| ==> '!' <= s[j] <= '~'
  }

  lemma PrintableGood(k: string, v: string)
    requires Printable(k) && '=' !in k && (k == [] || k[0] != '#') && Printable(v)
    ensures GoodEntry(k, v)
  {
  }

  // ---------------------------------------------------------------------
  // update_auth_settings
  // ---------------------------------------------------------------------

  /** The text stored for a flag. */
  function BoolText(b: bool): string {
    if b then "true" else "false"
  }

  /** Python truthiness of an optional string: present and non-empty. */
  predicate Given(o: Option<string>) {
    o.Some? && o.value != []
  }

  /** The value the first pair with key `k` gives, if any. */
  function DefaultFor(defaults: seq<(string, string)>, k: string): (v: Option<string>)
    ensures v.Some? ==> (k, v.value) in defaults
  {
    if |defaults| == 0 then None
    else if defaults[0].0 == k then Some(defaults[0].1)
    else DefaultFor(defaults[1..], k)
  }

  /** A run of `setdefault` calls, in order. */
  function ApplyDefaults(d: Dict, defaults: seq<(string, string)>): (r: Dict)
    requires Valid(d)
    ensures Valid(r)
    ensures |d.keys| <= |r.keys| && r.keys[..|d.keys|] == d.keys
    decreases |defaults|
  {
    if |defaults| == 0 then d
    else
      var d1 := SetDefault(d, defaults[0].0, defaults[0].1);
      var r := ApplyDefaults(d1, defaults[1..]);
      assert r.keys[..|d.keys|] == r.keys[..|d1.keys|][..|d.keys|];
      r
  }

  /** Existing entries are kept, each missing key gets the first value
      listed for it, and no other key appears. */
  lemma {:induction false} ApplyDefaultsEntries(d: Dict, defaults: seq<(string, string)>, k: string)
    requires Valid(d)
    ensures k in ApplyDefaults(d, defaults).entries <==> k in d.entries || DefaultFor(defaults, k).Some?
    ensures k in d.entries ==> ApplyDefaults(d, defaults).entries[k] == d.entries[k]
    ensures k !in d.entries && DefaultFor(defaults, k).Some? ==>
      ApplyDefaults(d, defaults).entries[k] == DefaultFor(defaults, k).value
    decreases |defaults|
  {
    if |defaults| > 0 {
      var d1 := SetDefault(d, defaults[0].0, defaults[0].1);
      ApplyDefaultsEntries(d1, defaults[1..], k);
    }
  }

  /** `d[k] = o` when `o` is given, otherwise `d` unchanged. */
  function SetIfGiven(d: Dict, k: string, o: Option<string>): (r: Dict)
    requires Valid(d)
    ensures Valid(r)
    ensures |d.keys| <= |r.keys| && r.keys[..|d.keys|] == d.keys
    ensures r.entries == if o.Some? then d.entries[k := o.value] else d.entries
  {
    if o.Some? then Set(d, k, o.value) else d
  }

  /** The three assignments of the update, with the keys as parameters. */
  function SetThree(d: Dict, k1: string, v1: string, k2: string, o2: Option<string>, k3: string, o3: Option<string>): (r: Dict)
    requires Valid(d)
    requires k1 != k2 && k1 != k3 && k2 != k3
    ensures Valid(r)
    ensures |d.keys| <= |r.keys| && r.keys[..|d.keys|] == d.keys
    ensures forall j :: j in r.entries <==> j in d.entries || j == k1 || (j == k2 && o2.Some?) || (j == k3 && o3.Some?)
    ensures forall j :: j in r.entries ==>
      r.entries[j] == (if j == k1 then v1 else if j == k2 && o2.Some? then o2.value
        else if j == k3 && o3.Some? then o3.value else d.entries[j])
  {
    var d1 := Set(d, k1, v1);
    var d2 := SetIfGiven(d1, k2, o2);
    var d3 := SetIfGiven(d2, k3, o3);
    assert d3.keys[..|d.keys|] == d3.keys[..|d2.keys|][..|d1.keys|][..|d.keys|];
    ThreeUpdates(d.entries, k1, v1, k2, o2, k3, o3);
    d3
  }

  /** A map after one assignment and two optional ones, key by key. */
  lemma ThreeUpdates(m: map<string, string>, k1: string, v1: string, k2: string, o2: Option<string>, k3: string, o3: Option<string>)
    requires k1 != k2 && k1 != k3 && k2 != k3
    ensures var m1 := m[k1 := v1];
      var m2 := if o2.Some? then m1[k2 := o2.value] else m1;
      var r := if o3.Some? then m2[k3 := o3.value] else m2;
      && (forall j :: j in r <==> j in m || j == k1 || (j == k2 && o2.Some?) || (j == k3 && o3.Some?))
      && (forall j :: j in r ==>
        r[j] == (if j == k1 then v1 else if j == k2 && o2.Some? then o2.value
          else if j == k3 && o3.Some? then o3.value else m[j]))
  {
  }

  /** The file side of `update_auth_settings` before the defaults: the
      flag always, user name and password whenever given. */
  function SetAuthEntries(d: Dict, enabled: bool, user: Option<string>, pass: Option<string>): (r: Dict)
    requires Valid(d)
    ensures Valid(r)
    ensures |d.keys| <= |r.keys| && r.keys[..|d.keys|] == d.keys
  {
    SettingsKeysDistinct();
    SetThree(d, AuthEnabledKey, BoolText(enabled), AuthUserKey, user, AuthPassKey, pass)
  }

  /** The dictionary `update_auth_settings` writes back, given what it read. */
  function UpdatedFileSettings(d: Dict, enabled: bool, user: Option<string>, pass: Option<string>): (r: Dict)
    requires Valid(d)
    ensures Valid(r)
    ensures |d.keys| <= |r.keys| && r.keys[..|d.keys|] == d.keys
  {
    DefaultsAfter(SetAuthEntries(d, enabled, user, pass), d, ServiceDefaults)
  }

  /** `setdefault` run on an extension of `d` still extends `d`. */
  function DefaultsAfter(d3: Dict, d: Dict, defaults: seq<(string, string)>): (r: Dict)
    requires Valid(d3) && |d.keys| <= |d3.keys| && d3.keys[..|d.keys|] == d.keys
    ensures Valid(r)
    ensures |d.keys| <= |r.keys| && r.keys[..|d.keys|] == d.keys
  {
    var r := ApplyDefaults(d3, defaults);
    assert r.keys[..|d.keys|] == r.keys[..|d3.keys|][..|d.keys|];
    r
  }

  /** Key by key, what the update leaves in the file: the flag, the user
      name and password when given, every other key read from the file,
      and a service default for a service key the file lacks. */
  function UpdatedEntry(d: Dict, enabled: bool, user: Option<string>, pass: Option<string>, k: string): Option<string>
  {
    if k == AuthEnabledKey then Some(BoolText(enabled))
    else if k == AuthUserKey && user.Some? then user
    else if k == AuthPassKey && pass.Some? then pass
    else if k in d.entries then Some(d.entries[k])
    else DefaultFor(ServiceDefaults, k)
  }

  lemma SetAuthEntriesEntry(d: Dict, enabled: bool, user: Option<string>, pass: Option<string>, k: string)
    requires Valid(d)
    ensures var r := SetAuthEntries(d, enabled, user, pass);
      && (k in r.entries <==> k in d.entries || k == AuthEnabledKey || (k == AuthUserKey && user.Some?) || (k == AuthPassKey && pass.Some?))
      && (k in r.entries ==> UpdatedEntry(d, enabled, user, pass, k) == Some(r.entries[k]))
  {
    SettingsKeysDistinct();
    var r := SetAuthEntries(d, enabled, user, pass);
    assert k in r.entries ==>
      r.entries[k] == (if k == AuthEnabledKey then BoolText(enabled) else if k == AuthUserKey && user.Some? then user.value
        else if k == AuthPassKey && pass.Some? then pass.value else d.entries[k]);
  }

  /** The dictionary written back agrees with `UpdatedEntry` on every key. */
  lemma UpdatedFileEntry(d: Dict, enabled: bool, user: Option<string>, pass: Option<string>, k: string)
    requires Valid(d)
    ensures var r := UpdatedFileSettings(d, enabled, user, pass);
      && (k in r.entries <==> UpdatedEntry(d, enabled, user, pass, k).Some?)
      && (k in r.entries ==> Some(r.entries[k]) == UpdatedEntry(d, enabled, user, pass, k))
  {
    var d3 := SetAuthEntries(d, enabled, user, pass);
    SetAuthEntriesEntry(d, enabled, user, pass, k);
    ApplyDefaultsEntries(d3, ServiceDefaults, k);
  }

  /** `os.environ[k] = v` calls `putenv`, which refuses a value holding a
      NUL character: Python raises `ValueError` and the variable keeps its
      old value. */
  predicate HasNul(v: string) {
    '\0' in v
  }

  /** The user name is exported: it is non-empty and `putenv` takes it. */
  predicate UserExported(user: Option<string>) {
    Given(user) && !HasNul(user.value)
  }

  /** The password is exported: it is non-empty, `putenv` takes it, and no
      refused user name stopped the update before it. */
  predicate PassExported(user: Option<string>, pass: Option<string>) {
    && Given(pass) && !HasNul(pass.value)
    && !(Given(user) && HasNul(user.value))
  }

  /** The process-environment side of `update_auth_settings`: the flag is
      always exported, then the user name and then the password when
      non-empty. A refused value ends the update with `ValueError`, so
      nothing after it is exported. */
  function ExportedEnv(env: map<string, string>, enabled: bool, user: Option<string>, pass: Option<string>): (r: map<string, string>)
    ensures r.Keys == env.Keys + {AuthEnabledKey}
      + (if UserExported(user) then {AuthUserKey} else {}) + (if PassExported(user, pass) then {AuthPassKey} else {})
    ensures r[AuthEnabledKey] == BoolText(enabled)
    ensures UserExported(user) ==> r[AuthUserKey] == user.value
    ensures !UserExported(user) && AuthUserKey in env ==> r[AuthUserKey] == env[AuthUserKey]
    ensures PassExported(user, pass) ==> r[AuthPassKey] == pass.value
    ensures !PassExported(user, pass) && AuthPassKey in env ==> r[AuthPassKey] == env[AuthPassKey]
    ensures forall k :: k in env && k != AuthEnabledKey && k != AuthUserKey && k != AuthPassKey ==> r[k] == env[k]
  {
    SettingsKeysDistinct();
    var e1 := env[AuthEnabledKey := BoolText(enabled)];
    if !Given(user) then ExportPass(e1, pass)
    else if HasNul(user.value) then e1
    else ExportPass(e1[AuthUserKey := user.value], pass)
  }

  /** `if auth_pass: os.environ['AUTH_PASS'] = auth_pass`. */
  function ExportPass(e: map<string, string>, pass: Option<string>): map<string, string> {
    if Given(pass) && !HasNul(pass.value) then e[AuthPassKey := pass.value] else e
  }

  /** `update_auth_settings` ends with `ValueError`. */
  predicate UpdateRaises(user: Option<string>, pass: Option<string>) {
    (Given(user) && HasNul(user.value)) || (Given(pass) && HasNul(pass.value))
  }

  /** The update raises exactly when a given non-empty user name or
      password is left unexported, and the file is written either way. */
  lemma RaisesExactlyWhenExportSkipped(s: Settings, enabled: bool, user: Option<string>, pass: Option<string>)
    ensures UpdateRaises(user, pass)
      <==> (Given(user) && !UserExported(user)) || (Given(pass) && !PassExported(user, pass))
    ensures UpdateAuthSettings(s, enabled, user, pass).file.Some?
  {
  }

  /** Everything the settings functions see: the `.env` file (absent or
      its lines) and the process environment. */
  datatype Settings = Settings(file: Option<Lines>, env: map<string, string>)

  /** `update_auth_settings`: read, modify, write back, then export. */
  function UpdateAuthSettings(s: Settings, enabled: bool, user: Option<string>, pass: Option<string>): (r: Settings)
    ensures r.file.Some?
    ensures r.env == ExportedEnv(s.env, enabled, user, pass)
    ensures |r.file.value| >= |ReadEnvFile(s.file).keys|
  {
    var d := UpdatedFileSettings(ReadEnvFile(s.file), enabled, user, pass);
    Settings(Some(WriteEnvFile(d)), ExportedEnv(s.env, enabled, user, pass))
  }

  // ---------------------------------------------------------------------
  // Lookups
  // ---------------------------------------------------------------------

  /** `os.getenv(key, env_vars.get(key, default))`: the process environment
      first, then the file, then the fallback. */
  function Lookup(env: map<string, string>, d: Dict, key: string, default: string): (v: string)
    ensures key in env ==> v == env[key]
    ensures key !in env && key in d.entries ==> v == d.entries[key]
    ensures key !in env && key !in d.entries ==> v == default
  {
    GetOr(env, key, Get(d, key, default))
  }

  /** `text.lower() in ('true', '1', 'yes')`. */
  predicate IsTruthyText(text: string) {
    LowerAscii(text) in {"true", "1", "yes"}
  }

  /** The flag text the module writes reads back as the flag. */
  lemma BoolTextRoundTrip(b: bool)
    ensures IsTruthyText(BoolText(b)) == b
  {
    if !b {
      assert LowerAscii("false") == "false";
    } else {
      assert LowerAscii("true") == "true";
    }
  }

  /** What `get_auth_settings` reports. */
  datatype AuthSettings = AuthSettings(authEnabled: bool, authUser: Option<string>)

  /** `get_auth_settings`: the flag and user name looked up with the
      environment first; an empty user name is reported as none. */
  function GetAuthSettings(s: Settings): (a: AuthSettings)
    ensures a.authEnabled <==> IsTruthyText(Lookup(s.env, ReadEnvFile(s.file), AuthEnabledKey, DefaultAuthEnabled))
    ensures a.authUser.Some? ==> a.authUser.value == Lookup(s.env, ReadEnvFile(s.file), AuthUserKey, DefaultAuthUser)
    ensures a.authUser.None? <==> Lookup(s.env, ReadEnvFile(s.file), AuthUserKey, DefaultAuthUser) == []
  {
    var d := ReadEnvFile(s.file);
    var user := Lookup(s.env, d, AuthUserKey, DefaultAuthUser);
    AuthSettings(IsTruthyText(Lookup(s.env, d, AuthEnabledKey, DefaultAuthEnabled)),
                 if user != [] then Some(user) else None)
  }

  /** `verify_password`: plain equality with the current password. */
  function VerifyPassword(s: Settings, password: string): (ok: bool)
    ensures ok <==> password == Lookup(s.env, ReadEnvFile(s.file), AuthPassKey, DefaultAuthPass)
  {
    password == Lookup(s.env, ReadEnvFile(s.file), AuthPassKey, DefaultAuthPass)
  }

  // ---------------------------------------------------------------------
  // initialize_env_if_missing
  // ---------------------------------------------------------------------

  /** A dictionary display `{k0: v0, k1: v1, ...}`. */
  function DictOf(pairs: seq<(string, string)>): (d: Dict)
    ensures Valid(d)
  {
    ApplyAssignments(seq(|pairs|, i requires 0 <= i < |pairs| => Some(pairs[i])))
  }

  /** The dictionary `initialize_env_if_missing` writes. */
  function InitialSettings(): (d: Dict)
    ensures Valid(d)
  {
    DictOf(InitialEntries)
  }

  /** `initialize_env_if_missing`: an existing file is left alone; a
      missing one is created with the initial settings. */
  function InitializeEnvIfMissing(file: Option<Lines>): (r: Option<Lines>)
    ensures r.Some?
    ensures file.Some? ==> r == file
    ensures file.None? ==> r == Some(WriteEnvFile(InitialSettings()))
  {
    if file.None? then Some(WriteEnvFile(InitialSettings())) else file
  }

  // ---------------------------------------------------------------------
  // What the settings read as after an update
  // ---------------------------------------------------------------------

  /** In the same process, the update takes effect at once: the flag reads
      as set, a non-empty user name is reported and a non-empty password
      is the one accepted. */
  lemma UpdateThenGet(s: Settings, enabled: bool, user: Option<string>, pass: Option<string>)
    ensures GetAuthSettings(UpdateAuthSettings(s, enabled, user, pass)).authEnabled == enabled
    ensures UserExported(user) ==> GetAuthSettings(UpdateAuthSettings(s, enabled, user, pass)).authUser == user
    ensures PassExported(user, pass) ==> forall q :: VerifyPassword(UpdateAuthSettings(s, enabled, user, pass), q) <==> q == pass.value
    ensures Given(user) && !UserExported(user) && AuthUserKey in s.env ==>
      GetAuthSettings(UpdateAuthSettings(s, enabled, user, pass)).authUser
        == if s.env[AuthUserKey] == [] then None else Some(s.env[AuthUserKey])
    ensures Given(pass) && !PassExported(user, pass) && AuthPassKey in s.env ==>
      forall q :: VerifyPassword(UpdateAuthSettings(s, enabled, user, pass), q) <==> q == s.env[AuthPassKey]
  {
    BoolTextRoundTrip(enabled);
  }

  /** A user name with a NUL character is written to the file but refused
      by the environment: the update raises, the old name is still
      reported, the old password is still the one accepted and the new one
      is never exported. */
  lemma NulUserKeepsPrevious(s: Settings, enabled: bool, u: string, pass: string)
    requires HasNul(u) && pass != []
    requires AuthUserKey in s.env && s.env[AuthUserKey] != [] && AuthPassKey in s.env
    requires pass != s.env[AuthPassKey]
    ensures UpdateRaises(Some(u), Some(pass))
    ensures var r := UpdateAuthSettings(s, enabled, Some(u), Some(pass));
      && GetAuthSettings(r).authUser == Some(s.env[AuthUserKey])
      && VerifyPassword(r, s.env[AuthPassKey])
      && !VerifyPassword(r, pass)
  {
    UpdateThenGet(s, enabled, Some(u), Some(pass));
  }

  /** The file written by an update reads back, key by key, as
      `UpdatedEntry` with the value stripped. */
  lemma UpdateThenRead(s: Settings, enabled: bool, user: Option<string>, pass: Option<string>, k: string)
    requires AllFileLines(s.file)
    requires user.Some? ==> NoLineBreak(user.value)
    requires pass.Some? ==> NoLineBreak(pass.value)
    ensures var d := ReadEnvFile(UpdateAuthSettings(s, enabled, user, pass).file);
      var e := UpdatedEntry(ReadEnvFile(s.file), enabled, user, pass, k);
      && (k in d.entries <==> e.Some?)
      && (k in d.entries ==> d.entries[k] == Strip(e.value))
  {
    var prior := ReadEnvFile(s.file);
    ParsedEntriesWellFormed(s.file);
    UpdatedFileWritable(prior, enabled, user, pass);
    WriteThenRead(UpdatedFileSettings(prior, enabled, user, pass));
    UpdatedFileEntry(prior, enabled, user, pass, k);
  }

  /** Starting from entries the parser produced, everything the update
      writes back has a well-formed key and a break-free value. */
  lemma UpdatedFileWritable(prior: Dict, enabled: bool, user: Option<string>, pass: Option<string>)
    requires Valid(prior)
    requires forall k :: k in prior.entries ==> GoodEntry(k, prior.entries[k])
    requires user.Some? ==> NoLineBreak(user.value)
    requires pass.Some? ==> NoLineBreak(pass.value)
    ensures var u := UpdatedFileSettings(prior, enabled, user, pass);
      forall j :: j in u.entries ==> IsWellFormedKey(j) && NoLineBreak(u.entries[j])
  {
    var u := UpdatedFileSettings(prior, enabled, user, pass);
    forall j | j in u.entries ensures IsWellFormedKey(j) && NoLineBreak(u.entries[j]) {
      UpdatedFileEntry(prior, enabled, user, pass, j);
      UpdatedEntryWritable(prior, enabled, user, pass, j);
    }
  }

  lemma UpdatedEntryWritable(prior: Dict, enabled: bool, user: Option<string>, pass: Option<string>, j: string)
    requires Valid(prior)
    requires forall k :: k in prior.entries ==> GoodEntry(k, prior.entries[k])
    requires user.Some? ==> NoLineBreak(user.value)
    requires pass.Some? ==> NoLineBreak(pass.value)
    requires UpdatedEntry(prior, enabled, user, pass, j).Some?
    ensures IsWellFormedKey(j) && NoLineBreak(UpdatedEntry(prior, enabled, user, pass, j).value)
  {
    if j == AuthEnabledKey || j == AuthUserKey || j == AuthPassKey {
      AuthKeysWellFormed();
      BoolTextGood(enabled);
    } else if j !in prior.entries {
      ServiceDefaultsWellFormed();
      DefaultForListed(ServiceDefaults, j);
    }
  }

  lemma BoolTextGood(b: bool)
    ensures NoLineBreak(BoolText(b)) && IsStripped(BoolText(b))
  {
  }

  /** A key `DefaultFor` finds is the key of one of the listed pairs. */
  lemma DefaultForListed(defaults: seq<(string, string)>, k: string)
    requires DefaultFor(defaults, k).Some?
    ensures exists i :: 0 <= i < |defaults| && defaults[i] == (k, DefaultFor(defaults, k).value)
  {
    var v := DefaultFor(defaults, k).value;
    assert (k, v) in defaults;
  }

  /** After a restart whose environment does not carry the settings,
      everything comes from the file: the flag as set, the user name and
      the password as given but stripped. */
  lemma UpdateThenRestart(s: Settings, enabled: bool, user: Option<string>, pass: Option<string>)
    requires AllFileLines(s.file)
    requires user.Some? ==> NoLineBreak(user.value)
    requires pass.Some? ==> NoLineBreak(pass.value)
    ensures var restarted := Settings(UpdateAuthSettings(s, enabled, user, pass).file, map[]);
      && GetAuthSettings(restarted).authEnabled == enabled
      && (user.Some? ==> GetAuthSettings(restarted).authUser == if Strip(user.value) == [] then None else Some(Strip(user.value)))
      && (pass.Some? ==> forall q :: VerifyPassword(restarted, q) <==> q == Strip(pass.value))
  {
    RestartedFlag(s, enabled, user, pass);
    RestartedUser(s, enabled, user, pass);
    RestartedPassword(s, enabled, user, pass);
  }

  lemma RestartedFlag(s: Settings, enabled: bool, user: Option<string>, pass: Option<string>)
    requires AllFileLines(s.file)
    requires user.Some? ==> NoLineBreak(user.value)
    requires pass.Some? ==> NoLineBreak(pass.value)
    ensures GetAuthSettings(Settings(UpdateAuthSettings(s, enabled, user, pass).file, map[])).authEnabled == enabled
  {
    RestartedFlagText(s, enabled, user, pass);
    BoolTextRoundTrip(enabled);
  }

  lemma RestartedFlagText(s: Settings, enabled: bool, user: Option<string>, pass: Option<string>)
    requires AllFileLines(s.file)
    requires user.Some? ==> NoLineBreak(user.value)
    requires pass.Some? ==> NoLineBreak(pass.value)
    ensures Lookup(map[], ReadEnvFile(UpdateAuthSettings(s, enabled, user, pass).file), AuthEnabledKey, DefaultAuthEnabled)
      == BoolText(enabled)
  {
    RestartedLookup(s, enabled, user, pass, AuthEnabledKey, DefaultAuthEnabled);
    assert UpdatedEntry(ReadEnvFile(s.file), enabled, user, pass, AuthEnabledKey) == Some(BoolText(enabled));
    StripBoolText(enabled);
  }

  lemma StripBoolText(b: bool)
    ensures Strip(BoolText(b)) == BoolText(b)
  {
    BoolTextGood(b);
    StripStripped(BoolText(b));
  }

  lemma RestartedUser(s: Settings, enabled: bool, user: Option<string>, pass: Option<string>)
    requires AllFileLines(s.file)
    requires user.Some? ==> NoLineBreak(user.value)
    requires pass.Some? ==> NoLineBreak(pass.value)
    ensures user.Some? ==>
      GetAuthSettings(Settings(UpdateAuthSettings(s, enabled, user, pass).file, map[])).authUser
        == if Strip(user.value) == [] then None else Some(Strip(user.value))
  {
    SettingsKeysDistinct();
    RestartedLookup(s, enabled, user, pass, AuthUserKey, DefaultAuthUser);
  }

  lemma RestartedPassword(s: Settings, enabled: bool, user: Option<string>, pass: Option<string>)
    requires AllFileLines(s.file)
    requires user.Some? ==> NoLineBreak(user.value)
    requires pass.Some? ==> NoLineBreak(pass.value)
    ensures pass.Some? ==> forall q ::
      VerifyPassword(Settings(UpdateAuthSettings(s, enabled, user, pass).file, map[]), q) <==> q == Strip(pass.value)
  {
    SettingsKeysDistinct();
    RestartedLookup(s, enabled, user, pass, AuthPassKey, DefaultAuthPass);
  }

  /** With an empty environment a lookup of an auth key after an update
      sees the stripped `UpdatedEntry`. */
  lemma RestartedLookup(s: Settings, enabled: bool, user: Option<string>, pass: Option<string>, k: string, default: string)
    requires AllFileLines(s.file)
    requires user.Some? ==> NoLineBreak(user.value)
    requires pass.Some? ==> NoLineBreak(pass.value)
    requires k == AuthEnabledKey || k == AuthUserKey || k == AuthPassKey
    ensures var e := UpdatedEntry(ReadEnvFile(s.file), enabled, user, pass, k);
      Lookup(map[], ReadEnvFile(UpdateAuthSettings(s, enabled, user, pass).file), k, default)
        == if e.Some? then Strip(e.value) else default
  {
    UpdateThenRead(s, enabled, user, pass, k);
  }

  /** A password with surrounding whitespace is accepted until the restart,
      provided the environment took it, and rejected after it: the file
      keeps the padding, but reading the file back strips it from the
      value. */
  lemma PaddedPasswordLostOnRestart(s: Settings, enabled: bool, user: Option<string>, p: string)
    requires AllFileLines(s.file)
    requires user.Some? ==> NoLineBreak(user.value)
    requires NoLineBreak(p) && p != [] && !IsStripped(p)
    ensures VerifyPassword(UpdateAuthSettings(s, enabled, user, Some(p)), p)
      <==> PassExported(user, Some(p)) || (AuthPassKey in s.env && s.env[AuthPassKey] == p)
    ensures !VerifyPassword(Settings(UpdateAuthSettings(s, enabled, user, Some(p)).file, map[]), p)
    ensures EnvLine(AuthPassKey, p) in UpdateAuthSettings(s, enabled, user, Some(p)).file.value
  {
    UpdateThenRestart(s, enabled, user, Some(p));
    PasswordLineWritten(s, enabled, user, p);
    if !PassExported(user, Some(p)) && AuthPassKey !in s.env {
      UnexportedPasswordFromFile(s, enabled, user, p);
    }
  }

  /** A password neither exported nor inherited is absent from the
      environment. */
  lemma UnexportedPasswordAbsent(env: map<string, string>, enabled: bool, user: Option<string>, pass: Option<string>)
    requires !PassExported(user, pass) && AuthPassKey !in env
    ensures AuthPassKey !in ExportedEnv(env, enabled, user, pass)
  {
    SettingsKeysDistinct();
  }

  /** A password the environment did not take and did not hold is looked
      up in the new file, where it reads back stripped. */
  lemma UnexportedPasswordFromFile(s: Settings, enabled: bool, user: Option<string>, p: string)
    requires AllFileLines(s.file)
    requires user.Some? ==> NoLineBreak(user.value)
    requires NoLineBreak(p) && !IsStripped(p)
    requires !PassExported(user, Some(p)) && AuthPassKey !in s.env
    ensures !VerifyPassword(UpdateAuthSettings(s, enabled, user, Some(p)), p)
  {
    var r := UpdateAuthSettings(s, enabled, user, Some(p));
    var d := ReadEnvFile(r.file);
    calc {
      Lookup(r.env, d, AuthPassKey, DefaultAuthPass);
      == { UnexportedPasswordAbsent(s.env, enabled, user, Some(p)); }
      Lookup(map[], d, AuthPassKey, DefaultAuthPass);
      == { FilePasswordAfterUpdate(s, enabled, user, p); }
      Strip(p);
    }
    assert Strip(p) != p;
  }

  /** The file written by an update holds the given password, stripped
      when read back. */
  lemma FilePasswordAfterUpdate(s: Settings, enabled: bool, user: Option<string>, p: string)
    requires AllFileLines(s.file)
    requires user.Some? ==> NoLineBreak(user.value)
    requires NoLineBreak(p)
    ensures Lookup(map[], ReadEnvFile(UpdateAuthSettings(s, enabled, user, Some(p)).file), AuthPassKey, DefaultAuthPass) == Strip(p)
  {
    SettingsKeysDistinct();
    RestartedLookup(s, enabled, user, Some(p), AuthPassKey, DefaultAuthPass);
    assert UpdatedEntry(ReadEnvFile(s.file), enabled, user, Some(p), AuthPassKey) == Some(p);
  }

  /** The password line is written with the password exactly as given. */
  lemma PasswordLineWritten(s: Settings, enabled: bool, user: Option<string>, p: string)
    requires AllFileLines(s.file)
    requires user.Some? ==> NoLineBreak(user.value)
    requires NoLineBreak(p)
    ensures EnvLine(AuthPassKey, p) in UpdateAuthSettings(s, enabled, user, Some(p)).file.value
  {
    var d := UpdatedFileSettings(ReadEnvFile(s.file), enabled, user, Some(p));
    UpdatedPasswordWritable(s.file, enabled, user, p);
    EntryLineWritten(d, AuthPassKey);
    UpdatedFile(s, enabled, user, Some(p));
  }

  /** The file an update leaves behind is the updated dictionary, written. */
  lemma UpdatedFile(s: Settings, enabled: bool, user: Option<string>, pass: Option<string>)
    ensures UpdateAuthSettings(s, enabled, user, pass).file
      == Some(WriteEnvFile(UpdatedFileSettings(ReadEnvFile(s.file), enabled, user, pass)))
  {
  }

  /** The updated dictionary holds the given password and only writable
      entries. */
  lemma UpdatedPasswordWritable(file: Option<Lines>, enabled: bool, user: Option<string>, p: string)
    requires AllFileLines(file)
    requires user.Some? ==> NoLineBreak(user.value)
    requires NoLineBreak(p)
    ensures var d := UpdatedFileSettings(ReadEnvFile(file), enabled, user, Some(p));
      && AuthPassKey in d.entries && d.entries[AuthPassKey] == p
      && forall j :: j in d.entries ==> IsWellFormedKey(j) && NoLineBreak(d.entries[j])
  {
    var prior := ReadEnvFile(file);
    ParsedEntriesWellFormed(file);
    UpdatedFileWritable(prior, enabled, user, Some(p));
    SettingsKeysDistinct();
    UpdatedFileEntry(prior, enabled, user, Some(p), AuthPassKey);
  }

  /** With well-formed keys and break-free values, every entry's own line
      is among the lines written. */
  lemma EntryLineWritten(d: Dict, k: string)
    requires Valid(d) && k in d.entries
    requires forall j :: j in d.entries ==> IsWellFormedKey(j) && NoLineBreak(d.entries[j])
    ensures EnvLine(k, d.entries[k]) in WriteEnvFile(d)
  {
    assert BreakFree(d) by {
      forall j | j in d.entries ensures NoLineBreak(j) && NoLineBreak(d.entries[j]) {
        assert IsWellFormedKey(j);
      }
    }
    var i :| 0 <= i < |d.keys| && d.keys[i] == k;
    assert EnvLines(d)[i] == EnvLine(k, d.entries[k]);
  }

  /** Clearing the user name writes an empty value to the file but leaves
      the exported one in place, so the old name is still reported. */
  lemma ClearedUserStillReported(s: Settings, enabled: bool, pass: Option<string>)
    requires AuthUserKey in s.env && s.env[AuthUserKey] != []
    ensures GetAuthSettings(UpdateAuthSettings(s, enabled, Some(""), pass)).authUser == Some(s.env[AuthUserKey])
  {
  }

  /** A user name holding a line break and an `AUTH_ENABLED=true` after it
      writes a file line of its own: disabling authentication with that
      name takes effect at once, and after a restart with an empty
      environment the injected line, coming after the flag's own line,
      turns authentication on. */
  lemma InjectedUserLineEnablesAuth(env: map<string, string>, p: string)
    requires NoLineBreak(p)
    ensures var s := UpdateAuthSettings(Settings(None, env), false, Some(p + "\n" + AuthEnabledKey + "=true"), None);
      && !GetAuthSettings(s).authEnabled
      && GetAuthSettings(Settings(s.file, map[])).authEnabled
  {
    var u := p + "\n" + AuthEnabledKey + "=true";
    var s := UpdateAuthSettings(Settings(None, env), false, Some(u), None);
    UpdateThenGet(Settings(None, env), false, Some(u), None);
    var lines := WriteEnvFile(UpdatedFileSettings(Empty, false, Some(u), None));
    assert s.file == Some(lines);
    InjectedLines(p);
    InjectedFlagWins(lines);
  }

  /** A flag line `AUTH_ENABLED=true` third in the file, with no later line
      setting the flag, turns authentication on for an empty environment. */
  lemma InjectedFlagWins(lines: Lines)
    requires |lines| > 2 && lines[2] == EnvLine(AuthEnabledKey, "true")
    requires forall j :: 2 < j < |lines| ==> !SetsKey(ParseLine(lines[j]), AuthEnabledKey)
    ensures GetAuthSettings(Settings(Some(lines), map[])).authEnabled
  {
    AuthKeysWellFormed();
    ParseEnvLine(AuthEnabledKey, "true");
    StripBoolText(true);
    LastLineWins(lines, 2, AuthEnabledKey, "true");
    BoolTextRoundTrip(true);
  }

  /** The lines written by the update above: the injected flag line comes
      third, and no later line sets the flag. */
  lemma InjectedLines(p: string)
    requires NoLineBreak(p)
    ensures var lines := WriteEnvFile(UpdatedFileSettings(Empty, false, Some(p + "\n" + AuthEnabledKey + "=true"), None));
      && |lines| > 2 && lines[2] == EnvLine(AuthEnabledKey, "true")
      && forall j :: 2 < j < |lines| ==> !SetsKey(ParseLine(lines[j]), AuthEnabledKey)
  {
    var q := AuthEnabledKey + "=true";
    var u := p + "\n" + AuthEnabledKey + "=true";
    assert u == p + "\n" + q by { AppendAssoc(p + "\n", AuthEnabledKey, "=true"); }
    var d := UpdatedFileSettings(Empty, false, Some(u), None);
    InjectedKeys(u);
    InjectedEntries(u);
    AuthKeysWellFormed();
    FlagAssignment();
    SecondValueBroken(d, p, q);
  }

  /** The text `AUTH_ENABLED=true` is break-free, and with its newline it
      is the line the module writes for the flag when it is set. */
  lemma FlagAssignment()
    ensures NoLineBreak(AuthEnabledKey + "=true")
    ensures AuthEnabledKey + "=true" + "\n" == EnvLine(AuthEnabledKey, "true")
  {
  }

  /** When the second entry's value holds a line break, its tail is the
      third line read back, and no later line sets the first key. */
  lemma SecondValueBroken(d: Dict, p: string, q: string)
    requires Valid(d) && |d.keys| >= 2
    requires d.entries[d.keys[1]] == p + "\n" + q
    requires IsWellFormedKey(d.keys[1]) && NoLineBreak(p) && NoLineBreak(q)
    requires forall k :: k in d.entries && k != d.keys[1] ==> IsWellFormedKey(k) && NoLineBreak(d.entries[k])
    ensures |WriteEnvFile(d)| > 2 && WriteEnvFile(d)[2] == q + "\n"
    ensures forall j :: 2 < j < |WriteEnvFile(d)| ==> !SetsKey(ParseLine(WriteEnvFile(d)[j]), d.keys[0])
  {
    WrittenWithBrokenValue(d, 1, p, q);
    var ls := EnvLines(d);
    var lines := WriteEnvFile(d);
    forall j | 2 < j < |lines| ensures !SetsKey(ParseLine(lines[j]), d.keys[0]) {
      var k := d.keys[j - 1];
      assert lines[j] == ls[j - 1] && k != d.keys[0] && k != d.keys[1];
      ParseEnvLine(k, d.entries[k]);
    }
  }

  /** The user name is stored as given, and every other entry of the
      update's dictionary is writable. */
  lemma InjectedEntries(u: string)
    ensures var d := UpdatedFileSettings(Empty, false, Some(u), None);
      && AuthUserKey in d.entries && d.entries[AuthUserKey] == u
      && forall k :: k in d.entries && k != AuthUserKey ==> IsWellFormedKey(k) && NoLineBreak(d.entries[k])
  {
    var d := UpdatedFileSettings(Empty, false, Some(u), None);
    SettingsKeysDistinct();
    UpdatedFileEntry(Empty, false, Some(u), None, AuthUserKey);
    forall k | k in d.entries && k != AuthUserKey ensures IsWellFormedKey(k) && NoLineBreak(d.entries[k]) {
      InjectedOtherEntry(u, k);
    }
  }

  /** Apart from the user name, the update's entries are those of the same
      update without one, which are writable. */
  lemma InjectedOtherEntry(u: string, k: string)
    requires k in UpdatedFileSettings(Empty, false, Some(u), None).entries && k != AuthUserKey
    ensures IsWellFormedKey(k) && NoLineBreak(UpdatedFileSettings(Empty, false, Some(u), None).entries[k])
  {
    UpdatedFileEntry(Empty, false, Some(u), None, k);
    assert UpdatedEntry(Empty, false, Some(u), None, k) == UpdatedEntry(Empty, false, None, None, k);
    UpdatedEntryWritable(Empty, false, None, None, k);
  }

  /** Starting from no file, the update's dictionary holds the flag first
      and the user name second. */
  lemma InjectedKeys(u: string)
    ensures var d := UpdatedFileSettings(Empty, false, Some(u), None);
      |d.keys| >= 2 && d.keys[0] == AuthEnabledKey && d.keys[1] == AuthUserKey
  {
    SettingsKeysDistinct();
    var d3 := SetAuthEntries(Empty, false, Some(u), None);
    assert d3 == SetThree(Empty, AuthEnabledKey, BoolText(false), AuthUserKey, Some(u), AuthPassKey, None);
    SetThreeFromEmpty(AuthEnabledKey, BoolText(false), AuthUserKey, u, AuthPassKey);
    var r := ApplyDefaults(d3, ServiceDefaults);
    assert r.keys[..2] == d3.keys;
  }

  /** From an empty dictionary, setting a flag and then a user name without
      a password lists the two keys in that order. */
  lemma SetThreeFromEmpty(k1: string, v1: string, k2: string, u: string, k3: string)
    requires k1 != k2 && k1 != k3 && k2 != k3
    ensures SetThree(Empty, k1, v1, k2, Some(u), k3, None).keys == [k1, k2]
  {
    var d1 := Set(Empty, k1, v1);
    assert d1.keys == [k1];
    var d2 := SetIfGiven(d1, k2, Some(u));
    assert d2.keys == [k1, k2];
  }

  // ---------------------------------------------------------------------
  // The initial file
  // ---------------------------------------------------------------------

  /** With distinct keys the first pair for a key is its only one. */
  lemma {:induction false} DefaultForIndex(pairs: seq<(string, string)>, i: nat)
    requires i < |pairs|
    requires forall a, b :: 0 <= a < b < |pairs| ==> pairs[a].0 != pairs[b].0
    ensures DefaultFor(pairs, pairs[i].0) == Some(pairs[i].1)
    decreases i
  {
    if i > 0 {
      assert pairs[0].0 != pairs[i].0;
      assert pairs[1..][i - 1] == pairs[i];
      DefaultForIndex(pairs[1..], i - 1);
    }
  }

  /** A dictionary display with distinct keys maps each key to the value
      written next to it. */
  lemma DictOfEntry(pairs: seq<(string, string)>, k: string)
    requires forall a, b :: 0 <= a < b < |pairs| ==> pairs[a].0 != pairs[b].0
    ensures k in DictOf(pairs).entries <==> DefaultFor(pairs, k).Some?
    ensures k in DictOf(pairs).entries ==> DictOf(pairs).entries[k] == DefaultFor(pairs, k).value
  {
    var es := seq(|pairs|, i requires 0 <= i < |pairs| => Some(pairs[i]));
    if i :| 0 <= i < |pairs| && pairs[i].0 == k {
      DefaultForIndex(pairs, i);
      LastAssignmentApplied(es, i, k, pairs[i].1);
    } else {
      UnsetKeyAbsent(es, k);
    }
  }

  lemma InitialEntriesDistinct()
    ensures forall a, b :: 0 <= a < b < |InitialEntries| ==> InitialEntries[a].0 != InitialEntries[b].0
  {
    SettingsKeysDistinct();
    forall a, b | 0 <= a < b < |InitialEntries| ensures InitialEntries[a].0 != InitialEntries[b].0 {
      if a > 0 {
        assert InitialEntries[a] == ServiceDefaults[a - 1];
        assert InitialEntries[b] == ServiceDefaults[b - 1];
      } else {
        assert InitialEntries[b] == ServiceDefaults[b - 1];
      }
    }
  }

  /** The initial settings are exactly what disabling authentication
      writes when there is no file yet. */
  lemma InitialIsDisabledUpdate(k: string)
    ensures k in InitialSettings().entries <==> k in UpdatedFileSettings(Empty, false, None, None).entries
    ensures k in InitialSettings().entries ==>
      InitialSettings().entries[k] == UpdatedFileSettings(Empty, false, None, None).entries[k]
  {
    InitialEntriesDistinct();
    DictOfEntry(InitialEntries, k);
    UpdatedFileEntry(Empty, false, None, None, k);
    assert InitialEntries[1..] == ServiceDefaults;
  }

  /** A created file reads back as the initial settings, which report
      authentication off, no user, and accept the fallback password. */
  lemma InitializeThenRead()
    ensures ReadEnvFile(InitializeEnvIfMissing(None)) == InitialSettings()
    ensures GetAuthSettings(Settings(InitializeEnvIfMissing(None), map[])) == AuthSettings(false, None)
    ensures VerifyPassword(Settings(InitializeEnvIfMissing(None), map[]), DefaultAuthPass)
  {
    var d := InitialSettings();
    AuthKeysWellFormed();
    ServiceDefaultsWellFormed();
    BoolTextGood(false);
    SettingsKeysDistinct();
    forall k | k in d.entries ensures GoodEntry(k, d.entries[k]) {
      InitialIsDisabledUpdate(k);
      UpdatedFileEntry(Empty, false, None, None, k);
      if k != AuthEnabledKey {
        DefaultForListed(ServiceDefaults, k);
      }
    }
    WriteThenReadExact(d);
    InitialIsDisabledUpdate(AuthEnabledKey);
    InitialIsDisabledUpdate(AuthUserKey);
    InitialIsDisabledUpdate(AuthPassKey);
    UpdatedFileEntry(Empty, false, None, None, AuthEnabledKey);
    UpdatedFileEntry(Empty, false, None, None, AuthUserKey);
    UpdatedFileEntry(Empty, false, None, None, AuthPassKey);
    ServiceDefaultsMiss(AuthUserKey);
    ServiceDefaultsMiss(AuthPassKey);
    BoolTextRoundTrip(false);
  }

  /** The auth keys have no service default. */
  lemma ServiceDefaultsMiss(k: string)
    requires k == AuthEnabledKey || k == AuthUserKey || k == AuthPassKey
    ensures DefaultFor(ServiceDefaults, k).None?
  {
    SettingsKeysDistinct();
    if DefaultFor(ServiceDefaults, k).Some? {
      DefaultForListed(ServiceDefaults, k);
    }
  }
}
