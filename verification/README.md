# 8mb.local core, modelled in Dafny

This project models the decision and transformation logic of the 8mb.local
video-compression service and proves properties of it. The covered parts are:

- **Auto-resolution planner** (`worker/app/auto_resolution.py`). Given the
  source dimensions and the video bitrate budget, it returns `(None, None)` or
  `(None, h)`. It walks the ladder 2160, 1440, 1080, 720, 480, 360, 240 from
  the top and takes the first rung that is no taller than the source and still
  gets at least 700 kbps per megapixel. If no rung qualifies it falls back to
  `min_height`, and the result is always at least `min_height`. A truthy
  explicit height overrides the heuristic.
- **GPU subprocess environment** (`worker/app/gpu_env.py`). This is a copy of
  the process environment with two things added:
  - the NVIDIA visibility variables, defaulted only when absent;
  - fixed CUDA/NVIDIA directories appended to `LD_LIBRARY_PATH` and `PATH`.
- **Runtime settings** (`backend-api/app/settings_manager.py`). This covers:
  - the `.env` line parser and its serialiser;
  - the read-modify-write that `update_auth_settings` performs, and what it exports to the process environment;
  - the lookups of `get_auth_settings` and `verify_password`, where the environment wins over the file and the file wins over a fallback;
  - the first-run file written by `initialize_env_if_missing`.
- **HTTP Basic guard** (`backend-api/app/auth.py`). A request is either
  allowed, or rejected with 401 and a `WWW-Authenticate: Basic` challenge.

## How the model is built

The model uses these modules:

| module | contents |
|---|---|
| `Wrappers` | `Option` and map lookups |
| `Strings` | Python's `isspace`, `strip`, `find`, `split`, `join`, and `lower` restricted to ASCII |
| `TextFile` | a text file on a POSIX system: the written text kept verbatim, and read back in text mode as universal-newline lines |
| `LineFormat` | one `.env` line: how `read_env_file` parses it and how `write_env_file` emits an entry |
| `PyDict` | a dictionary that keeps insertion order, so the line order of `write_env_file` is part of the model |
| `AutoResolution` | the planner |
| `GpuEnv` | the GPU environment builder |
| `SettingsManager` | the runtime settings |
| `Auth` | the Basic guard |

Modelling choices:

- **Floats.** Python floats are modelled as exact reals. The density test stays a
  division, exactly as written. The lemma `QualifiesCrossMultiplied` proves
  that it is the same as comparing `target·orig_height·10^6` with
  `700·orig_width·h²`.
- **The `.env` file.** It is `Option<seq<string>>`: `None` when the file does
  not exist, otherwise the lines that text-mode iteration yields, each with
  its `\n` except possibly the last. What `write_env_file` leaves behind is computed in two steps.
  First comes the text it writes: one `key=value\n` per entry, kept verbatim.
  Then that text is split the way text-mode iteration splits it: at `\n`,
  `\r\n` or a lone `\r`, each read as `\n` (`TextFile.TextLines`). So a key
  or value holding a line break comes back as more than one line.
- **The process environment.** It is a `map<string, string>` passed in. Where
  the source mutates `os.environ`, the model returns the new map. Assigning
  to `os.environ` calls `putenv`, which refuses a value holding a NUL
  character with `ValueError`. The model keeps the state such an update
  leaves behind: the file written, and only the exports before the refused
  one (`SettingsManager.ExportedEnv`, `SettingsManager.UpdateRaises`).
- **The guard's configuration.** It is a parameter rather than the
  module-level `settings` object.

### Where the code and its test comments differ

The planner's test file carries comments that describe a gentler planner
than the code. The model follows the code.

- **4K at a low budget.** The comment at
  `worker/tests/test_auto_resolution.py:8` expects a modest drop, "likely
  1440p". The code has a single 700 kbps-per-megapixel threshold, and
  3840x2160 at 2500 kbps gets 1080 (`AutoResolution.UhdWithLowBudget`). The
  assertion at line 14 of that file admits 1080.
- **No upscaling.** The comment at line 13 of that file asks for "not
  upscale". The ladder walk itself never returns a rung taller than the
  source (`AutoResolution.NeverAboveSourceExceptFloor`). The `min_height`
  fallback and floor can, though: a 320x180 source gets 240
  (`AutoResolution.TinySourceRaisedToFloor`).

### Behaviour the proofs make explicit

- **`AUTH_ENABLED` default.** The guard's configuration defaults to `true`.
  The settings lookup falls back to `'false'` (`Auth.DefaultsDisagree`).
- **Padded passwords.** A password with surrounding whitespace is exported
  unchanged and written to the file with its padding
  (`SettingsManager.PasswordLineWritten`). Reading the file back strips the
  value. So the password is accepted until the process restarts, and
  rejected afterwards (`SettingsManager.PaddedPasswordLostOnRestart`).
- **A NUL character in a user name or password.** It is written to the file,
  but `os.environ` refuses it, so the update raises after the file is
  written and after the flag is exported. A refused user name also stops
  the password from being exported. In the running process the previous
  user name and password stay in force
  (`SettingsManager.NulUserKeepsPrevious`).
- **Clearing the user name.** Setting the user name to the empty string
  writes `AUTH_USER=` to the file. It exports nothing, so a previously
  exported name is still reported (`SettingsManager.ClearedUserStillReported`).
- **Values containing `=`.** The serialiser writes `=` inside a value
  verbatim. The parser splits at the first `=`, so such a value survives the
  round trip (`LineFormat.ParseEnvLine`).
- **Line breaks in a user name.** The serialiser writes a value's line break
  verbatim, so the text after the break is re-read as a line of its own
  (`SettingsManager.WrittenWithBrokenValue`). Take a user name that ends in
  `\nAUTH_ENABLED=true`, and disable authentication with no file yet.
  - The current process reports authentication off.
  - After a restart with an empty environment, the injected line follows the
    flag's own `AUTH_ENABLED=false` line and wins, so authentication is on
    (`SettingsManager.InjectedUserLineEnablesAuth`).

## Model

| member | source | states |
|---|---|---|
| AutoResolution.ChooseAutoResolution | worker/app/auto_resolution.py:4-78 | the width is never constrained; a height is returned exactly when both dimensions are present and positive; every returned height is at least `min_height` |
| AutoResolution.FirstQualifying | worker/app/auto_resolution.py:61-71 | the ladder walk stops at the first rung that passes the height and density tests, and every rung before it fails them |
| AutoResolution.NoDimensionsUnconstrained | worker/app/auto_resolution.py:27-29 | missing, zero or negative dimensions give `(None, None)` whatever the other inputs |
| AutoResolution.ExplicitHeightWins | worker/app/auto_resolution.py:32-34 | a truthy explicit height gives `max(min_height, explicit)` and skips the heuristic; an explicit 0 behaves as if absent |
| AutoResolution.NoBudgetGivesFloor | worker/app/auto_resolution.py:57-59 | with valid dimensions and a budget of 0 or less the result is `(None, min_height)` |
| AutoResolution.SourceBitrateIgnored | worker/app/auto_resolution.py:4-11 | the result does not depend on the source bitrate argument |
| AutoResolution.AreaGuardsAreDead | worker/app/auto_resolution.py:47-67 | for positive dimensions and rungs both `<= 0` megapixel guards are false |
| AutoResolution.QualifiesCrossMultiplied | worker/app/auto_resolution.py:53-69 | the per-rung test is equivalent to `h <= orig_height` and `target·orig_height·10^6 >= 700·orig_width·h²` |
| AutoResolution.ShorterRungAlsoQualifies | worker/app/auto_resolution.py:53-55 | a shorter positive rung has at least the density of a taller one, so qualifying is closed downwards |
| AutoResolution.LargerBudgetStillQualifies | worker/app/auto_resolution.py:68-69 | raising the budget never makes a rung stop qualifying |
| AutoResolution.LadderDescending | worker/app/auto_resolution.py:37 | the ladder is strictly descending and positive |
| AutoResolution.HeuristicPicksTallestQualifyingRung | worker/app/auto_resolution.py:61-78 | without the walk: the result is the tallest qualifying rung raised to `min_height`, or `min_height` when no rung qualifies |
| AutoResolution.NeverAboveSourceExceptFloor | worker/app/auto_resolution.py:62-76 | the heuristic height never exceeds `max(orig_height, min_height)` |
| AutoResolution.HeightMonotoneInBudget | worker/app/auto_resolution.py:57-76 | a larger budget never yields a lower height |
| AutoResolution.FullHdWithAmpleBudget | worker/tests/test_auto_resolution.py:17-23 | 1920x1080 at 8000 kbps gives `(None, 1080)` |
| AutoResolution.UhdWithLowBudget | worker/tests/test_auto_resolution.py:7-15 | 3840x2160 at 2500 kbps gives `(None, 1080)`: 2160 and 1440 are starved |
| AutoResolution.SmallSourceRespectsFloor | worker/tests/test_auto_resolution.py:25-29 | 640x360 at 200 kbps with `min_height=360` gives 360 |
| AutoResolution.ExplicitOverridesOnUhd | worker/tests/test_auto_resolution.py:31-34 | an explicit 720 on a 4K source gives 720 |
| AutoResolution.TinySourceRaisedToFloor | worker/app/auto_resolution.py:73-76 | a 320x180 source is given 240, above its own height |
| GpuEnv.AppendSearchPath | worker/app/gpu_env.py:27-29 | the old value is a prefix and the added list a suffix of the result; when both are non-empty the character between them is `:`, and otherwise nothing separates them; the result is empty only when both are |
| GpuEnv.SearchPathEntries | worker/app/gpu_env.py:29 | read as a `:`-list, the appended path is the old entries (none if empty) followed by the added ones |
| GpuEnv.AddedEntries | worker/app/gpu_env.py:28 | joining directories that are non-empty and free of `:` gives a non-empty path that splits back into exactly those directories |
| GpuEnv.FixedDirectoriesWellFormed | worker/app/gpu_env.py:19-35 | none of the fixed directories is empty or contains `:` |
| GpuEnv.GetGpuEnv | worker/app/gpu_env.py:4-40 | keys are the input keys plus the four managed ones; every other key keeps its value; the two visibility variables keep a present value and default only when absent; both search paths are the old value with the joined fixed list appended, never empty |
| GpuEnv.SearchPathsAppendFixedDirectories | worker/app/gpu_env.py:19-38 | `LD_LIBRARY_PATH` splits into the inherited entries followed by the six library directories in order, and `PATH` into the inherited entries followed by the two binary directories |
| GpuEnv.UnmanagedEnvironment | worker/app/gpu_env.py:13-40 | an environment with none of the managed variables (the empty one included) gains exactly the two defaults and the bare joined lists |
| Strings.StripExact | backend-api/app/settings_manager.py:21-24 | `strip` removes exactly the surrounding whitespace: whitespace, core, whitespace strips to the core |
| Strings.SplitJoin | worker/app/gpu_env.py:28 | `split(':')` undoes `':'.join` of parts without `:` |
| LineFormat.ParseLine | backend-api/app/settings_manager.py:20-24 | a line is skipped exactly when it is blank after stripping, a comment or has no `=`; otherwise key and value are stripped and the key has no `=` |
| LineFormat.ParseAssignment | backend-api/app/settings_manager.py:20-24 | a line `x=y` whose `x` has no `=` and does not start a comment after stripping parses to `(strip(x), strip(y))`, so it is split at its first `=` and both sides are stripped |
| SettingsManager.ReadEnvFile | backend-api/app/settings_manager.py:13-25 | an absent file reads as the empty dictionary |
| SettingsManager.LastLineWins | backend-api/app/settings_manager.py:20-24 | a key's value is the one on the last line that assigns it |
| SettingsManager.UnassignedKeyAbsent | backend-api/app/settings_manager.py:20-24 | a key no line assigns is absent |
| SettingsManager.ParsedEntriesWellFormed | backend-api/app/settings_manager.py:13-25 | everything parsed from real file lines has a key that parses back unchanged and a stripped value without line breaks |
| SettingsManager.WriteEnvFile | backend-api/app/settings_manager.py:28-33 | the file reads back as lines text-mode iteration can yield, at least one per entry, and exactly one `key=value\n` per entry in insertion order when no key or value holds a line break |
| SettingsManager.WrittenWithBrokenValue | backend-api/app/settings_manager.py:19-32 | a value `p\nq` is read back as two lines, `key=p\n` and `q\n`, with every other entry's line unchanged around them |
| TextFile.TextLinesOfLines | backend-api/app/settings_manager.py:19-32 | lines written one after another, each break-free and ended by `\n`, are read back as exactly those lines |
| TextFile.LinesJoinToText | backend-api/app/settings_manager.py:19-20 | text without `\r` is exactly the concatenation of the lines text-mode iteration yields for it |
| TextFile.TextLinesAppend | backend-api/app/settings_manager.py:19-20 | text that ends at a newline is read line by line regardless of what is appended after it |
| LineFormat.ParseEnvLine | backend-api/app/settings_manager.py:20-32 | a written `key=value` line parses back to the key and the stripped value, even when the value contains `=` |
| SettingsManager.WriteThenRead | backend-api/app/settings_manager.py:13-33 | reading back a written dictionary gives the same keys in the same order with every value stripped |
| SettingsManager.WriteThenReadExact | backend-api/app/settings_manager.py:13-33 | for well-formed keys and stripped, break-free values the round trip is the identity, order included |
| SettingsManager.RereadIsStable | backend-api/app/settings_manager.py:13-33 | rewriting what was read changes nothing on the next read |
| SettingsManager.ApplyDefaultsEntries | backend-api/app/settings_manager.py:65-69 | the `setdefault` run keeps existing entries, adds the first listed value for a missing key, and adds no other key |
| SettingsManager.UpdatedFileEntry | backend-api/app/settings_manager.py:50-69 | key by key, the dictionary written back holds the flag as `'true'`/`'false'`; the user name and password when not `None`; every other key as read; the service defaults only for missing keys |
| SettingsManager.UpdatedFileSettings | backend-api/app/settings_manager.py:52-69 | the update keeps the read entries' order and appends new keys after them |
| SettingsManager.ExportedEnv | backend-api/app/settings_manager.py:73-78 | `AUTH_ENABLED` is always exported; `AUTH_USER` when non-empty and free of NUL; `AUTH_PASS` when non-empty, free of NUL and no refused user name came before it; a variable not exported keeps its old value; nothing else changes |
| SettingsManager.RaisesExactlyWhenExportSkipped | backend-api/app/settings_manager.py:71-78 | the update raises exactly when a given non-empty user name or password is left unexported, and the file is written either way |
| SettingsManager.UpdateAuthSettings | backend-api/app/settings_manager.py:50-78 | the update always leaves a file behind, with at least one line per entry it read, and the environment as far as the exports got |
| SettingsManager.Lookup | backend-api/app/settings_manager.py:41-42 | process environment first, then the file, then the fallback |
| SettingsManager.BoolTextRoundTrip | backend-api/app/settings_manager.py:45-55 | the flag text the update writes reads back as the same flag |
| SettingsManager.GetAuthSettings | backend-api/app/settings_manager.py:36-47 | enabled exactly when the looked-up text lowers to `true`, `1` or `yes`; the user is reported exactly when the looked-up name is non-empty |
| SettingsManager.VerifyPassword | backend-api/app/settings_manager.py:81-85 | accepted exactly when equal to the looked-up password, with fallback `changeme` |
| SettingsManager.UpdateThenGet | backend-api/app/settings_manager.py:50-85 | in the same process the new flag is reported; an exported user name is reported and an exported password is the only one accepted; a refused one leaves the previously exported user or password in force |
| SettingsManager.NulUserKeepsPrevious | backend-api/app/settings_manager.py:73-85 | a user name with a NUL character makes the update raise; the old user name is still reported, the old password is still accepted and the new one is rejected |
| SettingsManager.UpdateThenRead | backend-api/app/settings_manager.py:50-71 | the file written by an update reads back key by key as the updated entry, stripped |
| SettingsManager.UpdateThenRestart | backend-api/app/settings_manager.py:36-85 | after a restart without the variables the flag is as set, the user name is reported stripped (none if blank), and only the stripped password is accepted |
| SettingsManager.PaddedPasswordLostOnRestart | backend-api/app/settings_manager.py:62-85 | a padded password is written to the file unstripped; before a restart it is accepted exactly when the environment took it or already held it; after a restart it is rejected |
| SettingsManager.PasswordLineWritten | backend-api/app/settings_manager.py:62-71 | the written file holds the line `AUTH_PASS=p\n` with the given password verbatim |
| SettingsManager.InjectedUserLineEnablesAuth | backend-api/app/settings_manager.py:13-78 | disabling authentication with a user name ending in `\nAUTH_ENABLED=true` reports it off at once and on after a restart with an empty environment |
| SettingsManager.ClearedUserStillReported | backend-api/app/settings_manager.py:58-76 | an update with an empty user name leaves a previously exported name reported |
| SettingsManager.InitializeEnvIfMissing | backend-api/app/settings_manager.py:88-98 | an existing file is left unchanged; a missing one is created with the initial settings |
| SettingsManager.DictOfEntry | backend-api/app/settings_manager.py:91-97 | a dictionary display with distinct keys maps each key to the value written beside it |
| SettingsManager.InitialIsDisabledUpdate | backend-api/app/settings_manager.py:88-98 | the initial file holds the same entries as disabling authentication with no file |
| SettingsManager.InitializeThenRead | backend-api/app/settings_manager.py:88-98 | a created file reads back as the initial settings: authentication off, no user, and fallback password `changeme` accepted |
| Auth.BasicAuth | backend-api/app/auth.py:9-25 | allowed exactly when authentication is off or both fields match; every rejection is a 401 with the Basic challenge; "Not authenticated" exactly when no credentials came |
| Auth.DisabledAllowsEverything | backend-api/app/auth.py:10-11 | with authentication off every request passes |
| Auth.OnlyConfiguredPairAccepted | backend-api/app/auth.py:18-20 | with authentication on exactly the configured pair passes |
| Auth.RejectionsIndistinguishable | backend-api/app/auth.py:18-25 | a wrong user, a wrong password or both give the same response |
| Auth.MissingDiffersFromWrong | backend-api/app/auth.py:12-25 | missing credentials are answered differently from wrong ones |
| Auth.DefaultsDisagree | backend-api/app/config.py:7-9 | the configuration default enables authentication, while the settings default reports it off with no user; both fall back to password `changeme` |
| Auth.DefaultConfigRefusesAnonymous | backend-api/app/config.py:7-9 | under the configuration defaults an anonymous request is refused and `admin`/`changeme` is allowed |

## Left out

- I/O: opening and writing the `.env` file, `os.chmod(..., 0o600)`, and the existence check. The file is a value passed in and returned.
- Reading a file the module did not write: an existing file is given as the lines text-mode iteration yields, not as raw text. What the module writes is modelled as text and split into lines (`TextFile.TextLines`).
- The round-trip lemmas (`SettingsManager.WriteThenRead`, `SettingsManager.UpdateThenRead`, `SettingsManager.UpdateThenRestart`) require keys and values without line breaks. A value with a line break is re-read as several lines, and the consequence is stated separately (`SettingsManager.WrittenWithBrokenValue`, `SettingsManager.InjectedUserLineEnablesAuth`).
- Process environment mutation: `os.environ` is a map passed in and returned. The copy in `get_gpu_env` is implicit, because maps are values.
- `str.lower()` beyond ASCII. This makes no difference for membership in `{'true', '1', 'yes'}`.
- IEEE-754 floats. They are modelled as exact reals, so the planner can differ from Python in two places. One is near 700 kbps per megapixel, within float rounding error, where rounding can flip the density comparison. The other is integers too large to convert to a float (`orig_width * orig_height`, or the budget), where Python raises `OverflowError` and the model returns a height.
- The pydantic configuration object, FastAPI dependency injection and `HTTPException`. The configuration is a parameter, and raising is a `Rejected` value.
- `backend-api/app/cleanup.py`: a scheduled filesystem sweep.
- `backend-api/app/models.py`: request and response schemas with no operations.
- `frontend/src/lib/api.ts`: a network client.
- Hardware detection and the job lifecycle. Their source is not part of this model.
- SettingsManager.UpdateThenGet: does not promise that a non-empty user name or password takes effect in the running process when it holds a NUL character, because `putenv` refuses it. The lemma states instead that the previously exported value stays in force.
- The `ValueError` of a refused export as control flow. It is a predicate beside the resulting state (`SettingsManager.UpdateRaises`), and what the caller does with the exception is not modelled.
- SettingsManager.UpdateAuthSettings: its own contract is weaker than the source's promise. It only says a file is written and the exported map is `ExportedEnv`. The effect on the file is stated key by key in `UpdatedFileEntry` and `UpdateThenRead`.
