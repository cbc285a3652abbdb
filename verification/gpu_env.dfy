/**
 * The environment handed to GPU subprocesses by the worker: a copy of the
 * process environment with the NVIDIA visibility variables defaulted and
 * the CUDA/NVIDIA library and binary directories appended to the search
 * paths. The process environment is a parameter.
 */
module GpuEnv {
  import opened Wrappers
  import opened Strings

  const VisibleDevicesKey: string := "NVIDIA_VISIBLE_DEVICES"
  const DriverCapabilitiesKey: string := "NVIDIA_DRIVER_CAPABILITIES"
  const LibraryPathKey: string := "LD_LIBRARY_PATH"
  const PathKey: string := "PATH"

  /** The only keys the builder may add or change. */
  const ManagedKeys: set<string> := {VisibleDevicesKey, DriverCapabilitiesKey, LibraryPathKey, PathKey}

  const DefaultVisibleDevices: string := "all"
  const DefaultDriverCapabilities: string := "compute,video,utility"

  /** Library directories appended to `LD_LIBRARY_PATH`, in order. */
  const LibPaths: seq<string> := [
    "/usr/local/nvidia/lib64",
    "/usr/local/nvidia/lib",
    "/usr/local/cuda/lib64",
    "/usr/local/cuda/lib",
    "/usr/lib/wsl/lib",
    "/usr/lib/x86_64-linux-gnu"
  ]

  /** Binary directories appended to `PATH`, in order. */
  const BinPaths: seq<string> := [
    "/usr/local/cuda/bin",
    "/usr/local/nvidia/bin"
  ]

  /** Joining `add` onto an existing `:`-separated search path: the old
      value stays as a prefix, `add` becomes the suffix, and one `:` goes
      between them only when both are non-empty. */
  function AppendSearchPath(existing: string, add: string): (r: string)
    ensures existing <= r
    ensures |add| <= |r| && r[|r| - |add|..] == add
    ensures |r| == |existing| + |add| + (if existing != [] && add != [] then 1 else 0)
    ensures r == [] <==> existing == [] && add == []
    ensures existing != [] && add != [] ==> r[|existing|] == ':'
  {
    if existing != [] || add != [] then
      existing + (if existing != [] && add != [] then ":" else "") + add
    else ""
  }

  /** Read as a list of directories, the appended path is the old list
      followed by the added one; an empty old value contributes nothing. */
  lemma SearchPathEntries(existing: string, add: string)
    requires add != []
    ensures Split(AppendSearchPath(existing, add), ':')
      == (if existing == [] then [] else Split(existing, ':')) + Split(add, ':')
  {
    if existing != [] {
      SplitConcat(existing, ':', add);
      assert existing + ":" + add == existing + [':'] + add;
    }
  }

  /** No fixed directory is empty or contains the separator. */
  lemma FixedDirectoriesWellFormed()
    ensures forall i :: 0 <= i < |LibPaths| ==> LibPaths[i] != [] && ':' !in LibPaths[i]
    ensures forall i :: 0 <= i < |BinPaths| ==> BinPaths[i] != [] && ':' !in BinPaths[i]
  {
  }

  /** The `:`-joined fixed directories, after the `if p` filter. */
  function Added(dirs: seq<string>): string
  {
    Join(":", NonEmptyOnly(dirs))
  }

  /** With no empty directory the filter keeps them all. */
  lemma AddedIsJoin(dirs: seq<string>)
    requires forall i :: 0 <= i < |dirs| ==> dirs[i] != []
    ensures Added(dirs) == Join(":", dirs)
  {
  }

  /** The joined fixed directories read back as exactly those directories. */
  lemma AddedEntries(dirs: seq<string>)
    requires |dirs| >= 1
    requires forall i :: 0 <= i < |dirs| ==> dirs[i] != [] && ':' !in dirs[i]
    ensures Added(dirs) != []
    ensures Split(Added(dirs), ':') == dirs
  {
    SplitJoin(dirs, ':');
    assert ":" == [':'];
    assert dirs[0] <= Added(dirs);
  }

  /** The four managed names are pairwise different. */
  lemma ManagedKeysDistinct()
    ensures VisibleDevicesKey != DriverCapabilitiesKey && VisibleDevicesKey != LibraryPathKey
    ensures VisibleDevicesKey != PathKey && DriverCapabilitiesKey != LibraryPathKey
    ensures DriverCapabilitiesKey != PathKey && LibraryPathKey != PathKey
  {
    assert |VisibleDevicesKey| == 22 && |DriverCapabilitiesKey| == 26;
    assert |LibraryPathKey| == 15 && |PathKey| == 4;
  }

  /** The environment copy with the visibility defaults and the two given
      directory lists appended. */
  function WithGpuDefaults(env: map<string, string>, libAdd: string, binAdd: string): (r: map<string, string>)
    requires libAdd != [] && binAdd != []
    ensures r.Keys == env.Keys + ManagedKeys
    ensures forall k :: k in env && k !in ManagedKeys ==> r[k] == env[k]
    ensures VisibleDevicesKey in env ==> r[VisibleDevicesKey] == env[VisibleDevicesKey]
    ensures VisibleDevicesKey !in env ==> r[VisibleDevicesKey] == DefaultVisibleDevices
    ensures DriverCapabilitiesKey in env ==> r[DriverCapabilitiesKey] == env[DriverCapabilitiesKey]
    ensures DriverCapabilitiesKey !in env ==> r[DriverCapabilitiesKey] == DefaultDriverCapabilities
    ensures r[LibraryPathKey] == AppendSearchPath(GetOr(env, LibraryPathKey, ""), libAdd)
    ensures r[PathKey] == AppendSearchPath(GetOr(env, PathKey, ""), binAdd)
  {
    ManagedKeysDistinct();
    var e1 := env[VisibleDevicesKey := GetOr(env, VisibleDevicesKey, DefaultVisibleDevices)];
    var e2 := e1[DriverCapabilitiesKey := GetOr(e1, DriverCapabilitiesKey, DefaultDriverCapabilities)];
    var e3 := e2[LibraryPathKey := AppendSearchPath(GetOr(e2, LibraryPathKey, ""), libAdd)];
    e3[PathKey := AppendSearchPath(GetOr(e3, PathKey, ""), binAdd)]
  }

  /** `get_gpu_env`, with `os.environ` passed in as `env`. */
  function GetGpuEnv(env: map<string, string>): (r: map<string, string>)
    ensures r.Keys == env.Keys + ManagedKeys
    ensures forall k :: k in env && k !in ManagedKeys ==> r[k] == env[k]
    ensures VisibleDevicesKey in env ==> r[VisibleDevicesKey] == env[VisibleDevicesKey]
    ensures VisibleDevicesKey !in env ==> r[VisibleDevicesKey] == DefaultVisibleDevices
    ensures DriverCapabilitiesKey in env ==> r[DriverCapabilitiesKey] == env[DriverCapabilitiesKey]
    ensures DriverCapabilitiesKey !in env ==> r[DriverCapabilitiesKey] == DefaultDriverCapabilities
    ensures r[LibraryPathKey] == AppendSearchPath(GetOr(env, LibraryPathKey, ""), Join(":", LibPaths))
    ensures r[PathKey] == AppendSearchPath(GetOr(env, PathKey, ""), Join(":", BinPaths))
    ensures GetOr(env, LibraryPathKey, "") <= r[LibraryPathKey] && r[LibraryPathKey] != []
    ensures GetOr(env, PathKey, "") <= r[PathKey] && r[PathKey] != []
  {
    FixedDirectoriesWellFormed();
    AddedEntries(LibPaths);
    AddedEntries(BinPaths);
    AddedIsJoin(LibPaths);
    AddedIsJoin(BinPaths);
    WithGpuDefaults(env, Added(LibPaths), Added(BinPaths))
  }

  /** The directory lists of the two search paths: the inherited entries
      (none when the variable was unset or empty) followed by the fixed
      directories in their listed order. */
  lemma SearchPathsAppendFixedDirectories(env: map<string, string>)
    ensures
      var prior := GetOr(env, LibraryPathKey, "");
      Split(GetGpuEnv(env)[LibraryPathKey], ':')
        == (if prior == [] then [] else Split(prior, ':')) + LibPaths
    ensures
      var prior := GetOr(env, PathKey, "");
      Split(GetGpuEnv(env)[PathKey], ':')
        == (if prior == [] then [] else Split(prior, ':')) + BinPaths
  {
    FixedDirectoriesWellFormed();
    JoinedEntries(GetOr(env, LibraryPathKey, ""), LibPaths);
    JoinedEntries(GetOr(env, PathKey, ""), BinPaths);
  }

  /** Appending a joined directory list adds exactly those entries. */
  lemma JoinedEntries(prior: string, dirs: seq<string>)
    requires |dirs| >= 1
    requires forall i :: 0 <= i < |dirs| ==> dirs[i] != [] && ':' !in dirs[i]
    ensures Split(AppendSearchPath(prior, Join(":", dirs)), ':')
      == (if prior == [] then [] else Split(prior, ':')) + dirs
  {
    AddedEntries(dirs);
    AddedIsJoin(dirs);
    SearchPathEntries(prior, Join(":", dirs));
  }

  /** An environment without any of the managed variables gains exactly
      the four of them: the two defaults and the bare joined directory
      lists. In particular, from an empty environment the builder produces
      just these four. */
  lemma UnmanagedEnvironment(env: map<string, string>)
    requires forall k :: k in ManagedKeys ==> k !in env
    ensures GetGpuEnv(env) == env + map[
      VisibleDevicesKey := DefaultVisibleDevices,
      DriverCapabilitiesKey := DefaultDriverCapabilities,
      LibraryPathKey := Join(":", LibPaths),
      PathKey := Join(":", BinPaths)
    ]
  {
    FixedDirectoriesWellFormed();
    AddedIsJoin(LibPaths);
    AddedIsJoin(BinPaths);
    AddedEntries(LibPaths);
    AddedEntries(BinPaths);
    DefaultsOnUnmanaged(env, Join(":", LibPaths), Join(":", BinPaths));
  }

  /** `WithGpuDefaults` on an environment without managed variables. */
  lemma DefaultsOnUnmanaged(env: map<string, string>, libAdd: string, binAdd: string)
    requires libAdd != [] && binAdd != []
    requires forall k :: k in ManagedKeys ==> k !in env
    ensures WithGpuDefaults(env, libAdd, binAdd) == env + map[
      VisibleDevicesKey := DefaultVisibleDevices,
      DriverCapabilitiesKey := DefaultDriverCapabilities,
      LibraryPathKey := libAdd,
      PathKey := binAdd
    ]
  {
    ManagedKeysDistinct();
    var r := WithGpuDefaults(env, libAdd, binAdd);
    var expected := env + map[
      VisibleDevicesKey := DefaultVisibleDevices,
      DriverCapabilitiesKey := DefaultDriverCapabilities,
      LibraryPathKey := libAdd,
      PathKey := binAdd];
    assert GetOr(env, LibraryPathKey, "") == [] && GetOr(env, PathKey, "") == [];
    assert r[LibraryPathKey] == libAdd && r[PathKey] == binAdd;
    assert r.Keys == expected.Keys;
    forall k | k in r ensures r[k] == expected[k] {
      if k !in ManagedKeys {
        assert k in env;
      }
    }
  }
}
