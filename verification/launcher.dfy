/** `LaunchHandle.start` up to the spawn: choosing the build's launch option
    for an os/arch pair, turning its executable path into a platform path,
    validating the file, and deciding whether to `chmod` it. The file system
    and the process are inputs. */
module Launcher {
  import opened Outcomes
  import opened JsText

  /** One entry of a build's `launch_options`. */
  datatype LaunchOption = LaunchOption(os: string, executablePath: string)

  // ------------------------------------------------------------ selection

  /** `os.split('_')` with `'32'` pushed when there was no `'_'`: the option's
      os and architecture. */
  function OsArch(spec: string): (string, string) {
    var parts := Split(spec, '_');
    (parts[0], if |parts| == 1 then "32" else parts[1])
  }

  predicate OsMatches(o: LaunchOption, os: string) {
    OsArch(o.os).0 == os
  }

  predicate Exact(o: LaunchOption, os: string, arch: string) {
    OsArch(o.os).0 == os && OsArch(o.os).1 == arch
  }

  /** An os string without `'_'` names the 32-bit architecture. */
  lemma OsArchDefault(spec: string)
    requires '_' !in spec
    ensures OsArch(spec) == (spec, "32")
  {
  }

  /** `os_arch` reads back as its two halves. */
  lemma OsArchPair(os: string, arch: string)
    requires '_' !in os && '_' !in arch
    ensures OsArch(os + "_" + arch) == (os, arch)
  {
    SplitAtFirst(os, arch, '_');
    assert os + "_" + arch == os + ['_'] + arch;
  }

  /** The loop of `findLaunchOption` from index `i` on, `result` holding the
      last os-only match seen so far. */
  function FindFrom(options: seq<LaunchOption>, os: string, arch: string, i: nat, result: Option<LaunchOption>): Option<LaunchOption>
    requires i <= |options|
    decreases |options| - i
  {
    if i == |options| then result
    else
      var (o, a) := OsArch(options[i].os);
      if o == os && a == arch then Some(options[i])
      else FindFrom(options, os, arch, i + 1, if o == os then Some(options[i]) else result)
  }

  /** `findLaunchOption()`. */
  function FindLaunchOption(options: seq<LaunchOption>, os: string, arch: string): Option<LaunchOption> {
    FindFrom(options, os, arch, 0, None)
  }

  /** Reference: the index of the first exact os+arch match. */
  function FirstExact(options: seq<LaunchOption>, os: string, arch: string): (r: Option<nat>)
    ensures r.None? <==> forall i :: 0 <= i < |options| ==> !Exact(options[i], os, arch)
    ensures r.Some? ==>
      r.value < |options| && Exact(options[r.value], os, arch) && forall k :: 0 <= k < r.value ==> !Exact(options[k], os, arch)
  {
    if |options| == 0 then None
    else if Exact(options[0], os, arch) then Some(0)
    else
      match FirstExact(options[1..], os, arch)
      case None => None
      case Some(i) => Some(i + 1)
  }

  /** Reference: the index of the last os match among the first `n` options. */
  function LastOsMatch(options: seq<LaunchOption>, os: string, n: nat): (r: Option<nat>)
    requires n <= |options|
    ensures r.None? <==> forall i :: 0 <= i < n ==> !OsMatches(options[i], os)
    ensures r.Some? ==>
      r.value < n && OsMatches(options[r.value], os) && forall k :: r.value < k < n ==> !OsMatches(options[k], os)
  {
    if n == 0 then None
    else if OsMatches(options[n - 1], os) then Some(n - 1)
    else LastOsMatch(options, os, n - 1)
  }

  function At(options: seq<LaunchOption>, i: Option<nat>): Option<LaunchOption>
    requires i.Some? ==> i.value < |options|
  {
    if i.Some? then Some(options[i.value]) else None
  }

  /** The loop from `i` on, entered with no exact match before `i` and the
      last os match before `i` in hand, returns the first exact match if there
      is one and the last os match otherwise. */
  lemma {:induction false} FindFromReference(options: seq<LaunchOption>, os: string, arch: string, i: nat)
    requires i <= |options|
    requires forall k :: 0 <= k < i ==> !Exact(options[k], os, arch)
    ensures FindFrom(options, os, arch, i, At(options, LastOsMatch(options, os, i)))
         == if FirstExact(options, os, arch).Some? then At(options, FirstExact(options, os, arch))
            else At(options, LastOsMatch(options, os, |options|))
    decreases |options| - i
  {
    if i < |options| {
      if !Exact(options[i], os, arch) {
        var next := if OsMatches(options[i], os) then Some(options[i]) else At(options, LastOsMatch(options, os, i));
        assert next == At(options, LastOsMatch(options, os, i + 1));
        FindFromReference(options, os, arch, i + 1);
      } else {
        FirstExactIs(options, os, arch, i);
      }
    } else {
      assert FirstExact(options, os, arch).None?;
    }
  }

  lemma FirstExactIs(options: seq<LaunchOption>, os: string, arch: string, i: nat)
    requires i < |options| && Exact(options[i], os, arch)
    requires forall k :: 0 <= k < i ==> !Exact(options[k], os, arch)
    ensures FirstExact(options, os, arch) == Some(i)
  {
    var r := FirstExact(options, os, arch);
  }

  /** `findLaunchOption` returns the first option matching both os and arch;
      failing that, the last option matching the os; failing that, nothing. */
  lemma FindLaunchOptionSpec(options: seq<LaunchOption>, os: string, arch: string)
    ensures FindLaunchOption(options, os, arch)
         == if FirstExact(options, os, arch).Some? then At(options, FirstExact(options, os, arch))
            else At(options, LastOsMatch(options, os, |options|))
    ensures FindLaunchOption(options, os, arch).None? <==> forall i :: 0 <= i < |options| ==> !OsMatches(options[i], os)
  {
    FindFromReference(options, os, arch, 0);
    var e := FirstExact(options, os, arch);
    if e.Some? {
      assert OsMatches(options[e.value], os);
    }
  }

  /** A concrete choice: with no 64-bit Linux build the last Linux build wins,
      and an unmarked build counts as 32-bit. */
  lemma ExampleSelection()
    ensures var options := [LaunchOption("windows", "a.exe"), LaunchOption("linux", "a"), LaunchOption("linux_32", "b")];
      && FindLaunchOption(options, "linux", "64") == Some(LaunchOption("linux_32", "b"))
      && FindLaunchOption(options, "linux", "32") == Some(LaunchOption("linux", "a"))
      && FindLaunchOption(options, "mac", "64") == None
  {
    var options := [LaunchOption("windows", "a.exe"), LaunchOption("linux", "a"), LaunchOption("linux_32", "b")];
    OsArchDefault("windows");
    OsArchDefault("linux");
    OsArchPair("linux", "32");
    assert "linux_32" == "linux" + "_" + "32";
  }

  // ------------------------------------------------------------------ path

  /** `s.replace(/c/, replacement)`: the first occurrence of `c` only. */
  function ReplaceFirst(s: string, c: char, replacement: string): (r: string)
    ensures c !in s ==> r == s
  {
    if c !in s then s
    else
      var i := IndexOf(s, c);
      s[..i] + replacement + s[i + 1..]
  }

  /** Only the first separator is replaced; later ones are kept as they are. */
  lemma ReplaceFirstOnly(head: string, c: char, tail: string, replacement: string)
    requires c !in head
    ensures ReplaceFirst(head + [c] + tail, c, replacement) == head + replacement + tail
  {
    var s := head + [c] + tail;
    assert s[|head|] == c;
    var i := IndexOf(s, c);
    if i < |head| {
      assert false;
    }
    if i > |head| {
      assert false;
    }
    assert s[..i] == head;
    assert s[i + 1..] == tail;
  }

  /** On Windows `a/b/c` becomes `a\\b/c`: only the first `/` turns into the
      separator. */
  lemma ExampleReplace()
    ensures ReplaceFirst("a/b/c", '/', "\\") == "a\\b/c"
  {
    var head, tail := "a", "b/c";
    ReplaceFirstOnly(head, '/', tail, "\\");
    assert head + ['/'] + tail == "a/b/c";
  }

  // ------------------------------------------------------------ executable

  /** What `fs.stat` reports of the launch file; a `mode` of 0 also stands for
      an absent mode. */
  datatype FileStat = FileStat(isFile: bool, mode: nat, uid: int, gid: int)

  /** The running process: `process.platform === 'win32'`, `path.sep`, and
      `process.getuid()`/`process.getgid()` where the platform has them. */
  datatype Host = Host(isWindows: bool, sep: string, uid: Option<int>, gid: Option<int>)

  /** Bit `k` of `mode`, as `mode & (1 << k)` tests it. */
  predicate Bit(mode: nat, k: nat) {
    (mode / Pow2(k)) % 2 == 1
  }

  function Pow2(k: nat): (p: nat)
    ensures p >= 1
  {
    if k == 0 then 1 else 2 * Pow2(k - 1)
  }

  /** The condition under which `start` runs `chmod 0777`: no execute bit for
      others (0o001), group (0o010) or owner (0o100) is set, and the file's
      group and owner are the process's. */
  predicate NeedsChmod(stat: FileStat, host: Host) {
    && !Bit(stat.mode, 0)
    && !Bit(stat.mode, 3) && host.gid.Some? && stat.gid == host.gid.value
    && !Bit(stat.mode, 6) && host.uid.Some? && stat.uid == host.uid.value
  }

  /** Reference: whether the process may execute the file under the Unix
      permission rules — the owner bits when the process owns it, else the
      group bits when it is in the file's group, else the other bits. */
  predicate CanExecute(stat: FileStat, host: Host) {
    if host.uid == Some(stat.uid) then Bit(stat.mode, 6)
    else if host.gid == Some(stat.gid) then Bit(stat.mode, 3)
    else Bit(stat.mode, 0)
  }

  /** The mode after `chmod(file, '0777')`: the file-type bits kept, the
      twelve permission bits set to 0o777. */
  function AfterChmod(mode: nat): (m: nat)
    ensures m % 512 == 511
  {
    mode - mode % 4096 + 511
  }

  lemma AllPermissionBits(m: nat)
    requires m % 512 == 511
    ensures Bit(m, 0) && Bit(m, 3) && Bit(m, 6)
  {
    assert Pow2(3) == 8 && Pow2(6) == 64;
    var r := m % 512;
    assert m == 512 * (m / 512) + 511;
    assert m / 8 == 64 * (m / 512) + 63;
    assert m / 64 == 8 * (m / 512) + 7;
  }

  /** `chmod` is requested only for a file the process cannot execute, and
      after it the process can execute it and no second `chmod` is asked for. */
  lemma ChmodWhenNeeded(stat: FileStat, host: Host)
    ensures NeedsChmod(stat, host) ==> !CanExecute(stat, host)
    ensures var after := stat.(mode := AfterChmod(stat.mode));
      NeedsChmod(stat, host) ==> CanExecute(after, host) && !NeedsChmod(after, host)
  {
    AllPermissionBits(AfterChmod(stat.mode));
  }

  /** The decision is narrower than "cannot execute": an owned file whose
      group is not the process's is left alone even with no execute bit. */
  lemma ChmodSkipsForeignGroup()
    ensures var stat := FileStat(true, 0x81A4, 1000, 20);
      var host := Host(false, "/", Some(1000), Some(1000));
      !CanExecute(stat, host) && !NeedsChmod(stat, host)
  {
    assert Pow2(6) == 64;
    assert 0x81A4 / 64 == 518;
  }

  // ---------------------------------------------------------------- start

  datatype LaunchError =
    | NoLaunchOption   // "Can't find valid launch options for the given os/arch"
    | FileMissing      // "Can't launch because the file doesn't exist."
    | NotAFile         // "Can't launch because the file isn't valid."
    | UnknownMode      // "Can't determine if the file is executable by the current user."
    | ChmodFailed      // the `chmod` that makes the file executable was rejected

  /** What `start` does before spawning: the executable path under the game
      directory, and whether it ran `chmod` first. */
  datatype LaunchPlan = LaunchPlan(executablePath: string, chmod: bool)

  /** `start()` up to the spawn. `present` is the answer of `fs.exists` and
      `stat` that of `fs.stat` for the chosen file; `chmodOk` says whether a
      `chmod`, when one is issued, resolves. */
  function PrepareLaunch(options: seq<LaunchOption>, os: string, arch: string, host: Host,
                         present: bool, stat: FileStat, chmodOk: bool): (r: Result<LaunchPlan, LaunchError>)
    ensures FindLaunchOption(options, os, arch).None? <==> r == Err(NoLaunchOption)
    ensures FindLaunchOption(options, os, arch).Some? ==>
      && (!present <==> r == Err(FileMissing))
      && (present && !stat.isFile <==> r == Err(NotAFile))
      && (present && stat.isFile && !host.isWindows && stat.mode == 0 <==> r == Err(UnknownMode))
      && ((present && stat.isFile && !host.isWindows && stat.mode != 0 && NeedsChmod(stat, host) && !chmodOk)
          <==> r == Err(ChmodFailed))
    ensures r.Ok? ==>
      && r.value.executablePath == ReplaceFirst(FindLaunchOption(options, os, arch).value.executablePath, '/', host.sep)
      && (r.value.chmod <==> !host.isWindows && NeedsChmod(stat, host))
  {
    match FindLaunchOption(options, os, arch)
    case None => Err(NoLaunchOption)
    case Some(option) =>
      var path := ReplaceFirst(option.executablePath, '/', host.sep);
      if !present then Err(FileMissing)
      else if !stat.isFile then Err(NotAFile)
      else if host.isWindows then Ok(LaunchPlan(path, false))
      else if stat.mode == 0 then Err(UnknownMode)
      else if NeedsChmod(stat, host) && !chmodOk then Err(ChmodFailed)
      else Ok(LaunchPlan(path, NeedsChmod(stat, host)))
  }

  /** A launch reaches the spawn exactly when some option matches the os and
      the file exists and is a regular file; off Windows it must also have a
      mode, and a `chmod` it needs must resolve. */
  lemma LaunchSucceedsWhen(options: seq<LaunchOption>, os: string, arch: string, host: Host,
                           present: bool, stat: FileStat, chmodOk: bool)
    ensures PrepareLaunch(options, os, arch, host, present, stat, chmodOk).Ok? <==>
      ((exists i :: 0 <= i < |options| && OsMatches(options[i], os))
       && present && stat.isFile
       && (host.isWindows || (stat.mode != 0 && (NeedsChmod(stat, host) ==> chmodOk))))
  {
    FindLaunchOptionSpec(options, os, arch);
  }
}
