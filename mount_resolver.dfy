/** `FromMountPoint`: finds the volume a directory lives on by walking from
    the directory up through its parents until one of them is a mount point
    or a mapped network drive. */
module MountResolver {
  import opened Wrappers
  import opened Win32
  import opened VolumeInfo
  import opened NetworkDrives

  /** The directories as DirectoryInfo presents them: the full name a path
      stands for, whether a directory exists, and its parent (null at a root). */
  datatype FileSystem = FileSystem(
    fullName: string -> string,
    isDirectory: string -> bool,
    parent: string -> Option<string>)

  /** Every parent has a strictly shorter name than its child, so the walk up
      ends. */
  ghost predicate ParentsShorter(fs: FileSystem)
  {
    forall p :: fs.parent(p).Some? ==> |fs.parent(p).value| < |p|
  }

  /** What one directory of the walk yields. */
  datatype Step =
    | Resolved(volumeId: string)   // the identifier of the volume mounted there
    | Ascend                       // not a mount point: go on with the parent
    | Stop(error: Error)           // a failure that ends the walk

  /** The directory name with a trailing backslash, unless it is empty. */
  function WithBackslash(dir: string): (r: string)
    ensures dir != [] ==> EndsWithBackslash(r) && |dir| <= |r| <= |dir| + 1 && r[..|dir|] == dir
    ensures dir == [] ==> r == []
  {
    if dir == [] then dir else NormaliseRemote(dir)
  }

  /** The Win32 codes of GetVolumeNameForVolumeMountPoint that mean "not a
      mount point". */
  predicate NotAMountPoint(code: int)
  {
    code == InvalidFunction || code == FileNotFound || code == PathNotFound || code == NotAReparsePoint
  }

  /** One turn of the walk: on a network drive WNetGetConnection names the
      share (a bad device means "look further up"); elsewhere
      GetVolumeNameForVolumeMountPoint names the volume mounted there. */
  function StepAt(dir: string, os: Os): Step
  {
    var current := WithBackslash(dir);
    if current == [] then Stop(DirectoryNotFound)
    else if os.driveType(current) == Network then
      var connection := os.netConnection(current[..|current| - 1]);
      if connection.code == Success then Resolved(connection.remoteName + "\\")
      else if connection.code == BadDevice then Ascend
      else Stop(Win32(connection.code))
    else
      match os.volumeNameForMountPoint(current)
      case OsOk(name) => Resolved(name)
      case OsFail(code) => if NotAMountPoint(code) then Ascend else Stop(Win32(code))
  }

  /** The outcome of a step that ends the walk. */
  function Finish(step: Step, os: Os): Result<Volume, Error>
    requires !step.Ascend?
  {
    match step
    case Resolved(id) => NewVolume(id, os)
    case Stop(e) => Err(e)
  }

  /** The directory, its parent, its grandparent, and so on up to a root. */
  function Chain(fs: FileSystem, dir: string): (c: seq<string>)
    requires ParentsShorter(fs)
    ensures |c| > 0 && c[0] == dir
    ensures fs.parent(c[|c| - 1]).None?
    decreases |dir|
  {
    match fs.parent(dir)
    case None => [dir]
    case Some(p) => [dir] + Chain(fs, p)
  }

  /** The walk along a chain of directories: the first directory that is
      not passed over decides; when all are passed over, the walk reports
      that no mount point was found. */
  function Walk(os: Os, chain: seq<string>): Result<Volume, Error>
  {
    if chain == [] then Err(Win32(NotAReparsePoint))
    else
      var step := StepAt(chain[0], os);
      if !step.Ascend? then Finish(step, os) else Walk(os, chain[1..])
  }

  /** What FromMountPoint returns. */
  function FromMountPointOf(fs: FileSystem, os: Os, mountPoint: string): Result<Volume, Error>
    requires ParentsShorter(fs)
  {
    var dir := fs.fullName(mountPoint);
    if !fs.isDirectory(dir) then Err(DirectoryNotFound) else Walk(os, Chain(fs, dir))
  }

  /** The body of FromMountPoint's loop for one directory: it asks
      WNetGetConnection on a network drive and GetVolumeNameForVolumeMountPoint
      elsewhere. */
  method Probe(dir: string, os: Os) returns (step: Step)
    ensures step == StepAt(dir, os)
  {
    var current := dir;
    if |current| > 0 && current[|current| - 1] != '\\' {
      current := current + "\\";
    }
    if current == [] {
      return Stop(DirectoryNotFound);
    }
    if os.driveType(current) == Network {
      var connection := os.netConnection(current[..|current| - 1]);
      if connection.code == Success {
        return Resolved(connection.remoteName + "\\");
      } else if connection.code != BadDevice {
        return Stop(Win32(connection.code));
      }
    } else {
      var name := os.volumeNameForMountPoint(current);
      if name.OsFail? {
        if !NotAMountPoint(name.code) {
          return Stop(Win32(name.code));
        }
      } else {
        return Resolved(name.value);
      }
    }
    return Ascend;
  }

  /** FromMountPoint: the do-while loop over the directory and its parents. */
  method FromMountPoint(fs: FileSystem, os: Os, mountPoint: string) returns (r: Result<Volume, Error>)
    requires ParentsShorter(fs)
    ensures r == FromMountPointOf(fs, os, mountPoint)
  {
    var start := fs.fullName(mountPoint);
    if !fs.isDirectory(start) {
      return Err(DirectoryNotFound);
    }
    var dir: Option<string> := Some(start);
    while dir.Some?
      invariant dir.Some? ==> Walk(os, Chain(fs, dir.value)) == Walk(os, Chain(fs, start))
      invariant dir.None? ==> Walk(os, Chain(fs, start)) == Err(Win32(NotAReparsePoint))
      decreases if dir.Some? then |dir.value| + 1 else 0
    {
      ghost var c := Chain(fs, dir.value);
      WalkUnfolds(os, c);
      var step := Probe(dir.value, os);
      match step
      case Resolved(id) =>
        return NewVolume(id, os);
      case Stop(e) =>
        return Err(e);
      case Ascend =>
        dir := fs.parent(dir.value);
        if dir.Some? {
          ChainTail(fs, c[0]);
        } else {
          assert c == [c[0]];
        }
    }
    return Err(Win32(NotAReparsePoint));
  }

  // ---------------------------------------------------------------------------
  // The walk as a search along the chain of ancestors

  /** One step of the walk along a non-empty chain. */
  lemma WalkUnfolds(os: Os, chain: seq<string>)
    requires chain != []
    ensures !StepAt(chain[0], os).Ascend? ==> Walk(os, chain) == Finish(StepAt(chain[0], os), os)
    ensures StepAt(chain[0], os).Ascend? ==> Walk(os, chain) == Walk(os, chain[1..])
  {
  }

  /** Past its first directory, a chain is the parent's chain. */
  lemma ChainTail(fs: FileSystem, dir: string)
    requires ParentsShorter(fs) && fs.parent(dir).Some?
    ensures Chain(fs, dir)[1..] == Chain(fs, fs.parent(dir).value)
  {
  }

  /** Each directory of a chain is followed by its parent. */
  lemma {:induction false} ChainLinks(fs: FileSystem, dir: string)
    requires ParentsShorter(fs)
    ensures var c := Chain(fs, dir);
            forall m :: 0 <= m < |c| - 1 ==> fs.parent(c[m]) == Some(c[m + 1])
    decreases |dir|
  {
    if fs.parent(dir).Some? {
      var p := fs.parent(dir).value;
      ChainLinks(fs, p);
      ChainTail(fs, dir);
    }
  }

  /** The walk ends at the first directory that is not passed over, with
      that directory's outcome. */
  lemma {:induction false} WalkStopsAtFirst(os: Os, chain: seq<string>, k: nat)
    requires k < |chain|
    requires !StepAt(chain[k], os).Ascend?
    requires forall m :: 0 <= m < k ==> StepAt(chain[m], os).Ascend?
    ensures Walk(os, chain) == Finish(StepAt(chain[k], os), os)
  {
    if k > 0 {
      assert StepAt(chain[0], os).Ascend?;
      WalkStopsAtFirst(os, chain[1..], k - 1);
    }
  }

  /** When every directory is passed over, the walk reports that no mount
      point was found. */
  lemma {:induction false} WalkExhausted(os: Os, chain: seq<string>)
    requires forall m :: 0 <= m < |chain| ==> StepAt(chain[m], os).Ascend?
    ensures Walk(os, chain) == Err(Win32(NotAReparsePoint))
  {
    if chain != [] {
      assert StepAt(chain[0], os).Ascend?;
      WalkExhausted(os, chain[1..]);
    }
  }

  /** The walk from a directory and the walk from any ancestor reached by
      passing over the directories between agree. */
  lemma {:induction false} WalkFromAncestor(os: Os, chain: seq<string>, k: nat)
    requires k <= |chain|
    requires forall m :: 0 <= m < k ==> StepAt(chain[m], os).Ascend?
    ensures Walk(os, chain) == Walk(os, chain[k..])
  {
    if k > 0 {
      assert StepAt(chain[0], os).Ascend?;
      WalkFromAncestor(os, chain[1..], k - 1);
      assert chain[1..][k - 1..] == chain[k..];
    }
  }

  // ---------------------------------------------------------------------------
  // What each answer of the operating system makes of the walk

  /** The walk from the parent of `dir`, or "not a reparse point" at a root. */
  function WalkAbove(fs: FileSystem, os: Os, dir: string): Result<Volume, Error>
    requires ParentsShorter(fs)
  {
    match fs.parent(dir)
    case None => Err(Win32(NotAReparsePoint))
    case Some(p) => Walk(os, Chain(fs, p))
  }

  /** A directory with an empty name ends the walk: the directory is not found. */
  lemma WalkAtEmptyName(fs: FileSystem, os: Os)
    requires ParentsShorter(fs)
    ensures Walk(os, Chain(fs, [])) == Err(DirectoryNotFound)
  {
    WalkUnfolds(os, Chain(fs, []));
  }

  /** On a network drive: a share name found gives the volume of that share,
      a bad device goes on with the parent, and any other code is fatal. */
  lemma WalkAtNetworkDrive(fs: FileSystem, os: Os, dir: string)
    requires ParentsShorter(fs) && dir != []
    requires os.driveType(WithBackslash(dir)) == Network
    ensures var c := os.netConnection(OpenPath(dir));
            && (c.code == Success ==> Walk(os, Chain(fs, dir)) == NewVolume(c.remoteName + "\\", os))
            && (c.code == Success && StartsWith(c.remoteName, UncPrefix) ==>
                  Walk(os, Chain(fs, dir)).Ok? && Walk(os, Chain(fs, dir)).value.id == c.remoteName + "\\")
            && (c.code == BadDevice ==> Walk(os, Chain(fs, dir)) == WalkAbove(fs, os, dir))
            && (c.code != Success && c.code != BadDevice ==> Walk(os, Chain(fs, dir)) == Err(Win32(c.code)))
  {
    var chain := Chain(fs, dir);
    WalkUnfolds(os, chain);
    var current := WithBackslash(dir);
    assert current[..|current| - 1] == OpenPath(dir);
    if fs.parent(dir).Some? {
      ChainTail(fs, dir);
    } else {
      assert chain[1..] == [];
    }
  }

  /** On any other drive: a volume name found gives that volume, one of the
      four "not a mount point" codes goes on with the parent, and any other
      code is fatal. */
  lemma WalkAtLocalDirectory(fs: FileSystem, os: Os, dir: string)
    requires ParentsShorter(fs) && dir != []
    requires os.driveType(WithBackslash(dir)) != Network
    ensures var v := os.volumeNameForMountPoint(WithBackslash(dir));
            && (v.OsOk? ==> Walk(os, Chain(fs, dir)) == NewVolume(v.value, os))
            && (v.OsFail? && NotAMountPoint(v.code) ==> Walk(os, Chain(fs, dir)) == WalkAbove(fs, os, dir))
            && (v.OsFail? && !NotAMountPoint(v.code) ==> Walk(os, Chain(fs, dir)) == Err(Win32(v.code)))
  {
    var chain := Chain(fs, dir);
    WalkUnfolds(os, chain);
    if fs.parent(dir).Some? {
      ChainTail(fs, dir);
    } else {
      assert chain[1..] == [];
    }
  }

  /** The volume FromMountPoint finds is decided by the first ancestor of the
      directory that is a mount point or a mapped share, and no ancestor
      being one is reported as "not a reparse point". */
  lemma FromMountPointResolves(fs: FileSystem, os: Os, mountPoint: string, k: nat)
    requires ParentsShorter(fs) && fs.isDirectory(fs.fullName(mountPoint))
    requires k < |Chain(fs, fs.fullName(mountPoint))|
    requires var c := Chain(fs, fs.fullName(mountPoint));
             !StepAt(c[k], os).Ascend? && forall m :: 0 <= m < k ==> StepAt(c[m], os).Ascend?
    ensures FromMountPointOf(fs, os, mountPoint) == Finish(StepAt(Chain(fs, fs.fullName(mountPoint))[k], os), os)
  {
    WalkStopsAtFirst(os, Chain(fs, fs.fullName(mountPoint)), k);
  }
}
