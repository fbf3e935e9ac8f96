/** A volume as `VolumeInfo` describes it: its identifier, label and file
    system, read once when the object is built, and the queries that go back
    to the operating system each time they are asked. */
module VolumeInfo {
  import opened Wrappers
  import opened Win32

  /** The prefix of a volume GUID path: `\\?\`. */
  const GuidPrefix: string := "\\\\?\\"
  /** The prefix of a UNC path: `\\`. */
  const UncPrefix: string := "\\\\"

  predicate StartsWith(s: string, prefix: string)
  {
    |prefix| <= |s| && s[..|prefix|] == prefix
  }

  predicate EndsWithBackslash(s: string)
  {
    |s| > 0 && s[|s| - 1] == '\\'
  }

  /** The identifiers the constructor accepts: a GUID or UNC prefix and a
      trailing backslash. A GUID path also starts with `\\`, so the test
      comes down to two leading backslashes and a trailing one. */
  predicate ValidVolumeId(id: string): (b: bool)
    ensures b <==> 2 <= |id| && id[0] == '\\' && id[1] == '\\' && id[|id| - 1] == '\\'
  {
    (StartsWith(id, GuidPrefix) || StartsWith(id, UncPrefix)) && EndsWithBackslash(id)
  }

  /** What the object holds once built. */
  datatype Volume = Volume(
    id: string,
    volumeLabel: Option<string>,
    volumeFormat: Option<string>,
    isReady: bool)

  /** An empty buffer reads as null. */
  function NonEmpty(s: string): (r: Option<string>)
    ensures r.None? <==> s == []
    ensures r.Some? ==> r.value == s
  {
    if s == [] then None else Some(s)
  }

  /** The reported file system, with FAT told apart by the number of
      clusters: at most 0xFF0 clusters is FAT12, more is FAT16, and plain FAT
      stays when the cluster count cannot be read. */
  function FormatOf(fileSystem: string, clusters: OsResult<nat>): Option<string>
  {
    if fileSystem == "FAT" then
      match clusters
      case OsOk(total) => Some(if total <= 0xFF0 then "FAT12" else "FAT16")
      case OsFail(_) => Some("FAT")
    else NonEmpty(fileSystem)
  }

  /** The VolumeInfo constructor: rejects a malformed identifier, marks the
      volume ready when GetVolumeInformation succeeds, and takes the label and
      file system from what the call leaves in its buffers. */
  function NewVolume(id: string, os: Os): (r: Result<Volume, Error>)
    ensures r.Err? <==> !ValidVolumeId(id)
    ensures r.Err? ==> r.error == InvalidArgument
    ensures r.Ok? ==> r.value.id == id && r.value.isReady == os.volumeInformation(id).ok
    ensures r.Ok? ==> r.value.volumeLabel == NonEmpty(os.volumeInformation(id).volumeName)
    ensures r.Ok? ==> r.value.volumeFormat == FormatOf(os.volumeInformation(id).fileSystem, os.diskFreeSpace(id))
  {
    if !ValidVolumeId(id) then Err(InvalidArgument)
    else
      var info := os.volumeInformation(id);
      Ok(Volume(id, NonEmpty(info.volumeName), FormatOf(info.fileSystem, os.diskFreeSpace(id)), info.ok))
  }

  /** How the format relates to the file system reported: FAT becomes FAT12
      or FAT16 exactly when the cluster count is known, an empty name becomes
      null, and any other name is kept as it is. */
  lemma FormatCases(fileSystem: string, clusters: OsResult<nat>)
    ensures fileSystem == "FAT" && clusters.OsOk? && clusters.value <= 0xFF0 ==>
              FormatOf(fileSystem, clusters) == Some("FAT12")
    ensures fileSystem == "FAT" && clusters.OsOk? && clusters.value > 0xFF0 ==>
              FormatOf(fileSystem, clusters) == Some("FAT16")
    ensures fileSystem == "FAT" && clusters.OsFail? ==> FormatOf(fileSystem, clusters) == Some("FAT")
    ensures FormatOf(fileSystem, clusters).None? <==> fileSystem == []
    ensures fileSystem != "FAT" && fileSystem != [] ==> FormatOf(fileSystem, clusters) == Some(fileSystem)
    ensures FormatOf(fileSystem, clusters) == Some("FAT12") <==>
              fileSystem == "FAT12" || (fileSystem == "FAT" && clusters.OsOk? && clusters.value <= 0xFF0)
  {
  }

  /** HasQuota: the free bytes of the volume differ from the free bytes
      available to the caller. A volume that is not ready has no quota; any
      other failure of the call is reported. */
  function HasQuota(v: Volume, os: Os): (r: Result<bool, Error>)
    ensures r == Ok(true) <==>
              os.diskFreeSpaceEx(v.id).OsOk? &&
              os.diskFreeSpaceEx(v.id).value.totalFreeBytes != os.diskFreeSpaceEx(v.id).value.freeBytesAvailable
    ensures r.Err? <==> os.diskFreeSpaceEx(v.id).OsFail? && os.diskFreeSpaceEx(v.id).code != NotReady
    ensures r.Err? ==> r.error == Win32(os.diskFreeSpaceEx(v.id).code)
  {
    match os.diskFreeSpaceEx(v.id)
    case OsOk(space) => Ok(space.totalFreeBytes != space.freeBytesAvailable)
    case OsFail(code) => if code == NotReady then Ok(false) else Err(Win32(code))
  }

  /** The FileAccess values. */
  datatype FileAccess = Read | Write | ReadWrite

  /** The access rights requested from CreateFile. */
  function AccessMask(access: FileAccess): (mask: bv32)
    ensures (mask & GenericRead != 0) <==> access != Write
    ensures (mask & GenericWrite != 0) <==> access != Read
    ensures mask & !(GenericRead | GenericWrite) == 0
  {
    match access
    case Read => GenericRead
    case ReadWrite => GenericRead | GenericWrite
    case Write => GenericWrite
  }

  /** The path CreateFile opens: the identifier without one trailing backslash. */
  function OpenPath(id: string): (path: string)
    ensures EndsWithBackslash(id) ==> path + "\\" == id
    ensures !EndsWithBackslash(id) ==> path == id
  {
    if EndsWithBackslash(id) then id[..|id| - 1] else id
  }

  /** OpenHandle: refuses inheritable handles, then asynchronous ones, and
      otherwise opens the volume path as an existing file with the mapped
      access, the sharing mode and the options as given. */
  function OpenHandle(v: Volume, access: FileAccess, share: bv32, options: bv32, os: Os): (r: Result<Handle, Error>)
    ensures share & ShareInheritable != 0 ==> r == Err(InheritableNotSupported)
    ensures share & ShareInheritable == 0 && options & OptionAsynchronous != 0 ==>
              r == Err(AsynchronousNotSupported)
    ensures share & ShareInheritable == 0 && options & OptionAsynchronous == 0 ==>
              var created := os.createFile(OpenPath(v.id), AccessMask(access), share, ModeOpen, options);
              (r.Ok? <==> created.OsOk?) &&
              (r.Ok? ==> r.value == created.value) &&
              (r.Err? ==> r.error == Win32(created.code))
  {
    if share & ShareInheritable != 0 then Err(InheritableNotSupported)
    else if options & OptionAsynchronous != 0 then Err(AsynchronousNotSupported)
    else
      match os.createFile(OpenPath(v.id), AccessMask(access), share, ModeOpen, options)
      case OsOk(h) => Ok(h)
      case OsFail(code) => Err(Win32(code))
  }

  /** A volume built by the constructor is opened through its identifier
      without the trailing backslash. */
  lemma OpenPathOfVolume(id: string, os: Os)
    requires NewVolume(id, os).Ok?
    ensures OpenPath(NewVolume(id, os).value.id) + "\\" == id
    ensures |OpenPath(NewVolume(id, os).value.id)| == |id| - 1
  {
    assert EndsWithBackslash(id);
  }
}
