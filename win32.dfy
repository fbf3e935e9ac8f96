/** The operating-system surface the volume code relies on: Win32 error
    codes, the failures the code reports, and the Win32 calls themselves,
    which the model receives as values instead of performing. */
module Win32 {
  import opened Wrappers

  // ---------------------------------------------------------------------------
  // Win32 error codes (winerror.h)

  const Success: int := 0
  const InvalidFunction: int := 1
  const FileNotFound: int := 2
  const PathNotFound: int := 3
  const NotReady: int := 21
  const MoreData: int := 234
  const NoMoreItems: int := 259
  const BadDevice: int := 1200
  const NotAReparsePoint: int := 4390

  // ---------------------------------------------------------------------------
  // Flag values of the .NET file API and of CreateFile

  /** FileShare.Inheritable */
  const ShareInheritable: bv32 := 0x10
  /** FileOptions.Asynchronous */
  const OptionAsynchronous: bv32 := 0x4000_0000
  const GenericRead: bv32 := 0x8000_0000
  const GenericWrite: bv32 := 0x4000_0000
  /** FileMode.Open, passed as the creation disposition */
  const ModeOpen: bv32 := 3

  /** The exceptions the volume code throws, one constructor per kind. */
  datatype Error =
    | InvalidArgument            // ArgumentException from the VolumeInfo constructor
    | Win32(code: int)           // Win32Exception, or the exception mapped from a Win32 code
    | DirectoryNotFound          // DirectoryNotFoundException
    | InheritableNotSupported    // NotSupportedException for FileShare.Inheritable
    | AsynchronousNotSupported   // NotSupportedException for FileOptions.Asynchronous
    | IndexOutOfRange            // IndexOutOfRangeException from a string index
    | NullKey                    // ArgumentNullException from Dictionary.Add
    | DuplicateKey               // ArgumentException from Dictionary.Add
    | LockFailed                 // IOException "Could not lock volume."
    | UnlockFailed               // IOException "Could not unlock volume."

  /** The outcome of a Win32 call: its output, or the error code it left. */
  datatype OsResult<T> = OsOk(value: T) | OsFail(code: int)

  /** GetDriveType's answer, reduced to the one distinction the code makes. */
  datatype DriveType = Network | OtherDrive

  /** A file handle or stream as an opaque number. */
  datatype Handle = Handle(id: nat)

  /** What GetVolumeInformation reports: whether it succeeded, and what the
      label and file-system buffers hold afterwards (empty when unset). */
  datatype VolumeInformation = VolumeInformation(ok: bool, volumeName: string, fileSystem: string)

  /** GetDiskFreeSpaceEx: bytes available to the caller, total bytes, free bytes. */
  datatype FreeSpace = FreeSpace(freeBytesAvailable: nat, totalBytes: nat, totalFreeBytes: nat)

  /** One NETRESOURCE record: local device name and remote (UNC) name, either
      of which may be null. */
  datatype NetResource = NetResource(localName: Option<string>, remoteName: Option<string>)

  /** A return code of WNetEnumResource that ends the enumeration (anything
      but Success). */
  type EndCode = c: int | c != Success witness NoMoreItems

  /** One WNetOpenEnum / WNetEnumResource session over the connected disks:
      the code WNetOpenEnum returns and the last error it leaves, the
      batches of records the successful WNetEnumResource calls deliver, and
      the code of the call that ends the enumeration. */
  datatype NetEnumeration = NetEnumeration(
    openCode: int,
    openLastError: int,
    batches: seq<seq<NetResource>>,
    endCode: EndCode)

  /** WNetGetConnection: its return code and the remote name it delivers. */
  datatype NetConnection = NetConnection(code: int, remoteName: string)

  /** The Win32 calls the volume code makes, as functions of their arguments. */
  datatype Os = Os(
    volumeInformation: string -> VolumeInformation,
    /** GetDiskFreeSpace, reduced to the total number of clusters */
    diskFreeSpace: string -> OsResult<nat>,
    diskFreeSpaceEx: string -> OsResult<FreeSpace>,
    driveType: string -> DriveType,
    /** GetVolumePathNamesForVolumeName, once the buffer is large enough:
        the buffer contents up to the length the call reports */
    volumePathNames: string -> OsResult<string>,
    networkEnumeration: NetEnumeration,
    netConnection: string -> NetConnection,
    volumeNameForMountPoint: string -> OsResult<string>,
    /** CreateFile(path, access, share, creation disposition, flags) */
    createFile: (string, bv32, bv32, bv32, bv32) -> OsResult<Handle>)
}
