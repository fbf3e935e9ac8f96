/** Where a volume is mounted: `MountPoints`, and the `IsMounted` and
    `ToString` members built on it. A network volume is looked up among the
    mapped drives; any other volume asks GetVolumePathNamesForVolumeName and
    splits the list it returns. */
module MountPoints {
  import opened Wrappers
  import opened Win32
  import opened VolumeInfo
  import opened MultiString
  import opened NetworkDrives

  /** What GetLocalVolumeMountPoints returns. */
  function LocalMountPointsOf(v: Volume, os: Os): Result<seq<string>, Error>
  {
    match os.volumePathNames(v.id)
    case OsFail(code) => Err(Win32(code))
    case OsOk(names) => Entries(names)
  }

  /** GetLocalVolumeMountPoints. */
  method GetLocalVolumeMountPoints(v: Volume, os: Os) returns (r: Result<seq<string>, Error>)
    ensures r == LocalMountPointsOf(v, os)
  {
    match os.volumePathNames(v.id)
    case OsFail(code) =>
      r := Err(Win32(code));
    case OsOk(names) =>
      r := ParseEntries(names);
  }

  /** What the MountPoints property returns. */
  function MountPointsOf(v: Volume, os: Os): Result<seq<string>, Error>
  {
    if os.driveType(v.id) == Network then NetworkMountPointsOf(os.networkEnumeration, v.id)
    else LocalMountPointsOf(v, os)
  }

  /** MountPoints. */
  method GetMountPoints(v: Volume, os: Os) returns (r: Result<seq<string>, Error>)
    ensures r == MountPointsOf(v, os)
  {
    if os.driveType(v.id) == Network {
      r := GetNetworkMountPoints(os.networkEnumeration, v.id);
    } else {
      r := GetLocalVolumeMountPoints(v, os);
    }
  }

  /** IsMounted: the volume has at least one mount point. */
  method IsMounted(v: Volume, os: Os) returns (r: Result<bool, Error>)
    ensures r.Ok? <==> MountPointsOf(v, os).Ok?
    ensures r.Ok? ==> (r.value <==> MountPointsOf(v, os).value != [])
    ensures r.Err? ==> r.error == MountPointsOf(v, os).error
  {
    var points := GetMountPoints(v, os);
    if points.Err? {
      return Err(points.error);
    }
    return Ok(|points.value| != 0);
  }

  /** ToString: the first mount point, or the volume identifier when there is none. */
  method ToString(v: Volume, os: Os) returns (r: Result<string, Error>)
    ensures r.Ok? <==> MountPointsOf(v, os).Ok?
    ensures r.Ok? && MountPointsOf(v, os).value == [] ==> r.value == v.id
    ensures r.Ok? && MountPointsOf(v, os).value != [] ==> r.value == MountPointsOf(v, os).value[0]
    ensures r.Err? ==> r.error == MountPointsOf(v, os).error
  {
    var points := GetMountPoints(v, os);
    if points.Err? {
      return Err(points.error);
    }
    return Ok(if |points.value| == 0 then v.id else points.value[0]);
  }

  /** A local volume whose path names the operating system lists in its
      usual layout is mounted exactly at those paths. */
  lemma LocalMountPoints(v: Volume, os: Os, paths: seq<string>)
    requires os.driveType(v.id) != Network
    requires forall x :: x in paths ==> Storable(x)
    requires os.volumePathNames(v.id) == OsOk(Encode(paths))
    ensures MountPointsOf(v, os) == Ok(paths)
  {
    EntriesOfEncode(paths);
  }

  /** A network volume is mounted at exactly the local names mapped to its
      UNC path. */
  lemma NetworkMountPoints(v: Volume, os: Os)
    requires os.driveType(v.id) == Network
    requires NetworkDrivesOf(os.networkEnumeration).Ok?
    ensures MountPointsOf(v, os).Ok?
    ensures var d := NetworkDrivesOf(os.networkEnumeration).value;
            forall x :: x in MountPointsOf(v, os).value <==> x in d.values && d.values[x] == v.id
  {
    var d := NetworkDrivesOf(os.networkEnumeration).value;
    LocalsOfSpec(d.keys, d.values, v.id);
  }

  /** Every local mount point reported is a non-empty path free of NUL. */
  lemma LocalMountPointsStorable(v: Volume, os: Os)
    requires os.driveType(v.id) != Network && MountPointsOf(v, os).Ok?
    ensures forall x :: x in MountPointsOf(v, os).value ==> Storable(x)
  {
    EntriesStorable(os.volumePathNames(v.id).value);
  }
}
