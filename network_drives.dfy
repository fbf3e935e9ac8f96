/** The mapped network drives: `GetNetworkDrivesInternal` reads the
    connected disk resources into a dictionary from local device name to
    UNC path, `GetNetworkMountPoints` looks up the local names of one UNC
    path, and `NetworkDrives` keeps one local name per UNC path, the shortest. */
module NetworkDrives {
  import opened Wrappers
  import opened Win32
  import opened OrderedDict
  import opened VolumeInfo

  // ---------------------------------------------------------------------------
  // GetNetworkDrivesInternal

  /** A record is used when its remote name is neither null nor empty. */
  predicate Kept(rec: NetResource)
  {
    rec.remoteName.Some? && rec.remoteName.value != []
  }

  /** The remote name with a trailing backslash added when it lacks one. */
  function NormaliseRemote(remote: string): (r: string)
    requires remote != []
    ensures EndsWithBackslash(r)
    ensures |remote| <= |r| <= |remote| + 1 && r[..|remote|] == remote
    ensures EndsWithBackslash(remote) ==> r == remote
  {
    if EndsWithBackslash(remote) then remote else remote + "\\"
  }

  /** Normalising twice is normalising once. */
  lemma NormaliseIdempotent(remote: string)
    requires remote != []
    ensures NormaliseRemote(NormaliseRemote(remote)) == NormaliseRemote(remote)
  {
  }

  /** Dictionary.Add: a null key and a key already present are refused;
      any other key goes last in the enumeration order. */
  function Add(d: Dict, key: Option<string>, value: string): (r: Result<Dict, Error>)
    requires WellFormedDict(d)
    ensures key.None? ==> r == Err(NullKey)
    ensures key.Some? && key.value in d.values ==> r == Err(DuplicateKey)
    ensures key.Some? && key.value !in d.values ==>
              r.Ok? && r.value.keys == d.keys + [key.value] && r.value.values == d.values[key.value := value]
  {
    if key.None? then Err(NullKey)
    else if key.value in d.values then Err(DuplicateKey)
    else Ok(Insert(d, key.value, value))
  }

  /** One record of a WNetEnumResource batch: skipped when its remote name
      is unusable, otherwise added under its local name with the remote name
      normalised. */
  function AddRecord(d: Dict, rec: NetResource): Result<Dict, Error>
    requires WellFormedDict(d)
  {
    if !Kept(rec) then Ok(d)
    else Add(d, rec.localName, NormaliseRemote(rec.remoteName.value))
  }

  /** The dictionary built from the records in order, or the first failure. */
  function Collect(records: seq<NetResource>): (r: Result<Dict, Error>)
    ensures r.Ok? ==> WellFormedDict(r.value)
    decreases |records|
  {
    if records == [] then Ok(EmptyDict)
    else
      match Collect(records[..|records| - 1])
      case Ok(d) => AddRecord(d, records[|records| - 1])
      case Err(e) => Err(e)
  }

  /** All the records of all the batches, in order. */
  function Flatten(batches: seq<seq<NetResource>>): seq<NetResource>
  {
    if batches == [] then [] else Flatten(batches[..|batches| - 1]) + batches[|batches| - 1]
  }

  /** What GetNetworkDrivesInternal returns for one enumeration session. A
      failed WNetOpenEnum is reported with the thread's last error, not with
      the code the call returned. */
  function NetworkDrivesOf(e: NetEnumeration): (r: Result<Dict, Error>)
    ensures r.Ok? ==> WellFormedDict(r.value)
  {
    if e.openCode != Success then Err(Win32(e.openLastError))
    else
      match Collect(Flatten(e.batches))
      case Err(x) => Err(x)
      case Ok(d) => if e.endCode == NoMoreItems then Ok(d) else Err(Win32(e.endCode))
  }

  /** GetNetworkDrivesInternal: the batch loop; each batch goes through
      AddBatch. */
  method GetNetworkDrivesInternal(e: NetEnumeration) returns (r: Result<Dict, Error>)
    ensures r == NetworkDrivesOf(e)
  {
    if e.openCode != Success {
      return Err(Win32(e.openLastError));
    }
    var result := EmptyDict;
    var b := 0;
    while b < |e.batches|
      invariant 0 <= b <= |e.batches|
      invariant Collect(Flatten(e.batches[..b])) == Ok(result)
    {
      ghost var before := Flatten(e.batches[..b]);
      var added := AddBatch(before, result, e.batches[b]);
      if added.Err? {
        FlattenThrough(e.batches, b);
        CollectFailurePersists(before + e.batches[b], Flatten(e.batches[b + 1..]));
        return Err(added.error);
      }
      result := added.value;
      assert e.batches[..b + 1][..b] == e.batches[..b];
      b := b + 1;
    }
    assert e.batches[..b] == e.batches;
    if e.endCode != NoMoreItems {
      return Err(Win32(e.endCode));
    }
    return Ok(result);
  }

  /** The record loop of GetNetworkDrivesInternal over one batch, continuing
      the dictionary built from the records `before` it. */
  method AddBatch(ghost before: seq<NetResource>, d: Dict, batch: seq<NetResource>) returns (r: Result<Dict, Error>)
    requires Collect(before) == Ok(d)
    ensures r == Collect(before + batch)
  {
    var result := d;
    var i := 0;
    assert before + batch[..0] == before;
    while i < |batch|
      invariant 0 <= i <= |batch|
      invariant Collect(before + batch[..i]) == Ok(result)
    {
      var rec := batch[i];
      ghost var done := before + batch[..i + 1];
      SliceStep(before, batch, i);
      CollectSnoc(before + batch[..i], rec);
      if rec.remoteName.None? || rec.remoteName.value == [] {
        i := i + 1;
        continue;
      }
      var remote := NormaliseRemote(rec.remoteName.value);
      var added := Add(result, rec.localName, remote);
      if added.Err? {
        CollectFailurePersists(done, batch[i + 1..]);
        return added;
      }
      result := added.value;
      i := i + 1;
    }
    assert batch[..i] == batch;
    return Ok(result);
  }

  /** The records up to and including the i-th of a batch, and the rest. */
  lemma SliceStep(before: seq<NetResource>, batch: seq<NetResource>, i: nat)
    requires i < |batch|
    ensures before + batch[..i + 1] == before + batch[..i] + [batch[i]]
    ensures before + batch == before + batch[..i + 1] + batch[i + 1..]
  {
    assert batch[..i + 1] == batch[..i] + [batch[i]];
    assert batch == batch[..i + 1] + batch[i + 1..];
  }

  /** The records with one more at the end: that record is added to the
      dictionary of the others, or their failure stands. */
  lemma CollectSnoc(xs: seq<NetResource>, rec: NetResource)
    ensures Collect(xs).Err? ==> Collect(xs + [rec]) == Collect(xs)
    ensures Collect(xs).Ok? ==> Collect(xs + [rec]) == AddRecord(Collect(xs).value, rec)
  {
    assert (xs + [rec])[..|xs|] == xs;
  }

  /** Once a prefix of the records fails, so does the whole sequence, with
      the same failure. */
  lemma {:induction false} CollectFailurePersists(xs: seq<NetResource>, ys: seq<NetResource>)
    requires Collect(xs).Err?
    ensures Collect(xs + ys) == Collect(xs)
    decreases |ys|
  {
    if ys != [] {
      var zs := xs + ys;
      assert zs[..|zs| - 1] == xs + ys[..|ys| - 1];
      CollectFailurePersists(xs, ys[..|ys| - 1]);
      assert Collect(zs[..|zs| - 1]) == Collect(xs);
    } else {
      assert xs + ys == xs;
    }
  }

  /** Flattening distributes over concatenation. */
  lemma {:induction false} FlattenAppend(xs: seq<seq<NetResource>>, ys: seq<seq<NetResource>>)
    ensures Flatten(xs + ys) == Flatten(xs) + Flatten(ys)
    decreases |ys|
  {
    if ys != [] {
      var zs := xs + ys;
      assert zs[..|zs| - 1] == xs + ys[..|ys| - 1];
      assert zs[|zs| - 1] == ys[|ys| - 1];
      FlattenAppend(xs, ys[..|ys| - 1]);
    } else {
      assert xs + ys == xs;
    }
  }

  /** The records of all batches are those before batch b, those of b and
      those after it. */
  lemma FlattenThrough(batches: seq<seq<NetResource>>, b: nat)
    requires b < |batches|
    ensures Flatten(batches) == Flatten(batches[..b]) + batches[b] + Flatten(batches[b + 1..])
  {
    var upTo, after := batches[..b + 1], batches[b + 1..];
    assert batches == upTo + after;
    FlattenAppend(upTo, after);
    assert upTo[..b] == batches[..b];
    assert Flatten(upTo) == Flatten(batches[..b]) + batches[b];
  }

  // ---------------------------------------------------------------------------
  // What the dictionary holds

  /** The records that are used, in order. */
  function KeptRecords(records: seq<NetResource>): (r: seq<NetResource>)
    ensures forall i :: 0 <= i < |r| ==> Kept(r[i])
  {
    if records == [] then []
    else
      var p := KeptRecords(records[..|records| - 1]);
      if Kept(records[|records| - 1]) then p + [records[|records| - 1]] else p
  }

  /** The local names of the used records. */
  function LocalNames(records: seq<NetResource>): seq<Option<string>>
  {
    var kept := KeptRecords(records);
    seq(|kept|, i requires 0 <= i < |kept| => kept[i].localName)
  }

  /** `d` lists the local names of `kept` in order, each mapped to its
      remote name with a trailing backslash. */
  predicate Describes(d: Dict, kept: seq<NetResource>)
  {
    && |d.keys| == |kept|
    && forall i :: 0 <= i < |kept| ==>
         && Kept(kept[i])
         && Some(d.keys[i]) == kept[i].localName
         && d.keys[i] in d.values
         && d.values[d.keys[i]] == NormaliseRemote(kept[i].remoteName.value)
  }

  /** The used records and their local names, one record further on. */
  lemma LocalNamesSnoc(records: seq<NetResource>)
    requires records != []
    ensures var init, last := records[..|records| - 1], records[|records| - 1];
            && KeptRecords(records) == (if Kept(last) then KeptRecords(init) + [last] else KeptRecords(init))
            && LocalNames(records) == (if Kept(last) then LocalNames(init) + [last.localName] else LocalNames(init))
  {
  }

  /** The keys of a dictionary that describes the used records are their
      local names. */
  lemma DescribedKeys(d: Dict, records: seq<NetResource>)
    requires WellFormedDict(d) && Describes(d, KeptRecords(records))
    ensures forall k :: k in d.values <==> Some(k) in LocalNames(records)
  {
    var kept, names := KeptRecords(records), LocalNames(records);
    forall k | Some(k) in names
      ensures k in d.values
    {
      var i :| 0 <= i < |names| && names[i] == Some(k);
      assert Some(d.keys[i]) == kept[i].localName;
    }
    forall k | k in d.values
      ensures Some(k) in names
    {
      var i :| 0 <= i < |d.keys| && d.keys[i] == k;
      assert names[i] == Some(k);
    }
  }

  /** Adding a used record under a new local name extends the description. */
  lemma DescribesInsert(d: Dict, kept: seq<NetResource>, rec: NetResource)
    requires WellFormedDict(d) && Describes(d, kept)
    requires Kept(rec) && rec.localName.Some? && rec.localName.value !in d.values
    ensures Describes(Insert(d, rec.localName.value, NormaliseRemote(rec.remoteName.value)), kept + [rec])
  {
    var d' := Insert(d, rec.localName.value, NormaliseRemote(rec.remoteName.value));
    var kept' := kept + [rec];
    forall i | 0 <= i < |kept'|
      ensures && Kept(kept'[i])
              && Some(d'.keys[i]) == kept'[i].localName
              && d'.keys[i] in d'.values
              && d'.values[d'.keys[i]] == NormaliseRemote(kept'[i].remoteName.value)
    {
      if i < |kept| {
        assert kept'[i] == kept[i] && d'.keys[i] == d.keys[i];
        assert d.keys[i] in d.values;
      }
    }
  }

  /** Building the dictionary succeeds exactly when every used record has a
      local name and no local name repeats; the dictionary then lists those
      names in order, each mapped to its remote name with a trailing
      backslash. */
  lemma {:induction false} CollectSpec(records: seq<NetResource>)
    ensures Collect(records).Ok? <==> None !in LocalNames(records) && Distinct(LocalNames(records))
    ensures Collect(records).Ok? ==> Describes(Collect(records).value, KeptRecords(records))
    decreases |records|
  {
    if records != [] {
      var init, last := records[..|records| - 1], records[|records| - 1];
      CollectSpec(init);
      LocalNamesSnoc(records);
      if Kept(last) {
        DistinctSnoc(LocalNames(init), last.localName);
        if Collect(init).Ok? {
          var d := Collect(init).value;
          DescribedKeys(d, init);
          if last.localName.Some? && last.localName.value !in d.values {
            DescribesInsert(d, KeptRecords(init), last);
          }
        }
      }
    }
  }

  /** Every UNC path in the dictionary ends with a backslash. */
  lemma RemotesEndWithBackslash(records: seq<NetResource>, local: string)
    requires Collect(records).Ok? && local in Collect(records).value.values
    ensures EndsWithBackslash(Collect(records).value.values[local])
    ensures Collect(records).value.values[local] != []
  {
    CollectSpec(records);
    var d := Collect(records).value;
    var i :| 0 <= i < |d.keys| && d.keys[i] == local;
  }

  // ---------------------------------------------------------------------------
  // GetNetworkMountPoints

  /** The keys, in order, whose value is `remote`. */
  function LocalsOf(keys: seq<string>, values: map<string, string>, remote: string): seq<string>
    requires forall k :: k in keys ==> k in values
  {
    if keys == [] then []
    else
      var p := LocalsOf(keys[..|keys| - 1], values, remote);
      var k := keys[|keys| - 1];
      if values[k] == remote then p + [k] else p
  }

  /** A local name is listed exactly when the dictionary maps it to `remote`. */
  lemma {:induction false} LocalsOfSpec(keys: seq<string>, values: map<string, string>, remote: string)
    requires forall k :: k in keys ==> k in values
    ensures forall x :: x in LocalsOf(keys, values, remote) <==> x in keys && values[x] == remote
  {
    if keys != [] {
      var init := keys[..|keys| - 1];
      LocalsOfSpec(init, values, remote);
      forall x
        ensures x in keys <==> x in init || x == keys[|keys| - 1]
      {
        if x in keys {
          var i :| 0 <= i < |keys| && keys[i] == x;
          if i < |keys| - 1 {
            assert init[i] == x;
          }
        }
      }
    }
  }

  /** GetNetworkMountPoints, given the dictionary. */
  method MountPointsFor(d: Dict, remote: string) returns (result: seq<string>)
    requires WellFormedDict(d)
    ensures result == LocalsOf(d.keys, d.values, remote)
  {
    result := [];
    for i := 0 to |d.keys|
      invariant result == LocalsOf(d.keys[..i], d.values, remote)
    {
      assert d.keys[..i + 1][..i] == d.keys[..i];
      if d.values[d.keys[i]] == remote {
        result := result + [d.keys[i]];
      }
    }
    assert d.keys[..|d.keys|] == d.keys;
  }

  /** The local names GetNetworkMountPoints returns for a UNC path. */
  function NetworkMountPointsOf(e: NetEnumeration, remote: string): Result<seq<string>, Error>
  {
    match NetworkDrivesOf(e)
    case Err(x) => Err(x)
    case Ok(d) => Ok(LocalsOf(d.keys, d.values, remote))
  }

  /** GetNetworkMountPoints. */
  method GetNetworkMountPoints(e: NetEnumeration, remote: string) returns (r: Result<seq<string>, Error>)
    ensures r == NetworkMountPointsOf(e, remote)
  {
    var drives := GetNetworkDrivesInternal(e);
    if drives.Err? {
      return Err(drives.error);
    }
    var locals := MountPointsFor(drives.value, remote);
    return Ok(locals);
  }

  // ---------------------------------------------------------------------------
  // NetworkDrives

  /** The (local name, UNC path) pairs of the dictionary, in its order. */
  function Pairs(d: Dict): seq<(string, string)>
    requires forall k :: k in d.keys ==> k in d.values
  {
    seq(|d.keys|, i requires 0 <= i < |d.keys| => (d.keys[i], d.values[d.keys[i]]))
  }

  /** The UNC paths of the pairs, in order. */
  function Remotes(ps: seq<(string, string)>): seq<string>
  {
    seq(|ps|, i requires 0 <= i < |ps| => ps[i].1)
  }

  /** One step of the reconciliation loop: a new UNC path is added with its
      local name; a known one takes the local name only when that is strictly
      shorter than the one it has. */
  function ReconcileStep(d: Dict, p: (string, string)): (r: Dict)
    requires WellFormedDict(d)
    ensures WellFormedDict(r)
  {
    if p.1 !in d.values then Insert(d, p.1, p.0)
    else if |d.values[p.1]| > |p.0| then Overwrite(d, p.1, p.0)
    else d
  }

  /** The UNC-path-to-local-name dictionary after the pairs, in order. */
  function Reconcile(ps: seq<(string, string)>): (r: Dict)
    ensures WellFormedDict(r)
  {
    if ps == [] then EmptyDict else ReconcileStep(Reconcile(ps[..|ps| - 1]), ps[|ps| - 1])
  }

  /** The UNC paths of the result are those of the pairs, each once, in the
      order they first occur. */
  lemma {:induction false} ReconcileKeys(ps: seq<(string, string)>)
    ensures Reconcile(ps).keys == Dedup(Remotes(ps))
  {
    if ps != [] {
      var init := ps[..|ps| - 1];
      ReconcileKeys(init);
      assert Remotes(ps)[..|ps| - 1] == Remotes(init);
    }
  }

  /** Every local name in the result belongs to a pair with that UNC path. */
  lemma {:induction false} ReconcileFrom(ps: seq<(string, string)>, remote: string)
    requires remote in Reconcile(ps).values
    ensures exists m :: 0 <= m < |ps| && ps[m] == (Reconcile(ps).values[remote], remote)
  {
    var init, last := ps[..|ps| - 1], ps[|ps| - 1];
    var d := Reconcile(init);
    if last.1 == remote && (remote !in d.values || |d.values[remote]| > |last.0|) {
      assert ps[|ps| - 1] == (Reconcile(ps).values[remote], remote);
    } else {
      ReconcileFrom(init, remote);
      var m :| 0 <= m < |init| && init[m] == (d.values[remote], remote);
      assert ps[m] == init[m];
    }
  }

  /** Pair k carries the first of the shortest local names for `remote`:
      every earlier pair for `remote` has a strictly longer local name and no
      later one has a shorter name. */
  predicate ShortestFirst(ps: seq<(string, string)>, remote: string, k: int)
  {
    && 0 <= k < |ps|
    && ps[k].1 == remote
    && (forall m :: 0 <= m < k && ps[m].1 == remote ==> |ps[m].0| > |ps[k].0|)
    && (forall m :: k < m < |ps| && ps[m].1 == remote ==> |ps[m].0| >= |ps[k].0|)
  }

  /** The result maps each UNC path to its shortest local name, the first one
      seen among names of equal length. */
  lemma {:induction false} ReconcileShortest(ps: seq<(string, string)>, remote: string, k: int)
    requires ShortestFirst(ps, remote, k)
    ensures remote in Reconcile(ps).values && Reconcile(ps).values[remote] == ps[k].0
  {
    var init, last := ps[..|ps| - 1], ps[|ps| - 1];
    var d := Reconcile(init);
    if k == |ps| - 1 {
      if remote in d.values {
        ReconcileFrom(init, remote);
        var m :| 0 <= m < |init| && init[m] == (d.values[remote], remote);
        assert ps[m] == init[m];
      }
    } else {
      assert ShortestFirst(init, remote, k) by {
        forall m | 0 <= m < k && init[m].1 == remote
          ensures |init[m].0| > |init[k].0|
        {
          assert init[m] == ps[m];
        }
      }
      ReconcileShortest(init, remote, k);
    }
  }

  /** The volumes for the UNC paths, in order, or the first path the
      VolumeInfo constructor refuses. */
  function VolumesOf(ids: seq<string>, os: Os): Result<seq<Volume>, Error>
  {
    if ids == [] then Ok([])
    else
      match VolumesOf(ids[..|ids| - 1], os)
      case Err(e) => Err(e)
      case Ok(vs) =>
        match NewVolume(ids[|ids| - 1], os)
        case Err(e) => Err(e)
        case Ok(v) => Ok(vs + [v])
  }

  /** Building the volumes succeeds exactly when every identifier is
      well-formed, and then yields one volume per identifier, in order. */
  lemma {:induction false} VolumesOfSpec(ids: seq<string>, os: Os)
    ensures VolumesOf(ids, os).Ok? <==> forall i :: 0 <= i < |ids| ==> ValidVolumeId(ids[i])
    ensures VolumesOf(ids, os).Ok? ==>
              |VolumesOf(ids, os).value| == |ids| &&
              forall i :: 0 <= i < |ids| ==> VolumesOf(ids, os).value[i] == NewVolume(ids[i], os).value
  {
    if ids != [] {
      var init := ids[..|ids| - 1];
      VolumesOfSpec(init, os);
      if !ValidVolumeId(ids[|ids| - 1]) {
        assert !(forall i :: 0 <= i < |ids| ==> ValidVolumeId(ids[i]));
      }
      if !(forall i :: 0 <= i < |init| ==> ValidVolumeId(init[i])) {
        var i :| 0 <= i < |init| && !ValidVolumeId(init[i]);
        assert ids[i] == init[i];
      }
    }
  }

  /** What the NetworkDrives property returns. */
  function NetworkDrivesSpec(os: Os): Result<seq<Volume>, Error>
  {
    match NetworkDrivesOf(os.networkEnumeration)
    case Err(e) => Err(e)
    case Ok(d) => VolumesOf(Reconcile(Pairs(d)).keys, os)
  }

  /** NetworkDrives: the reconciliation loop, then one volume per UNC path. */
  method GetNetworkDrives(os: Os) returns (r: Result<seq<Volume>, Error>)
    ensures r == NetworkDrivesSpec(os)
  {
    var drives := GetNetworkDrivesInternal(os.networkEnumeration);
    if drives.Err? {
      return Err(drives.error);
    }
    var remoteToLocal := ReconcileDrives(drives.value);
    r := OpenVolumes(remoteToLocal.keys, os);
  }

  /** The reconciliation loop of NetworkDrives: for each local name, in
      order, its UNC path is recorded with it, unless that path already has
      a local name no longer than it. */
  method ReconcileDrives(localToRemote: Dict) returns (remoteToLocal: Dict)
    requires WellFormedDict(localToRemote)
    ensures remoteToLocal == Reconcile(Pairs(localToRemote))
  {
    ghost var ps := Pairs(localToRemote);
    remoteToLocal := EmptyDict;
    for i := 0 to |localToRemote.keys|
      invariant remoteToLocal == Reconcile(ps[..i])
    {
      assert ps[..i + 1][..i] == ps[..i];
      var local := localToRemote.keys[i];
      var remote := localToRemote.values[local];
      if remote !in remoteToLocal.values {
        remoteToLocal := Insert(remoteToLocal, remote, local);
      } else if |remoteToLocal.values[remote]| > |local| {
        remoteToLocal := Overwrite(remoteToLocal, remote, local);
      }
    }
    assert ps[..|ps|] == ps;
  }

  /** One VolumeInfo per UNC path, in order; the constructor's refusal of a
      path ends the property. */
  method OpenVolumes(ids: seq<string>, os: Os) returns (r: Result<seq<Volume>, Error>)
    ensures r == VolumesOf(ids, os)
  {
    var result: seq<Volume> := [];
    for i := 0 to |ids|
      invariant VolumesOf(ids[..i], os) == Ok(result)
    {
      assert ids[..i + 1][..i] == ids[..i];
      var v := NewVolume(ids[i], os);
      if v.Err? {
        VolumesFailureStays(ids, i + 1, os);
        return Err(v.error);
      }
      result := result + [v.value];
    }
    assert ids[..|ids|] == ids;
    return Ok(result);
  }

  /** Once a prefix of the identifiers fails, so do all of them. */
  lemma {:induction false} VolumesFailureStays(ids: seq<string>, n: nat, os: Os)
    requires n <= |ids| && VolumesOf(ids[..n], os).Err?
    ensures VolumesOf(ids, os) == VolumesOf(ids[..n], os)
    decreases |ids| - n
  {
    if n < |ids| {
      assert ids[..n + 1][..n] == ids[..n];
      VolumesFailureStays(ids, n + 1, os);
    } else {
      assert ids[..n] == ids;
    }
  }

  /** The UNC paths NetworkDrives opens are exactly the values of the
      local-name dictionary. */
  lemma ReconciledRemotes(d: Dict)
    requires WellFormedDict(d)
    ensures forall r :: r in Reconcile(Pairs(d)).keys <==> r in d.values.Values
  {
    var ps := Pairs(d);
    ReconcileKeys(ps);
    DedupSpec(Remotes(ps));
    forall r | r in Reconcile(ps).keys
      ensures r in d.values.Values
    {
      var i :| 0 <= i < |ps| && Remotes(ps)[i] == r;
      assert d.keys[i] in d.values;
    }
    forall r | r in d.values.Values
      ensures r in Reconcile(ps).keys
    {
      var k :| k in d.values && d.values[k] == r;
      var i :| 0 <= i < |d.keys| && d.keys[i] == k;
      assert Remotes(ps)[i] == r;
    }
  }

  /** Every UNC path of a successful enumeration ends with a backslash. */
  lemma DrivesEndWithBackslash(e: NetEnumeration)
    requires NetworkDrivesOf(e).Ok?
    ensures forall r :: r in NetworkDrivesOf(e).value.values.Values ==> EndsWithBackslash(r)
  {
    var d := NetworkDrivesOf(e).value;
    assert Collect(Flatten(e.batches)) == Ok(d);
    forall r | r in d.values.Values
      ensures EndsWithBackslash(r)
    {
      var k :| k in d.values && d.values[k] == r;
      RemotesEndWithBackslash(Flatten(e.batches), k);
    }
  }

  /** Paths that all end with a backslash are valid volume identifiers
      exactly when they all start with two backslashes. */
  lemma ValidIdsIff(ids: seq<string>, remotes: set<string>)
    requires forall r :: r in ids <==> r in remotes
    requires forall r :: r in remotes ==> EndsWithBackslash(r)
    ensures (forall i :: 0 <= i < |ids| ==> ValidVolumeId(ids[i])) <==>
            (forall r :: r in remotes ==> 2 <= |r| && r[0] == '\\' && r[1] == '\\')
  {
    if forall i :: 0 <= i < |ids| ==> ValidVolumeId(ids[i]) {
      forall r | r in remotes
        ensures 2 <= |r| && r[0] == '\\' && r[1] == '\\'
      {
        var i :| 0 <= i < |ids| && ids[i] == r;
        assert ValidVolumeId(ids[i]);
      }
    }
  }

  /** NetworkDrives fails on a UNC path only when the path lacks its two
      leading backslashes: the trailing one is always there. */
  lemma NetworkDrivesRefusal(os: Os)
    requires NetworkDrivesOf(os.networkEnumeration).Ok?
    ensures var d := NetworkDrivesOf(os.networkEnumeration).value;
            NetworkDrivesSpec(os).Ok? <==>
              forall r :: r in d.values.Values ==> 2 <= |r| && r[0] == '\\' && r[1] == '\\'
  {
    var d := NetworkDrivesOf(os.networkEnumeration).value;
    var ids := Reconcile(Pairs(d)).keys;
    assert NetworkDrivesSpec(os) == VolumesOf(ids, os);
    ReconciledRemotes(d);
    DrivesEndWithBackslash(os.networkEnumeration);
    VolumesOfSpec(ids, os);
    ValidIdsIff(ids, d.values.Values);
  }
}
