/** The sharded patient store of the gitehr-temp service: create_patient writes each record's
    demographics (without the id) to <base>/<s1>/<s2>/<id>/demographics.json, where id is the
    UUID without hyphens, lower-cased, and s1, s2 are its first two pairs of characters. */
module ShardedStore {
  import opened Outcomes
  import opened Names
  import opened Codec
  import opened Files
  import FlatStore

  /** Which fallible steps of a sharded create the environment makes fail. */
  datatype ShardedFaults = ShardedFaults(baseDirFails: bool, recordDirFails: bool,
                                         serializeFails: bool, writeFails: bool)

  /** str::replace('-', ""): the same characters in the same order, hyphens dropped. */
  function StripHyphens(s: string): (r: string)
    ensures '-' !in r
    ensures |r| <= |s|
  {
    if s == [] then []
    else if s[0] == '-' then StripHyphens(s[1..])
    else [s[0]] + StripHyphens(s[1..])
  }

  /** Exactly the hyphens go: every other character stays, as often as it occurs. */
  lemma {:induction false} StripHyphensCount(s: string)
    ensures multiset(StripHyphens(s)) == multiset(s)['-' := 0]
    ensures |StripHyphens(s)| + multiset(s)['-'] == |s|
    decreases |s|
  {
    if s != [] {
      assert s == [s[0]] + s[1..];
      StripHyphensCount(s[1..]);
    }
  }

  /** Dropping hyphens piece by piece is dropping them from the whole. */
  lemma {:induction false} StripHyphensAppend(a: string, b: string)
    ensures StripHyphens(a + b) == StripHyphens(a) + StripHyphens(b)
    decreases |a|
  {
    if a != [] {
      assert (a + b)[0] == a[0] && (a + b)[1..] == a[1..] + b;
      StripHyphensAppend(a[1..], b);
    } else {
      assert a + b == b;
    }
  }

  /** A text without hyphens is left as it is. */
  lemma {:induction false} StripHyphensNone(s: string)
    requires '-' !in s
    ensures StripHyphens(s) == s
    decreases |s|
  {
    if s != [] {
      assert s[0] in s;
      assert forall c :: c in s[1..] ==> c in s;
      StripHyphensNone(s[1..]);
      assert s == [s[0]] + s[1..];
    }
  }

  /** The ASCII letters 'A' to 'Z' become lower case; every other character is kept. */
  function LowerChar(c: char): char {
    if 'A' <= c <= 'Z' then (c as int + 32) as char else c
  }

  /** str::to_lowercase, restricted to ASCII: one character for one, no capital left. */
  function Lower(s: string): (r: string)
    ensures |r| == |s|
    ensures forall i :: 0 <= i < |s| ==> !('A' <= r[i] <= 'Z')
    ensures forall i :: 0 <= i < |s| ==> r[i] == s[i] || ('A' <= s[i] <= 'Z' && r[i] as int == s[i] as int + 32)
  {
    if s == [] then [] else [LowerChar(s[0])] + Lower(s[1..])
  }

  /** A text without capitals is its own lower case. */
  lemma {:induction false} LowerNoCapitals(s: string)
    requires forall i :: 0 <= i < |s| ==> !('A' <= s[i] <= 'Z')
    ensures Lower(s) == s
    decreases |s|
  {
    if s != [] {
      LowerNoCapitals(s[1..]);
    }
  }

  /** Lower-casing twice is lower-casing once. */
  lemma LowerIdempotent(s: string)
    ensures Lower(Lower(s)) == Lower(s)
  {
    LowerNoCapitals(Lower(s));
  }

  predicate IsLowerHex(c: char) {
    '0' <= c <= '9' || 'a' <= c <= 'f'
  }

  /** The hyphenated form Uuid::to_string produces: 8-4-4-4-12 lower-case hex digits. */
  predicate IsCanonicalUuid(s: string) {
    && |s| == 36
    && (forall i :: 0 <= i < 36 ==> (s[i] == '-' <==> i == 8 || i == 13 || i == 18 || i == 23))
    && (forall i :: 0 <= i < 36 && s[i] != '-' ==> IsLowerHex(s[i]))
  }

  /** A hyphen-free group followed by a hyphen: the group stays, the hyphen goes. */
  lemma StripGroup(group: string, rest: string)
    requires '-' !in group
    ensures StripHyphens(group + "-" + rest) == group + StripHyphens(rest)
  {
    StripHyphensAppend(group + "-", rest);
    StripHyphensAppend(group, "-");
    StripHyphensNone(group);
  }

  /** Every character left after dropping the hyphens was a character of the input. */
  lemma StripHyphensFrom(s: string, i: nat)
    requires i < |StripHyphens(s)|
    ensures exists j :: 0 <= j < |s| && s[j] == StripHyphens(s)[i] && s[j] != '-'
  {
    var c := StripHyphens(s)[i];
    StripHyphensCount(s);
    assert c in multiset(StripHyphens(s));
    assert c in multiset(s);
  }

  /** For a UUID as Uuid::new_v4 writes it, the hyphen-free id has the 32 hex digits the
      shards are cut from, and lower-casing it changes nothing: the id in the reply is the
      leaf directory's name. */
  lemma CanonicalUuidId(raw: string)
    requires IsCanonicalUuid(raw)
    ensures |StripHyphens(raw)| == 32
    ensures forall i :: 0 <= i < 32 ==> IsLowerHex(StripHyphens(raw)[i])
    ensures Lower(StripHyphens(raw)) == StripHyphens(raw)
  {
    var id := StripHyphens(raw);
    var t3 := raw[19..];
    assert t3 == raw[19..23] + "-" + raw[24..];
    var t2 := raw[14..];
    assert t2 == raw[14..18] + "-" + t3;
    var t1 := raw[9..];
    assert t1 == raw[9..13] + "-" + t2;
    assert raw == raw[..8] + "-" + t1;
    StripHyphensNone(raw[24..]);
    StripGroup(raw[19..23], raw[24..]);
    StripGroup(raw[14..18], t3);
    StripGroup(raw[9..13], t2);
    StripGroup(raw[..8], t1);
    assert |id| == 32;
    forall i | 0 <= i < 32 ensures IsLowerHex(id[i]) {
      StripHyphensFrom(raw, i);
    }
    LowerNoCapitals(id);
  }

  /** <base>/<s1>/<s2>/<id>: the directory one record lives in. */
  function RecordDir(base: Path, idLower: string): Path
    requires |idLower| >= 4
  {
    base + [idLower[..2], idLower[2..4], idLower]
  }

  function RecordFile(base: Path, idLower: string): Path
    requires |idLower| >= 4
  {
    RecordDir(base, idLower) + ["demographics.json"]
  }

  /** The two shard directories are named after the id's first four characters, and distinct
      ids get distinct files. */
  lemma RecordFileShards(base: Path, a: string, b: string)
    requires |a| >= 4 && |b| >= 4
    ensures RecordFile(base, a)[|base|] + RecordFile(base, a)[|base| + 1] == a[..4]
    ensures RecordFile(base, a)[|base| + 2] == a
    ensures RecordFile(base, a)[|base|] + RecordFile(base, a)[|base| + 1] <= RecordFile(base, a)[|base| + 2]
    ensures RecordFile(base, a) == RecordFile(base, b) ==> a == b
  {
    assert a[..2] + a[2..4] == a[..4];
    assert RecordFile(base, a)[|base| + 2] == a;
    assert RecordFile(base, b)[|base| + 2] == b;
  }

  /** Where a sharded create that got past validation ends: which error it returns, if any. */
  function StoreOutcome(dirs: set<Path>, files: map<Path, string>, base: Path, idLower: string,
                        faults: ShardedFaults): (r: Option<Status>)
    requires |idLower| >= 4
    ensures r == None <==> && !faults.baseDirFails && !faults.recordDirFails
                           && NoFileOnPath(files, base) && NoFileOnPath(files, RecordDir(base, idLower))
                           && !faults.serializeFails && !faults.writeFails
                           && RecordFile(base, idLower) !in dirs
    ensures r == Some(Internal(StorageDirFailed)) <==> faults.baseDirFails || !NoFileOnPath(files, base)
    ensures r == Some(Internal(PatientDirFailed)) <==>
              && !faults.baseDirFails && NoFileOnPath(files, base)
              && (faults.recordDirFails || !NoFileOnPath(files, RecordDir(base, idLower)))
  {
    if faults.baseDirFails || !NoFileOnPath(files, base) then
      Some(Internal(StorageDirFailed))
    else if faults.recordDirFails || !NoFileOnPath(files, RecordDir(base, idLower)) then
      Some(Internal(PatientDirFailed))
    else if faults.serializeFails then
      Some(Internal(SerializeFailed))
    else if faults.writeFails || RecordFile(base, idLower) in dirs then
      Some(Internal(WriteFailed))
    else
      None
  }

  /** The part of create_patient after validation: create the base directory, then the
      record's directory, serialise, then write body as demographics.json inside it. body is
      the demographics serde_json produces; only whether serialising fails is a step of its
      own here. */
  method StoreRecord(fs: FileSystem, base: Path, idLower: string, body: string, faults: ShardedFaults)
    returns (failure: Option<Status>)
    requires fs.Valid()
    requires |idLower| >= 4
    modifies fs
    ensures fs.Valid()
    ensures failure == StoreOutcome(old(fs.dirs), old(fs.files), base, idLower, faults)
    ensures fs.dirs == if failure == Some(Internal(StorageDirFailed)) then old(fs.dirs)
                       else if failure == Some(Internal(PatientDirFailed)) then old(fs.dirs) + Prefixes(base)
                       else old(fs.dirs) + Prefixes(base) + Prefixes(RecordDir(base, idLower))
    ensures fs.files == if failure.None? then old(fs.files)[RecordFile(base, idLower) := body] else old(fs.files)
  {
    ghost var dirs0 := fs.dirs;
    var baseOk := fs.CreateDirAll(base, faults.baseDirFails);
    if !baseOk {
      return Some(Internal(StorageDirFailed));
    }
    var recordDir := RecordDir(base, idLower);
    var dirOk := fs.CreateDirAll(recordDir, faults.recordDirFails);
    if !dirOk {
      return Some(Internal(PatientDirFailed));
    }
    if faults.serializeFails {
      return Some(Internal(SerializeFailed));
    }
    var filename := RecordFile(base, idLower);
    assert filename[..|filename| - 1] == recordDir;
    assert recordDir in fs.dirs by {
      assert recordDir[..|recordDir|] == recordDir;
    }
    assert filename !in Prefixes(base) && filename !in Prefixes(recordDir);
    var written := fs.Write(filename, body, faults.writeFails);
    if !written {
      assert filename !in fs.dirs || filename in dirs0;
      return Some(Internal(WriteFailed));
    }
    failure := None;
  }

  /** create_patient of the sharded store: validate and trim the names, then store the
      demographics under the id. rawUuid and createdAt are what Uuid::new_v4 and Utc::now
      produced; the reply carries the hyphen-free id as it was, before lower-casing. */
  method CreatePatient(fs: FileSystem, base: Path, firstName: string, lastName: string,
                       rawUuid: string, createdAt: string, faults: ShardedFaults)
    returns (r: Result<FlatStore.CreatePatientRes>)
    requires fs.Valid()
    requires |StripHyphens(rawUuid)| >= 4
    modifies fs
    ensures fs.Valid()
    // Invalid names are rejected before any filesystem access.
    ensures !FlatStore.NamesValid(firstName, lastName) ==>
              r == Err(InvalidArgument(NamesRequired)) && fs.dirs == old(fs.dirs) && fs.files == old(fs.files)
    ensures FlatStore.NamesValid(firstName, lastName) ==>
              var idLower := Lower(StripHyphens(rawUuid));
              var outcome := StoreOutcome(old(fs.dirs), old(fs.files), base, idLower, faults);
              && (outcome.Some? ==> r == Err(outcome.value) && fs.files == old(fs.files))
              && (outcome.None? ==>
                    && r == Ok(FlatStore.CreatePatientRes(
                                 RecordFile(base, idLower),
                                 Patient(StripHyphens(rawUuid), Trim(firstName), Trim(lastName), createdAt)))
                    && fs.files == old(fs.files)[RecordFile(base, idLower) :=
                                    EncodeDemographics(Demographics(Trim(firstName), Trim(lastName), createdAt))])
              && fs.dirs == if outcome == Some(Internal(StorageDirFailed)) then old(fs.dirs)
                            else if outcome == Some(Internal(PatientDirFailed)) then old(fs.dirs) + Prefixes(base)
                            else old(fs.dirs) + Prefixes(base) + Prefixes(RecordDir(base, idLower))
  {
    var names := ValidateNames(firstName, lastName);
    if names.Err? {
      return Err(names.status);
    }
    var (first, last) := names.value;
    var id := StripHyphens(rawUuid);
    var idLower := Lower(id);
    var demographics := Demographics(first, last, createdAt);
    var failure := StoreRecord(fs, base, idLower, EncodeDemographics(demographics), faults);
    if failure.Some? {
      return Err(failure.value);
    }
    r := Ok(FlatStore.CreatePatientRes(RecordFile(base, idLower), Patient(id, first, last, createdAt)));
  }

  /** The stored body reads back as the record's demographics, but not as a flat record: the
      id is only in the path. */
  lemma StoredBodyHasNoId(p: Patient)
    ensures var body := EncodeDemographics(Demographics(p.firstName, p.lastName, p.createdAt));
            && DecodeDemographics(body) == Some(Demographics(p.firstName, p.lastName, p.createdAt))
            && Decode(body) == None
  {
    var d := Demographics(p.firstName, p.lastName, p.createdAt);
    DecodeEncodeDemographics(d);
    DemographicsAreNotPatients(d);
  }

  /** A sharded create under the same base changes nothing in what list_patients returns:
      the record is neither in <base>/patients nor does the create make that directory. */
  lemma ShardedRecordNotListed(dirs: set<Path>, files: map<Path, string>, base: Path,
                               idLower: string, body: string, faults: FlatStore.ListFaults)
    requires |idLower| >= 4
    ensures var dirs' := dirs + Prefixes(base) + Prefixes(RecordDir(base, idLower));
            var files' := files[RecordFile(base, idLower) := body];
            FlatStore.Listing(dirs', files', base, faults) == FlatStore.Listing(dirs, files, base, faults)
  {
    var recordDir := RecordDir(base, idLower);
    var file := RecordFile(base, idLower);
    var dirs' := dirs + Prefixes(base) + Prefixes(recordDir);
    var files' := files[file := body];
    var dataDir := FlatStore.DataDir(base);
    NotUnderDataDir(base, idLower);
    assert dataDir in dirs' <==> dataDir in dirs;
    var entries := DirEntries(dirs, files, dataDir);
    assert DirEntries(dirs', files', dataDir) == entries;
    assert file !in entries;
    FlatStore.RecordsUpdate(files, file, body, faults.unreadable);
    FlatStore.ListedAgree(FlatStore.Records(files'), FlatStore.Records(files), faults.unreadable, entries);
  }

  /** Nothing a sharded create makes is <base>/patients or anywhere below it. */
  lemma NotUnderDataDir(base: Path, idLower: string)
    requires |idLower| >= 4
    ensures FlatStore.DataDir(base) !in Prefixes(base) + Prefixes(RecordDir(base, idLower))
    ensures forall p :: p in Prefixes(base) + Prefixes(RecordDir(base, idLower)) ==>
                          !IsChild(FlatStore.DataDir(base), p)
    ensures !IsChild(FlatStore.DataDir(base), RecordFile(base, idLower))
    ensures forall p :: p in Prefixes(base) + Prefixes(RecordDir(base, idLower)) ==>
                          !(FlatStore.DataDir(base) <= p)
    ensures !(FlatStore.DataDir(base) <= RecordFile(base, idLower))
  {
    var dataDir := FlatStore.DataDir(base);
    var recordDir := RecordDir(base, idLower);
    var file := RecordFile(base, idLower);
    assert |idLower[..2]| == 2;
    assert dataDir[|base|] == "patients";
    forall p | p in Prefixes(base) + Prefixes(recordDir)
      ensures p != dataDir && !IsChild(dataDir, p) && !(dataDir <= p)
    {
      if p in Prefixes(recordDir) && |p| > |base| {
        assert p[|base|] == idLower[..2] != "patients";
      }
    }
    assert file[|base|] == idLower[..2];
  }

  /** Whatever a sharded create's outcome, the state it leaves (StoreRecord's new directories
      and files) gives the same flat listing as the state before it. */
  lemma ShardedCreateNotListed(dirs: set<Path>, files: map<Path, string>, base: Path,
                               idLower: string, body: string, faults: ShardedFaults,
                               listFaults: FlatStore.ListFaults)
    requires |idLower| >= 4
    ensures var outcome := StoreOutcome(dirs, files, base, idLower, faults);
            var dirs' := if outcome == Some(Internal(StorageDirFailed)) then dirs
                         else if outcome == Some(Internal(PatientDirFailed)) then dirs + Prefixes(base)
                         else dirs + Prefixes(base) + Prefixes(RecordDir(base, idLower));
            var files' := if outcome.None? then files[RecordFile(base, idLower) := body] else files;
            FlatStore.Listing(dirs', files', base, listFaults) == FlatStore.Listing(dirs, files, base, listFaults)
  {
    var recordDir := RecordDir(base, idLower);
    var dirsBase := dirs + Prefixes(base);
    var dirsAll := dirs + Prefixes(base) + Prefixes(recordDir);
    assert dirsBase + Prefixes(base) + Prefixes(recordDir) == dirsAll;
    assert dirsAll + Prefixes(base) + Prefixes(recordDir) == dirsAll;
    ShardedRecordNotListed(dirs, files, base, idLower, body, listFaults);
    ShardedRecordNotListed(dirsBase, files, base, idLower, body, listFaults);
    ShardedRecordNotListed(dirsAll, files, base, idLower, body, listFaults);
  }
}
