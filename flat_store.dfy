/** The flat patient store: create_patient of the VPR and GOS services (the two handlers are
    the same code) and list_patients of the VPR service. Records live at
    <base>/patients/<id>.json. */
module FlatStore {
  import opened Outcomes
  import opened Names
  import opened Codec
  import opened Files

  /** The base directory when PATIENT_DATA_DIR is unset: /patient_data. */
  const DefaultBase: Path := ["patient_data"]

  /** The reply of create_patient: where the record was written, and the record. */
  datatype CreatePatientRes = CreatePatientRes(filename: Path, patient: Patient)

  /** Which fallible steps of a create the environment makes fail. */
  datatype CreateFaults = CreateFaults(dataDirFails: bool, serializeFails: bool, writeFails: bool)

  /** Which steps of a listing the environment makes fail: read_dir itself, and the entries
      whose directory-entry lookup or read_to_string fails. */
  datatype ListFaults = ListFaults(readDirFails: bool, unreadable: set<Path>)

  function DataDir(base: Path): Path {
    base + ["patients"]
  }

  function RecordPath(base: Path, id: string): Path {
    DataDir(base) + [id + ".json"]
  }

  /** Every record file sits directly in the data directory, which is where the listing looks,
      and distinct ids give distinct files. */
  lemma RecordPathInjective(base: Path, a: string, b: string)
    ensures IsChild(DataDir(base), RecordPath(base, a))
    ensures RecordPath(base, a) == RecordPath(base, b) ==> a == b
  {
    if RecordPath(base, a) == RecordPath(base, b) {
      var n := |base| + 1;
      assert a + ".json" == RecordPath(base, a)[n] == RecordPath(base, b)[n] == b + ".json";
      assert a == (a + ".json")[..|a|];
      assert b == (b + ".json")[..|b|];
    }
  }

  predicate NamesValid(firstName: string, lastName: string) {
    !IsBlank(firstName) && !IsBlank(lastName)
  }

  /** Where a create that got past validation ends: which error it returns, if any. */
  function StoreOutcome(dirs: set<Path>, files: map<Path, string>, base: Path, id: string,
                        faults: CreateFaults): (r: Option<Status>)
    ensures r == None <==> && !faults.dataDirFails && NoFileOnPath(files, DataDir(base))
                           && !faults.serializeFails && !faults.writeFails
                           && RecordPath(base, id) !in dirs
    ensures r == Some(Internal(StorageDirFailed)) <==>
              faults.dataDirFails || !NoFileOnPath(files, DataDir(base))
  {
    if faults.dataDirFails || !NoFileOnPath(files, DataDir(base)) then
      Some(Internal(StorageDirFailed))
    else if faults.serializeFails then
      Some(Internal(SerializeFailed))
    else if faults.writeFails || RecordPath(base, id) in dirs then
      Some(Internal(WriteFailed))
    else
      None
  }

  /** The part of create_patient after validation: create <base>/patients, serialise, then
      write body as <id>.json inside it. body is the record serde_json produces; only whether
      serialising fails is a step of its own here. */
  method StoreRecord(fs: FileSystem, base: Path, id: string, body: string, faults: CreateFaults)
    returns (failure: Option<Status>)
    requires fs.Valid()
    modifies fs
    ensures fs.Valid()
    ensures failure == StoreOutcome(old(fs.dirs), old(fs.files), base, id, faults)
    ensures failure == Some(Internal(StorageDirFailed)) ==> fs.dirs == old(fs.dirs)
    ensures failure != Some(Internal(StorageDirFailed)) ==> fs.dirs == old(fs.dirs) + Prefixes(DataDir(base))
    ensures fs.files == if failure.None? then old(fs.files)[RecordPath(base, id) := body] else old(fs.files)
  {
    ghost var dirs0 := fs.dirs;
    var dataDir := DataDir(base);
    var dirOk := fs.CreateDirAll(dataDir, faults.dataDirFails);
    if !dirOk {
      return Some(Internal(StorageDirFailed));
    }
    if faults.serializeFails {
      return Some(Internal(SerializeFailed));
    }
    var filename := RecordPath(base, id);
    assert filename[..|filename| - 1] == dataDir;
    assert dataDir in fs.dirs by {
      assert dataDir[..|dataDir|] == dataDir;
    }
    assert filename !in Prefixes(dataDir);
    var written := fs.Write(filename, body, faults.writeFails);
    if !written {
      assert filename !in fs.dirs || filename in dirs0;
      return Some(Internal(WriteFailed));
    }
    failure := None;
  }

  /** create_patient: validate and trim the names, then store the record. uuid and createdAt
      are what Uuid::new_v4 and Utc::now produced. */
  method CreatePatient(fs: FileSystem, base: Path, firstName: string, lastName: string,
                       uuid: string, createdAt: string, faults: CreateFaults)
    returns (r: Result<CreatePatientRes>)
    requires fs.Valid()
    modifies fs
    ensures fs.Valid()
    // Invalid names are rejected before any filesystem access.
    ensures !NamesValid(firstName, lastName) ==>
              r == Err(InvalidArgument(NamesRequired)) && fs.dirs == old(fs.dirs) && fs.files == old(fs.files)
    ensures NamesValid(firstName, lastName) ==>
              var outcome := StoreOutcome(old(fs.dirs), old(fs.files), base, uuid, faults);
              && (outcome.Some? ==> r == Err(outcome.value) && fs.files == old(fs.files))
              && (outcome.None? ==>
                    && r == Ok(CreatePatientRes(RecordPath(base, uuid),
                                                Patient(uuid, Trim(firstName), Trim(lastName), createdAt)))
                    && fs.files == old(fs.files)[RecordPath(base, uuid) := Encode(r.value.patient)])
              && (outcome == Some(Internal(StorageDirFailed)) ==> fs.dirs == old(fs.dirs))
              && (outcome != Some(Internal(StorageDirFailed)) ==>
                    fs.dirs == old(fs.dirs) + Prefixes(DataDir(base)))
    // The stored body reads back as the returned record, id included.
    ensures r.Ok? ==> r.value.filename in fs.files
                      && Decode(fs.files[r.value.filename]) == Some(r.value.patient)
  {
    var names := ValidateNames(firstName, lastName);
    if names.Err? {
      return Err(names.status);
    }
    var (first, last) := names.value;
    var patient := Patient(uuid, first, last, createdAt);
    var failure := StoreRecord(fs, base, uuid, Encode(patient), faults);
    if failure.Some? {
      return Err(failure.value);
    }
    DecodeEncode(patient);
    r := Ok(CreatePatientRes(RecordPath(base, uuid), patient));
  }

  /** The records a set of files holds: each file whose contents decode, with its record. */
  function Records(files: map<Path, string>): (records: map<Path, Patient>)
    ensures forall e :: e in records <==> e in files && Decode(files[e]).Some?
    ensures forall e :: e in records ==> Decode(files[e]) == Some(records[e])
  {
    map e | e in files && Decode(files[e]).Some? :: Decode(files[e]).value
  }

  /** What one directory entry adds to the listing: its record, when it holds one and can be
      read. */
  function Contribution(records: map<Path, Patient>, unreadable: set<Path>, e: Path): multiset<Patient> {
    if e in records && e !in unreadable then multiset{records[e]} else multiset{}
  }

  /** The records of a set of entries, whatever order they are visited in. */
  ghost function Listed(records: map<Path, Patient>, unreadable: set<Path>, entries: set<Path>): multiset<Patient>
    decreases entries
  {
    if entries == {} then
      multiset{}
    else
      var e :| e in entries;
      Contribution(records, unreadable, e) + Listed(records, unreadable, entries - {e})
  }

  /** The entries that yield a record. */
  function Readable(records: map<Path, Patient>, unreadable: set<Path>, entries: set<Path>): set<Path> {
    set e | e in entries && e in records && e !in unreadable
  }

  /** What list_patients returns, as a multiset: nothing when the data directory cannot be
      read, otherwise the record of every entry that yields one. */
  ghost function Listing(dirs: set<Path>, files: map<Path, string>, base: Path, faults: ListFaults): multiset<Patient> {
    if faults.readDirFails || DataDir(base) !in dirs then
      multiset{}
    else
      Listed(Records(files), faults.unreadable, DirEntries(dirs, files, DataDir(base)))
  }

  /** Any entry can be taken out first: the listing does not depend on visiting order. */
  lemma {:induction false} ListedRemove(records: map<Path, Patient>, unreadable: set<Path>,
                                        entries: set<Path>, x: Path)
    requires x in entries
    ensures Listed(records, unreadable, entries)
            == Contribution(records, unreadable, x) + Listed(records, unreadable, entries - {x})
    decreases entries
  {
    var y :| y in entries && Listed(records, unreadable, entries)
             == Contribution(records, unreadable, y) + Listed(records, unreadable, entries - {y});
    if y != x {
      ListedRemove(records, unreadable, entries - {y}, x);
      ListedRemove(records, unreadable, entries - {x}, y);
      assert entries - {y} - {x} == entries - {x} - {y};
    }
  }

  /** Taking one entry out of a set removes it, if it yields a record, from the readable
      entries. */
  lemma ReadableRemove(records: map<Path, Patient>, unreadable: set<Path>, entries: set<Path>, x: Path)
    requires x in entries
    ensures |Readable(records, unreadable, entries)|
            == |Contribution(records, unreadable, x)| + |Readable(records, unreadable, entries - {x})|
  {
    var readable := Readable(records, unreadable, entries);
    var readableRest := Readable(records, unreadable, entries - {x});
    if x in readable {
      assert readable == readableRest + {x};
    } else {
      assert readable == readableRest;
    }
  }

  /** One record per readable entry: the listing has exactly as many records as there are
      entries that are regular files, can be read and decode, and so no more records than
      entries. */
  lemma {:induction false} ListedSize(records: map<Path, Patient>, unreadable: set<Path>, entries: set<Path>)
    ensures |Listed(records, unreadable, entries)| == |Readable(records, unreadable, entries)|
    ensures |Readable(records, unreadable, entries)| <= |entries|
    decreases entries
  {
    if entries != {} {
      var x :| x in entries;
      ListedSize(records, unreadable, entries - {x});
      ListedRemove(records, unreadable, entries, x);
      ReadableRemove(records, unreadable, entries, x);
    }
  }

  /** Every listed record is, field for field, the record of a readable entry. */
  lemma {:induction false} ListedSound(records: map<Path, Patient>, unreadable: set<Path>,
                                       entries: set<Path>, p: Patient)
    requires p in Listed(records, unreadable, entries)
    ensures exists e :: e in Readable(records, unreadable, entries) && records[e] == p
    decreases entries
  {
    var x :| x in entries;
    ListedRemove(records, unreadable, entries, x);
    if p in Contribution(records, unreadable, x) {
      assert x in Readable(records, unreadable, entries);
    } else {
      ListedSound(records, unreadable, entries - {x}, p);
      var e :| e in Readable(records, unreadable, entries - {x}) && records[e] == p;
      assert e in Readable(records, unreadable, entries);
    }
  }

  /** Every readable entry's record is listed; a corrupt neighbour does not hide it. */
  lemma ListedComplete(records: map<Path, Patient>, unreadable: set<Path>, entries: set<Path>, e: Path)
    requires e in Readable(records, unreadable, entries)
    ensures records[e] in Listed(records, unreadable, entries)
  {
    ListedRemove(records, unreadable, entries, e);
  }

  /** Writing one file changes what it alone contributes. */
  lemma RecordsUpdate(files: map<Path, string>, x: Path, contents: string, unreadable: set<Path>)
    ensures forall e :: e != x ==>
              Contribution(Records(files[x := contents]), unreadable, e) == Contribution(Records(files), unreadable, e)
  {
    forall e | e != x
      ensures Contribution(Records(files[x := contents]), unreadable, e) == Contribution(Records(files), unreadable, e)
    {
      if e in files {
        assert files[x := contents][e] == files[e];
      }
    }
  }

  /** The listing of a set of entries depends only on what those entries contribute. */
  lemma {:induction false} ListedAgree(records: map<Path, Patient>, records': map<Path, Patient>,
                                       unreadable: set<Path>, entries: set<Path>)
    requires forall e :: e in entries ==>
               Contribution(records, unreadable, e) == Contribution(records', unreadable, e)
    ensures Listed(records, unreadable, entries) == Listed(records', unreadable, entries)
    decreases entries
  {
    if entries != {} {
      var x :| x in entries;
      ListedRemove(records, unreadable, entries, x);
      ListedRemove(records', unreadable, entries, x);
      ListedAgree(records, records', unreadable, entries - {x});
    }
  }

  /** One entry of list_patients: a regular file whose contents read and decode gives its
      record; anything else is skipped. */
  method ReadRecord(fs: FileSystem, e: Path, unreadable: set<Path>) returns (record: Option<Patient>)
    ensures record.Some? <==> e in Records(fs.files) && e !in unreadable
    ensures record.Some? ==> record.value == Records(fs.files)[e]
  {
    var isFile := fs.IsFile(e);
    if !isFile {
      return None;
    }
    var contents := fs.ReadToString(e, e in unreadable);
    if contents.None? {
      return None;
    }
    record := Decode(contents.value);
  }

  /** list_patients: scan <base>/patients, keeping each regular file that reads and decodes
      and skipping every other entry; a missing directory gives an empty list. */
  method ListPatients(fs: FileSystem, base: Path, faults: ListFaults) returns (patients: seq<Patient>)
    ensures faults.readDirFails || DataDir(base) !in fs.dirs ==> patients == []
    ensures multiset(patients) == Listing(fs.dirs, fs.files, base, faults)
  {
    patients := [];
    var read := fs.ReadDir(DataDir(base), faults.readDirFails);
    if read.None? {
      return;
    }
    var entries := read.value;
    ghost var records := Records(fs.files);
    var i := 0;
    while i < |entries|
      invariant i <= |entries|
      invariant multiset(patients) == Listed(records, faults.unreadable, Elements(entries[..i]))
    {
      var e := entries[i];
      var record := ReadRecord(fs, e, faults.unreadable);
      if record.Some? {
        patients := patients + [record.value];
      }
      ghost var seen := Elements(entries[..i]);
      assert Elements(entries[..i + 1]) == seen + {e};
      assert e !in seen;
      ListedRemove(records, faults.unreadable, seen + {e}, e);
      assert seen + {e} - {e} == seen;
      i := i + 1;
    }
    assert entries[..|entries|] == entries;
  }

  /** A record that create_patient wrote is in every later listing that can read its file. */
  lemma CreatedPatientIsListed(dirs: set<Path>, files: map<Path, string>, base: Path,
                               faults: ListFaults, p: Patient)
    requires DataDir(base) in dirs
    requires RecordPath(base, p.id) in files && files[RecordPath(base, p.id)] == Encode(p)
    requires !faults.readDirFails && RecordPath(base, p.id) !in faults.unreadable
    ensures p in Listing(dirs, files, base, faults)
  {
    var path := RecordPath(base, p.id);
    var entries := DirEntries(dirs, files, DataDir(base));
    DecodeEncode(p);
    RecordPathInjective(base, p.id, p.id);
    assert path in Readable(Records(files), faults.unreadable, entries);
    ListedComplete(Records(files), faults.unreadable, entries, path);
  }

  /** Create followed by list: a successful create's record is in the next listing, unless
      its own file cannot be read. */
  method CreateThenList(fs: FileSystem, base: Path, firstName: string, lastName: string,
                        uuid: string, createdAt: string, createFaults: CreateFaults,
                        listFaults: ListFaults)
    returns (created: Result<CreatePatientRes>, listed: seq<Patient>)
    requires fs.Valid()
    requires !listFaults.readDirFails && RecordPath(base, uuid) !in listFaults.unreadable
    modifies fs
    ensures created.Ok? ==> created.value.patient in listed
    ensures created.Ok? ==> created.value.patient.firstName == Trim(firstName)
                            && created.value.patient.lastName == Trim(lastName)
  {
    created := CreatePatient(fs, base, firstName, lastName, uuid, createdAt, createFaults);
    listed := ListPatients(fs, base, listFaults);
    if created.Ok? {
      CreatedPatientIsListed(fs.dirs, fs.files, base, listFaults, created.value.patient);
      assert created.value.patient in multiset(listed);
    }
  }
}
