# GOS patient-record store, modelled in Dafny

GOS keeps patient records as JSON files on disk behind three gRPC handlers that share one design:

- **Flat store** (`VprService::create_patient` and `list_patients`; `GosService::create_patient` in the GOS service is the same code):
  - `create_patient` trims the two names and rejects blank ones.
  - It creates `<base>/patients` and writes `{id, first_name, last_name, created_at}` to `<base>/patients/<id>.json`.
  - It replies with the record and the file name.
  - `list_patients` scans `<base>/patients`. It returns every regular file that reads and decodes as a record, and skips everything else (it logs a warning for a file that does not decode; the model leaves logging out). A directory that cannot be read gives an empty list.
- **Sharded store** (the gitehr-temp `GosService::create_patient`):
  - The id is the UUID with its hyphens removed.
  - The record's demographics, without the id, go to `<base>/<s1>/<s2>/<id>/demographics.json`. Here the id is lower-cased, and `s1`, `s2` are its first two pairs of characters.
- **Health**: each service answers `ok = true` with a fixed message.

The model has these modules:

- `Outcomes`: `Option`, `Result` and the gRPC status (`InvalidArgument` or `Internal`) with the handlers' exact messages.
- `Names`: `str::trim` over Unicode white space, and name validation.
- `Codec`: the pretty-printed JSON bodies of both layouts, with a decoder proved to invert the encoder.
- `Files`: the part of `std::fs` the handlers use. It is a class whose `dirs` set and `files` map the methods update in place. Every fallible call takes a flag saying whether the environment makes it fail.
- `FlatStore`, `ShardedStore` and `Health`: the handlers.

The UUID, the timestamp, the `PATIENT_DATA_DIR` base (`DefaultBase` is `/patient_data`) and the outcome of each fallible step are parameters.

The two layouts do not agree, and the model keeps them as they are:

- `ShardedStore.ShardedCreateNotListed` proves that a sharded create, whatever its outcome, never changes what the flat `list_patients` returns for the same base.
- `ShardedStore.StoredBodyHasNoId` proves that the sharded body carries no id, so it never decodes as a flat record.

## Model

| member | source | states |
|---|---|---|
| Names.IsWhitespace | crates/vpr/src/service.rs:32-33 | `char::is_whitespace`, which `str::trim` drops: the Unicode White_Space characters, from tab to carriage return, space, U+0085, U+00A0, U+1680, U+2000 to U+200A, U+2028, U+2029, U+202F, U+205F and U+3000 |
| Names.TrimStart | crates/vpr/src/service.rs:32-33 | the result is a suffix of the input; the dropped prefix is all white space; the result does not start with white space |
| Names.TrimEnd | crates/vpr/src/service.rs:32-33 | the result is a prefix of the input; the dropped suffix is all white space; the result does not end with white space |
| Names.Trim | crates/vpr/src/service.rs:32-34 | the trimmed name is empty exactly when the input is blank; it is never longer than the input; it neither starts nor ends with white space |
| Names.TrimSplits | crates/vpr/src/service.rs:32-33 | the trimmed name is a contiguous part of the input with only white space before and after it |
| Names.TrimPadded | crates/vpr/src/service.rs:32-33 | surrounding any text without outer white space by blank padding, then trimming, gives that text back |
| Names.TrimIdempotent | crates/vpr/src/service.rs:32-33 | trimming a trimmed name changes nothing |
| Names.TrimAda | crates/vpr/src/service.rs:32-33 | a concrete case: "  Ada " trims to "Ada" |
| Names.ValidateNames | crates/vpr/src/service.rs:31-38 | InvalidArgument("first_name and last_name are required") exactly when either name is blank; otherwise the two trimmed names, both non-empty |
| Codec.Unescape | crates/vpr/src/service.rs:121 | every short escape letter the decoder accepts stands for the character the encoder escapes with that letter |
| Codec.EscapeChar | crates/vpr/src/service.rs:66 | serde_json's escape of one character: `\"`, `\\` and the five short escapes `\b`, `\t`, `\n`, `\f`, `\r`; `\u00` and two lower-case hex digits for any other character below U+0020; every other character as it is |
| Codec.Escape | crates/vpr/src/service.rs:66 | the body of a JSON string literal: each character escaped in turn; Codec.ParseEscaped and Codec.RawControlRefused fix its meaning |
| Codec.ParseString | crates/vpr/src/service.rs:121 | a string literal is accepted only when the text is the escaped value, a closing quote and the rest |
| Codec.RawControlRefused | crates/vpr/src/service.rs:121 | a raw control character, U+0000 to U+001F, at the start of a string literal is refused, and the encoder never writes one raw |
| Codec.EscapeControlExample | crates/vpr/src/service.rs:66 | a concrete case: U+0001 is written `\u0001` |
| Codec.ParseEscaped | crates/vpr/src/service.rs:121 | the string reader gives back any escaped value and the text after its closing quote |
| Codec.ParseFields | crates/vpr/src/service.rs:121 | a field list is accepted only when it is exactly the encoding of the values it returns, one per key |
| Codec.ParseFieldsEncoded | crates/vpr/src/service.rs:121 | the field reader gives back the values of any encoded field list |
| Codec.DecodeObject | crates/vpr/src/service.rs:121 | an object is accepted only when the text is the pretty-printed encoding of the values read |
| Codec.EncodeObject | crates/vpr/src/service.rs:66 | serde_json's pretty layout of a struct: `{`, one line per field in declaration order, indented by two spaces, as `"key": "value"`, separated by `,`, then `}`; Codec.DecodeObjectEncoded fixes its meaning |
| Codec.DecodeObjectEncoded | crates/vpr/src/service.rs:66 | decoding a pretty-printed object gives back its values |
| Codec.Decode | crates/vpr/src/service.rs:113-121 | a body decodes to a record only when it is that record's encoding |
| Codec.Encode | crates/vpr/src/service.rs:66 | serde_json's pretty layout of id, first_name, last_name, created_at in that order, with serde_json's escapes; Codec.DecodeEncode and Codec.Decode fix its meaning |
| Codec.DecodeEncode | crates/vpr/src/service.rs:66 | decoding the encoding of any flat record gives the record back, id included |
| Codec.DecodeDemographics | crates/gitehr-temp/src/lib.rs:52-57 | a sharded body decodes to demographics only when it is their encoding |
| Codec.EncodeDemographics | crates/gitehr-temp/src/lib.rs:76 | the same layout for first_name, last_name, created_at, with no id; Codec.DecodeEncodeDemographics and Codec.DemographicsAreNotPatients fix its meaning |
| Codec.DecodeEncodeDemographics | crates/gitehr-temp/src/lib.rs:76 | decoding the encoding of any demographics gives them back |
| Codec.FirstKeyLetter | crates/gitehr-temp/src/lib.rs:52-57 | the sixth character of an encoded object is the first letter of its first key |
| Codec.DemographicsAreNotPatients | crates/gitehr-temp/src/lib.rs:52-57 | no sharded body decodes as a flat record, because it has no id |
| Files.FileSystem.CreateDirAll | crates/vpr/src/service.rs:42 | create_dir_all succeeds unless it is made to fail or a file is in the way; on success the path and all its ancestors are directories, and files are untouched |
| Files.FileSystem.Write | crates/vpr/src/service.rs:68 | fs::write succeeds unless it is made to fail, the parent is missing or the path is a directory; on success it sets that one file, and directories are untouched |
| Files.FileSystem.ReadDir | crates/vpr/src/service.rs:101 | read_dir fails exactly when it is made to fail or the directory is missing; otherwise it lists each child exactly once |
| Files.FileSystem.IsFile | crates/vpr/src/service.rs:111 | true exactly for regular files |
| Files.FileSystem.ReadToString | crates/vpr/src/service.rs:112 | read_to_string gives the file's contents unless it is made to fail or the path is not a file |
| FlatStore.DataDir | crates/vpr/src/service.rs:41 | `<base>/patients`, the directory create_patient makes and list_patients scans |
| FlatStore.RecordPath | crates/vpr/src/service.rs:65 | `<base>/patients/<id>.json`; FlatStore.RecordPathInjective fixes its meaning |
| FlatStore.RecordPathInjective | crates/vpr/src/service.rs:65 | every record file sits directly in `<base>/patients`, and distinct ids give distinct files |
| FlatStore.StoreOutcome | crates/vpr/src/service.rs:42-77 | a create that passed validation succeeds exactly when no step is made to fail, nothing blocks `<base>/patients`, and the record path is not a directory; the storage-directory error arises exactly from the first step |
| FlatStore.StoreRecord | crates/vpr/src/service.rs:40-77 | the error returned is the outcome above; the data directory and its ancestors exist unless the first step failed; only a successful run writes the file, with the given body |
| FlatStore.CreatePatient | crates/vpr/src/service.rs:27-90 | blank names give InvalidArgument with the filesystem unchanged; otherwise the outcome decides the error; on success the reply is the record path and the record with the trimmed names, and the stored body is that record's encoding and decodes back to it (the GOS handler, crates/gos/src/service.rs:27-90, is the same code) |
| FlatStore.Records | crates/vpr/src/service.rs:111-121 | the records a set of files holds are exactly the files whose contents decode |
| FlatStore.ListedRemove | crates/vpr/src/service.rs:109-133 | any entry can be visited first: the listing does not depend on read_dir's order |
| FlatStore.ReadableRemove | crates/vpr/src/service.rs:109-133 | removing one entry removes it, if it yields a record, from the readable entries |
| FlatStore.ListedSize | crates/vpr/src/service.rs:109-133 | the listing has one record per readable entry, so never more records than entries |
| FlatStore.ListedSound | crates/vpr/src/service.rs:121-127 | every listed record is, field for field, the record of a readable entry |
| FlatStore.ListedComplete | crates/vpr/src/service.rs:109-133 | every readable entry's record is listed; a corrupt or unreadable neighbour does not hide it |
| FlatStore.RecordsUpdate | crates/vpr/src/service.rs:111-121 | writing one file changes what that file alone contributes to a listing |
| FlatStore.ListedAgree | crates/vpr/src/service.rs:109-133 | the listing of a set of entries depends only on what those entries contribute |
| FlatStore.ReadRecord | crates/vpr/src/service.rs:110-131 | an entry yields a record exactly when it is a regular file that reads and decodes, and the record is its decoding |
| FlatStore.ListPatients | crates/vpr/src/service.rs:92-136 | an unreadable or missing data directory gives an empty list; otherwise the result, as a multiset, is exactly the records of the readable entries |
| FlatStore.CreatedPatientIsListed | crates/vpr/src/service.rs:65-68 | a record create_patient wrote is in every later listing that can read its file |
| FlatStore.CreateThenList | crates/vpr/src/service.rs:92-136 | after a successful create, the next listing holds the created record with the trimmed names |
| ShardedStore.StripHyphens | crates/gitehr-temp/src/lib.rs:49 | the id has no hyphen and is no longer than the UUID |
| ShardedStore.StripHyphensCount | crates/gitehr-temp/src/lib.rs:49 | exactly the hyphens are removed: every other character stays as often as it occurs, and the length drops by the number of hyphens |
| ShardedStore.StripHyphensAppend | crates/gitehr-temp/src/lib.rs:49 | stripping two pieces one after the other is stripping their concatenation |
| ShardedStore.StripHyphensNone | crates/gitehr-temp/src/lib.rs:49 | a text without hyphens is kept as it is |
| ShardedStore.StripGroup | crates/gitehr-temp/src/lib.rs:49 | a hyphen-free group followed by a hyphen keeps the group and loses the hyphen |
| ShardedStore.StripHyphensFrom | crates/gitehr-temp/src/lib.rs:49 | every character of the id is a non-hyphen character of the UUID |
| ShardedStore.Lower | crates/gitehr-temp/src/lib.rs:66 | lower-casing keeps the length, leaves no capital, and changes only capitals, each to its lower-case letter |
| ShardedStore.LowerNoCapitals | crates/gitehr-temp/src/lib.rs:66 | a text without capitals is its own lower case |
| ShardedStore.LowerIdempotent | crates/gitehr-temp/src/lib.rs:66 | lower-casing twice is lower-casing once |
| ShardedStore.CanonicalUuidId | crates/gitehr-temp/src/lib.rs:48-49 | for a UUID in its canonical 8-4-4-4-12 form, the id is 32 lower-case hex digits and its own lower case, so the reply's id names the leaf directory |
| ShardedStore.RecordDir | crates/gitehr-temp/src/lib.rs:66-69 | `<base>/<s1>/<s2>/<id>`, where `s1` and `s2` are the lower-cased id's characters 0-1 and 2-3 |
| ShardedStore.RecordFile | crates/gitehr-temp/src/lib.rs:75 | `demographics.json` inside that directory; ShardedStore.RecordFileShards fixes its meaning |
| ShardedStore.RecordFileShards | crates/gitehr-temp/src/lib.rs:66-75 | the two shard directories are the id's first four characters, the leaf is the id and starts with them, and distinct ids give distinct files |
| ShardedStore.StoreOutcome | crates/gitehr-temp/src/lib.rs:40-87 | a create that passed validation succeeds exactly when no step is made to fail, no file blocks either directory and the record path is not a directory; the storage- and patient-directory errors arise exactly from the first and second directory steps |
| ShardedStore.StoreRecord | crates/gitehr-temp/src/lib.rs:40-87 | the error returned is the outcome above; the base directory is created before the record directory, and each exists unless its step or an earlier one failed; only a successful run writes the file, with the given body |
| ShardedStore.CreatePatient | crates/gitehr-temp/src/lib.rs:25-100 | blank names give InvalidArgument with the filesystem unchanged; otherwise the outcome decides the error; on success the file holds the demographics with the trimmed names, and the reply is that path and the record with the un-lowercased id |
| ShardedStore.StoredBodyHasNoId | crates/gitehr-temp/src/lib.rs:52-63 | the stored body reads back as the demographics and never as a flat record: the id is only in the path |
| ShardedStore.NotUnderDataDir | crates/gitehr-temp/src/lib.rs:69 | no directory or file a sharded create makes is `<base>/patients`, directly inside it, or anywhere below it |
| ShardedStore.ShardedRecordNotListed | crates/gitehr-temp/src/lib.rs:69-78 | a successful sharded create under the same base leaves the flat listing exactly as it was |
| ShardedStore.ShardedCreateNotListed | crates/gitehr-temp/src/lib.rs:40-87 | whatever a sharded create's outcome, the state it leaves (no change, the base directory only, both directories, or both directories and the file) gives the same flat listing as before |
| Health.VprHealth | crates/vpr/src/service.rs:20-25 | the reply is ok with "VPR is alive" |
| Health.GosHealth | crates/gos/src/service.rs:20-25 | the reply is ok with "GOS is alive", as it is in the sharded store's service (crates/gitehr-temp/src/lib.rs:18-23) |

## Left out

- The tonic transport, `Request`/`Response` wrapping and the generated protobuf types: a handler is a method that returns a `Result`. `Status` is reduced to its code and message.
- `std::env::var("PATIENT_DATA_DIR")`: the base is a parameter; `FlatStore.DefaultBase` records the fallback `/patient_data`.
- `Uuid::new_v4` and `Utc::now().to_rfc3339()`: both are inputs. Neither the uniqueness of ids nor the timestamp format is proved.
- `tracing` log calls, async execution, concurrent handlers, and races between a create and a list.
- The file name in a reply is the path as segments, not `Path::display`'s text.
- Files.FileSystem.CreateDirAll: a create_dir_all that fails is all-or-nothing. The real call may leave some ancestors created before it fails.
- Files.FileSystem: symbolic links, permissions and non-UTF-8 contents are not modelled. An environmental failure is a flag, not a cause.
- FlatStore.ListPatients: an entry whose directory-entry lookup fails (skipped by `flatten`) and an entry whose `read_to_string` fails are merged into one `unreadable` set.
- Codec.Unescape: reads only the seven short escapes the encoder writes. serde_json also reads `\/`, and reads a `\uXXXX` escape for any character, in either case of hex digit and with surrogate pairs.
- Codec.ParseString: reads `\u00XX` only with lower-case hex digits, and only for a control character that has no short escape, which is exactly what serde_json writes. Any other `\u` escape that serde_json would read is refused. Raw control characters, U+0000 to U+001F, are refused, as serde_json refuses them.
- Codec.ParseFields: reads the fields only in the encoder's order and layout: two spaces of indent, `": "` after the key and `,\n` between fields. serde_json accepts any white space, any field order, and extra fields.
- Codec.DecodeObject: reads only an object in the encoder's pretty layout. serde_json also reads a struct written as a JSON array of its field values, and any white space around the braces.
- Codec.Decode: accepts exactly the body the encoder writes for a flat record, so the narrowings of the four readers above apply. A hand-edited file that serde_json reads in another layout is listed by the service but skipped by the model. The model never lists a body that serde_json refuses.
- Codec.DecodeDemographics: the same reader as `Codec.Decode`, for the sharded body, with the same narrowings.
- Serialisation failure is a fault flag (`serializeFails`). Serialisation itself is pure, so `StoreRecord` receives the serialised body and reports the failure at the point where the handler would.
- ShardedStore.Lower: covers ASCII letters only. `str::to_lowercase` also folds other scripts; a UUID's hex digits are ASCII, which `ShardedStore.CanonicalUuidId` uses.
- ShardedStore.CreatePatient: requires an id of at least four characters. The shard slices `[0..2]` and `[2..4]` would panic on a shorter one. Slicing is by character, where Rust slices by byte; the two agree on ASCII ids.
- `src/service.rs`, `src/main.rs`, `crates/gos/src/main.rs`, the `build.rs` files and the re-export modules hold no store logic and are not part of this model.
