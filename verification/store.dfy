/** The paste store (paste/storage.ts) over an abstract relational state: one
    map per table, keyed by the table's primary key. `createPaste` is a
    transformer that either returns the new state or leaves the old one
    untouched; the reads are pure functions of the state. */
module Store {
  import opened Wrappers
  import opened Bytes
  import opened Codec

  // ------------------------------------------------------------ request data

  datatype Application = Application(name: string, version: string)
  datatype OperatingSystem = OperatingSystem(name: string, version: string, architecture: string)
  datatype JavaVirtualMachine = JavaVirtualMachine(name: string, version: string, vendor: string)

  /** `data.environment`: the two predefined members and the remaining keys
      in object-key order. */
  datatype Environment = Environment(
    operatingSystem: OperatingSystem,
    javaVirtualMachine: Option<JavaVirtualMachine>,
    custom: seq<(string, Value)>)

  datatype Attachment = Attachment(filename: string, content: seq<byte>)

  datatype CreatePasteData = CreatePasteData(
    application: Application,
    environment: Environment,
    files: seq<Attachment>)

  // ------------------------------------------------------------ tables

  datatype PasteRow = PasteRow(createdAt: string, applicationIdentifier: string, applicationVersion: string)
  datatype FileRow = FileRow(size: nat)
  datatype OsRow = OsRow(name: string, version: string, architecture: string)
  datatype JvmRow = JvmRow(name: string, version: string, vendor: string)
  /** The `type` column may be NULL in the schema; the reader skips such rows. */
  datatype CustomRow = CustomRow(data: seq<byte>, tag: Option<TypeTag>)

  /** The five tables. Keys: `pastes(id)`, `paste_files(pasteId, fileName)`,
      `paste_environments_operatingsystem(pasteId)`,
      `paste_environments_jvm(pasteId)`,
      `paste_environments_custom_metadata(pasteId, name)`. */
  datatype Db = Db(
    pastes: map<string, PasteRow>,
    files: map<(string, string), FileRow>,
    operatingSystems: map<string, OsRow>,
    jvms: map<string, JvmRow>,
    customMetadata: map<(string, string), CustomRow>)

  /** Every child row belongs to a paste, and every paste has its OS row. */
  predicate Consistent(db: Db) {
    && (forall id | id in db.pastes :: id in db.operatingSystems)
    && (forall id | id in db.operatingSystems :: id in db.pastes)
    && (forall id | id in db.jvms :: id in db.pastes)
    && (forall k | k in db.customMetadata :: k.0 in db.pastes)
    && (forall k | k in db.files :: k.0 in db.pastes)
  }

  datatype StoreError =
    | ConstraintViolation       // an INSERT hit an existing primary key
    | EncodeFailed(cause: CodecError)
    | NoFreeId                  // the supplied draws ran out before a free id

  // ------------------------------------------------------------ ids

  const IdCharset: string := "abcdef0123456789"
  const IdLength: nat := 32

  predicate IsPasteId(id: string) {
    |id| == IdLength && forall i | 0 <= i < |id| :: id[i] in IdCharset
  }

  /** `Math.floor(Math.random() * ID_CHARSET.length)` */
  type DigitIndex = i: int | 0 <= i < 16

  /** The candidate built from attempt `attempt` of the random source:
      `draw(attempt, position)` is the character index drawn for `position`. */
  function Candidate(draw: (nat, nat) -> DigitIndex, attempt: nat): (id: string)
    ensures IsPasteId(id)
  {
    seq(IdLength, i requires 0 <= i < IdLength => IdCharset[draw(attempt, i)])
  }

  /** Every candidate of attempts `lo` .. `hi - 1` is already a paste id. */
  predicate AllTaken(pastes: map<string, PasteRow>, draw: (nat, nat) -> DigitIndex, lo: nat, hi: nat) {
    forall j: nat | lo <= j < hi :: Candidate(draw, j) in pastes
  }

  /** A taken candidate in front of a taken run extends it. */
  lemma AllTakenCons(pastes: map<string, PasteRow>, draw: (nat, nat) -> DigitIndex, lo: nat, hi: nat)
    requires Candidate(draw, lo) in pastes && AllTaken(pastes, draw, lo + 1, hi)
    ensures AllTaken(pastes, draw, lo, hi)
  {
  }

  /** `getFreePasteId`: the first candidate, from attempt `attempt` on, that
      is not a key of the pastes table. The source retries without bound;
      here `fuel` bounds the attempts and `None` means it ran out. */
  function GetFreePasteId(pastes: map<string, PasteRow>, draw: (nat, nat) -> DigitIndex,
                          attempt: nat, fuel: nat): (r: Option<string>)
    ensures r.Some? ==> IsPasteId(r.value) && r.value !in pastes
    ensures r.Some? ==> exists k: nat :: attempt <= k < attempt + fuel && r.value == Candidate(draw, k)
                                       && AllTaken(pastes, draw, attempt, k)
    ensures r.None? ==> AllTaken(pastes, draw, attempt, attempt + fuel)
    decreases fuel
  {
    if fuel == 0 then None
    else if Candidate(draw, attempt) !in pastes then
      assert AllTaken(pastes, draw, attempt, attempt);
      Some(Candidate(draw, attempt))
    else
      var r := GetFreePasteId(pastes, draw, attempt + 1, fuel - 1);
      if r.None? then
        AllTakenCons(pastes, draw, attempt, attempt + fuel);
        r
      else
        var k: nat :| attempt + 1 <= k < attempt + fuel && r.value == Candidate(draw, k)
                      && AllTaken(pastes, draw, attempt + 1, k);
        AllTakenCons(pastes, draw, attempt, k);
        r
  }

  // ------------------------------------------------------------ inserts

  /** An `INSERT` into a table keyed by its primary key: it throws on a key
      that is already present, and otherwise the table gains exactly that
      row. */
  function InsertRow<K, R>(table: map<K, R>, key: K, row: R): (r: Result<map<K, R>, StoreError>)
    ensures r.Success? <==> key !in table
    ensures r.Failure? ==> r.error == ConstraintViolation
    ensures r.Success? ==> r.value == table[key := row]
  {
    if key in table then Failure(ConstraintViolation)
    else Success(table[key := row])
  }

  function Names(entries: seq<(string, Value)>): (r: set<string>)
    ensures forall i | 0 <= i < |entries| :: entries[i].0 in r
    ensures forall n | n in r :: exists i :: 0 <= i < |entries| && entries[i].0 == n
  {
    if |entries| == 0 then {}
    else
      var rest := Names(entries[1..]);
      assert forall i | 1 <= i < |entries| :: entries[i] == entries[1..][i - 1];
      {entries[0].0} + rest
  }

  /** No name occurs twice in `entries`. */
  predicate DistinctNames(entries: seq<(string, Value)>) {
    |entries| == 0 || (entries[0].0 !in Names(entries[1..]) && DistinctNames(entries[1..]))
  }

  lemma {:induction false} DistinctNamesAt(entries: seq<(string, Value)>)
    ensures DistinctNames(entries) <==> forall i, j | 0 <= i < j < |entries| :: entries[i].0 != entries[j].0
  {
    if |entries| > 0 {
      var tail := entries[1..];
      DistinctNamesAt(tail);
      assert forall i | 1 <= i < |entries| :: entries[i] == tail[i - 1];
    }
  }

  /** Every value of `entries` converts to a blob. */
  predicate AllConvert(entries: seq<(string, Value)>) {
    |entries| == 0 || (ConvertToBlob(entries[0].1).Success? && AllConvert(entries[1..]))
  }

  lemma {:induction false} AllConvertAt(entries: seq<(string, Value)>)
    ensures AllConvert(entries) <==> forall i | 0 <= i < |entries| :: ConvertToBlob(entries[i].1).Success?
  {
    if |entries| > 0 {
      AllConvertAt(entries[1..]);
      assert forall i | 1 <= i < |entries| :: entries[i] == entries[1..][i - 1];
    }
  }

  /** What the insert loop can store: every value converts, no name twice,
      no name already taken for this paste. */
  predicate CustomInsertable(table: map<(string, string), CustomRow>, id: string, entries: seq<(string, Value)>) {
    && AllConvert(entries)
    && DistinctNames(entries)
    && (forall n | n in Names(entries) :: (id, n) !in table)
  }

  /** The row stored for a convertible value: its blob and inferred tag. */
  function RowFor(v: Value): CustomRow
    requires ConvertToBlob(v).Success?
  {
    CustomRow(ConvertToBlob(v).value, InferTag(v))
  }

  /** The custom-metadata insert loop: convert the value, then insert;
      either step can throw. */
  function InsertCustomMetadata(table: map<(string, string), CustomRow>, id: string, entries: seq<(string, Value)>)
    : (r: Result<map<(string, string), CustomRow>, StoreError>)
    ensures r.Success? <==> CustomInsertable(table, id, entries)
    decreases |entries|
  {
    if |entries| == 0 then Success(table)
    else
      var (name, v) := entries[0];
      var blob := ConvertToBlob(v);
      if blob.Failure? then Failure(EncodeFailed(blob.error))
      else
        var table' :- InsertRow(table, (id, name), RowFor(v));
        CustomInsertableStep(table, id, entries);
        InsertCustomMetadata(table', id, entries[1..])
  }

  /** The insert loop can store `entries` exactly when it can store the
      first and then the rest. */
  lemma CustomInsertableStep(table: map<(string, string), CustomRow>, id: string, entries: seq<(string, Value)>)
    requires |entries| > 0 && ConvertToBlob(entries[0].1).Success?
    requires (id, entries[0].0) !in table
    ensures CustomInsertable(table, id, entries) <==>
              CustomInsertable(table[(id, entries[0].0) := RowFor(entries[0].1)], id, entries[1..])
  {
  }

  /** One step of a successful custom-metadata insert. */
  lemma InsertCustomMetadataUnfold(table: map<(string, string), CustomRow>, id: string, entries: seq<(string, Value)>)
    requires |entries| > 0 && InsertCustomMetadata(table, id, entries).Success?
    ensures ConvertToBlob(entries[0].1).Success? && (id, entries[0].0) !in table
    ensures InsertCustomMetadata(table, id, entries) ==
              InsertCustomMetadata(table[(id, entries[0].0) := RowFor(entries[0].1)], id, entries[1..])
  {
  }

  /** A successful custom-metadata insert adds one key per entry name. */
  lemma {:induction false} InsertCustomMetadataKeys(table: map<(string, string), CustomRow>, id: string,
                                                    entries: seq<(string, Value)>)
    requires InsertCustomMetadata(table, id, entries).Success?
    ensures var out := InsertCustomMetadata(table, id, entries).value;
            forall k :: k in out <==> k in table || (k.0 == id && k.1 in Names(entries))
    decreases |entries|
  {
    if |entries| > 0 {
      var tail := entries[1..];
      InsertCustomMetadataUnfold(table, id, entries);
      InsertCustomMetadataKeys(table[(id, entries[0].0) := RowFor(entries[0].1)], id, tail);
      assert Names(entries) == {entries[0].0} + Names(tail);
    }
  }

  /** A successful custom-metadata insert keeps every row already there. */
  lemma {:induction false} InsertCustomMetadataKeeps(table: map<(string, string), CustomRow>, id: string,
                                                     entries: seq<(string, Value)>)
    requires InsertCustomMetadata(table, id, entries).Success?
    ensures var out := InsertCustomMetadata(table, id, entries).value;
            forall k | k in table :: k in out && out[k] == table[k]
    decreases |entries|
  {
    if |entries| > 0 {
      InsertCustomMetadataUnfold(table, id, entries);
      InsertCustomMetadataKeeps(table[(id, entries[0].0) := RowFor(entries[0].1)], id, entries[1..]);
    }
  }

  /** A successful custom-metadata insert stores, under each entry's name,
      the entry's blob and type tag. */
  lemma {:induction false} InsertCustomMetadataRows(table: map<(string, string), CustomRow>, id: string,
                                                    entries: seq<(string, Value)>)
    requires InsertCustomMetadata(table, id, entries).Success?
    ensures forall i | 0 <= i < |entries| :: ConvertToBlob(entries[i].1).Success?
    ensures var out := InsertCustomMetadata(table, id, entries).value;
            forall i | 0 <= i < |entries| ::
              (id, entries[i].0) in out && out[(id, entries[i].0)] == RowFor(entries[i].1)
    decreases |entries|
  {
    if |entries| > 0 {
      var tail := entries[1..];
      var table' := table[(id, entries[0].0) := RowFor(entries[0].1)];
      InsertCustomMetadataUnfold(table, id, entries);
      InsertCustomMetadataRows(table', id, tail);
      InsertCustomMetadataKeeps(table', id, tail);
      forall i | 1 <= i < |entries| ensures entries[i] == tail[i - 1] {
      }
    }
  }

  function Filenames(files: seq<Attachment>): (r: set<string>)
    ensures forall i | 0 <= i < |files| :: files[i].filename in r
    ensures forall n | n in r :: exists i :: 0 <= i < |files| && files[i].filename == n
  {
    if |files| == 0 then {}
    else
      var rest := Filenames(files[1..]);
      assert forall i | 1 <= i < |files| :: files[i] == files[1..][i - 1];
      {files[0].filename} + rest
  }

  /** No file name occurs twice in `files`. */
  predicate DistinctFilenames(files: seq<Attachment>) {
    |files| == 0 || (files[0].filename !in Filenames(files[1..]) && DistinctFilenames(files[1..]))
  }

  lemma {:induction false} DistinctFilenamesAt(files: seq<Attachment>)
    ensures DistinctFilenames(files) <==> forall i, j | 0 <= i < j < |files| :: files[i].filename != files[j].filename
  {
    if |files| > 0 {
      var tail := files[1..];
      DistinctFilenamesAt(tail);
      assert forall i | 1 <= i < |files| :: files[i] == tail[i - 1];
    }
  }

  /** What the file insert loop can store: no name twice, none already
      taken for this paste. */
  predicate FilesInsertable(table: map<(string, string), FileRow>, id: string, files: seq<Attachment>) {
    DistinctFilenames(files) && forall n | n in Filenames(files) :: (id, n) !in table
  }

  /** The row stored for an attachment: its byte length. */
  function FileRowOf(f: Attachment): FileRow {
    FileRow(|f.content|)
  }

  /** The file-row insert loop. */
  function InsertFiles(table: map<(string, string), FileRow>, id: string, files: seq<Attachment>)
    : (r: Result<map<(string, string), FileRow>, StoreError>)
    ensures r.Success? <==> FilesInsertable(table, id, files)
    decreases |files|
  {
    if |files| == 0 then Success(table)
    else
      var table' :- InsertRow(table, (id, files[0].filename), FileRowOf(files[0]));
      FilesInsertableStep(table, id, files);
      InsertFiles(table', id, files[1..])
  }

  lemma FilesInsertableStep(table: map<(string, string), FileRow>, id: string, files: seq<Attachment>)
    requires |files| > 0 && (id, files[0].filename) !in table
    ensures FilesInsertable(table, id, files) <==>
              FilesInsertable(table[(id, files[0].filename) := FileRowOf(files[0])], id, files[1..])
  {
  }

  /** One step of a successful file insert. */
  lemma InsertFilesUnfold(table: map<(string, string), FileRow>, id: string, files: seq<Attachment>)
    requires |files| > 0 && InsertFiles(table, id, files).Success?
    ensures (id, files[0].filename) !in table
    ensures InsertFiles(table, id, files) ==
              InsertFiles(table[(id, files[0].filename) := FileRowOf(files[0])], id, files[1..])
  {
  }

  /** A successful file insert adds one key per file name. */
  lemma {:induction false} InsertFilesKeys(table: map<(string, string), FileRow>, id: string, files: seq<Attachment>)
    requires InsertFiles(table, id, files).Success?
    ensures var out := InsertFiles(table, id, files).value;
            forall k :: k in out <==> k in table || (k.0 == id && k.1 in Filenames(files))
    decreases |files|
  {
    if |files| > 0 {
      var tail := files[1..];
      InsertFilesUnfold(table, id, files);
      InsertFilesKeys(table[(id, files[0].filename) := FileRowOf(files[0])], id, tail);
      assert Filenames(files) == {files[0].filename} + Filenames(tail);
    }
  }

  /** A successful file insert keeps every row already there. */
  lemma {:induction false} InsertFilesKeeps(table: map<(string, string), FileRow>, id: string, files: seq<Attachment>)
    requires InsertFiles(table, id, files).Success?
    ensures var out := InsertFiles(table, id, files).value;
            forall k | k in table :: k in out && out[k] == table[k]
    decreases |files|
  {
    if |files| > 0 {
      InsertFilesUnfold(table, id, files);
      InsertFilesKeeps(table[(id, files[0].filename) := FileRowOf(files[0])], id, files[1..]);
    }
  }

  /** A successful file insert stores each attachment's size under its name. */
  lemma {:induction false} InsertFilesRows(table: map<(string, string), FileRow>, id: string, files: seq<Attachment>)
    requires InsertFiles(table, id, files).Success?
    ensures var out := InsertFiles(table, id, files).value;
            forall i | 0 <= i < |files| :: (id, files[i].filename) in out && out[(id, files[i].filename)] == FileRowOf(files[i])
    decreases |files|
  {
    if |files| > 0 {
      var tail := files[1..];
      var table' := table[(id, files[0].filename) := FileRowOf(files[0])];
      InsertFilesUnfold(table, id, files);
      InsertFilesRows(table', id, tail);
      InsertFilesKeeps(table', id, tail);
      forall i | 1 <= i < |files| ensures files[i] == tail[i - 1] {
      }
    }
  }

  // ------------------------------------------------------------ createPaste

  const OperatingSystemKey: string := "operatingSystem"
  const JavaVirtualMachineKey: string := "javaVirtualMachine"

  /** `Object.keys(data.environment).filter(...)`: the custom keys, in order. */
  function CustomEntries(env: Environment): (r: seq<(string, Value)>)
    ensures forall i | 0 <= i < |r| :: r[i].0 != OperatingSystemKey && r[i].0 != JavaVirtualMachineKey
    ensures forall i | 0 <= i < |r| :: r[i] in env.custom
    ensures forall e | e in env.custom && e.0 != OperatingSystemKey && e.0 != JavaVirtualMachineKey :: e in r
  {
    Filter(env.custom)
  }

  function Filter(entries: seq<(string, Value)>): (r: seq<(string, Value)>)
    ensures forall i | 0 <= i < |r| :: r[i].0 != OperatingSystemKey && r[i].0 != JavaVirtualMachineKey
    ensures forall i | 0 <= i < |r| :: r[i] in entries
    ensures forall e | e in entries && e.0 != OperatingSystemKey && e.0 != JavaVirtualMachineKey :: e in r
  {
    if |entries| == 0 then []
    else
      var rest := Filter(entries[1..]);
      assert forall e | e in entries[1..] :: e in entries;
      if entries[0].0 != OperatingSystemKey && entries[0].0 != JavaVirtualMachineKey
      then [entries[0]] + rest else rest
  }

  /** The transaction body: paste row, OS row, JVM row when present, one row
      per custom key, one row per attachment. The first failing statement
      aborts it, and it commits exactly when no insert hits a taken key and
      every custom value converts. */
  function Transaction(db: Db, id: string, data: CreatePasteData, now: string): (r: Result<Db, StoreError>)
    ensures r.Success? <==>
              && id !in db.pastes && id !in db.operatingSystems
              && (data.environment.javaVirtualMachine.Some? ==> id !in db.jvms)
              && CustomInsertable(db.customMetadata, id, CustomEntries(data.environment))
              && FilesInsertable(db.files, id, data.files)
  {
    var env := data.environment;
    var pastes :- InsertRow(db.pastes, id, PasteRow(now, data.application.name, data.application.version));
    var oses :- InsertRow(db.operatingSystems, id, OsRowOf(env.operatingSystem));
    var jvms :- if env.javaVirtualMachine.Some?
                then InsertRow(db.jvms, id, JvmRowOf(env.javaVirtualMachine.value))
                else Success(db.jvms);
    var custom :- InsertCustomMetadata(db.customMetadata, id, CustomEntries(env));
    var files :- InsertFiles(db.files, id, data.files);
    Success(Db(pastes, files, oses, jvms, custom))
  }

  /** The tables a committed transaction leaves: one new row in each of the
      paste, OS and (when sent) JVM tables, and the custom-metadata and file
      tables as their insert loops left them. */
  lemma TransactionEffect(db: Db, id: string, data: CreatePasteData, now: string)
    requires Transaction(db, id, data, now).Success?
    ensures var out := Transaction(db, id, data, now).value;
            var env := data.environment;
            && out.pastes == db.pastes[id := PasteRow(now, data.application.name, data.application.version)]
            && out.operatingSystems == db.operatingSystems[id := OsRowOf(env.operatingSystem)]
            && out.jvms == (if env.javaVirtualMachine.Some?
                            then db.jvms[id := JvmRowOf(env.javaVirtualMachine.value)]
                            else db.jvms)
            && InsertCustomMetadata(db.customMetadata, id, CustomEntries(env)) == Success(out.customMetadata)
            && InsertFiles(db.files, id, data.files) == Success(out.files)
  {
  }

  /** Every custom-metadata row a committed transaction leaves: the old rows,
      and for each custom entry the row holding its blob and tag. */
  lemma TransactionCustomRows(db: Db, id: string, data: CreatePasteData, now: string)
    requires Transaction(db, id, data, now).Success?
    ensures var out := Transaction(db, id, data, now).value.customMetadata;
            var entries := CustomEntries(data.environment);
            && DistinctNames(entries)
            && (forall k :: k in out <==> k in db.customMetadata || (k.0 == id && k.1 in Names(entries)))
            && (forall k | k in db.customMetadata :: k in out && out[k] == db.customMetadata[k])
            && (forall i | 0 <= i < |entries| :: ConvertToBlob(entries[i].1).Success?)
            && (forall i | 0 <= i < |entries| :: (id, entries[i].0) in out && out[(id, entries[i].0)] == RowFor(entries[i].1))
  {
    var entries := CustomEntries(data.environment);
    TransactionEffect(db, id, data, now);
    InsertCustomMetadataKeys(db.customMetadata, id, entries);
    InsertCustomMetadataKeeps(db.customMetadata, id, entries);
    InsertCustomMetadataRows(db.customMetadata, id, entries);
  }

  /** Every file row a committed transaction leaves: the old rows, and for
      each attachment the row holding its size. */
  lemma TransactionFileRows(db: Db, id: string, data: CreatePasteData, now: string)
    requires Transaction(db, id, data, now).Success?
    ensures var out := Transaction(db, id, data, now).value.files;
            && DistinctFilenames(data.files)
            && (forall k :: k in out <==> k in db.files || (k.0 == id && k.1 in Filenames(data.files)))
            && (forall k | k in db.files :: k in out && out[k] == db.files[k])
            && (forall i | 0 <= i < |data.files| ::
                  (id, data.files[i].filename) in out && out[(id, data.files[i].filename)] == FileRowOf(data.files[i]))
  {
    TransactionEffect(db, id, data, now);
    InsertFilesKeys(db.files, id, data.files);
    InsertFilesKeeps(db.files, id, data.files);
    InsertFilesRows(db.files, id, data.files);
  }

  function OsRowOf(os: OperatingSystem): OsRow {
    OsRow(os.name, os.version, os.architecture)
  }

  function JvmRowOf(jvm: JavaVirtualMachine): JvmRow {
    JvmRow(jvm.name, jvm.version, jvm.vendor)
  }

  /** `createPaste` up to its commit: draw a free id, then run the
      transaction. On any failure the store is returned unchanged. The file
      writes that follow the commit are `FilesWritten`. */
  function CreatePaste(db: Db, data: CreatePasteData, draw: (nat, nat) -> DigitIndex, fuel: nat, now: string)
    : (r: (Db, Result<string, StoreError>))
    ensures r.1.Failure? ==> r.0 == db
    ensures r.1.Success? ==> IsPasteId(r.1.value) && r.1.value !in db.pastes
    ensures r.1.Success? ==> Transaction(db, r.1.value, data, now) == Success(r.0)
    ensures GetFreePasteId(db.pastes, draw, 0, fuel).None? ==> r == (db, Failure(NoFreeId))
  {
    match GetFreePasteId(db.pastes, draw, 0, fuel)
    case None => (db, Failure(NoFreeId))
    case Some(id) =>
      match Transaction(db, id, data, now)
      case Success(db') => (db', Success(id))
      case Failure(e) => (db, Failure(e))
  }

  /** The file writes after the commit: `mkdirSync` of the paste's folder,
      then one `Bun.write` per attachment at `path.join(folder, filename)`.
      The file system's answers are supplied: `makeFolder(id)` and
      `writeFile(id, filename)` tell whether each call succeeds. The writes
      succeed exactly when every call does; the first failure throws, after
      the transaction has committed. */
  predicate FilesWritten(id: string, files: seq<Attachment>, makeFolder: string -> bool,
                         writeFile: (string, string) -> bool) {
    makeFolder(id) && forall i | 0 <= i < |files| :: writeFile(id, files[i].filename)
  }

  // ------------------------------------------------------------ reads

  /** `getPaste` as returned to the client; `createdAt` is `Date.parse` of
      the stored timestamp. */
  datatype Paste = Paste(id: string, createdAt: int, application: Application)

  /** The `pastes LEFT JOIN paste_files` query has at least one row exactly
      when the paste row exists, and every row repeats the paste columns. */
  function GetPaste(db: Db, id: string, parseDate: string -> int): (r: Option<Paste>)
    ensures r.None? <==> id !in db.pastes
    ensures r.Some? ==> r.value.id == id
  {
    if id !in db.pastes then None
    else
      var row := db.pastes[id];
      Some(Paste(id, parseDate(row.createdAt), Application(row.applicationIdentifier, row.applicationVersion)))
  }

  datatype PasteFile = PasteFile(filename: string, size: nat, extension: string)

  /** `getPasteFiles`: one entry per file row of the paste, whether or not
      the paste row exists. The query has no ORDER BY, so the model keeps
      the entries as a set. `extname` is `path.extname`. */
  function GetPasteFiles(db: Db, id: string, extname: string -> string): (r: set<PasteFile>)
    ensures forall f | f in r :: (id, f.filename) in db.files
    ensures forall k | k in db.files && k.0 == id :: PasteFile(k.1, db.files[k].size, extname(k.1)) in r
    ensures forall f, g | f in r && g in r && f.filename == g.filename :: f == g
  {
    set k | k in db.files && k.0 == id :: PasteFile(k.1, db.files[k].size, extname(k.1))
  }

  /** One member of the merged environment object. */
  datatype Field = OsField(os: OperatingSystem) | JvmField(jvm: JavaVirtualMachine) | CustomField(value: Value)

  /** The source's reader, or the reader with the two defects corrected. */
  datatype Reading = AsWritten | Intended

  datatype ReadError = UndecodableMetadata

  /** The JVM member: present only when the row exists and all three columns
      are non-empty (`!!` on each). As written, `vendor` is filled from the
      version column. */
  function JvmFields(db: Db, id: string, reading: Reading): (r: map<string, Field>)
    ensures r.Keys <= {JavaVirtualMachineKey}
    ensures JavaVirtualMachineKey in r <==>
              id in db.jvms && db.jvms[id].name != "" && db.jvms[id].vendor != "" && db.jvms[id].version != ""
  {
    if id in db.jvms && db.jvms[id].name != "" && db.jvms[id].vendor != "" && db.jvms[id].version != "" then
      var row := db.jvms[id];
      var vendor := if reading == AsWritten then row.version else row.vendor;
      map[JavaVirtualMachineKey := JvmField(JavaVirtualMachine(row.name, row.version, vendor))]
    else
      map[]
  }

  /** Custom rows the reader keeps: a non-empty name and a known type. */
  function CustomNames(db: Db, id: string): (r: set<string>)
    ensures forall n | n in r :: n != "" && (id, n) in db.customMetadata && db.customMetadata[(id, n)].tag.Some?
    ensures forall k | k in db.customMetadata && k.0 == id && k.1 != "" && db.customMetadata[k].tag.Some? :: k.1 in r
  {
    set k | k in db.customMetadata && k.0 == id && k.1 != "" && db.customMetadata[k].tag.Some? :: k.1
  }

  function DecodeRow(row: CustomRow, reading: Reading): Result<Value, CodecError>
    requires row.tag.Some?
  {
    if reading == AsWritten then DecodeAs(row.tag.value, row.data) else DecodeAsIntended(row.tag.value, row.data)
  }

  /** Every kept custom row decodes. */
  predicate AllDecode(db: Db, id: string, reading: Reading) {
    forall n | n in CustomNames(db, id) :: DecodeRow(db.customMetadata[(id, n)], reading).Success?
  }

  /** The decoded custom members, one per kept row. */
  function CustomFields(db: Db, id: string, reading: Reading): (r: map<string, Field>)
    requires AllDecode(db, id, reading)
    ensures r.Keys == CustomNames(db, id)
    ensures forall n | n in r :: r[n] == CustomField(DecodeRow(db.customMetadata[(id, n)], reading).value)
  {
    map n | n in CustomNames(db, id) :: CustomField(DecodeRow(db.customMetadata[(id, n)], reading).value)
  }

  /** The predefined members before the custom ones are spread over them. */
  function PredefinedFields(db: Db, id: string, reading: Reading): (r: map<string, Field>)
    requires id in db.operatingSystems
    ensures r.Keys == {OperatingSystemKey} + JvmFields(db, id, reading).Keys
    ensures r[OperatingSystemKey] == OsField(OsOf(db.operatingSystems[id]))
  {
    map[OperatingSystemKey := OsField(OsOf(db.operatingSystems[id]))] + JvmFields(db, id, reading)
  }

  /** `getPasteEnvironment`: `None` when there is no OS row; a failure when
      any kept custom row does not decode (the source throws); otherwise the
      predefined members overlaid by the decoded custom members. */
  function ReadEnvironment(db: Db, id: string, reading: Reading): (r: Result<Option<map<string, Field>>, ReadError>)
    ensures r == Success(None) <==> id !in db.operatingSystems
    ensures r.Failure? <==> (id in db.operatingSystems && !AllDecode(db, id, reading))
    ensures r.Success? && r.value.Some? ==>
              && r.value.value.Keys == {OperatingSystemKey} + JvmFields(db, id, reading).Keys + CustomNames(db, id)
              && (forall n | n in CustomNames(db, id) ::
                    r.value.value[n] == CustomField(DecodeRow(db.customMetadata[(id, n)], reading).value))
              && (forall n | n in JvmFields(db, id, reading) && n !in CustomNames(db, id) ::
                    r.value.value[n] == JvmFields(db, id, reading)[n])
              && (OperatingSystemKey !in CustomNames(db, id) ==>
                    r.value.value[OperatingSystemKey] == OsField(OsOf(db.operatingSystems[id])))
  {
    if id !in db.operatingSystems then Success(None)
    else if !AllDecode(db, id, reading) then Failure(UndecodableMetadata)
    else Success(Some(PredefinedFields(db, id, reading) + CustomFields(db, id, reading)))
  }

  function OsOf(row: OsRow): OperatingSystem {
    OperatingSystem(row.name, row.version, row.architecture)
  }

  function GetPasteEnvironment(db: Db, id: string): Result<Option<map<string, Field>>, ReadError> {
    ReadEnvironment(db, id, AsWritten)
  }

  function GetPasteEnvironmentIntended(db: Db, id: string): Result<Option<map<string, Field>>, ReadError> {
    ReadEnvironment(db, id, Intended)
  }
}
