/** What the store promises across operations: `createPaste` keeps the
    tables consistent and succeeds exactly for storable data, and the reads
    give back what it wrote (with the corrected environment reader), while
    the reader as written loses the JVM vendor and rejects empty arrays. */
module StoreProperties {
  import opened Wrappers
  import opened Codec
  import opened Store

  /** Under `Consistent`, an id that is not a paste owns no row anywhere. */
  lemma FreshIdOwnsNothing(db: Db, id: string)
    requires Consistent(db) && id !in db.pastes
    ensures id !in db.operatingSystems && id !in db.jvms
    ensures forall k | k in db.customMetadata :: k.0 != id
    ensures forall k | k in db.files :: k.0 != id
  {
  }

  /** A committed `createPaste`: `db'` is the store after it and `id` the
      paste it created. */
  predicate Committed(db: Db, db': Db, id: string, data: CreatePasteData, now: string) {
    Consistent(db) && id !in db.pastes && Transaction(db, id, data, now) == Success(db')
  }

  lemma CreatePasteCommits(db: Db, data: CreatePasteData, draw: (nat, nat) -> DigitIndex, fuel: nat, now: string)
    requires Consistent(db)
    requires CreatePaste(db, data, draw, fuel, now).1.Success?
    ensures var (db', r) := CreatePaste(db, data, draw, fuel, now);
            Committed(db, db', r.value, data, now)
  {
  }

  lemma CreatePastePreservesConsistency(db: Db, data: CreatePasteData, draw: (nat, nat) -> DigitIndex, fuel: nat, now: string)
    requires Consistent(db)
    ensures Consistent(CreatePaste(db, data, draw, fuel, now).0)
  {
    var (db', r) := CreatePaste(db, data, draw, fuel, now);
    if r.Success? {
      var id := r.value;
      TransactionEffect(db, id, data, now);
      TransactionCustomRows(db, id, data, now);
      TransactionFileRows(db, id, data, now);
      assert forall k | k in db'.customMetadata :: k.0 in db'.pastes;
      assert forall k | k in db'.files :: k.0 in db'.pastes;
    }
  }

  /** Data the transaction accepts: every custom value converts, custom
      names are distinct (always so for a parsed JSON object) and file names
      are distinct. */
  predicate Storable(data: CreatePasteData) {
    var entries := CustomEntries(data.environment);
    && (forall i | 0 <= i < |entries| :: ConvertToBlob(entries[i].1).Success?)
    && DistinctNames(entries)
    && DistinctFilenames(data.files)
  }

  /** Once a free id is found, `createPaste` succeeds exactly for storable
      data; otherwise it fails and the store is unchanged. */
  lemma CreatePasteSucceedsIff(db: Db, data: CreatePasteData, draw: (nat, nat) -> DigitIndex, fuel: nat, now: string)
    requires Consistent(db)
    requires GetFreePasteId(db.pastes, draw, 0, fuel).Some?
    ensures CreatePaste(db, data, draw, fuel, now).1.Success? <==> Storable(data)
    ensures !Storable(data) ==> CreatePaste(db, data, draw, fuel, now).0 == db
  {
    var id := GetFreePasteId(db.pastes, draw, 0, fuel).value;
    FreshIdOwnsNothing(db, id);
    var entries := CustomEntries(data.environment);
    AllConvertAt(entries);
    assert CustomInsertable(db.customMetadata, id, entries) <==>
             (forall i | 0 <= i < |entries| :: ConvertToBlob(entries[i].1).Success?) && DistinctNames(entries);
    assert FilesInsertable(db.files, id, data.files) <==> DistinctFilenames(data.files);
  }

  lemma GetPasteAfterCreate(db: Db, data: CreatePasteData, draw: (nat, nat) -> DigitIndex, fuel: nat, now: string,
                            parseDate: string -> int)
    requires CreatePaste(db, data, draw, fuel, now).1.Success?
    ensures var (db', r) := CreatePaste(db, data, draw, fuel, now);
            GetPaste(db', r.value, parseDate) == Some(Paste(r.value, parseDate(now), data.application))
  {
    var (db', r) := CreatePaste(db, data, draw, fuel, now);
    TransactionEffect(db, r.value, data, now);
  }

  // ------------------------------------------------------------ files

  /** The file entries of a paste whose rows are exactly those written for
      `files`. */
  lemma FilesOfNewPaste(db': Db, before: map<(string, string), FileRow>, id: string, files: seq<Attachment>,
                        extname: string -> string)
    requires forall k | k in before :: k.0 != id
    requires forall k :: k in db'.files <==> k in before || (k.0 == id && k.1 in Filenames(files))
    requires forall i | 0 <= i < |files| ::
               (id, files[i].filename) in db'.files && db'.files[(id, files[i].filename)] == FileRowOf(files[i])
    ensures GetPasteFiles(db', id, extname) ==
              set i | 0 <= i < |files| :: PasteFile(files[i].filename, |files[i].content|, extname(files[i].filename))
  {
    var got := GetPasteFiles(db', id, extname);
    var want := set i | 0 <= i < |files| :: PasteFile(files[i].filename, |files[i].content|, extname(files[i].filename));
    forall f | f in got ensures f in want {
      var k := (id, f.filename);
      assert k in db'.files && k !in before;
      var i :| 0 <= i < |files| && files[i].filename == f.filename;
      assert f == PasteFile(files[i].filename, |files[i].content|, extname(files[i].filename));
    }
    forall f | f in want ensures f in got {
      var i :| 0 <= i < |files| && f == PasteFile(files[i].filename, |files[i].content|, extname(files[i].filename));
      assert (id, files[i].filename) in db'.files;
    }
  }

  /** The file list of a new paste is exactly its attachments with their
      byte sizes. */
  lemma GetPasteFilesAfterCreate(db: Db, data: CreatePasteData, draw: (nat, nat) -> DigitIndex, fuel: nat, now: string,
                                 extname: string -> string)
    requires Consistent(db)
    requires CreatePaste(db, data, draw, fuel, now).1.Success?
    ensures var (db', r) := CreatePaste(db, data, draw, fuel, now);
            GetPasteFiles(db', r.value, extname) ==
              set i | 0 <= i < |data.files| ::
                PasteFile(data.files[i].filename, |data.files[i].content|, extname(data.files[i].filename))
  {
    var (db', r) := CreatePaste(db, data, draw, fuel, now);
    var id := r.value;
    FreshIdOwnsNothing(db, id);
    TransactionFileRows(db, id, data, now);
    FilesOfNewPaste(db', db.files, id, data.files, extname);
  }

  // ------------------------------------------------------------ environment

  /** `getPaste` reads the pastes table alone: the number of file rows the
      join repeats the paste row for, and every other table, make no
      difference. */
  lemma GetPasteReadsPastesOnly(db: Db, db': Db, id: string, parseDate: string -> int)
    requires db'.pastes == db.pastes
    ensures GetPaste(db', id, parseDate) == GetPaste(db, id, parseDate)
  {
  }

  /** `getPasteFiles` gives the empty list both for an unknown id and for a
      paste without files: exactly when no file row belongs to the id. */
  lemma GetPasteFilesEmpty(db: Db, id: string, extname: string -> string)
    ensures GetPasteFiles(db, id, extname) == {} <==> forall k | k in db.files :: k.0 != id
  {
  }

  /** The custom members as the client sent them; a later name overrides an
      earlier one. */
  function CustomFieldMap(entries: seq<(string, Value)>): (r: map<string, Field>)
    ensures r.Keys == Names(entries)
  {
    if |entries| == 0 then map[]
    else map[entries[0].0 := CustomField(entries[0].1)] + CustomFieldMap(entries[1..])
  }

  lemma {:induction false} CustomFieldMapAt(entries: seq<(string, Value)>, i: nat)
    requires DistinctNames(entries) && i < |entries|
    ensures CustomFieldMap(entries)[entries[i].0] == CustomField(entries[i].1)
  {
    var tail := entries[1..];
    var head := map[entries[0].0 := CustomField(entries[0].1)];
    var rest := CustomFieldMap(tail);
    if i > 0 {
      assert tail[i - 1] == entries[i];
      CustomFieldMapAt(tail, i - 1);
      assert entries[i].0 in Names(tail);
      UnionRight(head, rest, entries[i].0);
    } else {
      UnionLeft(head, rest, entries[0].0);
    }
  }

  lemma UnionRight<K, V>(a: map<K, V>, b: map<K, V>, k: K)
    requires k in b
    ensures k in a + b && (a + b)[k] == b[k]
  {
  }

  lemma UnionLeft<K, V>(a: map<K, V>, b: map<K, V>, k: K)
    requires k in a && k !in b
    ensures k in a + b && (a + b)[k] == a[k]
  {
  }

  /** The entries as the store gives their values back: numbers truncated
      toward zero. */
  function StoredValues(entries: seq<(string, Value)>): (r: seq<(string, Value)>)
    ensures |r| == |entries|
    ensures forall i | 0 <= i < |entries| :: r[i] == (entries[i].0, Truncated(entries[i].1))
  {
    seq(|entries|, i requires 0 <= i < |entries| => (entries[i].0, Truncated(entries[i].1)))
  }

  /** Truncating the values keeps the names, and so their distinctness. */
  lemma StoredValuesNames(entries: seq<(string, Value)>)
    ensures Names(StoredValues(entries)) == Names(entries)
    ensures DistinctNames(entries) ==> DistinctNames(StoredValues(entries))
  {
    var stored := StoredValues(entries);
    assert forall i | 0 <= i < |entries| :: stored[i].0 == entries[i].0;
    SameNames(stored, entries);
    if DistinctNames(entries) {
      DistinctNamesAt(entries);
      DistinctNamesAt(stored);
    }
  }

  lemma SameNames(a: seq<(string, Value)>, b: seq<(string, Value)>)
    requires |a| == |b| && forall i | 0 <= i < |a| :: a[i].0 == b[i].0
    ensures Names(a) == Names(b)
  {
    assert forall n | n in Names(a) :: n in Names(b);
    assert forall n | n in Names(b) :: n in Names(a);
  }

  /** The environment object a client sent, as the reader should return it. */
  function Fields(env: Environment): (r: map<string, Field>)
    ensures OperatingSystemKey in r && r[OperatingSystemKey] == OsField(env.operatingSystem)
    ensures env.javaVirtualMachine.Some? ==>
              JavaVirtualMachineKey in r && r[JavaVirtualMachineKey] == JvmField(env.javaVirtualMachine.value)
  {
    assert OperatingSystemKey !in Names(CustomEntries(env));
    assert JavaVirtualMachineKey !in Names(CustomEntries(env));
    var jvm := if env.javaVirtualMachine.Some?
               then map[JavaVirtualMachineKey := JvmField(env.javaVirtualMachine.value)]
               else map[];
    map[OperatingSystemKey := OsField(env.operatingSystem)] + jvm + CustomFieldMap(CustomEntries(env))
  }

  /** The environment object as the corrected reader gives it back: the
      object the client sent, with every custom number truncated. */
  function ReadBackFields(env: Environment): (r: map<string, Field>)
    ensures OperatingSystemKey in r && r[OperatingSystemKey] == OsField(env.operatingSystem)
    ensures env.javaVirtualMachine.Some? ==>
              JavaVirtualMachineKey in r && r[JavaVirtualMachineKey] == JvmField(env.javaVirtualMachine.value)
  {
    var custom := StoredValues(CustomEntries(env));
    PredefinedKeysNotStored(env);
    var jvm := if env.javaVirtualMachine.Some?
               then map[JavaVirtualMachineKey := JvmField(env.javaVirtualMachine.value)]
               else map[];
    map[OperatingSystemKey := OsField(env.operatingSystem)] + jvm + CustomFieldMap(custom)
  }

  lemma PredefinedKeysNotStored(env: Environment)
    ensures OperatingSystemKey !in Names(StoredValues(CustomEntries(env)))
    ensures JavaVirtualMachineKey !in Names(StoredValues(CustomEntries(env)))
  {
    var entries := CustomEntries(env);
    StoredValuesNames(entries);
    assert OperatingSystemKey !in Names(entries);
    assert JavaVirtualMachineKey !in Names(entries);
  }

  /** Every custom number the client sent is integral. */
  predicate IntegralCustom(env: Environment) {
    forall i | 0 <= i < |env.custom| :: IntegralNumbers(env.custom[i].1)
  }

  /** The object read back is the one sent exactly when truncation changes
      no custom value, which integral numbers guarantee. */
  lemma ReadBackExact(env: Environment)
    requires IntegralCustom(env)
    ensures ReadBackFields(env) == Fields(env)
  {
    var entries := CustomEntries(env);
    forall i | 0 <= i < |entries| ensures Truncated(entries[i].1) == entries[i].1 {
      assert entries[i] in env.custom;
    }
    assert StoredValues(entries) == entries;
  }

  /** What the reader can give back unchanged: the JVM columns are non-empty
      (it drops the JVM otherwise), custom names are non-empty (it skips
      them otherwise) and no string starts with a byte-order mark (the text
      decoder strips it). */
  predicate Readable(env: Environment) {
    && (env.javaVirtualMachine.Some? ==>
          var jvm := env.javaVirtualMachine.value;
          jvm.name != "" && jvm.version != "" && jvm.vendor != "")
    && (forall i | 0 <= i < |env.custom| :: env.custom[i].0 != "" && BomFree(env.custom[i].1))
  }

  /** The reader keeps exactly the custom rows written for `entries`. */
  lemma KeptCustomNames(db': Db, before: map<(string, string), CustomRow>, id: string, entries: seq<(string, Value)>)
    requires forall k | k in before :: k.0 != id
    requires forall k :: k in db'.customMetadata <==> k in before || (k.0 == id && k.1 in Names(entries))
    requires forall i | 0 <= i < |entries| :: ConvertToBlob(entries[i].1).Success?
    requires forall i | 0 <= i < |entries| ::
               (id, entries[i].0) in db'.customMetadata && db'.customMetadata[(id, entries[i].0)] == RowFor(entries[i].1)
    requires forall i | 0 <= i < |entries| :: entries[i].0 != ""
    ensures CustomNames(db', id) == Names(entries)
  {
    KeptOnlyWritten(db'.customMetadata, before, id, entries);
    KeptAllWritten(db'.customMetadata, id, entries);
    CustomNamesExactly(db', id, Names(entries));
  }

  /** The kept names are `names` when every row of `id` is named in
      `names` and every name in `names` has a kept row. */
  lemma CustomNamesExactly(db: Db, id: string, names: set<string>)
    requires forall k | k in db.customMetadata && k.0 == id :: k.1 in names
    requires forall n | n in names :: n != "" && (id, n) in db.customMetadata && db.customMetadata[(id, n)].tag.Some?
    ensures CustomNames(db, id) == names
  {
    forall n | n in names ensures n in CustomNames(db, id) {
      assert (id, n) in db.customMetadata;
    }
  }

  lemma KeptOnlyWritten(table: map<(string, string), CustomRow>, before: map<(string, string), CustomRow>,
                        id: string, entries: seq<(string, Value)>)
    requires forall k | k in before :: k.0 != id
    requires forall k :: k in table <==> k in before || (k.0 == id && k.1 in Names(entries))
    ensures forall k | k in table && k.0 == id :: k.1 in Names(entries)
  {
  }

  lemma KeptAllWritten(table: map<(string, string), CustomRow>, id: string, entries: seq<(string, Value)>)
    requires forall i | 0 <= i < |entries| :: ConvertToBlob(entries[i].1).Success?
    requires forall i | 0 <= i < |entries| ::
               (id, entries[i].0) in table && table[(id, entries[i].0)] == RowFor(entries[i].1)
    requires forall i | 0 <= i < |entries| :: entries[i].0 != ""
    ensures forall n | n in Names(entries) :: n != "" && (id, n) in table && table[(id, n)].tag.Some?
  {
  }

  /** The custom rows of a new paste: one kept row per custom entry. */
  lemma StoredCustomNames(db: Db, db': Db, id: string, data: CreatePasteData, now: string)
    requires Committed(db, db', id, data, now)
    requires forall i | 0 <= i < |data.environment.custom| :: data.environment.custom[i].0 != ""
    ensures CustomNames(db', id) == Names(CustomEntries(data.environment))
  {
    var entries := CustomEntries(data.environment);
    FreshIdOwnsNothing(db, id);
    TransactionCustomRows(db, id, data, now);
    forall i | 0 <= i < |entries| ensures entries[i].0 != "" {
      assert entries[i] in data.environment.custom;
    }
    KeptCustomNames(db', db.customMetadata, id, entries);
  }

  /** Rows stored for `entries`, each decoding with the corrected reader to
      the entry's value. */
  lemma CustomRowsDecode(db': Db, id: string, entries: seq<(string, Value)>)
    requires CustomNames(db', id) == Names(entries)
    requires forall i | 0 <= i < |entries| :: ConvertToBlob(entries[i].1).Success?
    requires forall i | 0 <= i < |entries| ::
               (id, entries[i].0) in db'.customMetadata && db'.customMetadata[(id, entries[i].0)] == RowFor(entries[i].1)
    requires DistinctNames(entries)
    requires forall i | 0 <= i < |entries| :: BomFree(entries[i].1)
    ensures AllDecode(db', id, Intended)
    ensures CustomFields(db', id, Intended) == CustomFieldMap(StoredValues(entries))
  {
    var stored := StoredValues(entries);
    StoredValuesNames(entries);
    forall n | n in CustomNames(db', id)
      ensures DecodeRow(db'.customMetadata[(id, n)], Intended).Success?
      ensures CustomField(DecodeRow(db'.customMetadata[(id, n)], Intended).value) == CustomFieldMap(stored)[n]
    {
      var i :| 0 <= i < |entries| && entries[i].0 == n;
      RowDecodes(entries[i].1);
      CustomFieldMapAt(stored, i);
    }
    assert AllDecode(db', id, Intended);
    var got := CustomFields(db', id, Intended);
    var want := CustomFieldMap(stored);
    assert got.Keys == want.Keys;
    forall n | n in got ensures got[n] == want[n] {
    }
    MapsEqual(got, want);
  }

  /** Two maps with the same keys and the same value at each key are equal. */
  lemma MapsEqual<K, V>(a: map<K, V>, b: map<K, V>)
    requires a.Keys == b.Keys
    requires forall k | k in a :: a[k] == b[k]
    ensures a == b
  {
  }

  /** The row stored for a value decodes, with the corrected reader, to the
      value with its numbers truncated, and so to the value itself when they
      are integral. */
  lemma RowDecodes(v: Value)
    requires ConvertToBlob(v).Success? && BomFree(v)
    ensures RowFor(v).tag.Some? && DecodeRow(RowFor(v), Intended) == Success(Truncated(v))
    ensures IntegralNumbers(v) ==> DecodeRow(RowFor(v), Intended) == Success(v)
  {
    ConvertRoundTripIntended(v);
  }

  lemma StoredCustomDecode(db: Db, db': Db, id: string, data: CreatePasteData, now: string)
    requires Committed(db, db', id, data, now)
    requires Readable(data.environment)
    ensures AllDecode(db', id, Intended)
    ensures CustomFields(db', id, Intended) == CustomFieldMap(StoredValues(CustomEntries(data.environment)))
  {
    var entries := CustomEntries(data.environment);
    TransactionCustomRows(db, id, data, now);
    StoredCustomNames(db, db', id, data, now);
    forall i | 0 <= i < |entries| ensures BomFree(entries[i].1) {
      assert entries[i] in data.environment.custom;
    }
    CustomRowsDecode(db', id, entries);
  }

  /** The predefined members read back as sent, vendor included. */
  lemma StoredPredefined(db: Db, db': Db, id: string, data: CreatePasteData, now: string)
    requires Committed(db, db', id, data, now)
    requires Readable(data.environment)
    ensures id in db'.operatingSystems
    ensures PredefinedFields(db', id, Intended) ==
              map[OperatingSystemKey := OsField(data.environment.operatingSystem)] +
              (if data.environment.javaVirtualMachine.Some?
               then map[JavaVirtualMachineKey := JvmField(data.environment.javaVirtualMachine.value)]
               else map[])
  {
    FreshIdOwnsNothing(db, id);
    TransactionEffect(db, id, data, now);
    assert OsOf(db'.operatingSystems[id]) == data.environment.operatingSystem;
  }

  /** With the corrected reader, a new paste's environment reads back as the
      client sent it, custom numbers truncated toward zero. */
  lemma EnvironmentRoundTrip(db: Db, data: CreatePasteData, draw: (nat, nat) -> DigitIndex, fuel: nat, now: string)
    requires Consistent(db)
    requires CreatePaste(db, data, draw, fuel, now).1.Success?
    requires Readable(data.environment)
    ensures var (db', r) := CreatePaste(db, data, draw, fuel, now);
            GetPasteEnvironmentIntended(db', r.value) == Success(Some(ReadBackFields(data.environment)))
  {
    var (db', r) := CreatePaste(db, data, draw, fuel, now);
    var id := r.value;
    CreatePasteCommits(db, data, draw, fuel, now);
    StoredCustomDecode(db, db', id, data, now);
    StoredPredefined(db, db', id, data, now);
  }

  /** When every custom number is integral, as the schema evidently means
      them to be, the environment reads back exactly as sent. */
  lemma EnvironmentRoundTripExact(db: Db, data: CreatePasteData, draw: (nat, nat) -> DigitIndex, fuel: nat, now: string)
    requires Consistent(db)
    requires CreatePaste(db, data, draw, fuel, now).1.Success?
    requires Readable(data.environment) && IntegralCustom(data.environment)
    ensures var (db', r) := CreatePaste(db, data, draw, fuel, now);
            GetPasteEnvironmentIntended(db', r.value) == Success(Some(Fields(data.environment)))
  {
    EnvironmentRoundTrip(db, data, draw, fuel, now);
    ReadBackExact(data.environment);
  }

  /** A JVM sent with an empty name, version or vendor is stored, but the
      reader's test for three non-empty columns drops it, whichever way
      the vendor is read. */
  lemma EmptyJvmFieldDropped(db: Db, db': Db, id: string, data: CreatePasteData, now: string, reading: Reading)
    requires Committed(db, db', id, data, now)
    requires data.environment.javaVirtualMachine.Some?
    requires var jvm := data.environment.javaVirtualMachine.value;
             jvm.name == "" || jvm.version == "" || jvm.vendor == ""
    ensures id in db'.jvms
    ensures JvmFields(db', id, reading) == map[]
  {
    TransactionEffect(db, id, data, now);
  }

  /** A custom member under the empty key is stored, but the reader skips
      rows without a name, so it never reads back. */
  lemma EmptyCustomKeyDropped(db: Db, db': Db, id: string, data: CreatePasteData, now: string, i: nat)
    requires Committed(db, db', id, data, now)
    requires i < |data.environment.custom| && data.environment.custom[i].0 == ""
    ensures (id, "") in db'.customMetadata
    ensures "" !in CustomNames(db', id)
  {
    var entries := CustomEntries(data.environment);
    TransactionCustomRows(db, id, data, now);
    assert data.environment.custom[i] in entries;
    var j :| 0 <= j < |entries| && entries[j] == data.environment.custom[i];
    assert (id, entries[j].0) in db'.customMetadata;
  }

  lemma StoredJvmAsWritten(db: Db, db': Db, id: string, data: CreatePasteData, now: string)
    requires Committed(db, db', id, data, now)
    requires Readable(data.environment)
    requires data.environment.javaVirtualMachine.Some?
    ensures id in db'.operatingSystems
    ensures var jvm := data.environment.javaVirtualMachine.value;
            JvmFields(db', id, AsWritten) ==
              map[JavaVirtualMachineKey := JvmField(JavaVirtualMachine(jvm.name, jvm.version, jvm.version))]
  {
    TransactionEffect(db, id, data, now);
  }

  /** As written, the reader returns the JVM version in the vendor field, so
      a JVM whose vendor differs from its version never reads back. */
  lemma JvmVendorReadBackAsVersion(db: Db, data: CreatePasteData, draw: (nat, nat) -> DigitIndex, fuel: nat, now: string)
    requires Consistent(db)
    requires CreatePaste(db, data, draw, fuel, now).1.Success?
    requires Readable(data.environment)
    requires data.environment.javaVirtualMachine.Some?
    ensures var (db', r) := CreatePaste(db, data, draw, fuel, now);
            var jvm := data.environment.javaVirtualMachine.value;
            var read := GetPasteEnvironment(db', r.value);
            && (read.Success? ==>
                  read.value.Some? && JavaVirtualMachineKey in read.value.value &&
                  read.value.value[JavaVirtualMachineKey] == JvmField(JavaVirtualMachine(jvm.name, jvm.version, jvm.version)))
            && (jvm.vendor != jvm.version ==> read != Success(Some(Fields(data.environment))))
  {
    var (db', r) := CreatePaste(db, data, draw, fuel, now);
    var id := r.value;
    CreatePasteCommits(db, data, draw, fuel, now);
    StoredCustomNames(db, db', id, data, now);
    StoredJvmAsWritten(db, db', id, data, now);
    assert JavaVirtualMachineKey !in CustomNames(db', id);
    var read := GetPasteEnvironment(db', id);
    if read.Success? {
      assert read.value.value[JavaVirtualMachineKey] == JvmFields(db', id, AsWritten)[JavaVirtualMachineKey];
    }
  }

  /** As written, a paste created with an empty-array custom value cannot
      have its environment read: the stored blob is empty and the string[]
      decoder rejects it. */
  lemma EmptyArrayMetadataUnreadable(db: Db, data: CreatePasteData, draw: (nat, nat) -> DigitIndex, fuel: nat, now: string,
                                     i: nat)
    requires Consistent(db)
    requires CreatePaste(db, data, draw, fuel, now).1.Success?
    requires forall j | 0 <= j < |data.environment.custom| :: data.environment.custom[j].0 != ""
    requires i < |CustomEntries(data.environment)| && CustomEntries(data.environment)[i].1 == Arr([])
    ensures var (db', r) := CreatePaste(db, data, draw, fuel, now);
            GetPasteEnvironment(db', r.value).Failure?
  {
    var (db', r) := CreatePaste(db, data, draw, fuel, now);
    var id := r.value;
    var entries := CustomEntries(data.environment);
    CreatePasteCommits(db, data, draw, fuel, now);
    TransactionCustomRows(db, id, data, now);
    StoredCustomNames(db, db', id, data, now);
    EmptyArrayDoesNotRoundTrip();
    assert entries[i].0 in CustomNames(db', id);
    assert db'.customMetadata[(id, entries[i].0)] == CustomRow([], Some(StringArrayTag));
    assert !AllDecode(db', id, AsWritten);
  }
}
