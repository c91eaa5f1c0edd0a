/**
 * internal/nodeapi/cache.go: node state in memory with one JSON file per entry on disk, and the
 * optimistic versions of locally managed reports.
 */
module StateCache {
  import opened Prelude
  import opened DesiredState
  import opened StateDiff
  import opened Files

  datatype Report = Report(key: string, contentType: string, payload: string, version: int, updatedAt: int)

  datatype CacheError = VersionConflict | NotFound

  function DataKey(e: DataEntry): string
  {
    e.key
  }

  function ReportKey(r: Report): string
  {
    r.key
  }

  // ----- The cache as values: what is in memory and what is on disk -----

  datatype Memory = Memory(
    metadata: map<string, string>,
    data: map<string, DataEntry>,
    secretIndex: Option<seq<SecretRef>>,
    reports: map<string, Report>)

  /** The state directory: metadata.json and secrets.json, absent, partial or complete, data/ and report/. */
  datatype Image = Image(
    metadata: Option<Content<map<string, string>>>,
    secrets: Option<Content<seq<SecretRef>>>,
    data: map<string, Content<DataEntry>>,
    reports: map<string, Content<Report>>)

  datatype ReportOp =
    | Put(key: string, contentType: string, payload: string, ifMatch: Option<int>, now: int)
    | Delete(key: string)

  datatype Op =
    | MetadataOp(m: map<string, string>)
    | DataOp(entries: seq<DataEntry>)
    | SecretsOp(refs: seq<SecretRef>)
    | OnReport(op: ReportOp)

  /** Whether a put may go ahead, given the version the caller expects. */
  predicate Matches(reports: map<string, Report>, key: string, ifMatch: Option<int>)
  {
    ifMatch == None || ifMatch.value == if key in reports then reports[key].version else 0
  }

  function NextReport(reports: map<string, Report>, key: string, contentType: string, payload: string, now: int): Report
  {
    Report(key, contentType, payload, if key in reports then reports[key].version + 1 else 1, now)
  }

  function ApplyReportOp(reports: map<string, Report>, op: ReportOp): map<string, Report>
  {
    match op
    case Put(key, contentType, payload, ifMatch, now) =>
      if Matches(reports, key, ifMatch) then reports[key := NextReport(reports, key, contentType, payload, now)]
      else reports
    case Delete(key) => reports - {key}
  }

  /** The report files after the operation, when every write and removal succeeds. */
  function ReportFiles(files: map<string, Content<Report>>, reports: map<string, Report>, op: ReportOp)
    : map<string, Content<Report>>
  {
    match op
    case Put(key, contentType, payload, ifMatch, now) =>
      if Matches(reports, key, ifMatch)
      then Written(files, FileName(key), NextReport(reports, key, contentType, payload, now)) else files
    case Delete(key) => if key in reports then files - {FileName(key)} else files
  }

  function DataFiles(files: map<string, Content<DataEntry>>, data: map<string, DataEntry>, entries: seq<DataEntry>)
    : map<string, Content<DataEntry>>
  {
    Without(WriteAll(files, entries, DataKey), data.Keys - LastWins(entries, DataKey).Keys)
  }

  function NextMemory(m: Memory, op: Op): Memory
  {
    match op
    case MetadataOp(metadata) => m.(metadata := metadata)
    case DataOp(entries) => m.(data := LastWins(entries, DataKey))
    case SecretsOp(refs) => m.(secretIndex := Some(refs))
    case OnReport(op) => m.(reports := ApplyReportOp(m.reports, op))
  }

  function NextImage(img: Image, m: Memory, op: Op): Image
  {
    match op
    case MetadataOp(metadata) => img.(metadata := Some(Full(metadata)))
    case DataOp(entries) => img.(data := DataFiles(img.data, m.data, entries))
    case SecretsOp(refs) => img.(secrets := Some(Full(refs)))
    case OnReport(op) => img.(reports := ReportFiles(img.reports, m.reports, op))
  }

  /** What Load leaves in a new cache, or None when a document does not parse. */
  ghost function Loaded(img: Image): Option<Memory>
  {
    var data, reports := LoadFiles(img.data, DataKey), LoadFiles(img.reports, ReportKey);
    if img.metadata == Some(Partial) || img.secrets == Some(Partial) || data == None || reports == None then None
    else
      Some(Memory(if img.metadata == None then map[] else img.metadata.value.value, data.value,
                  if img.secrets == None then None else Some(img.secrets.value.value), reports.value))
  }

  /** The two single files read into a cache that may already hold state; a missing file changes nothing. */
  function CellsRead(img: Image, m: Memory): (bool, Memory)
  {
    if img.metadata == Some(Partial) then (false, m)
    else
      var m' := if img.metadata.Some? then m.(metadata := img.metadata.value.value) else m;
      if img.secrets == Some(Partial) then (false, m')
      else (true, if img.secrets.Some? then m'.(secretIndex := Some(img.secrets.value.value)) else m')
  }

  ghost function Collected<T>(files: map<string, Content<T>>, id: T -> string): map<string, T>
  {
    LoadedPart(DirNames(files), files, id)
  }

  /** Load on any cache: whether it succeeds, and what is in memory then; a failure keeps what was read so far. */
  ghost function AfterLoad(img: Image, m: Memory): (bool, Memory)
  {
    var (ok, m1) := CellsRead(img, m);
    var m2 := m1.(data := Collected(img.data, DataKey));
    if !ok then (false, m1)
    else if LoadFiles(img.data, DataKey) == None then (false, m2)
    else (LoadFiles(img.reports, ReportKey).Some?, m2.(reports := Collected(img.reports, ReportKey)))
  }

  const FRESH := Memory(map[], map[], None, map[])

  lemma FreshLoad(img: Image)
    ensures AfterLoad(img, FRESH).0 <==> Loaded(img).Some?
    ensures Loaded(img).Some? ==> AfterLoad(img, FRESH).1 == Loaded(img).value
  {
  }

  // ----- The cache as an object -----

  /** A single file outside the two directories. */
  class Cell<T> {
    var content: Option<Content<T>>
    const writeFails: bool

    constructor (content: Option<Content<T>>, writeFails: bool)
      ensures this.content == content && this.writeFails == writeFails
    {
      this.content, this.writeFails := content, writeFails;
    }

    method Write(value: T)
      modifies this
      ensures content == if writeFails then old(content) else Some(Full(value))
    {
      if !writeFails {
        content := Some(Full(value));
      }
    }
  }

  class Disk {
    const metadata: Cell<map<string, string>>
    const secrets: Cell<seq<SecretRef>>
    const data: Directory<DataEntry>
    const reports: Directory<Report>

    constructor (
      metadata: Cell<map<string, string>>, secrets: Cell<seq<SecretRef>>,
      data: Directory<DataEntry>, reports: Directory<Report>)
      ensures this.metadata == metadata && this.secrets == secrets && this.data == data && this.reports == reports
    {
      this.metadata, this.secrets, this.data, this.reports := metadata, secrets, data, reports;
    }

    function Content(): Image
      reads Repr()
    {
      Image(metadata.content, secrets.content, data.files, reports.files)
    }

    /** Every write and every removal succeeds. */
    ghost predicate Reliable()
    {
      data.Reliable() && reports.Reliable() && !metadata.writeFails && !secrets.writeFails
    }

    function Repr(): set<object>
    {
      {metadata, secrets, data, reports}
    }
  }

  class StateCache {
    const disk: Disk
    var metadata: map<string, string>
    var data: map<string, DataEntry>
    var secretIndex: Option<seq<SecretRef>>
    var reports: map<string, Report>

    constructor (disk: Disk)
      ensures this.disk == disk && State() == FRESH
    {
      this.disk := disk;
      metadata, data, secretIndex, reports := map[], map[], None, map[];
    }

    function State(): Memory
      reads this
    {
      Memory(metadata, data, secretIndex, reports)
    }

    method UpdateMetadata(m: map<string, string>)
      modifies this`metadata, disk.metadata
      ensures metadata == m
      ensures disk.Reliable() ==> disk.metadata.content == Some(Full(m))
    {
      metadata := m;
      disk.metadata.Write(m);
    }

    method UpdateSecretIndex(refs: seq<SecretRef>)
      modifies this`secretIndex, disk.secrets
      ensures secretIndex == Some(refs)
      ensures disk.Reliable() ==> disk.secrets.content == Some(Full(refs))
    {
      secretIndex := Some(refs);
      disk.secrets.Write(refs);
    }

    /** The entry is stored and written; a failed write is only logged. */
    method PutReport(key: string, contentType: string, payload: string, ifMatch: Option<int>, now: int)
      returns (res: Result<Report, CacheError>)
      modifies this`reports, disk.reports
      ensures res.Ok? <==> ifMatch in {None, Some(if key in old(reports) then old(reports)[key].version else 0)}
      ensures res.Err? ==> res.error == VersionConflict && reports == old(reports)
      ensures res.Ok? ==> res.value.key == key && res.value.contentType == contentType && res.value.payload == payload
      ensures res.Ok? ==> res.value.version == 1 + if key in old(reports) then old(reports)[key].version else 0
      ensures res.Ok? ==> res.value.updatedAt == now && reports == old(reports)[key := res.value]
      ensures var op := Put(key, contentType, payload, ifMatch, now);
              && reports == ApplyReportOp(old(reports), op)
              && (disk.Reliable() ==> disk.reports.files == ReportFiles(old(disk.reports.files), old(reports), op))
    {
      var version := 1;
      if key in reports {
        if ifMatch.Some? && ifMatch.value != reports[key].version {
          return Err(VersionConflict);
        }
        version := reports[key].version + 1;
      } else if ifMatch.Some? && ifMatch.value != 0 {
        return Err(VersionConflict);
      }
      var entry := Report(key, contentType, payload, version, now);
      reports := reports[key := entry];
      var _, _ := disk.reports.WriteFileAtomic(FileName(key), entry);
      res := Ok(entry);
    }

    method DeleteReport(key: string) returns (res: Result<(), CacheError>)
      modifies this`reports, disk.reports
      ensures res == if key in old(reports) then Ok(()) else Err(NotFound)
      ensures reports == ApplyReportOp(old(reports), Delete(key))
      ensures disk.Reliable() ==>
                disk.reports.files == ReportFiles(old(disk.reports.files), old(reports), Delete(key))
    {
      if key !in reports {
        assert reports - {key} == reports;
        return Err(NotFound);
      }
      reports := reports - {key};
      disk.reports.Remove(FileName(key));
      res := Ok(());
    }

    /** Writes the new entries one by one, then removes the files of keys that are gone. */
    method UpdateData(entries: seq<DataEntry>)
      modifies this`data, disk.data
      ensures data == LastWins(entries, DataKey)
      ensures disk.Reliable() ==> disk.data.files == DataFiles(old(disk.data.files), old(data), entries)
    {
      var oldKeys := data.Keys;
      var newData, stale := WriteEntries(entries, oldKeys);
      RemoveFiles(stale);
      data := newData;
    }

    method WriteEntries(entries: seq<DataEntry>, oldKeys: set<string>)
      returns (newData: map<string, DataEntry>, stale: set<string>)
      modifies disk.data
      ensures newData == LastWins(entries, DataKey)
      ensures stale == oldKeys - newData.Keys
      ensures disk.data.Reliable() ==> disk.data.files == WriteAll(old(disk.data.files), entries, DataKey)
    {
      newData, stale := map[], oldKeys;
      for i := 0 to |entries|
        invariant newData == LastWins(entries[..i], DataKey)
        invariant stale == oldKeys - newData.Keys
        invariant disk.data.Reliable() ==> disk.data.files == WriteAll(old(disk.data.files), entries[..i], DataKey)
      {
        var e := entries[i];
        assert entries[..i + 1][..i] == entries[..i];
        newData, stale := newData[e.key := e], stale - {e.key};
        var _, _ := disk.data.WriteFileAtomic(FileName(e.key), e);
      }
      assert entries[..|entries|] == entries;
    }

    method RemoveFiles(keys: set<string>)
      modifies disk.data
      ensures disk.data.Reliable() ==> disk.data.files == Without(old(disk.data.files), keys)
    {
      var todo := keys;
      while todo != {}
        invariant todo <= keys
        invariant disk.data.Reliable() ==> disk.data.files == Without(old(disk.data.files), keys - todo)
        decreases |todo|
      {
        var k :| k in todo;
        WithoutOneMore(old(disk.data.files), keys - todo, k);
        assert keys - (todo - {k}) == keys - todo + {k};
        disk.data.Remove(FileName(k));
        todo := todo - {k};
      }
      assert keys - todo == keys;
    }

    /** Reads everything back, stopping at the first document that does not parse. */
    method Load() returns (ok: bool)
      modifies this
      ensures (ok, State()) == AfterLoad(disk.Content(), old(State()))
    {
      ok := ReadCells();
      if !ok {
        return;
      }
      ok, data := LoadDirectory(disk.data, DataKey);
      if !ok {
        return;
      }
      ok, reports := LoadDirectory(disk.reports, ReportKey);
    }

    method ReadCells() returns (ok: bool)
      modifies this`metadata, this`secretIndex
      ensures (ok, State()) == CellsRead(disk.Content(), old(State()))
    {
      if disk.metadata.content.Some? {
        if disk.metadata.content.value.Partial? {
          return false;
        }
        metadata := disk.metadata.content.value.value;
      }
      if disk.secrets.content.Some? {
        if disk.secrets.content.value.Partial? {
          return false;
        }
        secretIndex := Some(disk.secrets.content.value.value);
      }
      ok := true;
    }
  }

  lemma WithoutOneMore<T>(files: map<string, Content<T>>, keys: set<string>, k: string)
    ensures Without(files, keys) - {FileName(k)} == Without(files, keys + {k})
  {
    assert (set x | x in keys + {k} :: FileName(x)) == (set x | x in keys :: FileName(x)) + {FileName(k)};
  }

  // ----- Whole runs -----

  datatype Both = Both(image: Image, memory: Memory)

  function Applied(b: Both, op: Op): Both
  {
    Both(NextImage(b.image, b.memory, op), NextMemory(b.memory, op))
  }

  function After(b: Both, ops: seq<Op>): Both
  {
    if ops == [] then b else Applied(After(b, ops[..|ops| - 1]), ops[|ops| - 1])
  }

  /** Data and reports are stored under plain names that no temporary file can have. */
  predicate SafeOp(op: Op)
  {
    && (op.DataOp? ==> SafeEntries(op.entries, DataKey))
    && (op.OnReport? && op.op.Put? ==> SafeKey(op.op.key))
  }

  predicate SafeOps(ops: seq<Op>)
  {
    forall i | 0 <= i < |ops| :: SafeOp(ops[i])
  }

  /** A new cache over the disk would load exactly what is in memory. */
  ghost predicate Reloads(b: Both)
  {
    Loaded(b.image) == Some(b.memory)
  }

  /** After any safe operations a reload reproduces memory. */
  ghost predicate AlwaysReloads(b: Both)
  {
    forall ops | SafeOps(ops) :: Reloads(After(b, ops))
  }

  /** The JSON file is named after the key of some document of its directory. */
  ghost predicate AfterSomeKey<T(!new)>(files: map<string, Content<T>>, id: T -> string, n: string)
  {
    exists x, k :: HasKey(files, id, x, k) && n == FileName(k)
  }

  /**
   * Every report file is named after its own document's key, and is no report's temporary file; every
   * data file is named after the key of some document of the data directory.
   */
  ghost predicate Tidy(img: Image)
  {
    && OwnNames(img.reports, ReportKey)
    && forall n | n in img.data && IsJson(n) :: AfterSomeKey(img.data, DataKey, n)
  }

  /** Disk and memory are in step. */
  ghost predicate InStep(b: Both)
  {
    && Reloads(b)
    && Holds(b.image.reports, b.memory.reports) && SparedKeys(b.memory.reports) && Keyed(b.memory.reports, ReportKey)
    && NamedIn(b.image.data, b.memory.data)
  }

  lemma DataNamedIn(files: map<string, Content<DataEntry>>)
    requires LoadFiles(files, DataKey).Some?
    requires forall n | n in files && IsJson(n) :: AfterSomeKey(files, DataKey, n)
    ensures NamedIn(files, LoadFiles(files, DataKey).value)
  {
    LoadedKeys(files, DataKey);
    forall n | n in files && IsJson(n)
      ensures exists k | k in LoadFiles(files, DataKey).value :: n == FileName(k)
    {
      assert AfterSomeKey(files, DataKey, n);
    }
  }

  lemma TidyInStep(img: Image)
    requires Tidy(img) && Loaded(img).Some?
    ensures InStep(Both(img, Loaded(img).value))
  {
    OwnNamesHold(img.reports, ReportKey);
    DataNamedIn(img.data);
  }

  lemma DataInStep(b: Both, entries: seq<DataEntry>)
    requires InStep(b) && SafeEntries(entries, DataKey)
    ensures InStep(Applied(b, DataOp(entries)))
  {
    ReplaceHolds(b.image.data, b.memory.data, entries, DataKey);
    LastWinsKeys(entries, DataKey);
    HeldLoads(DataFiles(b.image.data, b.memory.data, entries), LastWins(entries, DataKey), DataKey);
  }

  lemma ReportsHold(files: map<string, Content<Report>>, reports: map<string, Report>, op: ReportOp)
    requires Holds(files, reports) && SparedKeys(reports) && Keyed(reports, ReportKey) && SafeOp(OnReport(op))
    ensures var after := ApplyReportOp(reports, op);
            Holds(ReportFiles(files, reports, op), after) && SparedKeys(after) && Keyed(after, ReportKey)
  {
    if op.Put? {
      HoldsAfterWrite(files, reports, op.key, NextReport(reports, op.key, op.contentType, op.payload, op.now));
    } else {
      HoldsAfterRemove(files, reports, op.key);
      assert op.key !in reports ==> reports - {op.key} == reports;
    }
  }

  lemma ReportInStep(b: Both, op: ReportOp)
    requires InStep(b) && SafeOp(OnReport(op))
    ensures InStep(Applied(b, OnReport(op)))
  {
    ReportsHold(b.image.reports, b.memory.reports, op);
    HeldLoads(ReportFiles(b.image.reports, b.memory.reports, op), ApplyReportOp(b.memory.reports, op), ReportKey);
  }

  lemma StepInStep(b: Both, op: Op)
    requires InStep(b) && SafeOp(op)
    ensures InStep(Applied(b, op))
  {
    match op
    case MetadataOp(_) =>
    case SecretsOp(_) =>
    case DataOp(entries) => DataInStep(b, entries);
    case OnReport(op) => ReportInStep(b, op);
  }

  lemma {:induction false} RunInStep(b: Both, ops: seq<Op>)
    requires InStep(b) && SafeOps(ops)
    ensures InStep(After(b, ops))
  {
    if ops == [] {
    } else {
      RunInStep(b, ops[..|ops| - 1]);
      StepInStep(After(b, ops[..|ops| - 1]), ops[|ops| - 1]);
    }
  }

  lemma AfterOne(b: Both, op: Op)
    ensures After(b, [op]) == Applied(b, op)
  {
    assert [op][..0] == [];
    assert After(b, [op][..0]) == b;
  }

  /** A safe operation after which a reload gives something else. */
  lemma Breaks(b: Both, op: Op)
    requires SafeOp(op) && !Reloads(Applied(b, op))
    ensures !AlwaysReloads(b)
  {
    AfterOne(b, op);
    assert SafeOps([op]);
  }

  /** A key that is in memory but would not be loaded, or the other way round. */
  lemma ReportsDiffer(b: Both, k: string)
    requires var again := LoadFiles(b.image.reports, ReportKey);
             again.Some? ==> (k in again.value <==> k !in b.memory.reports)
    ensures !Reloads(b)
  {
  }

  lemma DataDiffers(b: Both, k: string)
    requires var again := LoadFiles(b.image.data, DataKey);
             again.Some? ==> (k in again.value <==> k !in b.memory.data)
    ensures !Reloads(b)
  {
  }

  lemma MisnamedBreaks(b: Both, n: string, k: string)
    requires HasKey(b.image.reports, ReportKey, n, k) && n != FileName(k) && k in b.memory.reports
    ensures !Reloads(Applied(b, OnReport(Delete(k))))
  {
    MisnamedComesBack(b.image.reports, ReportKey, n, k);
    ReportsDiffer(Applied(b, OnReport(Delete(k))), k);
  }

  lemma PassedThroughBreaks(b: Both, x: string)
    requires AllNamed(b.image.reports, ReportKey) && TMP_PREFIX + x in b.memory.reports
    ensures !Reloads(Applied(b, OnReport(Put(x, "", "", None, 0))))
  {
    var op := OnReport(Put(x, "", "", None, 0));
    OverwrittenIsGone(b.image.reports, ReportKey, x, NextReport(b.memory.reports, x, "", "", 0));
    assert TMP_PREFIX + x in Applied(b, op).memory.reports;
    ReportsDiffer(Applied(b, op), TMP_PREFIX + x);
  }

  lemma UntidyReportBreaks(img: Image)
    requires Loaded(img).Some? && !OwnNames(img.reports, ReportKey)
    ensures !AlwaysReloads(Both(img, Loaded(img).value))
  {
    LoadedKeys(img.reports, ReportKey);
    var n, k := NotOwnNames(img.reports, ReportKey);
    var b := Both(img, Loaded(img).value);
    if n != FileName(k) {
      MisnamedBreaks(b, n, k);
      Breaks(b, OnReport(Delete(k)));
    } else {
      NotSpared(k);
      PassedThroughBreaks(b, k[|TMP_PREFIX|..]);
      Breaks(b, OnReport(Put(k[|TMP_PREFIX|..], "", "", None, 0)));
    }
  }

  lemma NothingLeft(files: map<string, Content<DataEntry>>, data: map<string, DataEntry>)
    ensures DataFiles(files, data, []) == Without(files, data.Keys)
  {
    assert data.Keys - {} == data.Keys;
  }

  lemma StrayBreaks(b: Both, n: string, k: string)
    requires HasKey(b.image.data, DataKey, n, k) && forall x | x in b.memory.data :: n != FileName(x)
    ensures !Reloads(Applied(b, DataOp([])))
  {
    StrayComesBack(b.image.data, b.memory.data, DataKey, n, k);
    NothingLeft(b.image.data, b.memory.data);
    DataDiffers(Applied(b, DataOp([])), k);
  }

  lemma StrayDataBreaks(img: Image, n: string)
    requires Loaded(img).Some? && n in img.data && IsJson(n) && !AfterSomeKey(img.data, DataKey, n)
    ensures !AlwaysReloads(Both(img, Loaded(img).value))
  {
    LoadedKeys(img.data, DataKey);
    var b := Both(img, Loaded(img).value);
    StrayBreaks(b, n, DataKey(img.data[n].value));
    Breaks(b, DataOp([]));
  }

  /**
   * For any disk that loads: a reload reproduces memory after every sequence of safe operations exactly
   * when the disk is tidy.
   */
  lemma AlwaysReloadsIff(img: Image)
    requires Loaded(img).Some?
    ensures AlwaysReloads(Both(img, Loaded(img).value)) <==> Tidy(img)
  {
    var b := Both(img, Loaded(img).value);
    if Tidy(img) {
      TidyInStep(img);
      forall ops | SafeOps(ops)
        ensures Reloads(After(b, ops))
      {
        RunInStep(b, ops);
      }
    } else if !OwnNames(img.reports, ReportKey) {
      UntidyReportBreaks(img);
    } else {
      var n :| n in img.data && IsJson(n) && !AfterSomeKey(img.data, DataKey, n);
      StrayDataBreaks(img, n);
    }
  }

  /** After any safe operations on a tidy disk, a successful put is read back with its own content. */
  lemma PutIsReadBack(img: Image, ops: seq<Op>, put: ReportOp)
    requires Loaded(img).Some? && Tidy(img) && SafeOps(ops) && put.Put? && SafeOp(OnReport(put))
    requires var held := After(Both(img, Loaded(img).value), ops).memory.reports;
             put.ifMatch in {None, Some(if put.key in held then held[put.key].version else 0)}
    ensures var b := After(Both(img, Loaded(img).value), ops);
            var again := Loaded(Applied(b, OnReport(put)).image);
            && again.Some? && put.key in again.value.reports
            && var r, held := again.value.reports[put.key], b.memory.reports;
               && r.key == put.key && r.contentType == put.contentType && r.payload == put.payload
               && r.updatedAt == put.now && r.version == 1 + if put.key in held then held[put.key].version else 0
  {
    TidyInStep(img);
    RunInStep(Both(img, Loaded(img).value), ops);
    StepInStep(After(Both(img, Loaded(img).value), ops), OnReport(put));
  }

  /**
   * A write cut off before the rename leaves a complete temporary file. Load takes it for a report;
   * deleting that report removes only the file named after the key, and the next load brings it back.
   */
  lemma CutOffWriteComesBack(img: Image, files: map<string, Content<Report>>, e: Report)
    requires Loaded(img).Some? && img.reports == WriteStates(files, FileName(e.key), e)[2]
    ensures var b := Both(img, Loaded(img).value);
            var later := Applied(b, OnReport(Delete(e.key)));
            && e.key in b.memory.reports && e.key !in later.memory.reports
            && Loaded(later.image).Some? && e.key in Loaded(later.image).value.reports
  {
    var tmp := TmpName(FileName(e.key));
    FileNameIsJson(e.key);
    TmpIsAnotherName(FileName(e.key));
    FileNameIsJson(TMP_PREFIX + e.key);
    assert HasKey(img.reports, ReportKey, tmp, e.key);
    StaysLoadable(img.reports, ReportKey, tmp, e.key);
  }

  method Apply(c: StateCache, op: Op)
    requires c.disk.Reliable()
    modifies c, c.disk.Repr()
    ensures Both(c.disk.Content(), c.State()) == Applied(old(Both(c.disk.Content(), c.State())), op)
  {
    match op
    case MetadataOp(m) =>
      c.UpdateMetadata(m);
    case DataOp(entries) =>
      c.UpdateData(entries);
    case SecretsOp(refs) =>
      c.UpdateSecretIndex(refs);
    case OnReport(Put(key, contentType, payload, ifMatch, now)) =>
      var _ := c.PutReport(key, contentType, payload, ifMatch, now);
    case OnReport(Delete(key)) =>
      var _ := c.DeleteReport(key);
  }

  /** A new cache that loads the disk. */
  method Restart(disk: Disk) returns (c: StateCache, ok: bool)
    ensures fresh(c) && c.disk == disk
    ensures ok <==> Loaded(disk.Content()).Some?
    ensures ok ==> c.State() == Loaded(disk.Content()).value
  {
    c := new StateCache(disk);
    ok := c.Load();
    FreshLoad(disk.Content());
  }

  /** Start over any disk, run any operations, and start again: memory is reproduced if the disk was tidy. */
  method RunAndRestart(disk: Disk, ops: seq<Op>) returns (ran: StateCache, again: StateCache, ok: bool)
    requires disk.Reliable()
    modifies disk.Repr()
    ensures ok <==> Loaded(old(disk.Content())).Some?
    ensures ok ==>
              var start := Both(old(disk.Content()), Loaded(old(disk.Content())).value);
              Both(disk.Content(), ran.State()) == After(start, ops)
    ensures ok && Tidy(old(disk.Content())) && SafeOps(ops) ==> again.State() == ran.State()
  {
    ran, ok := Restart(disk);
    again := ran;
    if !ok {
      return;
    }
    ghost var start := Both(disk.Content(), ran.State());
    for i := 0 to |ops|
      invariant ran.disk == disk && fresh(ran)
      invariant Both(disk.Content(), ran.State()) == After(start, ops[..i])
    {
      assert ops[..i + 1][..i] == ops[..i];
      Apply(ran, ops[i]);
    }
    assert ops[..|ops|] == ops;
    if Tidy(start.image) && SafeOps(ops) {
      TidyInStep(start.image);
      RunInStep(start, ops);
    }
    var reloaded;
    again, reloaded := Restart(disk);
  }

  // ----- Report versions over runs -----

  function ReportsAt(start: map<string, Report>, ops: seq<ReportOp>, n: nat): map<string, Report>
    requires n <= |ops|
  {
    if n == 0 then start else ApplyReportOp(ReportsAt(start, ops, n - 1), ops[n - 1])
  }

  predicate PutOk(start: map<string, Report>, ops: seq<ReportOp>, i: nat)
    requires i < |ops|
  {
    ops[i].Put? && Matches(ReportsAt(start, ops, i), ops[i].key, ops[i].ifMatch)
  }

  /** Successful puts on a key since it was last deleted, or since the start. */
  function PutsInLifetime(start: map<string, Report>, ops: seq<ReportOp>, key: string, n: nat): nat
    requires n <= |ops|
  {
    if n == 0 || ops[n - 1] == Delete(key) then 0
    else PutsInLifetime(start, ops, key, n - 1) + if PutOk(start, ops, n - 1) && ops[n - 1].key == key then 1 else 0
  }

  /** The report was there at the start and has not been deleted since. */
  predicate Survives(start: map<string, Report>, ops: seq<ReportOp>, key: string, n: nat)
    requires n <= |ops|
  {
    key in start && forall d | 0 <= d < n :: ops[d] != Delete(key)
  }

  /** From any start, versions count up by one within a report's lifetime, and from 1 in a new one. */
  lemma {:induction false} VersionsCount(start: map<string, Report>, ops: seq<ReportOp>, key: string, n: nat)
    requires n <= |ops|
    ensures var reports, puts := ReportsAt(start, ops, n), PutsInLifetime(start, ops, key, n);
            var kept := Survives(start, ops, key, n);
            && (key in reports <==> kept || puts > 0)
            && (key in reports ==> reports[key].version == (if kept then start[key].version else 0) + puts)
    decreases n
  {
    if n == 0 {
    } else {
      VersionsCount(start, ops, key, n - 1);
    }
  }

  /** A report holds what the last successful put on its key brought. */
  lemma {:induction false} PutStored(start: map<string, Report>, ops: seq<ReportOp>, i: nat, n: nat)
    requires i < n <= |ops| && PutOk(start, ops, i)
    requires forall d | i < d < n && ops[d].key == ops[i].key :: ops[d].Put? && !PutOk(start, ops, d)
    ensures ops[i].key in ReportsAt(start, ops, n)
    ensures var r, put := ReportsAt(start, ops, n)[ops[i].key], ops[i];
            && r.key == put.key && r.contentType == put.contentType && r.payload == put.payload
            && r.updatedAt == put.now
    decreases n
  {
    if n == i + 1 {
    } else {
      PutStored(start, ops, i, n - 1);
    }
  }

  lemma {:induction false} VersionsGrow(start: map<string, Report>, ops: seq<ReportOp>, key: string, a: nat, b: nat)
    requires a <= b <= |ops| && key in ReportsAt(start, ops, a)
    requires forall d | a <= d < b :: ops[d] != Delete(key)
    ensures key in ReportsAt(start, ops, b)
    ensures ReportsAt(start, ops, b)[key].version >= ReportsAt(start, ops, a)[key].version
    decreases b
  {
    if a == b {
    } else {
      VersionsGrow(start, ops, key, a, b - 1);
    }
  }

  /** Two puts conditional on the same version both succeed only if the report was deleted in between. */
  lemma ConditionalPutsExclude(start: map<string, Report>, ops: seq<ReportOp>, i: nat, j: nat)
    requires i < j < |ops| && PutOk(start, ops, i) && PutOk(start, ops, j)
    requires ops[i].key == ops[j].key && ops[i].ifMatch.Some? && ops[i].ifMatch == ops[j].ifMatch
    ensures exists d | i < d < j :: ops[d] == Delete(ops[i].key)
  {
    var key := ops[i].key;
    if forall d | i + 1 <= d < j :: ops[d] != Delete(key) {
      VersionsGrow(start, ops, key, i + 1, j);
    }
  }
}
