/**
 * internal/fsutil/atomic.go: writing a file through a temporary one, on an abstract directory.
 * A file's content is a JSON document or a partial one, which does not parse.
 */
module Files {
  import opened Prelude
  import opened DesiredState
  import opened Strings

  datatype Content<T> = Partial | Full(value: T)

  datatype Fault = NoFault | OpenFails | WriteFails | SyncFails | CloseFails | RenameFails

  const TMP_PREFIX: string := ".tmp-"

  function TmpName(name: string): string
  {
    TMP_PREFIX + name
  }

  /** The directory after each effect of a successful write, in order. */
  function WriteStates<T>(files: map<string, Content<T>>, name: string, value: T): seq<map<string, Content<T>>>
  {
    var tmp := TmpName(name);
    [files,
     files[tmp := Partial],
     files[tmp := Full(value)],
     Written(files, name, value)]
  }

  function Written<T>(files: map<string, Content<T>>, name: string, value: T): map<string, Content<T>>
  {
    (files - {TmpName(name)})[name := Full(value)]
  }

  /** What a failed write leaves: nothing new, or its temporary file if the deferred removal fails too. */
  function AfterFault<T>(files: map<string, Content<T>>, name: string, value: T, fault: Fault, removed: bool)
    : map<string, Content<T>>
  {
    var tmp := TmpName(name);
    if fault == OpenFails then files
    else if removed then files - {tmp}
    else files[tmp := if fault == WriteFails then Partial else Full(value)]
  }

  class Directory<T> {
    var files: map<string, Content<T>>
    var operations: nat
    const faults: nat -> Fault
    const removeFails: nat -> bool

    constructor (faults: nat -> Fault, removeFails: nat -> bool)
      ensures files == map[] && operations == 0 && this.faults == faults && this.removeFails == removeFails
    {
      files, operations, this.faults, this.removeFails := map[], 0, faults, removeFails;
    }

    /** No operation on this directory ever fails. */
    ghost predicate Reliable()
    {
      && (forall n: nat :: faults(n) == NoFault)
      && (forall n: nat :: !removeFails(n))
    }

    /**
     * Open, write, sync, close, rename; the deferred removal of the temporary file runs once it was
     * opened, and its error is ignored. `states` records what a reader could see before the call and
     * after each effect of it, up to that removal.
     */
    method WriteFileAtomic(name: string, value: T) returns (ok: bool, ghost states: seq<map<string, Content<T>>>)
      modifies this
      ensures ok <==> faults(old(operations)) == NoFault
      ensures ok ==> files == Written(old(files), name, value) && states == WriteStates(old(files), name, value)
      ensures !ok ==> files == AfterFault(old(files), name, value, faults(old(operations)),
                                          !removeFails(old(operations)))
      ensures operations == old(operations) + 1
      ensures !ok ==> states <= WriteStates(old(files), name, value)
      ensures OldOrNew(old(files), files, name, value)
      ensures forall i | 0 <= i < |states| :: OldOrNew(old(files), states[i], name, value)
    {
      TargetNeverPartial(files, name, value);
      ok, states := Attempt(name, value);
    }

    method Attempt(name: string, value: T) returns (ok: bool, ghost states: seq<map<string, Content<T>>>)
      modifies this
      ensures ok <==> faults(old(operations)) == NoFault
      ensures ok ==> files == Written(old(files), name, value) && states == WriteStates(old(files), name, value)
      ensures !ok ==> files == AfterFault(old(files), name, value, faults(old(operations)),
                                          !removeFails(old(operations)))
      ensures operations == old(operations) + 1
      ensures !ok ==> states <= WriteStates(old(files), name, value)
    {
      var fault, removed := faults(operations), !removeFails(operations);
      operations := operations + 1;
      var tmp := TmpName(name);
      states := [files];
      if fault == OpenFails {
        return false, states;
      }
      files := files[tmp := Partial];
      states := states + [files];
      if fault == WriteFails {
        if removed {
          files := files - {tmp};
          assert files == old(files) - {tmp};
        }
        return false, states;
      }
      files := files[tmp := Full(value)];
      assert files == old(files)[tmp := Full(value)];
      states := states + [files];
      if fault == SyncFails || fault == CloseFails || fault == RenameFails {
        if removed {
          files := files - {tmp};
          assert files == old(files) - {tmp};
        }
        return false, states;
      }
      files := (files - {tmp})[name := Full(value)];
      TmpIsAnotherName(name);
      assert files == Written(old(files), name, value);
      states := states + [files];
      assert files - {tmp} == files;
      ok := true;
    }

    method Remove(name: string)
      modifies this
      ensures files == if removeFails(old(operations)) then old(files) else old(files) - {name}
      ensures operations == old(operations) + 1
    {
      var failed := removeFails(operations);
      operations := operations + 1;
      if !failed {
        files := files - {name};
      }
    }
  }

  lemma TmpIsAnotherName(name: string)
    ensures TmpName(name) != name
  {
    assert |TmpName(name)| == |name| + 5;
  }

  /** The file holds its old content or all of the new. */
  predicate OldOrNew<T(==)>(before: map<string, Content<T>>, now: map<string, Content<T>>, name: string, value: T)
  {
    (name in now && now[name] == Full(value))
    || (if name in before then name in now && now[name] == before[name] else name !in now)
  }

  /** Wherever a write is cut off, and whatever failure it leaves behind, the target is old or new. */
  lemma TargetNeverPartial<T>(files: map<string, Content<T>>, name: string, value: T)
    ensures forall i | 0 <= i < 4 :: OldOrNew(files, WriteStates(files, name, value)[i], name, value)
    ensures forall fault, removed :: OldOrNew(files, AfterFault(files, name, value, fault, removed), name, value)
  {
    TmpIsAnotherName(name);
  }

  /** A write leaves another file alone exactly when that file is not named like its temporary file. */
  lemma WriteSparesIff<T>(files: map<string, Content<T>>, name: string, value: T, other: string)
    requires other in files && other != name
    ensures other in Written(files, name, value) && Written(files, name, value)[other] == files[other]
       <==> other != TmpName(name)
  {
  }

  // ----- A directory that holds one JSON file per key -----

  const JSON: string := ".json"

  function FileName(key: string): string
  {
    key + JSON
  }

  predicate IsJson(name: string)
  {
    |name| >= 5 && name[|name| - 5..] == JSON
  }

  lemma FileNameInjective(a: string, b: string)
    requires FileName(a) == FileName(b)
    ensures a == b
  {
    assert a == FileName(a)[..|FileName(a)| - 5] && b == FileName(b)[..|FileName(b)| - 5];
  }

  lemma FileNameIsJson(key: string)
    ensures IsJson(FileName(key)) && TmpName(FileName(key)) == FileName(TMP_PREFIX + key) == ".tmp-" + key + ".json"
  {
  }

  /** Names the cache may use: plain file names that no temporary file can have. */
  predicate SafeKey(key: string)
  {
    '/' !in key && !(TMP_PREFIX <= key)
  }

  /** The JSON files are exactly one complete document per key. */
  predicate Holds<T(==)>(files: map<string, Content<T>>, m: map<string, T>)
  {
    && (forall k | k in m :: FileName(k) in files && files[FileName(k)] == Full(m[k]))
    && (forall n | n in files && IsJson(n) :: exists k | k in m :: n == FileName(k))
  }

  /** No write under a safe key uses the key's file as its temporary one. */
  predicate Spared(key: string)
  {
    !(TMP_PREFIX <= key && SafeKey(key[|TMP_PREFIX|..]))
  }

  predicate SparedKeys<T>(m: map<string, T>)
  {
    forall k | k in m :: Spared(k)
  }

  lemma TmpIsNoKey(key: string, k: string)
    requires Spared(k) && SafeKey(key)
    ensures FileName(k) != TmpName(FileName(key))
  {
    FileNameIsJson(key);
    if FileName(k) == TmpName(FileName(key)) {
      FileNameInjective(k, TMP_PREFIX + key);
    }
  }

  lemma HoldsAfterWrite<T>(files: map<string, Content<T>>, m: map<string, T>, key: string, value: T)
    requires Holds(files, m) && SparedKeys(m) && SafeKey(key)
    ensures Holds(Written(files, FileName(key), value), m[key := value])
  {
    forall k | k in m
      ensures FileName(k) != TmpName(FileName(key))
      ensures FileName(k) == FileName(key) ==> k == key
    {
      TmpIsNoKey(key, k);
      if FileName(k) == FileName(key) {
        FileNameInjective(k, key);
      }
    }
    var now := Written(files, FileName(key), value);
    forall n | n in now && IsJson(n)
      ensures exists k | k in m[key := value] :: n == FileName(k)
    {
      if n == FileName(key) {
        assert key in m[key := value];
      } else {
        var k :| k in m && n == FileName(k);
        assert k in m[key := value];
      }
    }
  }

  lemma HoldsAfterRemove<T>(files: map<string, Content<T>>, m: map<string, T>, key: string)
    requires Holds(files, m)
    ensures Holds(files - {FileName(key)}, m - {key})
  {
    forall k | k in m - {key}
      ensures FileName(k) != FileName(key)
    {
      if FileName(k) == FileName(key) {
        FileNameInjective(k, key);
      }
    }
    forall n | n in files - {FileName(key)} && IsJson(n)
      ensures exists k | k in m - {key} :: n == FileName(k)
    {
      var k :| k in m && n == FileName(k);
      assert k in m - {key};
    }
  }

  // ----- Reading a directory back -----

  /** Some listing of the directory; the order does not matter to what is proved. */
  ghost predicate Lists<T>(names: seq<string>, files: map<string, Content<T>>)
  {
    && (forall n :: n in names <==> n in files)
    && (forall i, j | 0 <= i < j < |names| :: names[i] != names[j])
  }

  /** os.ReadDir: the names of the directory, sorted. */
  ghost function DirNames<T>(files: map<string, Content<T>>): (names: seq<string>)
    ensures Lists(names, files) && Sorted(names)
  {
    var some := SomeOrder(files.Keys);
    SortCorrect(some);
    SortKeepsListing(some, Sort(some), files);
    Sort(some)
  }

  ghost function SomeOrder(keys: set<string>): (names: seq<string>)
    ensures forall n :: n in names <==> n in keys
    ensures forall i, j | 0 <= i < j < |names| :: names[i] != names[j]
  {
    if keys == {} then []
    else
      var k :| k in keys;
      [k] + SomeOrder(keys - {k})
  }

  lemma {:induction false} Occurs(s: seq<string>, x: string)
    requires forall i, j | 0 <= i < j < |s| :: s[i] != s[j]
    ensures multiset(s)[x] == if x in s then 1 else 0
  {
    if s == [] {
    } else {
      Occurs(s[1..], x);
      assert s == [s[0]] + s[1..];
    }
  }

  lemma TwiceCounts(s: seq<string>, i: nat, j: nat)
    requires i < j < |s| && s[i] == s[j]
    ensures multiset(s)[s[i]] >= 2
  {
    assert s == s[..j] + [s[j]] + s[j + 1..];
    assert s[i] in multiset(s[..j]);
  }

  lemma SortKeepsListing<T>(some: seq<string>, names: seq<string>, files: map<string, Content<T>>)
    requires Lists(some, files) && multiset(some) == multiset(names)
    ensures Lists(names, files)
  {
    forall n
      ensures n in names <==> n in files
    {
      assert n in names <==> n in multiset(names);
      assert n in some <==> n in multiset(some);
    }
    forall i, j | 0 <= i < j < |names|
      ensures names[i] != names[j]
    {
      if names[i] == names[j] {
        TwiceCounts(names, i, j);
      }
      Occurs(some, names[i]);
    }
  }

  lemma SameListing<T>(a: seq<string>, b: seq<string>, files: map<string, Content<T>>)
    requires Lists(a, files) && Lists(b, files)
    ensures multiset(a) == multiset(b)
  {
    forall n
      ensures multiset(a)[n] == multiset(b)[n]
    {
      Occurs(a, n);
      Occurs(b, n);
    }
  }

  method ReadDir<T>(d: Directory<T>) returns (names: seq<string>)
    ensures names == DirNames(d.files)
  {
    var some := ListKeys(d.files.Keys);
    names := Sort(some);
    SortCorrect(some);
    ghost var other := SomeOrder(d.files.Keys);
    SortCorrect(other);
    SameListing(some, other, d.files);
    SortedDetermined(names, Sort(other));
  }

  /** The loading loop: other suffixes are skipped, a document that does not parse aborts. */
  function LoadNames<T>(names: seq<string>, files: map<string, Content<T>>, id: T -> string): Option<map<string, T>>
    requires forall n | n in names :: n in files
  {
    if names == [] then Some(map[])
    else
      var last := names[|names| - 1];
      match LoadNames(names[..|names| - 1], files, id)
      case None => None
      case Some(m) =>
        if !IsJson(last) then Some(m)
        else
          match files[last]
          case Partial => None
          case Full(e) => Some(m[id(e) := e])
  }

  predicate Keyed<T>(m: map<string, T>, id: T -> string)
  {
    forall k | k in m :: id(m[k]) == k
  }

  /** What loading makes of a directory. */
  ghost function LoadFiles<T>(files: map<string, Content<T>>, id: T -> string): Option<map<string, T>>
  {
    LoadNames(DirNames(files), files, id)
  }

  /** What the loading loop has collected when it ends, at the first document that does not parse or later. */
  function LoadedPart<T>(names: seq<string>, files: map<string, Content<T>>, id: T -> string): map<string, T>
    requires forall n | n in names :: n in files
  {
    if names == [] then map[]
    else if LoadNames(names, files, id).Some? then LoadNames(names, files, id).value
    else LoadedPart(names[..|names| - 1], files, id)
  }

  method LoadDirectory<T>(d: Directory<T>, id: T -> string) returns (ok: bool, loaded: map<string, T>)
    ensures ok <==> LoadFiles(d.files, id).Some?
    ensures loaded == LoadedPart(DirNames(d.files), d.files, id)
    ensures ok ==> LoadFiles(d.files, id) == Some(loaded)
  {
    var names := ReadDir(d);
    ok, loaded := LoadAll(d, names, id);
  }

  method LoadAll<T>(d: Directory<T>, names: seq<string>, id: T -> string) returns (ok: bool, loaded: map<string, T>)
    requires forall n | n in names :: n in d.files
    ensures ok <==> LoadNames(names, d.files, id).Some?
    ensures loaded == LoadedPart(names, d.files, id)
    ensures ok ==> LoadNames(names, d.files, id) == Some(loaded)
  {
    loaded := map[];
    for i := 0 to |names|
      invariant LoadNames(names[..i], d.files, id) == Some(loaded)
    {
      assert names[..i + 1][..i] == names[..i];
      if !IsJson(names[i]) {
        continue;
      }
      match d.files[names[i]]
      case Partial =>
        LoadAborts(names, d.files, id, i + 1);
        return false, loaded;
      case Full(e) =>
        loaded := loaded[id(e) := e];
    }
    assert names[..|names|] == names;
    ok := true;
  }

  lemma {:induction false} LoadAborts<T>(names: seq<string>, files: map<string, Content<T>>, id: T -> string, i: nat)
    requires i <= |names| && forall n | n in names :: n in files
    requires LoadNames(names[..i], files, id) == None
    ensures LoadNames(names, files, id) == None
    ensures LoadedPart(names, files, id) == LoadedPart(names[..i], files, id)
    decreases |names| - i
  {
    if i == |names| {
      assert names[..i] == names;
    } else {
      assert names[..i + 1][..i] == names[..i];
      LoadAborts(names, files, id, i + 1);
    }
  }

  predicate AllComplete<T>(files: map<string, Content<T>>)
  {
    forall n | n in files && IsJson(n) :: files[n].Full?
  }

  /** A document under key `k` is among the named files. */
  ghost predicate Provides<T>(
    names: seq<string>, files: map<string, Content<T>>, id: T -> string, k: string, e: T, n: string)
  {
    n in names && n in files && IsJson(n) && files[n] == Full(e) && id(e) == k
  }

  /** What is loaded comes from the files, and every file is loaded under its document's key. */
  lemma {:induction false} LoadedFrom<T>(names: seq<string>, files: map<string, Content<T>>, id: T -> string)
    requires AllComplete(files) && forall n | n in names :: n in files
    ensures LoadNames(names, files, id).Some?
    ensures var r := LoadNames(names, files, id).value;
            && (forall k | k in r :: exists n :: Provides(names, files, id, k, r[k], n))
            && (forall n | n in names && IsJson(n) :: id(files[n].value) in r)
  {
    if names == [] {
    } else {
      var front, last := names[..|names| - 1], names[|names| - 1];
      assert names == front + [last];
      LoadedFrom(front, files, id);
      var before, r := LoadNames(front, files, id).value, LoadNames(names, files, id).value;
      forall k | k in r
        ensures exists n :: Provides(names, files, id, k, r[k], n)
      {
        if IsJson(last) && k == id(files[last].value) {
          assert Provides(names, files, id, k, r[k], last);
        } else {
          var n :| Provides(front, files, id, k, before[k], n);
          assert Provides(names, files, id, k, r[k], n);
        }
      }
    }
  }

  lemma HeldDocument<T>(files: map<string, Content<T>>, m: map<string, T>, id: T -> string, n: string)
    requires Holds(files, m) && Keyed(m, id) && n in files && IsJson(n)
    ensures files[n].Full? && id(files[n].value) in m && m[id(files[n].value)] == files[n].value
  {
  }

  lemma HoldsIsComplete<T>(files: map<string, Content<T>>, m: map<string, T>, id: T -> string)
    requires Holds(files, m) && Keyed(m, id)
    ensures AllComplete(files)
  {
  }

  lemma LoadsKey<T>(names: seq<string>, files: map<string, Content<T>>, m: map<string, T>, id: T -> string, k: string)
    requires AllComplete(files) && Keyed(m, id) && Lists(names, files)
    requires k in m && FileName(k) in files && files[FileName(k)] == Full(m[k])
    ensures LoadNames(names, files, id).Some? && k in LoadNames(names, files, id).value
  {
    LoadedFrom(names, files, id);
    FileNameIsJson(k);
    assert FileName(k) in names;
  }

  lemma LoadIsComplete<T>(names: seq<string>, files: map<string, Content<T>>, id: T -> string)
    requires AllComplete(files) && forall n | n in names :: n in files
    ensures LoadNames(names, files, id).Some?
  {
  }

  /** The file a loaded document came from. */
  lemma SourceOf<T>(names: seq<string>, files: map<string, Content<T>>, id: T -> string, k: string) returns (n: string)
    requires AllComplete(files) && forall n | n in names :: n in files
    requires LoadNames(names, files, id).Some? && k in LoadNames(names, files, id).value
    ensures Provides(names, files, id, k, LoadNames(names, files, id).value[k], n)
  {
    LoadedFrom(names, files, id);
    n :| Provides(names, files, id, k, LoadNames(names, files, id).value[k], n);
  }

  lemma LoadsOnly<T>(names: seq<string>, files: map<string, Content<T>>, m: map<string, T>, id: T -> string, k: string)
    requires Holds(files, m) && Keyed(m, id) && AllComplete(files) && Lists(names, files)
    requires LoadNames(names, files, id).Some? && k in LoadNames(names, files, id).value
    ensures k in m && LoadNames(names, files, id).value[k] == m[k]
  {
    var n := SourceOf(names, files, id, k);
    HeldDocument(files, m, id, n);
  }

  /** A directory that holds a map is read back as that map, in whatever order it is listed. */
  lemma LoadRestores<T>(names: seq<string>, files: map<string, Content<T>>, m: map<string, T>, id: T -> string)
    requires Holds(files, m) && Keyed(m, id) && Lists(names, files)
    ensures LoadNames(names, files, id) == Some(m)
  {
    HoldsIsComplete(files, m, id);
    LoadIsComplete(names, files, id);
    var r := LoadNames(names, files, id).value;
    forall k | k in m
      ensures k in r
    {
      LoadsKey(names, files, m, id, k);
    }
    forall k | k in r
      ensures k in m && r[k] == m[k]
    {
      LoadsOnly(names, files, m, id, k);
    }
    assert r == m;
  }

  /** What Load finds after a write of `e` under `key` was cut off in state `i`. */
  function CutOffLoad<T>(m: map<string, T>, key: string, e: T, i: nat): Option<map<string, T>>
  {
    if i == 0 then Some(m)
    else if i == 1 then None
    else if i == 2 && key in m && Leq(TmpName(FileName(key)), FileName(key)) then Some(m)
    else Some(m[key := e])
  }

  /**
   * Loading after a write was cut off. The temporary file ends in .json as well, so Load reads it: a
   * partial one aborts the load, and of a complete one and the old file the later in the sorted listing
   * wins.
   */
  lemma LoadAfterCutOff<T>(
    files: map<string, Content<T>>, m: map<string, T>, id: T -> string, key: string, e: T, i: nat)
    requires Holds(files, m) && Keyed(m, id) && SparedKeys(m) && SafeKey(key) && id(e) == key && i < 4
    ensures LoadFiles(WriteStates(files, FileName(key), e)[i], id) == CutOffLoad(m, key, e, i)
  {
    if i == 0 {
      HeldLoads(files, m, id);
    } else if i == 1 {
      LoadPartialTmp(files, id, key);
    } else if i == 2 {
      LoadCompleteTmp(files, m, id, key, e);
    } else {
      HoldsAfterWrite(files, m, key, e);
      HeldLoads(Written(files, FileName(key), e), m[key := e], id);
    }
  }

  lemma LoadPartialTmp<T>(files: map<string, Content<T>>, id: T -> string, key: string)
    ensures LoadFiles(files[TmpName(FileName(key)) := Partial], id) == None
  {
    var tmp := TmpName(FileName(key));
    FileNameIsJson(key);
    FileNameIsJson(TMP_PREFIX + key);
    PartialAborts(DirNames(files[tmp := Partial]), files[tmp := Partial], id, tmp);
  }

  lemma LoadCompleteTmp<T>(files: map<string, Content<T>>, m: map<string, T>, id: T -> string, key: string, e: T)
    requires Holds(files, m) && Keyed(m, id) && SparedKeys(m) && SafeKey(key) && id(e) == key
    ensures LoadFiles(files[TmpName(FileName(key)) := Full(e)], id) == CutOffLoad(m, key, e, 2)
  {
    LoadWithTmp(DirNames(files[TmpName(FileName(key)) := Full(e)]), files, m, id, key, e);
    LaterWins(files, m, id, key, e);
    if key in m && m[key] == e {
      assert m[key := e] == m;
    }
  }

  /** Of the files with one key, the last in the listing counts. */
  lemma {:induction false} LoadedLast<T>(
    names: seq<string>, files: map<string, Content<T>>, id: T -> string, j: nat, k: string)
    requires AllComplete(files) && (forall n | n in names :: n in files)
    requires j < |names| && HasKey(files, id, names[j], k)
    requires forall i | j < i < |names| :: !HasKey(files, id, names[i], k)
    ensures LoadNames(names, files, id).Some? && k in LoadNames(names, files, id).value
    ensures LoadNames(names, files, id).value[k] == files[names[j]].value
  {
    var front, last := names[..|names| - 1], names[|names| - 1];
    LoadIsComplete(names, files, id);
    LoadIsComplete(front, files, id);
    if j == |names| - 1 {
    } else {
      LoadedLast(front, files, id, j, k);
      assert last in names && !HasKey(files, id, last, k);
    }
  }

  lemma Position<T>(names: seq<string>, files: map<string, Content<T>>, n: string) returns (i: nat)
    requires Lists(names, files) && n in files
    ensures i < |names| && names[i] == n
  {
    assert n in names;
    i :| 0 <= i < |names| && names[i] == n;
  }

  /** Two different names stand in a sorted listing as they compare. */
  lemma ListedInOrder(names: seq<string>, i: nat, j: nat)
    requires Sorted(names) && i < |names| && j < |names| && names[i] != names[j] && Leq(names[i], names[j])
    ensures i < j
  {
    if j < i {
      LeqAntisymmetric(names[i], names[j]);
    }
  }

  /** In the directory of a cut-off write, only the old file and the temporary one have the key. */
  lemma KeyOnlyTwice<T>(
    files: map<string, Content<T>>, m: map<string, T>, id: T -> string, key: string, e: T, n: string)
    requires Holds(files, m) && Keyed(m, id) && id(e) == key
    requires HasKey(files[TmpName(FileName(key)) := Full(e)], id, n, key)
    ensures n == TmpName(FileName(key)) || (n == FileName(key) && key in m)
  {
    if n != TmpName(FileName(key)) {
      HeldDocument(files, m, id, n);
      var k :| k in m && n == FileName(k);
      assert files[n] == Full(m[k]);
    }
  }

  lemma LaterWins<T>(files: map<string, Content<T>>, m: map<string, T>, id: T -> string, key: string, e: T)
    requires Holds(files, m) && Keyed(m, id) && SparedKeys(m) && SafeKey(key) && id(e) == key
    requires LoadFiles(files[TmpName(FileName(key)) := Full(e)], id).Some?
    ensures var r := LoadFiles(files[TmpName(FileName(key)) := Full(e)], id).value;
            && key in r
            && r[key] == if key in m && Leq(TmpName(FileName(key)), FileName(key)) then m[key] else e
  {
    var tmp, name := TmpName(FileName(key)), FileName(key);
    var now := files[tmp := Full(e)];
    var names := DirNames(now);
    TmpIsAnotherName(name);
    FileNameIsJson(key);
    FileNameIsJson(TMP_PREFIX + key);
    HoldsIsComplete(files, m, id);
    var t := Position(names, now, tmp);
    forall n | HasKey(now, id, n, key)
      ensures n == tmp || (n == name && key in m)
    {
      KeyOnlyTwice(files, m, id, key, e, n);
    }
    if key in m {
      var p := Position(names, now, name);
      if Leq(tmp, name) {
        ListedInOrder(names, t, p);
        LoadedLast(names, now, id, p, key);
      } else {
        LeqTotal(tmp, name);
        ListedInOrder(names, p, t);
        LoadedLast(names, now, id, t, key);
      }
    } else {
      LoadedLast(names, now, id, t, key);
    }
  }

  lemma {:induction false} PartialAborts<T>(
    names: seq<string>, files: map<string, Content<T>>, id: T -> string, n: string)
    requires forall x | x in names :: x in files
    requires n in names && IsJson(n) && files[n] == Partial
    ensures LoadNames(names, files, id) == None
  {
    var front, last := names[..|names| - 1], names[|names| - 1];
    assert names == front + [last];
    if last != n {
      PartialAborts(front, files, id, n);
    }
  }

  lemma LoadWithTmp<T>(
    names: seq<string>, files: map<string, Content<T>>, m: map<string, T>, id: T -> string, key: string, e: T)
    requires Holds(files, m) && Keyed(m, id) && SparedKeys(m) && SafeKey(key) && id(e) == key
    requires Lists(names, files[TmpName(FileName(key)) := Full(e)])
    ensures var loaded := LoadNames(names, files[TmpName(FileName(key)) := Full(e)], id);
            loaded == Some(m) || loaded == Some(m[key := e])
  {
    var tmp := TmpName(FileName(key));
    var now := files[tmp := Full(e)];
    HoldsIsComplete(files, m, id);
    LoadIsComplete(names, now, id);
    var r := LoadNames(names, now, id).value;
    forall k | k in m
      ensures k in r
    {
      TmpIsNoKey(key, k);
      LoadsKey(names, now, m, id, k);
    }
    forall k | k in r
      ensures (k in m && r[k] == m[k]) || (k == key && r[k] == e)
    {
      var n := SourceOf(names, now, id, k);
      if n != tmp {
        HeldDocument(files, m, id, n);
      }
    }
    LoadsTmp(names, now, id, key, e);
    if r[key] == e {
      assert r == m[key := e];
    } else {
      assert r == m;
    }
  }

  lemma LoadsTmp<T>(names: seq<string>, files: map<string, Content<T>>, id: T -> string, key: string, e: T)
    requires AllComplete(files) && Lists(names, files) && id(e) == key
    requires TmpName(FileName(key)) in files && files[TmpName(FileName(key))] == Full(e)
    ensures LoadNames(names, files, id).Some? && key in LoadNames(names, files, id).value
  {
    FileNameIsJson(key);
    FileNameIsJson(TMP_PREFIX + key);
    LoadedFrom(names, files, id);
    assert TmpName(FileName(key)) in names;
  }

  // ----- Which directories keep in step with the map loaded from them -----

  /** The file is named after the key of its own document, and no write passes through it. */
  predicate OwnName<T>(files: map<string, Content<T>>, id: T -> string, n: string)
    requires n in files
  {
    files[n].Full? && n == FileName(id(files[n].value)) && Spared(id(files[n].value))
  }

  predicate OwnNames<T>(files: map<string, Content<T>>, id: T -> string)
  {
    forall n | n in files && IsJson(n) :: OwnName(files, id, n)
  }

  /** The JSON file holds a document with this key. */
  predicate HasKey<T>(files: map<string, Content<T>>, id: T -> string, n: string, k: string)
  {
    n in files && IsJson(n) && files[n].Full? && id(files[n].value) == k
  }

  /** Every JSON file is named after a key of the map. */
  predicate NamedIn<T>(files: map<string, Content<T>>, m: map<string, T>)
  {
    forall n | n in files && IsJson(n) :: exists k | k in m :: n == FileName(k)
  }

  /** A load succeeds only on complete documents; it then yields exactly their keys. */
  lemma LoadedKeys<T>(files: map<string, Content<T>>, id: T -> string)
    requires LoadFiles(files, id).Some?
    ensures AllComplete(files)
    ensures var m := LoadFiles(files, id).value;
            && Keyed(m, id)
            && (forall n, k | HasKey(files, id, n, k) :: k in m)
            && (forall k | k in m :: exists n :: HasKey(files, id, n, k) && files[n].value == m[k])
  {
    var names := DirNames(files);
    forall n | n in files && IsJson(n)
      ensures files[n].Full?
    {
      if files[n] == Partial {
        PartialAborts(names, files, id, n);
      }
    }
    LoadedFrom(names, files, id);
    var m := LoadFiles(files, id).value;
    forall k | k in m
      ensures id(m[k]) == k && exists n :: HasKey(files, id, n, k) && files[n].value == m[k]
    {
      var n :| Provides(names, files, id, k, m[k], n);
      assert HasKey(files, id, n, k) && files[n].value == m[k];
    }
  }

  /** What a directory holds is what loading makes of it. */
  lemma HeldLoads<T>(files: map<string, Content<T>>, m: map<string, T>, id: T -> string)
    requires Holds(files, m) && Keyed(m, id)
    ensures LoadFiles(files, id) == Some(m)
  {
    LoadRestores(DirNames(files), files, m, id);
  }

  lemma OwnNamesHold<T>(files: map<string, Content<T>>, id: T -> string)
    requires OwnNames(files, id)
    ensures LoadFiles(files, id).Some?
    ensures var m := LoadFiles(files, id).value; Holds(files, m) && Keyed(m, id) && SparedKeys(m)
  {
    LoadIsComplete(DirNames(files), files, id);
    LoadedKeys(files, id);
    var m := LoadFiles(files, id).value;
    forall k | k in m
      ensures FileName(k) in files && files[FileName(k)] == Full(m[k]) && Spared(k)
    {
      var n :| HasKey(files, id, n, k) && files[n].value == m[k];
    }
    forall n | n in files && IsJson(n)
      ensures exists k | k in m :: n == FileName(k)
    {
      assert HasKey(files, id, n, id(files[n].value));
    }
  }

  /** Every document is filed under its own key. */
  predicate AllNamed<T>(files: map<string, Content<T>>, id: T -> string)
  {
    forall n | n in files && IsJson(n) && files[n].Full? :: n == FileName(id(files[n].value))
  }

  /** A key whose file is misnamed, or else one whose file a write under a safe key passes through. */
  lemma NotOwnNames<T>(files: map<string, Content<T>>, id: T -> string) returns (n: string, k: string)
    requires AllComplete(files) && !OwnNames(files, id)
    ensures HasKey(files, id, n, k)
    ensures n != FileName(k) || (!Spared(k) && AllNamed(files, id))
  {
    if AllNamed(files, id) {
      n :| n in files && IsJson(n) && !OwnName(files, id, n);
    } else {
      n :| n in files && IsJson(n) && files[n].Full? && n != FileName(id(files[n].value));
    }
    k := id(files[n].value);
  }

  lemma NotSpared(k: string)
    requires !Spared(k)
    ensures |k| >= |TMP_PREFIX| && SafeKey(k[|TMP_PREFIX|..]) && k == TMP_PREFIX + k[|TMP_PREFIX|..]
  {
  }

  /** A document filed under another name comes back after its key was deleted. */
  lemma MisnamedComesBack<T>(files: map<string, Content<T>>, id: T -> string, n: string, k: string)
    requires HasKey(files, id, n, k) && n != FileName(k)
    ensures var again := LoadFiles(files - {FileName(k)}, id);
            again.Some? ==> k in again.value
  {
    if LoadFiles(files - {FileName(k)}, id).Some? {
      assert HasKey(files - {FileName(k)}, id, n, k);
      LoadedKeys(files - {FileName(k)}, id);
    }
  }

  /** Removing a file leaves a directory that loads, here with a misnamed document still in it. */
  lemma StaysLoadable<T>(files: map<string, Content<T>>, id: T -> string, n: string, k: string)
    requires LoadFiles(files, id).Some? && HasKey(files, id, n, k) && n != FileName(k)
    ensures k in LoadFiles(files, id).value
    ensures LoadFiles(files - {FileName(k)}, id).Some? && k in LoadFiles(files - {FileName(k)}, id).value
  {
    LoadedKeys(files, id);
    LoadIsComplete(DirNames(files - {FileName(k)}), files - {FileName(k)}, id);
    MisnamedComesBack(files, id, n, k);
  }

  /** A document whose file a write under `x` passes through is gone after that write. */
  lemma OverwrittenIsGone<T>(files: map<string, Content<T>>, id: T -> string, x: string, e: T)
    requires AllNamed(files, id) && id(e) == x
    ensures var again := LoadFiles(Written(files, FileName(x), e), id);
            again.Some? ==> TMP_PREFIX + x !in again.value
  {
    var now, k := Written(files, FileName(x), e), TMP_PREFIX + x;
    FileNameIsJson(x);
    assert |k| > |x|;
    forall n
      ensures !HasKey(now, id, n, k)
    {
    }
    if LoadFiles(now, id).Some? {
      LoadedKeys(now, id);
    }
  }

  // ----- Replacing the whole map -----

  /** The files after writing the entries one by one. */
  function WriteAll<T>(files: map<string, Content<T>>, entries: seq<T>, id: T -> string): map<string, Content<T>>
  {
    if entries == [] then files
    else
      var e := entries[|entries| - 1];
      Written(WriteAll(files, entries[..|entries| - 1], id), FileName(id(e)), e)
  }

  function Without<T>(files: map<string, Content<T>>, keys: set<string>): map<string, Content<T>>
  {
    files - set k | k in keys :: FileName(k)
  }

  predicate SafeEntries<T>(entries: seq<T>, id: T -> string)
  {
    forall i | 0 <= i < |entries| :: SafeKey(id(entries[i]))
  }

  lemma {:induction false} WriteAllHolds<T>(
    files: map<string, Content<T>>, m: map<string, T>, entries: seq<T>, id: T -> string)
    requires NamedIn(files, m) && SafeEntries(entries, id)
    ensures var now, latest := WriteAll(files, entries, id), LastWins(entries, id);
            && (forall k | k in latest :: SafeKey(k) && FileName(k) in now && now[FileName(k)] == Full(latest[k]))
            && NamedIn(now, m + latest)
  {
    if entries == [] {
      assert m + map[] == m;
    } else {
      var front, e := entries[..|entries| - 1], entries[|entries| - 1];
      WriteAllHolds(files, m, front, id);
      WriteOneHolds(WriteAll(files, front, id), m, LastWins(front, id), id, e);
    }
  }

  lemma WriteOneHolds<T>(
    files: map<string, Content<T>>, m: map<string, T>, latest: map<string, T>, id: T -> string, e: T)
    requires forall k | k in latest :: SafeKey(k) && FileName(k) in files && files[FileName(k)] == Full(latest[k])
    requires NamedIn(files, m + latest) && SafeKey(id(e))
    ensures var now, extended := Written(files, FileName(id(e)), e), latest[id(e) := e];
            && (forall k | k in extended :: SafeKey(k) && FileName(k) in now && now[FileName(k)] == Full(extended[k]))
            && NamedIn(now, m + extended)
  {
    var now, extended := Written(files, FileName(id(e)), e), latest[id(e) := e];
    forall k | k in extended
      ensures SafeKey(k) && FileName(k) in now && now[FileName(k)] == Full(extended[k])
    {
      TmpIsNoKey(id(e), k);
      if FileName(k) == FileName(id(e)) {
        FileNameInjective(k, id(e));
      }
    }
    forall n | n in now && IsJson(n)
      ensures exists k | k in m + extended :: n == FileName(k)
    {
      if n == FileName(id(e)) {
        assert id(e) in m + extended;
      } else {
        var k :| k in m + latest && n == FileName(k);
        assert k in m + extended;
      }
    }
  }

  /**
   * If every JSON file is named after some key of the old map, then writing the new entries and
   * removing the files of the keys that are gone leaves exactly the new map.
   */
  lemma ReplaceHolds<T>(files: map<string, Content<T>>, m: map<string, T>, entries: seq<T>, id: T -> string)
    requires NamedIn(files, m) && SafeEntries(entries, id)
    ensures var latest := LastWins(entries, id);
            Holds(Without(WriteAll(files, entries, id), m.Keys - latest.Keys), latest)
  {
    var latest, written := LastWins(entries, id), WriteAll(files, entries, id);
    var stale := m.Keys - latest.Keys;
    WriteAllHolds(files, m, entries, id);
    var now := Without(written, stale);
    forall k | k in latest
      ensures FileName(k) in now
    {
      forall s | s in stale
        ensures FileName(s) != FileName(k)
      {
        if FileName(s) == FileName(k) {
          FileNameInjective(s, k);
        }
      }
    }
    forall n | n in now && IsJson(n)
      ensures exists k | k in latest :: n == FileName(k)
    {
      var k :| k in m + latest && n == FileName(k);
      assert k !in stale;
    }
  }

  /** A file named after no loaded key outlives the removal of them all, and is read back. */
  lemma StrayComesBack<T>(files: map<string, Content<T>>, m: map<string, T>, id: T -> string, n: string, k: string)
    requires HasKey(files, id, n, k) && forall x | x in m :: n != FileName(x)
    ensures var again := LoadFiles(Without(files, m.Keys), id);
            again.Some? ==> k in again.value
  {
    if LoadFiles(Without(files, m.Keys), id).Some? {
      assert HasKey(Without(files, m.Keys), id, n, k);
      LoadedKeys(Without(files, m.Keys), id);
    }
  }
}
