/** The table of stored files and its persisted copy: src/server/DataManager.hpp. */
module DataManager {
  import opened Common
  import opened Paths

  type SizeT = x: int | 0 <= x < 0x1_0000_0000_0000_0000

  datatype StorageInfo = StorageInfo(mtime: int, atime: int, fsize: SizeT, storagePath: Bytes, url: Bytes)

  type Table = map<Bytes, StorageInfo>

  /** One object of the persisted JSON array; the strings went through `c_str()`. */
  datatype JsonRecord = JsonRecord(mtime: int, atime: int, fsize: int, url: Bytes, storagePath: Bytes)

  // ---- Conversions ----

  /** A file size stored into a `size_t`. */
  function StoredSize(size: nat): SizeT { size % 0x1_0000_0000_0000_0000 }

  /** `(Json::Int64)` applied to a `size_t`. */
  function AsInt64(x: SizeT): int {
    if x < 0x8000_0000_0000_0000 then x else x - 0x1_0000_0000_0000_0000
  }

  /** An `int` stored into a `size_t`. */
  function AsSizeT(x: int): SizeT
    requires FitsInt(x)
  {
    if x < 0 then x + 0x1_0000_0000_0000_0000 else x
  }

  /** `asInt` throws outside this range. */
  predicate FitsInt(x: int) { -0x8000_0000 <= x <= 0x7fff_ffff }

  function ToRecord(e: StorageInfo): JsonRecord {
    JsonRecord(e.mtime, e.atime, AsInt64(e.fsize), CStr(e.url), CStr(e.storagePath))
  }

  function FromRecord(r: JsonRecord): Option<StorageInfo> {
    if FitsInt(r.fsize) && FitsInt(r.atime) && FitsInt(r.mtime) then
      Some(StorageInfo(r.mtime, r.atime, AsSizeT(r.fsize), r.storagePath, r.url))
    else None
  }

  function ToRecords(arr: seq<StorageInfo>): (recs: seq<JsonRecord>)
    ensures |recs| == |arr|
    ensures forall i :: 0 <= i < |arr| ==> recs[i] == ToRecord(arr[i])
  {
    seq(|arr|, i requires 0 <= i < |arr| => ToRecord(arr[i]))
  }

  // ---- Specification of the loops ----

  /** `arr` lists the values of `t` in the order `keys` in which the hash map happened to be walked. */
  predicate Enumerates(keys: seq<Bytes>, arr: seq<StorageInfo>, t: Table) {
    && |keys| == |arr|
    && Distinct(keys)
    && (forall i :: 0 <= i < |keys| ==> keys[i] in t && arr[i] == t[keys[i]])
    && (forall k :: k in t ==> k in keys)
  }

  /** `recs` is what `Storage` writes for `t`, for some walk of the hash map. */
  ghost predicate IsSave(recs: seq<JsonRecord>, t: Table) {
    exists keys, arr :: Enumerates(keys, arr, t) && recs == ToRecords(arr)
  }

  /** The table `InitLoad` builds by inserting record after record; `None` when a number does not fit. */
  function Loaded(recs: seq<JsonRecord>): Option<Table> {
    if recs == [] then Some(map[])
    else
      var before, info := Loaded(recs[..|recs| - 1]), FromRecord(recs[|recs| - 1]);
      if before.None? || info.None? then None else Some(before.value[info.value.url := info.value])
  }

  function LoadedFile(body: Option<seq<JsonRecord>>): Option<Table> {
    if body.None? then Some(map[]) else Loaded(body.value)
  }

  /** The persisted file, which outlives the process. */
  class RecordFile {
    var body: Option<seq<JsonRecord>>

    constructor ()
      ensures body == None
    {
      body := None;
    }
  }

  class Manager {
    var table: Table
    var needPersist: bool
    const file: RecordFile

    /** The constructor's state before `InitLoad`. */
    constructor (file: RecordFile)
      ensures table == map[] && !needPersist && this.file == file
    {
      this.table := map[];
      this.needPersist := false;
      this.file := file;
    }

    /** The rest of the constructor; `false` is the exception of `asInt`. */
    method Start() returns (ok: bool)
      requires table == map[] && !needPersist
      modifies this
      ensures ok == LoadedFile(file.body).Some?
      ensures ok ==> table == LoadedFile(file.body).value && needPersist
    {
      ok := InitLoad();
      if ok {
        needPersist := true;
      }
    }

    method InitLoad() returns (ok: bool)
      requires table == map[] && !needPersist
      modifies this
      ensures !needPersist
      ensures ok == LoadedFile(file.body).Some?
      ensures ok ==> table == LoadedFile(file.body).value
    {
      if file.body.None? {
        return true;
      }
      var root := file.body.value;
      var i := 0;
      while i < |root|
        invariant 0 <= i <= |root| && !needPersist && file.body == Some(root)
        invariant Loaded(root[..i]) == Some(table)
      {
        assert root[..i + 1][..i] == root[..i];
        var info := FromRecord(root[i]);
        if info.None? {
          LoadFails(root, i);
          return false;
        }
        Insert(info.value);
        i := i + 1;
      }
      assert root[..i] == root;
      return true;
    }

    /** `table_[info.url_] = info`, followed by `Storage` once persistence is on. */
    method Insert(info: StorageInfo)
      modifies this, if needPersist then {file} else {}
      ensures table == old(table)[info.url := info] && needPersist == old(needPersist)
      ensures needPersist ==> file.body.Some? && IsSave(file.body.value, table)
      ensures !needPersist ==> file.body == old(file.body)
    {
      table := table[info.url := info];
      if needPersist {
        Storage();
      }
    }

    method Update(info: StorageInfo)
      modifies this, file
      ensures table == old(table)[info.url := info] && needPersist == old(needPersist)
      ensures file.body.Some? && IsSave(file.body.value, table)
    {
      table := table[info.url := info];
      Storage();
    }

    method Storage()
      modifies file
      ensures file.body.Some? && IsSave(file.body.value, table)
    {
      var arr := GetAll();
      var root: seq<JsonRecord> := [];
      for i := 0 to |arr|
        invariant root == ToRecords(arr[..i])
      {
        root := root + [ToRecord(arr[i])];
      }
      assert arr[..|arr|] == arr;
      file.body := Some(root);
      ghost var keys :| Enumerates(keys, arr, table);
      assert Enumerates(keys, arr, table) && root == ToRecords(arr);
    }

    /** Every entry once, in the order of the walk. */
    method GetAll() returns (arr: seq<StorageInfo>)
      ensures exists keys :: Enumerates(keys, arr, table)
    {
      ghost var keys := [];
      arr := [];
      var rest := table.Keys;
      while rest != {}
        invariant rest <= table.Keys
        invariant |keys| == |arr|
        invariant forall i, j :: 0 <= i < j < |keys| ==> keys[i] != keys[j]
        invariant forall i :: 0 <= i < |keys| ==> keys[i] in table && keys[i] !in rest && arr[i] == table[keys[i]]
        invariant forall k :: k in table ==> k in rest || k in keys
        decreases |rest|
      {
        var k :| k in rest;
        arr, keys := arr + [table[k]], keys + [k];
        rest := rest - {k};
      }
      assert Enumerates(keys, arr, table);
    }

    method GetOneByURL(key: Bytes) returns (info: Option<StorageInfo>)
      ensures info == if key in table then Some(table[key]) else None
    {
      if key !in table {
        return None;
      }
      return Some(table[key]);
    }

    method GetOneByStoragePath(path: Bytes) returns (info: Option<StorageInfo>)
      ensures info.Some? ==> info.value.storagePath == path && info.value in table.Values
      ensures info.None? ==> forall k :: k in table ==> table[k].storagePath != path
    {
      var rest := table.Keys;
      while rest != {}
        invariant rest <= table.Keys
        invariant forall k :: k in table && k !in rest ==> table[k].storagePath != path
        decreases |rest|
      {
        var k :| k in rest;
        if table[k].storagePath == path {
          return Some(table[k]);
        }
        rest := rest - {k};
      }
      return None;
    }
  }

  // ---- The persistence round trip ----

  /** Keys equal the `url_` of their entries, as every insertion leaves them. */
  predicate WellKeyed(t: Table) { forall k :: k in t ==> t[k].url == k }

  /** An entry that survives being written and read back: numbers within `int`, no NUL in its strings. */
  predicate Persistable(e: StorageInfo) {
    && FitsInt(e.mtime) && FitsInt(e.atime) && FitsInt(AsInt64(e.fsize))
    && NUL !in e.url && NUL !in e.storagePath
  }

  /** Each field goes under its own name, the size as a signed number of 64 bits, the strings up to a NUL. */
  lemma RecordFields(e: StorageInfo)
    ensures
      var r := ToRecord(e);
      && r.mtime == e.mtime && r.atime == e.atime && r.url == CStr(e.url) && r.storagePath == CStr(e.storagePath)
      && -0x8000_0000_0000_0000 <= r.fsize < 0x8000_0000_0000_0000
      && (r.fsize == e.fsize || r.fsize == e.fsize - 0x1_0000_0000_0000_0000)
  {
  }

  /** ... and comes back from there, if the numbers fit; a negative size as a large one. */
  lemma EntryFields(r: JsonRecord)
    ensures FromRecord(r).Some? <==>
      && -2147483648 <= r.mtime <= 2147483647 && -2147483648 <= r.atime <= 2147483647
      && -2147483648 <= r.fsize <= 2147483647
    ensures FromRecord(r).Some? ==>
      var e := FromRecord(r).value;
      && e.mtime == r.mtime && e.atime == r.atime && e.url == r.url && e.storagePath == r.storagePath
      && (e.fsize == r.fsize || e.fsize == r.fsize + 0x1_0000_0000_0000_0000)
  {
  }

  /** A table is loaded exactly if every record can be. */
  lemma {:induction false} LoadedExactly(recs: seq<JsonRecord>)
    ensures Loaded(recs).Some? <==> forall i :: 0 <= i < |recs| ==> FromRecord(recs[i]).Some?
  {
    if recs != [] {
      var front := recs[..|recs| - 1];
      LoadedExactly(front);
      assert forall i :: 0 <= i < |front| ==> front[i] == recs[i];
    }
  }

  lemma RecordRoundTrip(e: StorageInfo)
    ensures FromRecord(ToRecord(e)) == Some(e) <==> Persistable(e)
  {
    CStrIdentity(e.url);
    CStrIdentity(e.storagePath);
  }

  lemma {:induction false} LoadFails(recs: seq<JsonRecord>, i: nat)
    requires i < |recs| && FromRecord(recs[i]).None?
    ensures Loaded(recs).None?
  {
    if i < |recs| - 1 {
      LoadFails(recs[..|recs| - 1], i);
    }
  }

  /** Record `i` is the last one for the url `k`; none is when `i` is -1. */
  predicate LastWriter(recs: seq<JsonRecord>, k: Bytes, i: int) {
    && -1 <= i < |recs|
    && (i >= 0 ==> recs[i].url == k)
    && (forall j :: i < j < |recs| ==> recs[j].url != k)
  }

  /** Last writer wins: each url ends up with the last record that carries it, and no others are loaded. */
  lemma {:induction false} LoadedLastWriter(recs: seq<JsonRecord>, k: Bytes) returns (i: int)
    requires Loaded(recs).Some?
    ensures LastWriter(recs, k, i)
    ensures k in Loaded(recs).value <==> i >= 0
    ensures i >= 0 ==> FromRecord(recs[i]) == Some(Loaded(recs).value[k])
  {
    i := -1;
    if recs != [] {
      var n := |recs| - 1;
      i := LoadedLastWriter(recs[..n], k);
      if recs[n].url == k {
        i := n;
      }
    }
  }

  /** A hash map can always be walked, so there is always something for `Storage` to write. */
  lemma {:induction false} EnumerationExists(t: Table) returns (keys: seq<Bytes>, arr: seq<StorageInfo>)
    ensures Enumerates(keys, arr, t)
    decreases |t|
  {
    keys, arr := [], [];
    if t != map[] {
      var k :| k in t;
      keys, arr := EnumerationExists(t - {k});
      keys, arr := keys + [k], arr + [t[k]];
    }
  }

  lemma SaveExists(t: Table) returns (recs: seq<JsonRecord>)
    ensures IsSave(recs, t)
  {
    var keys, arr := EnumerationExists(t);
    recs := ToRecords(arr);
  }

  /** Only whole entries come back, so whatever is loaded is persistable. */
  lemma {:induction false} LoadedFromSave(arr: seq<StorageInfo>)
    requires Loaded(ToRecords(arr)).Some?
    ensures forall k :: k in Loaded(ToRecords(arr)).value ==>
      var e := Loaded(ToRecords(arr)).value[k]; Persistable(e) && e.url == k
  {
    if arr != [] {
      var n := |arr| - 1;
      assert ToRecords(arr)[..n] == ToRecords(arr[..n]);
      LoadedFromSave(arr[..n]);
    }
  }

  lemma {:induction false} LoadEnumeration(keys: seq<Bytes>, arr: seq<StorageInfo>)
    requires |keys| == |arr|
    requires forall i, j :: 0 <= i < j < |keys| ==> keys[i] != keys[j]
    requires forall i :: 0 <= i < |arr| ==> arr[i].url == keys[i] && Persistable(arr[i])
    ensures Loaded(ToRecords(arr)).Some?
    ensures forall k :: k in Loaded(ToRecords(arr)).value <==> k in keys
    ensures forall i :: 0 <= i < |keys| ==> Loaded(ToRecords(arr)).value[keys[i]] == arr[i]
  {
    if arr != [] {
      var n := |arr| - 1;
      assert ToRecords(arr)[..n] == ToRecords(arr[..n]);
      LoadEnumeration(keys[..n], arr[..n]);
      RecordRoundTrip(arr[n]);
      assert keys == keys[..n] + [keys[n]];
    }
  }

  lemma LoadEnumerated(keys: seq<Bytes>, arr: seq<StorageInfo>, t: Table)
    requires WellKeyed(t) && Enumerates(keys, arr, t) && forall k :: k in t ==> Persistable(t[k])
    ensures Loaded(ToRecords(arr)) == Some(t)
  {
    forall i | 0 <= i < |arr| ensures arr[i].url == keys[i] && Persistable(arr[i]) {
      assert keys[i] in t;
    }
    LoadEnumeration(keys, arr);
    var m := Loaded(ToRecords(arr)).value;
    forall k | k in t ensures k in m && m[k] == t[k] {
      var i :| 0 <= i < |keys| && keys[i] == k;
    }
    assert m == t;
  }

  /** The three numbers of an entry can be read back. */
  predicate FitsInts(e: StorageInfo) { FitsInt(e.mtime) && FitsInt(e.atime) && FitsInt(AsInt64(e.fsize)) }

  lemma {:induction false} LoadedOfFitting(arr: seq<StorageInfo>)
    requires forall i :: 0 <= i < |arr| ==> FitsInts(arr[i])
    ensures Loaded(ToRecords(arr)).Some?
  {
    if arr != [] {
      var n := |arr| - 1;
      assert ToRecords(arr)[..n] == ToRecords(arr[..n]);
      LoadedOfFitting(arr[..n]);
    }
  }

  lemma UnfitThrows(keys: seq<Bytes>, arr: seq<StorageInfo>, t: Table, k: Bytes)
    requires Enumerates(keys, arr, t) && k in t && !FitsInts(t[k])
    ensures Loaded(ToRecords(arr)).None?
  {
    var i :| 0 <= i < |keys| && keys[i] == k;
    var recs := ToRecords(arr);
    assert recs[i] == ToRecord(t[k]) && FromRecord(recs[i]).None?;
    LoadFails(recs, i);
  }

  lemma FittingLoads(keys: seq<Bytes>, arr: seq<StorageInfo>, t: Table)
    requires Enumerates(keys, arr, t) && forall k :: k in t ==> FitsInts(t[k])
    ensures Loaded(ToRecords(arr)).Some?
  {
    forall i | 0 <= i < |arr| ensures FitsInts(arr[i]) {
      assert keys[i] in t;
    }
    LoadedOfFitting(arr);
  }

  /** For every walk of the hash map, loading what was stored throws exactly when some number does not fit. */
  lemma LoadThrows(recs: seq<JsonRecord>, t: Table)
    requires IsSave(recs, t)
    ensures Loaded(recs).Some? <==> forall k :: k in t ==> FitsInts(t[k])
  {
    var keys, arr :| Enumerates(keys, arr, t) && recs == ToRecords(arr);
    if forall k :: k in t ==> FitsInts(t[k]) {
      FittingLoads(keys, arr, t);
    } else {
      var k :| k in t && !FitsInts(t[k]);
      UnfitThrows(keys, arr, t, k);
    }
  }

  /**
   * For every walk of the hash map, loading what was stored rebuilds the table exactly when
   * every entry is persistable.
   */
  lemma SaveLoadRoundTrip(recs: seq<JsonRecord>, t: Table)
    requires WellKeyed(t) && IsSave(recs, t)
    ensures Loaded(recs) == Some(t) <==> forall k :: k in t ==> Persistable(t[k])
  {
    var keys, arr :| Enumerates(keys, arr, t) && recs == ToRecords(arr);
    if forall k :: k in t ==> Persistable(t[k]) {
      LoadEnumerated(keys, arr, t);
    }
    if Loaded(recs) == Some(t) {
      LoadedFromSave(arr);
    }
  }
}
