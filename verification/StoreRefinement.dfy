/** The server refines a plain map from URLs to contents, over every run of requests and restarts. */
module StoreRefinement {
  import opened Common
  import opened Paths
  import opened Files
  import opened DataManager
  import opened Service
  import Base64

  /** Two storage directories, neither inside the other, told apart by the text the handlers search for. */
  predicate ValidConfig(cfg: Config) {
    && EndsInSlash(cfg.lowDir) && EndsInSlash(cfg.deepDir)
    && Contains(cfg.lowDir, LOW_STORAGE) && !Contains(cfg.deepDir, LOW_STORAGE)
    && !IsPrefix(cfg.deepDir, cfg.lowDir) && !IsPrefix(cfg.lowDir, cfg.deepDir)
    && NUL !in cfg.lowDir && NUL !in cfg.deepDir && NUL !in cfg.prefix
  }

  predicate IsStorageDir(cfg: Config, dir: Bytes) { dir == cfg.lowDir || dir == cfg.deepDir }

  /** No file stands in the way of the two storage directories. */
  predicate Sound(cfg: Config, files: Files) {
    files.WellFormed() && files.NoFileInTheWay(cfg.lowDir) && files.NoFileInTheWay(cfg.deepDir)
  }

  /** What zstd promises of every compression that succeeds. */
  ghost predicate Lossless(z: Zstd) { forall x :: z.pack(x) != [] ==> z.unpack(z.pack(x)) == x }

  type Contents = map<Bytes, Bytes>

  /** What a download makes of the bytes stored at `path`. */
  function ReadBack(cfg: Config, z: Zstd, path: Bytes, data: Bytes): Bytes {
    if IsDeep(cfg, path) then z.unpack(data) else data
  }

  predicate EntryFor(cfg: Config, z: Zstd, files: Files, url: Bytes, e: StorageInfo, content: Bytes) {
    && e.url == url == cfg.prefix + FileName(e.storagePath)
    && files.Get(e.storagePath).Some?
    && ReadBack(cfg, z, e.storagePath, files.Get(e.storagePath).value) == content
  }

  ghost predicate TableSaved(s: StoreState) {
    if s.persisted.None? then s.table == map[] else IsSave(s.persisted.value, s.table)
  }

  predicate Entries(cfg: Config, z: Zstd, files: Files, t: Table, m: Contents) {
    && t.Keys == m.Keys
    && (forall k :: k in m ==> EntryFor(cfg, z, files, k, t[k], m[k]))
  }

  /** The server state `s` stands for the map `m`. */
  ghost predicate Represents(cfg: Config, z: Zstd, s: StoreState, m: Contents) {
    Sound(cfg, s.files) && Entries(cfg, z, s.files, s.table, m) && TableSaved(s)
  }

  // ---- Directories and scratch files ----

  lemma DirectoryMade(cfg: Config, f: Files, dir: Bytes)
    requires ValidConfig(cfg) && Sound(cfg, f) && IsStorageDir(cfg, dir)
    ensures f.CanMake(dir) && Sound(cfg, f.MakeDirectory(dir)) && dir in f.MakeDirectory(dir).dirs
    ensures f.MakeDirectory(dir).contents == f.contents
    ensures forall d :: d in f.MakeDirectory(dir).dirs ==> d in f.dirs || IsPrefix(d, dir)
    ensures forall d :: d in f.dirs ==> d in f.MakeDirectory(dir).dirs
  {
    assert CStr(dir) == dir && AsDirectory(dir) == dir by { CStrIdentity(dir); }
    assert FileName(dir) == [];
    assert f.NoFileInTheWay(dir) && dir !in f.contents;
    if !f.Exists(dir) {
      AncestorsOf(dir);
      assert f.MakeDirectory(dir) == Files(f.contents, f.dirs + Ancestors(dir));
    }
  }

  lemma AncestorsOf(dir: Bytes)
    requires EndsInSlash(dir)
    ensures dir in Ancestors(dir)
    ensures forall d :: d in Ancestors(dir) ==> EndsInSlash(d) && IsPrefix(d, dir)
  {
    assert dir[..|dir|] == dir;
  }

  /** A file name that is not a path, not empty and not a directory by itself. */
  predicate Plain(name: Bytes) { name != [] && SLASH !in name && NUL !in name && !Dots(name) }

  /** Exactly when a plain name can be opened in a directory that exists: no directory has that name. */
  lemma PlainNameOpens(f: Files, dir: Bytes, name: Bytes)
    requires f.WellFormed() && dir in f.dirs && NUL !in dir && Plain(name)
    ensures CStr(dir + name) == dir + name && FileName(dir + name) == name
    ensures f.IsDirectory(dir + name) <==> dir + name + [SLASH] in f.dirs
    ensures f.Openable(dir + name) <==> dir + name + [SLASH] !in f.dirs
  {
    CStrIdentity(dir + name);
    FileNameIn(dir, name);
  }

  /** The file that unpacking `path` writes: the low directory's, of the name up to any NUL. */
  lemma ScratchFile(cfg: Config, path: Bytes)
    requires ValidConfig(cfg)
    ensures CStr(Scratch(cfg, path)) == cfg.lowDir + CStr(FileName(path))
    ensures SLASH !in CStr(FileName(path)) && FileName(CStr(Scratch(cfg, path))) == CStr(FileName(path))
    ensures !IsDeep(cfg, Scratch(cfg, path)) && !IsDeep(cfg, CStr(Scratch(cfg, path)))
  {
    CStrAppend(cfg.lowDir, FileName(path));
    CStrSlash(FileName(path));
    FileNameIn(cfg.lowDir, CStr(FileName(path)));
    ContainsSelf(cfg.lowDir);
    ContainsLeft(cfg.lowDir, FileName(path), cfg.lowDir);
    ContainsLeft(cfg.lowDir, CStr(FileName(path)), cfg.lowDir);
  }

  /**
   * For names without NUL, the low-directory file that a deep download overwrites and removes is never the
   * file of an entry with another URL, nor the deep entry's own.
   */
  lemma ScratchIsFree(cfg: Config, path: Bytes, other: Bytes)
    requires ValidConfig(cfg) && IsDeep(cfg, path)
    requires NUL !in path && NUL !in other && (FileName(path) != FileName(other) || path == other)
    ensures CStr(other) != CStr(Scratch(cfg, path))
  {
    ScratchFile(cfg, path);
    CStrIdentity(path);
    CStrIdentity(other);
    CStrIdentity(FileName(path));
  }

  lemma NotInTheWay(cfg: Config, dir: Bytes, name: Bytes, d: Bytes)
    requires ValidConfig(cfg) && IsStorageDir(cfg, dir) && IsStorageDir(cfg, d)
    ensures !IsPrefix(dir + name + [SLASH], d)
  {
    assert dir + name + [SLASH] == dir + (name + [SLASH]);
    if IsPrefix(dir + name + [SLASH], d) {
      PrefixOfExtended(dir, name + [SLASH], d);
      assert false;
    }
  }

  /** A file written into a storage directory does not get in the way of either. */
  lemma WriteKeepsSound(cfg: Config, f: Files, dir: Bytes, name: Bytes, data: Bytes)
    requires ValidConfig(cfg) && Sound(cfg, f) && IsStorageDir(cfg, dir) && f.Openable(dir + name)
    ensures CStr(dir + name) == dir + CStr(name) && Sound(cfg, f.Write(dir + name, data))
  {
    CStrAppend(dir, name);
    NotInTheWay(cfg, dir, CStr(name), cfg.lowDir);
    NotInTheWay(cfg, dir, CStr(name), cfg.deepDir);
    OneMoreFile(f, dir + name, data);
  }

  lemma OneMoreFile(f: Files, path: Bytes, data: Bytes)
    requires f.WellFormed() && f.Openable(path)
    ensures f.Write(path, data).WellFormed()
  {
    var p := CStr(path);
    assert FileName(p) != [] && !EndsInSlash(p) && p + [SLASH] !in f.dirs && !Dots(FileName(p));
  }

  // ---- Downloads ----

  /** The scratch copy's name is a directory's, be it the low directory itself. */
  predicate Blocked(cfg: Config, files: Files, path: Bytes) {
    var name := CStr(FileName(path));
    IsDeep(cfg, path) && (!Plain(name) || cfg.lowDir + name + [SLASH] in files.dirs)
  }

  lemma UnpackedFiles(cfg: Config, z: Zstd, f: Files, path: Bytes)
    requires ValidConfig(cfg) && Sound(cfg, f)
    ensures f.CanMake(cfg.lowDir) && Sound(cfg, Unpacked(cfg, z, f, path))
    ensures
      var f', scratch := Unpacked(cfg, z, f, path), CStr(Scratch(cfg, path));
      && f'.dirs == f.MakeDirectory(cfg.lowDir).dirs
      && (f'.contents == f.contents
          || (f.Get(path).Some? && f'.contents == f.contents[scratch := z.unpack(f.Get(path).value)]))
  {
    DirectoryMade(cfg, f, cfg.lowDir);
    var made := f.MakeDirectory(cfg.lowDir);
    if f.Get(path).Some? && made.Openable(Scratch(cfg, path)) {
      WriteKeepsSound(cfg, made, cfg.lowDir, FileName(path), z.unpack(f.Get(path).value));
    }
  }

  /** The scratch copy is written exactly if its name is not a directory's; if it is, that is what gets served. */
  lemma UnpackedScratch(cfg: Config, z: Zstd, f: Files, path: Bytes)
    requires ValidConfig(cfg) && Sound(cfg, f) && f.Get(path).Some? && IsDeep(cfg, path)
    ensures
      var f', scratch := Unpacked(cfg, z, f, path), CStr(Scratch(cfg, path));
      if Blocked(cfg, f, path) then f'.contents == f.contents && f'.IsDirectory(Scratch(cfg, path))
      else f'.contents == f.contents[scratch := z.unpack(f.Get(path).value)]
  {
    var name := CStr(FileName(path));
    var made := f.MakeDirectory(cfg.lowDir);
    DirectoryMade(cfg, f, cfg.lowDir);
    ScratchFile(cfg, path);
    NotInTheWay(cfg, cfg.lowDir, name, cfg.lowDir);
    if Plain(name) {
      PlainNameOpens(made, cfg.lowDir, name);
    } else {
      NoPlainName(made, cfg.lowDir, FileName(path));
    }
  }

  /** A name that is empty or all dots before any NUL names a directory. */
  lemma NoPlainName(f: Files, dir: Bytes, name: Bytes)
    requires EndsInSlash(dir) && dir in f.dirs && NUL !in dir && SLASH !in name && !Plain(CStr(name))
    ensures f.IsDirectory(dir + name) && !f.Openable(dir + name)
  {
    CStrAppend(dir, name);
    CStrSlash(name);
    FileNameIn(dir, CStr(name));
    assert CStr(name) == [] ==> dir + CStr(name) == dir;
  }

  /** A file that is there before a download keeps its content, exactly if it is not the scratch file of a deep one. */
  lemma DownloadFiles(cfg: Config, z: Zstd, files: Files, path: Bytes)
    requires ValidConfig(cfg) && Sound(cfg, files)
    ensures Sound(cfg, Download(cfg, z, files, path).files)
    ensures
      var after := Download(cfg, z, files, path).files.contents;
      forall p :: p in files.contents ==>
        ((p in after && after[p] == files.contents[p]) <==> !(IsDeep(cfg, path) && p == CStr(Scratch(cfg, path))))
  {
    if IsDeep(cfg, path) {
      UnpackedFiles(cfg, z, files, path);
      ScratchFile(cfg, path);
      RespondFiles(cfg, Unpacked(cfg, z, files, path), Scratch(cfg, path), path);
    } else {
      RespondFiles(cfg, files, path, path);
    }
  }

  lemma RespondFiles(cfg: Config, files: Files, served: Bytes, path: Bytes)
    requires Sound(cfg, files)
    ensures
      var r := Respond(files, served, path).files;
      && Sound(cfg, r) && (forall d :: d in r.dirs ==> d in files.dirs)
      && r.contents == if served == path then files.contents else files.contents - {CStr(served)}
  {
  }

  function PathsOf(t: Table): map<Bytes, Bytes> { map k | k in t :: t[k].storagePath }

  /** The download's scratch file is no entry's file. */
  predicate Harmless(cfg: Config, paths: map<Bytes, Bytes>, url: Bytes) {
    url in paths && IsDeep(cfg, paths[url]) ==>
      forall k :: k in paths ==> CStr(paths[k]) != CStr(Scratch(cfg, paths[url]))
  }

  /** No download of an unknown URL, and exactly the harmless ones of known URLs, leave every entry as it is. */
  lemma DownloadKeepsEntries(cfg: Config, z: Zstd, files: Files, t: Table, m: Contents, url: Bytes)
    requires ValidConfig(cfg) && Sound(cfg, files) && Entries(cfg, z, files, t, m)
    ensures
      var r := Download(cfg, z, files, PathOf(t, url));
      Sound(cfg, r.files) && (Entries(cfg, z, r.files, t, m) <==> Harmless(cfg, PathsOf(t), url))
  {
    DownloadFiles(cfg, z, files, PathOf(t, url));
    if Harmless(cfg, PathsOf(t), url) {
      HarmlessKeeps(cfg, z, files, t, m, url);
    } else {
      var k :| k in t && CStr(t[k].storagePath) == CStr(Scratch(cfg, PathOf(t, url)));
      ScratchGone(cfg, z, files, PathOf(t, url));
      var r := Download(cfg, z, files, PathOf(t, url));
      assert !EntryFor(cfg, z, r.files, k, t[k], m[k]);
    }
  }

  lemma HarmlessKeeps(cfg: Config, z: Zstd, files: Files, t: Table, m: Contents, url: Bytes)
    requires ValidConfig(cfg) && Sound(cfg, files) && Entries(cfg, z, files, t, m) && Harmless(cfg, PathsOf(t), url)
    ensures Entries(cfg, z, Download(cfg, z, files, PathOf(t, url)).files, t, m)
  {
    var path := PathOf(t, url);
    var r := Download(cfg, z, files, path);
    DownloadFiles(cfg, z, files, path);
    forall k | k in m ensures EntryFor(cfg, z, r.files, k, t[k], m[k]) {
      assert EntryFor(cfg, z, files, k, t[k], m[k]);
      assert !(IsDeep(cfg, path) && CStr(t[k].storagePath) == CStr(Scratch(cfg, path))) by {
        assert PathsOf(t)[k] == t[k].storagePath;
        if url !in t {
          ScratchFile(cfg, path);
        }
      }
    }
  }

  /** The scratch file of a deep download is gone after it, whoever put it there. */
  lemma ScratchGone(cfg: Config, z: Zstd, files: Files, path: Bytes)
    requires ValidConfig(cfg) && Sound(cfg, files) && IsDeep(cfg, path)
    ensures CStr(Scratch(cfg, path)) !in Download(cfg, z, files, path).files.contents
  {
    UnpackedFiles(cfg, z, files, path);
    ScratchFile(cfg, path);
    RespondFiles(cfg, Unpacked(cfg, z, files, path), Scratch(cfg, path), path);
  }

  /** A download of a known URL is answered with the content the map gives it, exactly if it is not blocked. */
  lemma DownloadReplies(cfg: Config, z: Zstd, files: Files, t: Table, m: Contents, url: Bytes)
    requires ValidConfig(cfg) && Sound(cfg, files) && Entries(cfg, z, files, t, m) && url in m
    ensures
      Download(cfg, z, files, PathOf(t, url)).outcome ==
        Replied([Reply(200, if Blocked(cfg, files, PathOf(t, url)) then None else Some(m[url]))])
  {
    var path := t[url].storagePath;
    assert EntryFor(cfg, z, files, url, t[url], m[url]);
    if IsDeep(cfg, path) {
      UnpackedFiles(cfg, z, files, path);
      UnpackedScratch(cfg, z, files, path);
      if Blocked(cfg, files, path) {
        NoFileWhereBlocked(cfg, files, path);
      }
    }
  }

  lemma NoFileWhereBlocked(cfg: Config, files: Files, path: Bytes)
    requires ValidConfig(cfg) && Sound(cfg, files) && Blocked(cfg, files, path)
    ensures CStr(Scratch(cfg, path)) !in files.contents
  {
    ScratchFile(cfg, path);
  }

  lemma DownloadRefines(cfg: Config, z: Zstd, s: StoreState, m: Contents, url: Bytes)
    requires ValidConfig(cfg) && Represents(cfg, z, s, m)
    ensures
      var r := Download(cfg, z, s.files, PathOf(s.table, url));
      && (Represents(cfg, z, s.(files := r.files), m) <==> Harmless(cfg, PathsOf(s.table), url))
      && (url in m ==>
            (r.outcome == Replied([Reply(200, Some(m[url]))]) <==> !Blocked(cfg, s.files, PathOf(s.table, url))))
  {
    DownloadKeepsEntries(cfg, z, s.files, s.table, m, url);
    if url in m {
      DownloadReplies(cfg, z, s.files, s.table, m, url);
    }
  }

  // ---- Uploads ----

  predicate Addressed(cfg: Config, req: Request) {
    Base64.Decode(req.fileName).Ok? && StorageDir(cfg, req.storageType).Some?
  }

  /** The path an upload writes. */
  function Target(cfg: Config, req: Request): Bytes
    requires Addressed(cfg, req)
  {
    StorageDir(cfg, req.storageType).value + Base64.Decode(req.fileName).value
  }

  function UrlOf(cfg: Config, req: Request): Bytes
    requires Addressed(cfg, req)
  {
    cfg.prefix + FileName(Target(cfg, req))
  }

  /** What later downloads will deliver for a successful upload. */
  function Delivered(cfg: Config, z: Zstd, req: Request): Bytes
    requires Addressed(cfg, req)
  {
    var path := Target(cfg, req);
    var data := BytesToStore(z, path, req.body);
    if data.Some? then ReadBack(cfg, z, path, data.value) else []
  }

  predicate Uploads(cfg: Config, op: Op, out: Outcome) {
    && op.Serve? && RouteOf(op.request.path) == ToUpload && out == Replied(OK)
    && Addressed(cfg, op.request)
  }

  /** No component before a slash is empty, "." or "..": then different strings are different paths. */
  predicate Unaliased(name: Bytes) {
    var s := [SLASH] + name;
    !Contains(s, [SLASH, SLASH]) && !Contains(s, [SLASH, DOT, SLASH]) && !Contains(s, [SLASH, DOT, DOT, SLASH])
  }

  /** Names that the system reads literally, and numbers that `asInt` can read back. */
  predicate Storable(cfg: Config, z: Zstd, req: Request)
    requires Addressed(cfg, req)
  {
    var data := BytesToStore(z, Target(cfg, req), req.body);
    && Unaliased(CStr(Base64.Decode(req.fileName).value))
    && FitsInt(req.accessed) && FitsInt(req.modified)
    && (data.Some? ==> FitsInt(AsInt64(StoredSize(|data.value|))))
  }

  /** The path is the file of no entry but that of `url`. */
  predicate Fresh(paths: map<Bytes, Bytes>, path: Bytes, url: Bytes) {
    forall k :: k in paths && k != url ==> CStr(paths[k]) != CStr(path)
  }

  /**
   * With entries at `paths`: a restart finds no NUL in them, a download no entry's file in the way of its
   * scratch copy, and an upload no other entry's file at its target. Without NULs all of that is certain, as
   * NulFreeIsAdmissible shows.
   */
  predicate Admissible(cfg: Config, z: Zstd, paths: map<Bytes, Bytes>, op: Op, out: Outcome) {
    match op
    case Restart => forall k :: k in paths ==> NUL !in paths[k]
    case Serve(req) =>
      match RouteOf(req.path)
      case ToUpload =>
        Addressed(cfg, req) ==>
          && Storable(cfg, z, req)
          && (Uploads(cfg, op, out) ==> Fresh(paths, Target(cfg, req), UrlOf(cfg, req)))
      case ToDownload(url) => Harmless(cfg, paths, url)
      case _ => true
  }

  /** Each entry has the URL of its file name, and no NUL in its path. */
  predicate NulFree(cfg: Config, paths: map<Bytes, Bytes>) {
    forall k :: k in paths ==> k == cfg.prefix + FileName(paths[k]) && NUL !in paths[k]
  }

  lemma NulFreeIsAdmissible(cfg: Config, z: Zstd, paths: map<Bytes, Bytes>, op: Op, out: Outcome)
    requires ValidConfig(cfg) && NulFree(cfg, paths)
    requires op.Serve? && RouteOf(op.request.path) == ToUpload && Addressed(cfg, op.request) ==>
      Storable(cfg, z, op.request) && NUL !in Base64.Decode(op.request.fileName).value
    ensures Admissible(cfg, z, paths, op, out) && NulFree(cfg, NextPaths(cfg, paths, op, out))
  {
    if op.Serve? {
      match RouteOf(op.request.path)
      case ToUpload =>
        if Addressed(cfg, op.request) {
          var path := Target(cfg, op.request);
          CStrIdentity(path);
          forall k | k in paths ensures CStr(paths[k]) == paths[k] {
            CStrIdentity(paths[k]);
          }
        }
      case ToDownload(url) =>
        if url in paths && IsDeep(cfg, paths[url]) {
          forall k | k in paths ensures CStr(paths[k]) != CStr(Scratch(cfg, paths[url])) {
            ScratchIsFree(cfg, paths[url], paths[k]);
          }
        }
      case _ =>
    }
  }

  /** The paths of the entries, which the names uploaded determine. */
  function NextPaths(cfg: Config, paths: map<Bytes, Bytes>, op: Op, out: Outcome): map<Bytes, Bytes> {
    if Uploads(cfg, op, out) then paths[UrlOf(cfg, op.request) := Target(cfg, op.request)] else paths
  }

  /** The specification: an upload binds its URL, nothing else changes the map. */
  function NextContents(cfg: Config, z: Zstd, m: Contents, op: Op, out: Outcome): Contents {
    if Uploads(cfg, op, out) then m[UrlOf(cfg, op.request) := Delivered(cfg, z, op.request)] else m
  }

  /** No other entry reads something else from its file once `data` is written at `path`. */
  predicate Spared(cfg: Config, z: Zstd, t: Table, m: Contents, path: Bytes, url: Bytes, data: Bytes) {
    forall k :: k in m && k in t && k != url && CStr(t[k].storagePath) == CStr(path) ==>
      ReadBack(cfg, z, t[k].storagePath, data) == m[k]
  }

  /** Writing one entry's file and inserting the entry gives the next map, exactly if every other entry is spared. */
  lemma StoreEntry(
    cfg: Config, z: Zstd, files: Files, t: Table, m: Contents, path: Bytes, data: Bytes, e: StorageInfo, files': Files)
    requires Entries(cfg, z, files, t, m)
    requires e.storagePath == path && e.url == cfg.prefix + FileName(path)
    requires files'.contents == files.contents[CStr(path) := data]
    ensures Entries(cfg, z, files', t[e.url := e], m[e.url := ReadBack(cfg, z, path, data)]) <==>
      Spared(cfg, z, t, m, path, e.url, data)
  {
    var t', m' := t[e.url := e], m[e.url := ReadBack(cfg, z, path, data)];
    assert EntryFor(cfg, z, files', e.url, e, ReadBack(cfg, z, path, data));
    if Spared(cfg, z, t, m, path, e.url, data) {
      forall k | k in m' ensures EntryFor(cfg, z, files', k, t'[k], m'[k]) {
        if k != e.url {
          OtherEntry(cfg, z, files, k, t[k], m[k], path, data, files');
        }
      }
    } else {
      var k :| k in m && k != e.url && CStr(t[k].storagePath) == CStr(path)
        && ReadBack(cfg, z, t[k].storagePath, data) != m[k];
      OtherEntry(cfg, z, files, k, t[k], m[k], path, data, files');
      assert !EntryFor(cfg, z, files', k, t'[k], m'[k]);
    }
  }

  lemma OtherEntry(
    cfg: Config, z: Zstd, files: Files, k: Bytes, e: StorageInfo, content: Bytes,
    path: Bytes, data: Bytes, files': Files)
    requires EntryFor(cfg, z, files, k, e, content) && files'.contents == files.contents[CStr(path) := data]
    ensures EntryFor(cfg, z, files', k, e, content) <==>
      (CStr(e.storagePath) == CStr(path) ==> ReadBack(cfg, z, e.storagePath, data) == content)
  {
  }

  /** Only directories changed. */
  lemma SameContents(cfg: Config, z: Zstd, files: Files, t: Table, m: Contents, files': Files)
    requires Entries(cfg, z, files, t, m) && files'.contents == files.contents
    ensures Entries(cfg, z, files', t, m)
  {
    forall k | k in m ensures EntryFor(cfg, z, files', k, t[k], m[k]) {
      assert EntryFor(cfg, z, files, k, t[k], m[k]);
    }
  }

  /** What an upload does: it writes its target and inserts its entry, or changes no file at all. */
  lemma UploadEffect(cfg: Config, z: Zstd, files: Files, req: Request)
    requires ValidConfig(cfg) && Sound(cfg, files)
    ensures
      var r := Upload(cfg, z, files, req);
      && (r.inserted.Some? <==> r.outcome == Replied(OK) && Addressed(cfg, req))
      && (r.inserted.None? ==> Sound(cfg, r.files) && r.files.contents == files.contents)
      && (forall d :: d in r.files.dirs ==> d in files.dirs || IsPrefix(d, cfg.lowDir) || IsPrefix(d, cfg.deepDir))
  {
    if Addressed(cfg, req) {
      DirectoryMade(cfg, files, StorageDir(cfg, req.storageType).value);
    }
  }

  lemma UploadWrites(cfg: Config, z: Zstd, files: Files, req: Request)
    requires ValidConfig(cfg) && Sound(cfg, files)
    requires Upload(cfg, z, files, req).inserted.Some?
    ensures
      var r, path := Upload(cfg, z, files, req), Target(cfg, req);
      var data := BytesToStore(z, path, req.body);
      && data.Some?
      && Sound(cfg, r.files) && r.files.contents == files.contents[CStr(path) := data.value]
      && r.inserted == Some(InfoOf(cfg, path, StoredSize(|data.value|), req.accessed, req.modified))
  {
    var dir, path := StorageDir(cfg, req.storageType).value, Target(cfg, req);
    DirectoryMade(cfg, files, dir);
    var data := BytesToStore(z, path, req.body).value;
    WriteKeepsSound(cfg, files.MakeDirectory(dir), dir, Base64.Decode(req.fileName).value, data);
  }

  lemma UploadStored(cfg: Config, z: Zstd, files: Files, t: Table, m: Contents, req: Request)
    requires ValidConfig(cfg) && Sound(cfg, files) && Entries(cfg, z, files, t, m)
    requires Upload(cfg, z, files, req).inserted.Some?
    ensures BytesToStore(z, Target(cfg, req), req.body).Some?
    ensures
      var r, path, url := Upload(cfg, z, files, req), Target(cfg, req), UrlOf(cfg, req);
      var e := r.inserted.value;
      && e.url == url && e.storagePath == path && Sound(cfg, r.files)
      && (Entries(cfg, z, r.files, t[url := e], m[url := Delivered(cfg, z, req)]) <==>
            Spared(cfg, z, t, m, path, url, BytesToStore(z, path, req.body).value))
  {
    UploadWrites(cfg, z, files, req);
    var path, r := Target(cfg, req), Upload(cfg, z, files, req);
    StoreEntry(cfg, z, files, t, m, path, BytesToStore(z, path, req.body).value, r.inserted.value, r.files);
  }

  /** An upload is a step of the map, exactly if every other entry is spared; one that fails always is. */
  lemma UploadRefines(cfg: Config, z: Zstd, s: StoreState, m: Contents, op: Op, s': StoreState, out: Outcome)
    requires ValidConfig(cfg) && Represents(cfg, z, s, m)
    requires op.Serve? && RouteOf(op.request.path) == ToUpload
    requires Step(cfg, z, s, op, s', out)
    ensures Uploads(cfg, op, out) ==> BytesToStore(z, Target(cfg, op.request), op.request.body).Some?
    ensures Represents(cfg, z, s', NextContents(cfg, z, m, op, out)) <==>
      (Uploads(cfg, op, out) ==>
        var path := Target(cfg, op.request);
        Spared(cfg, z, s.table, m, path, UrlOf(cfg, op.request), BytesToStore(z, path, op.request.body).value))
  {
    var req := op.request;
    UploadEffect(cfg, z, s.files, req);
    if Upload(cfg, z, s.files, req).inserted.Some? {
      UploadStored(cfg, z, s.files, s.table, m, req);
    } else {
      SameContents(cfg, z, s.files, s.table, m, s'.files);
    }
  }

  /** Where the entries are after an upload. */
  lemma UploadPaths(cfg: Config, z: Zstd, s: StoreState, op: Op, s': StoreState, out: Outcome)
    requires ValidConfig(cfg) && Sound(cfg, s.files)
    requires op.Serve? && RouteOf(op.request.path) == ToUpload && Step(cfg, z, s, op, s', out)
    ensures PathsOf(s'.table) == NextPaths(cfg, PathsOf(s.table), op, out)
  {
    UploadEffect(cfg, z, s.files, op.request);
    if Upload(cfg, z, s.files, op.request).inserted.Some? {
      UploadWrites(cfg, z, s.files, op.request);
      PathsOfInsert(s.table, Upload(cfg, z, s.files, op.request).inserted.value);
    }
  }

  lemma PathsOfInsert(t: Table, e: StorageInfo)
    ensures PathsOf(t[e.url := e]) == PathsOf(t)[e.url := e.storagePath]
  {
  }

  lemma UploadFits(cfg: Config, z: Zstd, s: StoreState, m: Contents, op: Op, s': StoreState, out: Outcome)
    requires ValidConfig(cfg) && Represents(cfg, z, s, m)
    requires op.Serve? && RouteOf(op.request.path) == ToUpload
    requires Addressed(cfg, op.request) ==> Storable(cfg, z, op.request)
    requires Step(cfg, z, s, op, s', out)
    ensures forall k :: k in s'.table ==> (k in s.table && s'.table[k] == s.table[k]) || FitsInts(s'.table[k])
  {
    UploadEffect(cfg, z, s.files, op.request);
    if Upload(cfg, z, s.files, op.request).inserted.Some? {
      UploadWrites(cfg, z, s.files, op.request);
    }
  }

  /**
   * The client gets back the very bytes it sent, unless the upload was a deep one whose path mentions
   * low storage: that is stored raw but still unpacked, so it survives only if unpacking leaves it alone.
   */
  lemma DeliveredExactly(cfg: Config, z: Zstd, req: Request)
    requires ValidConfig(cfg) && Lossless(z) && Addressed(cfg, req)
    requires BytesToStore(z, Target(cfg, req), req.body).Some?
    ensures Delivered(cfg, z, req) == req.body <==>
      || req.storageType == LOW
      || !Contains(Base64.Decode(req.fileName).value, LOW_STORAGE)
      || !IsDeep(cfg, Target(cfg, req))
      || z.unpack(req.body) == req.body
  {
    var name, path := Base64.Decode(req.fileName).value, Target(cfg, req);
    if req.storageType == LOW {
      ContainsSelf(cfg.lowDir);
      ContainsLeft(cfg.lowDir, name, cfg.lowDir);
      ContainsLeft(cfg.lowDir, name, LOW_STORAGE);
    } else {
      ContainsSplit(cfg.deepDir, name, LOW_STORAGE);
      if !Contains(name, LOW_STORAGE) && !IsDeep(cfg, path) {
        ContainsTransitive(path, cfg.lowDir, LOW_STORAGE);
      }
    }
  }

  // ---- Restarts ----

  /** A restart succeeds exactly when every number fits, and recovers the table exactly when every entry survives. */
  lemma RestartExact(cfg: Config, z: Zstd, s: StoreState, m: Contents, s': StoreState, out: Outcome)
    requires Represents(cfg, z, s, m) && Step(cfg, z, s, Restart, s', out)
    ensures out == Restarted <==> forall k :: k in s.table ==> FitsInts(s.table[k])
    ensures out == Restarted && s' == s <==> forall k :: k in s.table ==> Persistable(s.table[k])
  {
    assert WellKeyed(s.table) by {
      forall k | k in s.table ensures s.table[k].url == k {
        assert EntryFor(cfg, z, s.files, k, s.table[k], m[k]);
      }
    }
    if s.persisted.Some? {
      LoadThrows(s.persisted.value, s.table);
      SaveLoadRoundTrip(s.persisted.value, s.table);
    }
  }

  // ---- Steps and runs ----

  ghost predicate Invariant(cfg: Config, z: Zstd, s: StoreState, m: Contents) {
    Represents(cfg, z, s, m) && forall k :: k in s.table ==> FitsInts(s.table[k])
  }

  lemma RestartRefines(cfg: Config, z: Zstd, s: StoreState, m: Contents, s': StoreState, out: Outcome)
    requires ValidConfig(cfg) && Invariant(cfg, z, s, m) && Step(cfg, z, s, Restart, s', out)
    requires forall k :: k in s.table ==> NUL !in s.table[k].storagePath
    ensures out == Restarted && s' == s
  {
    forall k | k in s.table ensures Persistable(s.table[k]) {
      assert EntryFor(cfg, z, s.files, k, s.table[k], m[k]);
    }
    RestartExact(cfg, z, s, m, s', out);
  }

  lemma StepRefines(cfg: Config, z: Zstd, s: StoreState, m: Contents, op: Op, s': StoreState, out: Outcome)
    requires ValidConfig(cfg) && Invariant(cfg, z, s, m) && Admissible(cfg, z, PathsOf(s.table), op, out)
    requires Step(cfg, z, s, op, s', out)
    ensures Invariant(cfg, z, s', NextContents(cfg, z, m, op, out))
    ensures PathsOf(s'.table) == NextPaths(cfg, PathsOf(s.table), op, out)
    ensures op == Restart ==> out == Restarted
  {
    if op == Restart {
      RestartStepRefines(cfg, z, s, m, op, s', out);
    } else if RouteOf(op.request.path).ToUpload? {
      UploadStepRefines(cfg, z, s, m, op, s', out);
    } else if RouteOf(op.request.path).ToDownload? {
      DownloadStepRefines(cfg, z, s, m, op, s', out);
    } else {
      IdleStepRefines(cfg, z, s, m, op, s', out);
    }
  }

  lemma RestartStepRefines(cfg: Config, z: Zstd, s: StoreState, m: Contents, op: Op, s': StoreState, out: Outcome)
    requires ValidConfig(cfg) && Invariant(cfg, z, s, m) && Admissible(cfg, z, PathsOf(s.table), op, out)
    requires op == Restart && Step(cfg, z, s, op, s', out)
    ensures Invariant(cfg, z, s', NextContents(cfg, z, m, op, out))
    ensures PathsOf(s'.table) == NextPaths(cfg, PathsOf(s.table), op, out) && out == Restarted
  {
    forall k | k in s.table ensures NUL !in s.table[k].storagePath {
      assert PathsOf(s.table)[k] == s.table[k].storagePath;
    }
    RestartRefines(cfg, z, s, m, s', out);
  }

  lemma DownloadStepRefines(cfg: Config, z: Zstd, s: StoreState, m: Contents, op: Op, s': StoreState, out: Outcome)
    requires ValidConfig(cfg) && Invariant(cfg, z, s, m) && Admissible(cfg, z, PathsOf(s.table), op, out)
    requires op.Serve? && RouteOf(op.request.path).ToDownload? && Step(cfg, z, s, op, s', out)
    ensures Invariant(cfg, z, s', NextContents(cfg, z, m, op, out))
    ensures PathsOf(s'.table) == NextPaths(cfg, PathsOf(s.table), op, out)
  {
    DownloadRefines(cfg, z, s, m, RouteOf(op.request.path).url);
  }

  /** A listing, an unknown path or a failed assertion. */
  lemma IdleStepRefines(cfg: Config, z: Zstd, s: StoreState, m: Contents, op: Op, s': StoreState, out: Outcome)
    requires Invariant(cfg, z, s, m) && Step(cfg, z, s, op, s', out)
    requires op.Serve? && !RouteOf(op.request.path).ToDownload? && !RouteOf(op.request.path).ToUpload?
    ensures Invariant(cfg, z, s', NextContents(cfg, z, m, op, out))
    ensures PathsOf(s'.table) == NextPaths(cfg, PathsOf(s.table), op, out)
  {
    assert s' == s && NextContents(cfg, z, m, op, out) == m;
  }

  /** The reply to a download of a known URL. */
  lemma StepReplies(cfg: Config, z: Zstd, s: StoreState, m: Contents, url: Bytes, op: Op, s': StoreState, out: Outcome)
    requires ValidConfig(cfg) && Represents(cfg, z, s, m) && url in m
    requires op.Serve? && RouteOf(op.request.path) == ToDownload(url) && Step(cfg, z, s, op, s', out)
    ensures out == Replied([Reply(200, if Blocked(cfg, s.files, PathOf(s.table, url)) then None else Some(m[url]))])
  {
    DownloadReplies(cfg, z, s.files, s.table, m, url);
  }

  lemma UploadStepRefines(cfg: Config, z: Zstd, s: StoreState, m: Contents, op: Op, s': StoreState, out: Outcome)
    requires ValidConfig(cfg) && Invariant(cfg, z, s, m) && Admissible(cfg, z, PathsOf(s.table), op, out)
    requires op.Serve? && RouteOf(op.request.path) == ToUpload && Step(cfg, z, s, op, s', out)
    ensures Invariant(cfg, z, s', NextContents(cfg, z, m, op, out))
    ensures PathsOf(s'.table) == NextPaths(cfg, PathsOf(s.table), op, out)
  {
    UploadRefines(cfg, z, s, m, op, s', out);
    UploadFits(cfg, z, s, m, op, s', out);
    UploadPaths(cfg, z, s, op, s', out);
    assert forall k :: k in s.table ==> PathsOf(s.table)[k] == s.table[k].storagePath;
  }

  /** The server makes no directory but the two storage directories and those above them. */
  lemma StepMakesNoDirectory(cfg: Config, z: Zstd, s: StoreState, op: Op, s': StoreState, out: Outcome, d: Bytes)
    requires ValidConfig(cfg) && Sound(cfg, s.files) && Step(cfg, z, s, op, s', out)
    requires d in s'.files.dirs && !IsPrefix(d, cfg.lowDir) && !IsPrefix(d, cfg.deepDir)
    ensures d in s.files.dirs
  {
    if op.Serve? {
      match RouteOf(op.request.path)
      case ToUpload =>
        UploadEffect(cfg, z, s.files, op.request);
      case ToDownload(url) =>
        DirectoryMade(cfg, s.files, cfg.lowDir);
      case _ =>
    }
  }

  /** A first start: nothing stored or persisted yet. */
  predicate Initial(cfg: Config, s: StoreState) {
    Sound(cfg, s.files) && s.table == map[] && s.persisted == None
  }

  ghost predicate StepAt(
    cfg: Config, z: Zstd, states: seq<StoreState>, ops: seq<Op>, outs: seq<Outcome>, i: nat)
    requires |states| == |ops| + 1 && |outs| == |ops| && i < |ops|
  {
    Step(cfg, z, states[i], ops[i], states[i + 1], outs[i])
  }

  ghost predicate IsRun(cfg: Config, z: Zstd, states: seq<StoreState>, ops: seq<Op>, outs: seq<Outcome>) {
    && |states| == |ops| + 1 && |outs| == |ops|
    && Initial(cfg, states[0])
    && forall i :: 0 <= i < |ops| ==> StepAt(cfg, z, states, ops, outs, i)
  }

  /** The paths of the entries after the first `n` operations, as the names uploaded determine them. */
  function PathsAfter(cfg: Config, ops: seq<Op>, outs: seq<Outcome>, n: nat): map<Bytes, Bytes>
    requires n <= |ops| == |outs|
  {
    if n == 0 then map[] else NextPaths(cfg, PathsAfter(cfg, ops, outs, n - 1), ops[n - 1], outs[n - 1])
  }

  predicate AdmissibleAt(cfg: Config, z: Zstd, ops: seq<Op>, outs: seq<Outcome>, i: nat)
    requires i < |ops| == |outs|
  {
    Admissible(cfg, z, PathsAfter(cfg, ops, outs, i), ops[i], outs[i])
  }

  /** A run in which every operation is admissible. */
  ghost predicate GoodRun(cfg: Config, z: Zstd, states: seq<StoreState>, ops: seq<Op>, outs: seq<Outcome>) {
    && ValidConfig(cfg) && IsRun(cfg, z, states, ops, outs)
    && forall i :: 0 <= i < |ops| ==> AdmissibleAt(cfg, z, ops, outs, i)
  }

  /** Every upload has a name without NUL, and numbers that `asInt` can read back. */
  predicate NulFreeAt(cfg: Config, z: Zstd, ops: seq<Op>, i: nat)
    requires i < |ops|
  {
    ops[i].Serve? && RouteOf(ops[i].request.path) == ToUpload && Addressed(cfg, ops[i].request) ==>
      Storable(cfg, z, ops[i].request) && NUL !in Base64.Decode(ops[i].request.fileName).value
  }

  lemma {:induction false} NulFreePaths(cfg: Config, z: Zstd, ops: seq<Op>, outs: seq<Outcome>, n: nat)
    requires ValidConfig(cfg) && n <= |ops| == |outs| && forall i :: 0 <= i < |ops| ==> NulFreeAt(cfg, z, ops, i)
    ensures NulFree(cfg, PathsAfter(cfg, ops, outs, n))
  {
    if n > 0 {
      NulFreePaths(cfg, z, ops, outs, n - 1);
      assert NulFreeAt(cfg, z, ops, n - 1);
      NulFreeIsAdmissible(cfg, z, PathsAfter(cfg, ops, outs, n - 1), ops[n - 1], outs[n - 1]);
    }
  }

  /** Runs without NULs are good, whatever their uploads, downloads and restarts. */
  lemma NulFreeRunIsGood(cfg: Config, z: Zstd, states: seq<StoreState>, ops: seq<Op>, outs: seq<Outcome>)
    requires ValidConfig(cfg) && IsRun(cfg, z, states, ops, outs)
    requires forall i :: 0 <= i < |ops| ==> NulFreeAt(cfg, z, ops, i)
    ensures GoodRun(cfg, z, states, ops, outs)
  {
    forall i | 0 <= i < |ops| ensures AdmissibleAt(cfg, z, ops, outs, i) {
      NulFreePaths(cfg, z, ops, outs, i);
      assert NulFreeAt(cfg, z, ops, i);
      NulFreeIsAdmissible(cfg, z, PathsAfter(cfg, ops, outs, i), ops[i], outs[i]);
    }
  }

  /** The server answers every request and restart in every state. */
  lemma StepExists(cfg: Config, z: Zstd, s: StoreState, op: Op) returns (s': StoreState, out: Outcome)
    ensures Step(cfg, z, s, op, s', out)
  {
    s', out := s, Aborted;
    match op
    case Restart =>
      var t := LoadedFile(s.persisted);
      if t.Some? {
        s', out := s.(table := t.value), Restarted;
      }
    case Serve(req) =>
      match RouteOf(req.path)
      case Crash =>
      case NotFound =>
        out := Replied([Reply(404, None)]);
      case ToList =>
        out := Replied(OK);
      case ToDownload(url) =>
        var r := Download(cfg, z, s.files, PathOf(s.table, url));
        s', out := s.(files := r.files), r.outcome;
      case ToUpload =>
        s', out := UploadStepExists(cfg, z, s, req);
  }

  lemma UploadStepExists(cfg: Config, z: Zstd, s: StoreState, req: Request) returns (s': StoreState, out: Outcome)
    requires RouteOf(req.path) == ToUpload
    ensures Step(cfg, z, s, Serve(req), s', out)
  {
    var r := Upload(cfg, z, s.files, req);
    s', out := s.(files := r.files), r.outcome;
    if r.inserted.Some? {
      var t := s.table[r.inserted.value.url := r.inserted.value];
      var recs := SaveExists(t);
      s' := StoreState(r.files, t, Some(recs));
    }
  }

  /** Every sequence of operations has a run, from every first start. */
  lemma {:induction false} RunExists(cfg: Config, z: Zstd, s: StoreState, ops: seq<Op>)
    returns (states: seq<StoreState>, outs: seq<Outcome>)
    requires Initial(cfg, s)
    ensures IsRun(cfg, z, states, ops, outs) && states[0] == s
  {
    if ops == [] {
      states, outs := [s], [];
    } else {
      var n := |ops| - 1;
      var front, frontOuts := RunExists(cfg, z, s, ops[..n]);
      var last, out := StepExists(cfg, z, front[n], ops[n]);
      states, outs := front + [last], frontOuts + [out];
      forall i | 0 <= i < |ops| ensures StepAt(cfg, z, states, ops, outs, i) {
        if i < n {
          assert StepAt(cfg, z, front, ops[..n], frontOuts, i);
        }
      }
    }
  }

  /** The map after the first `n` operations. */
  function ContentsAfter(cfg: Config, z: Zstd, ops: seq<Op>, outs: seq<Outcome>, n: nat): Contents
    requires n <= |ops| == |outs|
  {
    if n == 0 then map[]
    else NextContents(cfg, z, ContentsAfter(cfg, z, ops, outs, n - 1), ops[n - 1], outs[n - 1])
  }

  lemma FirstOfRun(cfg: Config, z: Zstd, states: seq<StoreState>, ops: seq<Op>, outs: seq<Outcome>)
    requires GoodRun(cfg, z, states, ops, outs)
    ensures HoldsAfter(cfg, z, states, ops, outs, 0)
  {
  }

  /** The state after `n` operations stands for the map after them, with the entries where the names put them. */
  ghost predicate HoldsAfter(
    cfg: Config, z: Zstd, states: seq<StoreState>, ops: seq<Op>, outs: seq<Outcome>, n: nat)
    requires n <= |ops| == |outs| && |states| == |ops| + 1
  {
    && Invariant(cfg, z, states[n], ContentsAfter(cfg, z, ops, outs, n))
    && PathsOf(states[n].table) == PathsAfter(cfg, ops, outs, n)
  }

  lemma StepOfRun(cfg: Config, z: Zstd, states: seq<StoreState>, ops: seq<Op>, outs: seq<Outcome>, n: nat)
    requires GoodRun(cfg, z, states, ops, outs) && 0 < n <= |ops| && HoldsAfter(cfg, z, states, ops, outs, n - 1)
    ensures HoldsAfter(cfg, z, states, ops, outs, n)
  {
    var k, m := n - 1, ContentsAfter(cfg, z, ops, outs, n - 1);
    assert StepAt(cfg, z, states, ops, outs, k) && AdmissibleAt(cfg, z, ops, outs, k);
    StepRefines(cfg, z, states[k], m, ops[k], states[n], outs[k]);
  }

  lemma {:induction false} RunInvariant(
    cfg: Config, z: Zstd, states: seq<StoreState>, ops: seq<Op>, outs: seq<Outcome>, n: nat)
    requires GoodRun(cfg, z, states, ops, outs) && n <= |ops|
    ensures |states| == |ops| + 1 && |outs| == |ops|
    ensures HoldsAfter(cfg, z, states, ops, outs, n)
  {
    if n == 0 {
      FirstOfRun(cfg, z, states, ops, outs);
    } else {
      RunInvariant(cfg, z, states, ops, outs, n - 1);
      StepOfRun(cfg, z, states, ops, outs, n);
    }
  }

  /** A directory that is not above the storage directories was there from the start. */
  lemma {:induction false} RunMakesNoDirectory(
    cfg: Config, z: Zstd, states: seq<StoreState>, ops: seq<Op>, outs: seq<Outcome>, n: nat, d: Bytes)
    requires GoodRun(cfg, z, states, ops, outs) && n <= |ops|
    requires |states| == |ops| + 1 && d in states[n].files.dirs
    requires !IsPrefix(d, cfg.lowDir) && !IsPrefix(d, cfg.deepDir)
    ensures d in states[0].files.dirs
  {
    if n > 0 {
      StepOfRunMakesNone(cfg, z, states, ops, outs, n - 1, d);
      RunMakesNoDirectory(cfg, z, states, ops, outs, n - 1, d);
    }
  }

  lemma StepOfRunMakesNone(
    cfg: Config, z: Zstd, states: seq<StoreState>, ops: seq<Op>, outs: seq<Outcome>, n: nat, d: Bytes)
    requires GoodRun(cfg, z, states, ops, outs) && n < |ops| && |states| == |ops| + 1
    requires d in states[n + 1].files.dirs && !IsPrefix(d, cfg.lowDir) && !IsPrefix(d, cfg.deepDir)
    ensures d in states[n].files.dirs
  {
    RunInvariant(cfg, z, states, ops, outs, n);
    assert StepAt(cfg, z, states, ops, outs, n);
    StepMakesNoDirectory(cfg, z, states[n], ops[n], states[n + 1], outs[n], d);
  }

  /** Operation `i` is a successful upload of `url`. */
  predicate UploadsUrl(cfg: Config, op: Op, out: Outcome, url: Bytes) {
    Uploads(cfg, op, out) && UrlOf(cfg, op.request) == url
  }

  lemma {:induction false} LatestUploadIsContent(
    cfg: Config, z: Zstd, ops: seq<Op>, outs: seq<Outcome>, j: nat, n: nat)
    requires j < n <= |ops| == |outs| && Uploads(cfg, ops[j], outs[j])
    requires forall i :: j < i < n ==> !UploadsUrl(cfg, ops[i], outs[i], UrlOf(cfg, ops[j].request))
    ensures
      var m, paths := ContentsAfter(cfg, z, ops, outs, n), PathsAfter(cfg, ops, outs, n);
      var url := UrlOf(cfg, ops[j].request);
      && url in m && m[url] == Delivered(cfg, z, ops[j].request)
      && url in paths && paths[url] == Target(cfg, ops[j].request)
  {
    if j < n - 1 {
      LatestUploadIsContent(cfg, z, ops, outs, j, n - 1);
      assert !UploadsUrl(cfg, ops[n - 1], outs[n - 1], UrlOf(cfg, ops[j].request));
    }
  }

  /** A directory of the scratch copy's name was in the low directory from the start. */
  lemma BlockedFromStart(
    cfg: Config, z: Zstd, states: seq<StoreState>, ops: seq<Op>, outs: seq<Outcome>, n: nat, path: Bytes)
    requires GoodRun(cfg, z, states, ops, outs) && n <= |ops| && |states| == |ops| + 1
    requires Blocked(cfg, states[n].files, path)
    ensures Blocked(cfg, states[0].files, path)
  {
    var name := CStr(FileName(path));
    if Plain(name) {
      NotInTheWay(cfg, cfg.lowDir, name, cfg.lowDir);
      NotInTheWay(cfg, cfg.lowDir, name, cfg.deepDir);
      RunMakesNoDirectory(cfg, z, states, ops, outs, n, cfg.lowDir + name + [SLASH]);
    }
  }

  /**
   * Over every run of requests and restarts: a download answers with what the latest successful upload
   * of that URL delivers, whatever downloads, restarts and other uploads happened in between; exactly if no
   * directory bars the way of its scratch copy, which takes one that was there before the first request.
   */
  lemma DownloadReturnsLatestUpload(
    cfg: Config, z: Zstd, states: seq<StoreState>, ops: seq<Op>, outs: seq<Outcome>, j: nat, i: nat)
    requires GoodRun(cfg, z, states, ops, outs)
    requires j < i < |ops| && Uploads(cfg, ops[j], outs[j])
    requires forall k :: j < k < i ==> !UploadsUrl(cfg, ops[k], outs[k], UrlOf(cfg, ops[j].request))
    requires ops[i].Serve? && RouteOf(ops[i].request.path) == ToDownload(UrlOf(cfg, ops[j].request))
    ensures
      var path := Target(cfg, ops[j].request);
      var delivered := outs[i] == Replied([Reply(200, Some(Delivered(cfg, z, ops[j].request)))]);
      && (delivered <==> !Blocked(cfg, states[i].files, path))
      && (!Blocked(cfg, states[0].files, path) ==> delivered)
  {
    var url, path := UrlOf(cfg, ops[j].request), Target(cfg, ops[j].request);
    var m := ContentsAfter(cfg, z, ops, outs, i);
    RunInvariant(cfg, z, states, ops, outs, i);
    LatestUploadIsContent(cfg, z, ops, outs, j, i);
    assert PathsOf(states[i].table)[url] == PathOf(states[i].table, url);
    assert StepAt(cfg, z, states, ops, outs, i) && AdmissibleAt(cfg, z, ops, outs, i);
    StepReplies(cfg, z, states[i], m, url, ops[i], states[i + 1], outs[i]);
    if Blocked(cfg, states[i].files, path) {
      BlockedFromStart(cfg, z, states, ops, outs, i, path);
    }
  }
}
