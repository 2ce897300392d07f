/** What each request does to the server, case by case, from the text of the request alone. */
module StoreRequests {
  import opened Common
  import opened Paths
  import opened Files
  import opened DataManager
  import opened Service
  import opened StoreRefinement
  import Base64
  import UrlCodec

  // ---- The texts ----

  lemma DownloadText()
    ensures DOWNLOAD == Text("/download/")
  {
  }

  lemma UploadText()
    ensures UPLOAD == Text("/upload")
  {
  }

  lemma LowKindText()
    ensures LOW == Text("low")
  {
  }

  lemma DeepKindText()
    ensures DEEP == Text("deep")
  {
  }

  const STORAGE: Bytes := [0x5f, 0x73, 0x74, 0x6f, 0x72, 0x61, 0x67, 0x65]

  lemma StorageText()
    ensures STORAGE == Text("_storage")
  {
  }

  lemma LowAndDeepText()
    ensures LOW_STORAGE == LOW + STORAGE && DEEP_STORAGE == DEEP + STORAGE
  {
  }

  lemma SingleCharacters()
    ensures SLASH == Ascii('/') && DOT == Ascii('.') && NUL == 0 && UrlCodec.PERCENT == Ascii('%')
  {
  }

  // ---- Which request it is ----

  /** Every path that is neither a download nor an upload, decided by its decoded text. */
  lemma OtherRequests(cfg: Config, z: Zstd, s: StoreState, req: Request, s': StoreState, out: Outcome)
    requires Step(cfg, z, s, Serve(req), s', out)
    ensures
      var p := UrlCodec.Decoded(req.path);
      if p.Err? then out == Aborted && s' == s
      else if Contains(p.value, DOWNLOAD) || p.value == UPLOAD then true
      else s' == s && out == Replied([Reply(if p.value == [SLASH] then 200 else 404, None)])
  {
  }

  /** A text with `/download/` in it is a download of that text, whatever else it is. */
  lemma DownloadRequests(cfg: Config, z: Zstd, s: StoreState, req: Request, url: Bytes, s': StoreState, out: Outcome)
    requires Step(cfg, z, s, Serve(req), s', out)
    requires UrlCodec.Decoded(req.path) == Result<Bytes, UrlCodec.UrlError>.Ok(url) && Contains(url, DOWNLOAD)
    ensures s'.table == s.table && s'.persisted == s.persisted
    ensures
      var r := Download(cfg, z, s.files, if url in s.table then s.table[url].storagePath else []);
      s'.files == r.files && out == r.outcome
  {
  }

  // ---- Uploads ----

  predicate IsUpload(req: Request) {
    UrlCodec.Decoded(req.path) == Result<Bytes, UrlCodec.UrlError>.Ok(UPLOAD)
  }

  lemma UploadIsRouted(req: Request)
    requires IsUpload(req)
    ensures RouteOf(req.path) == ToUpload
  {
    NotContained(UPLOAD, DOWNLOAD);
  }

  lemma NotContained(s: Bytes, t: Bytes)
    requires |s| < |t|
    ensures !Contains(s, t)
  {
  }

  /** The uploads turned away: in this order, with these replies, and without a trace. */
  lemma RefusedUploads(cfg: Config, z: Zstd, s: StoreState, req: Request, s': StoreState, out: Outcome)
    requires IsUpload(req) && Step(cfg, z, s, Serve(req), s', out)
    requires req.body == [] || Base64.Decode(req.fileName).Err? || (req.storageType != LOW && req.storageType != DEEP)
    ensures s' == s
    ensures out ==
      if req.body != [] && Base64.Decode(req.fileName).Err? then Aborted else Replied([Reply(400, None)])
  {
    UploadIsRouted(req);
  }

  /** An upload that is not turned away succeeds, or fails on the disk: then nothing is changed but directories. */
  lemma OtherUploads(cfg: Config, z: Zstd, s: StoreState, req: Request, s': StoreState, out: Outcome)
    requires IsUpload(req) && Step(cfg, z, s, Serve(req), s', out)
    requires req.body != [] && Base64.Decode(req.fileName).Ok? && (req.storageType == LOW || req.storageType == DEEP)
    ensures out == Replied([Reply(200, None)]) || out == Replied([Reply(500, None)]) || out == Aborted
    ensures out != Replied([Reply(200, None)]) ==>
      s'.table == s.table && s'.persisted == s.persisted && s'.files.contents == s.files.contents
    ensures out == Aborted <==> !s.files.CanMake(if req.storageType == LOW then cfg.lowDir else cfg.deepDir)
  {
    UploadIsRouted(req);
  }

  /** The path an upload of that type and name goes to. */
  function PathFor(cfg: Config, kind: Bytes, name: Bytes): Bytes {
    (if kind == LOW then cfg.lowDir else cfg.deepDir) + name
  }

  /** The file a successful upload writes, and no other. */
  lemma UploadedFile(cfg: Config, z: Zstd, s: StoreState, name: Bytes, req: Request, s': StoreState, out: Outcome)
    requires IsUpload(req) && Step(cfg, z, s, Serve(req), s', out) && out == Replied([Reply(200, None)])
    requires Base64.Decode(req.fileName) == Result<Bytes, Base64.DecodeError>.Ok(name)
    ensures req.body != [] && (req.storageType == LOW || req.storageType == DEEP)
    ensures
      var path := PathFor(cfg, req.storageType, name);
      var data := if Contains(path, LOW_STORAGE) then req.body else z.pack(req.body);
      data != [] && s'.files.contents == s.files.contents[CStr(path) := data]
  {
    UploadIsRouted(req);
  }

  /**
   * The entry it makes, field by field: the access time goes into `mtime_` and the modification time into
   * `atime_`, the size is that of the file written, in 64 bits; and it is persisted with the others.
   */
  lemma UploadedEntry(cfg: Config, z: Zstd, s: StoreState, name: Bytes, req: Request, s': StoreState, out: Outcome)
    requires IsUpload(req) && Step(cfg, z, s, Serve(req), s', out) && out == Replied([Reply(200, None)])
    requires Base64.Decode(req.fileName) == Result<Bytes, Base64.DecodeError>.Ok(name)
    ensures
      var path := PathFor(cfg, req.storageType, name);
      var url := cfg.prefix + FileName(path);
      && CStr(path) in s'.files.contents && url in s'.table
      && var e, size := s'.table[url], |s'.files.contents[CStr(path)]|;
      && e.mtime == req.accessed && e.atime == req.modified && e.fsize == size % 0x1_0000_0000_0000_0000
      && e.storagePath == path && e.url == url
      && s'.table == s.table[url := e] && s'.persisted.Some? && IsSave(s'.persisted.value, s'.table)
  {
    UploadIsRouted(req);
    UploadedFile(cfg, z, s, name, req, s', out);
  }

  // ---- Downloads of what is not there ----

  predicate IsDownload(req: Request, url: Bytes) {
    UrlCodec.Decoded(req.path) == Result<Bytes, UrlCodec.UrlError>.Ok(url) && Contains(url, DOWNLOAD)
  }

  /** Whether anything lies in the directory. */
  predicate Used(files: Files, dir: Bytes) {
    || (exists p :: p in files.contents && IsPrefix(dir, p))
    || (exists d :: d in files.dirs && d != dir && IsPrefix(dir, d))
  }

  /**
   * An unknown URL: its empty path leads to the low directory itself, which is made if need be, answered for
   * with a 200, and removed again if it is empty.
   */
  lemma UnknownUrl(cfg: Config, z: Zstd, s: StoreState, req: Request, url: Bytes, s': StoreState, out: Outcome)
    requires ValidConfig(cfg) && Sound(cfg, s.files) && IsDownload(req, url) && url !in s.table
    requires Step(cfg, z, s, Serve(req), s', out)
    ensures out == Replied([Reply(200, None)])
    ensures s'.table == s.table && s'.persisted == s.persisted && s'.files.contents == s.files.contents
    ensures cfg.lowDir in s'.files.dirs <==> Used(s.files, cfg.lowDir)
    ensures forall d :: d in s.files.dirs && d != cfg.lowDir ==> d in s'.files.dirs
  {
    var made := s.files.MakeDirectory(cfg.lowDir);
    NoPathIsDeep(cfg);
    DirectoryMade(cfg, s.files, cfg.lowDir);
    NoFileCalledNothing(s.files);
    CStrIdentity(cfg.lowDir);
    LowScratchOfNothing(cfg, z, made);
    MadeIsAsUsed(cfg, s.files);
  }

  lemma NoPathIsDeep(cfg: Config)
    requires ValidConfig(cfg)
    ensures IsDeep(cfg, []) && Scratch(cfg, []) == cfg.lowDir
  {
  }

  lemma NoFileCalledNothing(f: Files)
    requires f.WellFormed()
    ensures f.Get([]).None? && forall d :: d in f.contents ==> d != []
  {
  }

  lemma LowScratchOfNothing(cfg: Config, z: Zstd, made: Files)
    requires ValidConfig(cfg) && Sound(cfg, made) && cfg.lowDir in made.dirs
    ensures made.Exists(cfg.lowDir) && made.Get(cfg.lowDir).None? && AsDirectory(CStr(cfg.lowDir)) == cfg.lowDir
  {
    CStrIdentity(cfg.lowDir);
    assert FileName(cfg.lowDir) == [];
  }

  lemma MadeIsAsUsed(cfg: Config, files: Files)
    requires ValidConfig(cfg) && Sound(cfg, files)
    ensures files.MakeDirectory(cfg.lowDir).EmptyDirectory(cfg.lowDir) <==> !Used(files, cfg.lowDir)
  {
    DirectoryMade(cfg, files, cfg.lowDir);
    var made := files.MakeDirectory(cfg.lowDir);
    forall d | d in made.dirs && d != cfg.lowDir && IsPrefix(cfg.lowDir, d) ensures d in files.dirs {
      assert d[..|d|] == d;
    }
  }

  /** A low entry whose file is gone: one reply, or two if its path mentions the deep storage. */
  lemma MissingFile(cfg: Config, z: Zstd, s: StoreState, req: Request, url: Bytes, s': StoreState, out: Outcome)
    requires IsDownload(req, url) && url in s.table && Contains(s.table[url].storagePath, cfg.lowDir)
    requires !s.files.Exists(s.table[url].storagePath)
    requires Step(cfg, z, s, Serve(req), s', out)
    ensures s' == s
    ensures
      var path := s.table[url].storagePath;
      out == Replied(
        if Contains(path, DEEP_STORAGE) then [Reply(500, None), Reply(404, None)]
        else if !Contains(path, LOW_STORAGE) then [Reply(400, None), Reply(404, None)]
        else [Reply(404, None)])
  {
  }

  /** A deep entry whose file is gone, with no file or directory of its name in the low directory: the same. */
  lemma MissingDeepFile(cfg: Config, z: Zstd, s: StoreState, req: Request, url: Bytes, s': StoreState, out: Outcome)
    requires IsDownload(req, url) && url in s.table && !Contains(s.table[url].storagePath, cfg.lowDir)
    requires s.files.Get(s.table[url].storagePath).None? && s.files.CanMake(cfg.lowDir)
    requires !s.files.MakeDirectory(cfg.lowDir).Exists(cfg.lowDir + FileName(s.table[url].storagePath))
    requires Step(cfg, z, s, Serve(req), s', out)
    ensures s' == s.(files := s.files.MakeDirectory(cfg.lowDir))
    ensures
      var path := s.table[url].storagePath;
      out == Replied(
        if Contains(path, DEEP_STORAGE) then [Reply(500, None), Reply(404, None)]
        else if !Contains(path, LOW_STORAGE) then [Reply(400, None), Reply(404, None)]
        else [Reply(404, None)])
  {
  }
}
