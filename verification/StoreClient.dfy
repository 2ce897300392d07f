/** What a client of the server can rely on: uploads that succeed, files that come back, and the names to avoid. */
module StoreClient {
  import opened Common
  import opened Paths
  import opened Files
  import opened DataManager
  import opened Service
  import opened StoreRefinement
  import Base64
  import Base64Laws
  import UrlCodec

  /** Storage.conf as shipped: "/download/", "./deep_storage/", "./low_storage/". */
  const SHIPPED: Config := Config(
    DOWNLOAD,
    [0x2e, SLASH] + DEEP_STORAGE + [SLASH],
    [0x2e, SLASH] + LOW_STORAGE + [SLASH])

  lemma {:induction false} MissingByte(s: Bytes, t: Bytes)
    requires t != [] && t[0] !in s
    ensures !Contains(s, t)
  {
    if |t| <= |s| {
      assert s[..|t|][0] == s[0];
      MissingByte(s[1..], t);
    }
  }

  lemma ShippedConfigIsValid()
    ensures ValidConfig(SHIPPED) && Contains(SHIPPED.prefix, DOWNLOAD)
  {
    ContainsSelf(DOWNLOAD);
    ContainsInside([0x2e, SLASH], LOW_STORAGE, [SLASH]);
    assert LOW_STORAGE[0] == 0x6c && 0x6c !in SHIPPED.deepDir;
    MissingByte(SHIPPED.deepDir, LOW_STORAGE);
  }

  lemma ContainsInside(a: Bytes, t: Bytes, b: Bytes)
    ensures Contains(a + t + b, t)
  {
    ContainsSelf(t);
    ContainsRight(a, t, t);
    ContainsLeft(a + t, b, t);
  }

  // ---- Addresses ----

  lemma {:induction false} LiteralDecodes(s: Bytes)
    requires UrlCodec.PERCENT !in s
    ensures UrlCodec.Decoded(s) == Ok(s)
  {
    if s != [] {
      LiteralDecodes(s[1..]);
      assert [s[0]] + s[1..] == s;
    }
  }

  lemma UploadRoute()
    ensures RouteOf(UPLOAD) == ToUpload
  {
    LiteralDecodes(UPLOAD);
  }

  /** Any escaping of `prefix + name` that covers the percent signs reaches the entry of that name. */
  lemma DownloadRoute(cfg: Config, name: Bytes, mask: seq<UrlCodec.Spelling>)
    requires Contains(cfg.prefix, DOWNLOAD) && |mask| == |cfg.prefix + name|
    requires UrlCodec.EscapesPercents(cfg.prefix + name, mask)
    ensures RouteOf(UrlCodec.Escape(cfg.prefix + name, mask)) == ToDownload(cfg.prefix + name)
  {
    UrlCodec.EscapeRoundTrip(cfg.prefix + name, mask);
    ContainsLeft(cfg.prefix, name, DOWNLOAD);
  }

  /** A text that ends in a slash cannot occur past the last slash of a path. */
  lemma ContainsBeforeName(dir: Bytes, name: Bytes, t: Bytes)
    requires EndsInSlash(t) && SLASH !in name && Contains(dir + name, t)
    ensures Contains(dir, t)
  {
    var s := dir + name;
    var i := Occurrence(s, t);
    assert s[i..i + |t|][|t| - 1] == s[i + |t| - 1];
    assert i + |t| <= |dir|;
    assert dir[i..i + |t|] == s[i..i + |t|];
    ContainsAt(dir, t, i);
  }

  lemma PlainDeepTargetIsDeep(cfg: Config, name: Bytes)
    requires ValidConfig(cfg) && SLASH !in name
    ensures IsDeep(cfg, cfg.deepDir + name)
  {
    if !IsDeep(cfg, cfg.deepDir + name) {
      ContainsBeforeName(cfg.deepDir, name, cfg.lowDir);
      ContainsTransitive(cfg.deepDir, cfg.lowDir, LOW_STORAGE);
      assert false;
    }
  }

  // ---- Uploading ----

  /** The upload a client sends for a file name, in either base64 alphabet. */
  function UploadRequest(name: Bytes, url: bool, kind: Bytes, body: Bytes, accessed: int, modified: int): Request {
    Request(UPLOAD, Base64.Encode(name, url), kind, body, accessed, modified)
  }

  /** In a reachable state, an upload into one of the two directories succeeds exactly when all of this holds. */
  predicate Accepted(cfg: Config, z: Zstd, files: Files, name: Bytes, kind: Bytes, body: Bytes)
    requires kind == LOW || kind == DEEP
  {
    var dir, file := StorageDir(cfg, kind).value, CStr(name);
    && file != [] && !Dots(file) && dir + file + [SLASH] !in files.dirs
    && body != [] && BytesToStore(z, dir + name, body).Some?
  }

  lemma UploadSucceeds(
    cfg: Config, z: Zstd, s: StoreState, m: Contents, name: Bytes, url: bool, kind: Bytes, body: Bytes,
    accessed: int, modified: int, s': StoreState, out: Outcome)
    requires ValidConfig(cfg) && Represents(cfg, z, s, m) && (kind == LOW || kind == DEEP) && SLASH !in name
    requires Step(cfg, z, s, Serve(UploadRequest(name, url, kind, body, accessed, modified)), s', out)
    ensures out == Replied(OK) <==> Accepted(cfg, z, s.files, name, kind, body)
  {
    var dir := StorageDir(cfg, kind).value;
    UploadRoute();
    Base64Laws.RoundTrip(name, url);
    DirectoryMade(cfg, s.files, dir);
    NameOpens(s.files.MakeDirectory(dir), dir, name);
    NotInTheWay(cfg, dir, CStr(name), dir);
  }

  lemma NameOpens(f: Files, dir: Bytes, name: Bytes)
    requires f.WellFormed() && dir in f.dirs && NUL !in dir && SLASH !in name
    ensures f.Openable(dir + name) <==>
      CStr(name) != [] && !Dots(CStr(name)) && dir + CStr(name) + [SLASH] !in f.dirs
  {
    CStrAppend(dir, name);
    CStrSlash(name);
    FileNameIn(dir, CStr(name));
  }

  /** Whether what is stored for `name` is what a download gives back; `files` are those before the upload. */
  predicate ComesBack(cfg: Config, z: Zstd, files: Files, name: Bytes, kind: Bytes, body: Bytes) {
    || kind == LOW
    || ((!Contains(name, LOW_STORAGE) || z.unpack(body) == body) && cfg.lowDir + name + [SLASH] !in files.dirs)
  }

  /**
   * Upload, then download through any sufficient percent-escaping: the reply carries the uploaded bytes
   * exactly under a condition that can be checked before the upload.
   */
  lemma UploadThenDownload(
    cfg: Config, z: Zstd, s: StoreState, m: Contents, name: Bytes, url: bool, up: Request, down: Request,
    mask: seq<UrlCodec.Spelling>,
    s1: StoreState, s2: StoreState, out1: Outcome, out2: Outcome)
    requires ValidConfig(cfg) && Lossless(z) && Contains(cfg.prefix, DOWNLOAD) && Invariant(cfg, z, s, m) && Plain(name)
    requires up == UploadRequest(name, url, up.storageType, up.body, up.accessed, up.modified)
    requires up.storageType == LOW || up.storageType == DEEP
    requires |mask| == |cfg.prefix + name| && UrlCodec.EscapesPercents(cfg.prefix + name, mask)
    requires down.path == UrlCodec.Escape(cfg.prefix + name, mask)
    requires Admissible(cfg, z, PathsOf(s.table), Serve(up), out1)
    requires Step(cfg, z, s, Serve(up), s1, out1) && out1 == Replied(OK)
    requires Step(cfg, z, s1, Serve(down), s2, out2)
    ensures
      out2 == Replied([Reply(200, Some(up.body))]) <==> ComesBack(cfg, z, s.files, name, up.storageType, up.body)
  {
    DownloadRoute(cfg, name, mask);
    Meant(cfg, name, url, up);
    var m1 := Held(cfg, z, s, m, name, up, s1, out1);
    StepReplies(cfg, z, s1, m1, cfg.prefix + name, Serve(down), s2, out2);
    ComesBackExactly(cfg, z, s1.files, name, up);
  }

  /** The state after a successful upload: the map has its content, and the table its path. */
  lemma Held(cfg: Config, z: Zstd, s: StoreState, m: Contents, name: Bytes, up: Request, s1: StoreState, out1: Outcome)
    returns (m1: Contents)
    requires ValidConfig(cfg) && Invariant(cfg, z, s, m) && NUL !in name
    requires RouteOf(up.path) == ToUpload && Addressed(cfg, up) && Base64.Decode(up.fileName).value == name
    requires Admissible(cfg, z, PathsOf(s.table), Serve(up), out1)
    requires Step(cfg, z, s, Serve(up), s1, out1) && out1 == Replied(OK)
    ensures Represents(cfg, z, s1, m1) && UrlOf(cfg, up) in m1 && m1[UrlOf(cfg, up)] == Delivered(cfg, z, up)
    ensures PathOf(s1.table, UrlOf(cfg, up)) == Target(cfg, up)
    ensures BytesToStore(z, Target(cfg, up), up.body).Some?
    ensures cfg.lowDir + name + [SLASH] in s1.files.dirs <==> cfg.lowDir + name + [SLASH] in s.files.dirs
  {
    m1 := NextContents(cfg, z, m, Serve(up), out1);
    StepRefines(cfg, z, s, m, Serve(up), s1, out1);
    Stored(cfg, z, s, name, up, s1, out1);
  }

  lemma ComesBackExactly(cfg: Config, z: Zstd, files: Files, name: Bytes, up: Request)
    requires ValidConfig(cfg) && Lossless(z) && Plain(name)
    requires Addressed(cfg, up) && Base64.Decode(up.fileName).value == name
    requires BytesToStore(z, Target(cfg, up), up.body).Some?
    ensures Delivered(cfg, z, up) == up.body && !Blocked(cfg, files, Target(cfg, up)) <==>
      ComesBack(cfg, z, files, name, up.storageType, up.body)
  {
    DeliveredExactly(cfg, z, up);
    BlockedExactly(cfg, files, name, up);
    PlainDeepTargetIsDeep(cfg, name);
  }

  lemma BlockedExactly(cfg: Config, files: Files, name: Bytes, up: Request)
    requires ValidConfig(cfg) && Plain(name)
    requires Addressed(cfg, up) && Base64.Decode(up.fileName).value == name
    ensures Blocked(cfg, files, Target(cfg, up)) <==>
      up.storageType != LOW && cfg.lowDir + name + [SLASH] in files.dirs
  {
    CStrIdentity(name);
    if up.storageType == LOW {
      ContainsSelf(cfg.lowDir);
      ContainsLeft(cfg.lowDir, name, cfg.lowDir);
    } else {
      PlainDeepTargetIsDeep(cfg, name);
      FileNameIn(cfg.deepDir, name);
    }
  }

  lemma Meant(cfg: Config, name: Bytes, url: bool, up: Request)
    requires up == UploadRequest(name, url, up.storageType, up.body, up.accessed, up.modified)
    requires (up.storageType == LOW || up.storageType == DEEP) && EndsInSlash(cfg.lowDir) && EndsInSlash(cfg.deepDir)
    requires SLASH !in name
    ensures RouteOf(up.path) == ToUpload && Addressed(cfg, up)
    ensures Base64.Decode(up.fileName).value == name
    ensures Target(cfg, up) == StorageDir(cfg, up.storageType).value + name && UrlOf(cfg, up) == cfg.prefix + name
  {
    UploadRoute();
    Base64Laws.RoundTrip(name, url);
    FileNameIn(StorageDir(cfg, up.storageType).value, name);
  }

  /** What a successful upload inserts, and that it makes no directory in the low one. */
  lemma StoredEntry(cfg: Config, z: Zstd, files: Files, name: Bytes, up: Request)
    requires ValidConfig(cfg) && Sound(cfg, files) && NUL !in name
    requires Addressed(cfg, up) && Base64.Decode(up.fileName).value == name
    requires Upload(cfg, z, files, up).inserted.Some?
    ensures BytesToStore(z, Target(cfg, up), up.body).Some?
    ensures
      var r := Upload(cfg, z, files, up);
      && r.inserted.value.url == UrlOf(cfg, up) && r.inserted.value.storagePath == Target(cfg, up)
      && (cfg.lowDir + name + [SLASH] in r.files.dirs <==> cfg.lowDir + name + [SLASH] in files.dirs)
  {
    var dir := StorageDir(cfg, up.storageType).value;
    UploadWrites(cfg, z, files, up);
    DirectoryMade(cfg, files, dir);
    NotInTheWay(cfg, cfg.lowDir, name, dir);
  }

  /** Where a successful upload leaves the entry, and which directories it makes. */
  lemma Stored(cfg: Config, z: Zstd, s: StoreState, name: Bytes, up: Request, s1: StoreState, out1: Outcome)
    requires ValidConfig(cfg) && Sound(cfg, s.files) && NUL !in name
    requires RouteOf(up.path) == ToUpload && Addressed(cfg, up) && Base64.Decode(up.fileName).value == name
    requires Step(cfg, z, s, Serve(up), s1, out1) && out1 == Replied(OK)
    ensures BytesToStore(z, Target(cfg, up), up.body).Some?
    ensures PathOf(s1.table, UrlOf(cfg, up)) == Target(cfg, up)
    ensures cfg.lowDir + name + [SLASH] in s1.files.dirs <==> cfg.lowDir + name + [SLASH] in s.files.dirs
  {
    UploadEffect(cfg, z, s.files, up);
    StoredEntry(cfg, z, s.files, name, up);
  }

  // ---- Where it fails ----

  /** One plain upload with a time past 2038 from a first start, and the server does not come up again. */
  lemma LateTimeStopsTheServer(
    cfg: Config, z: Zstd, s: StoreState, name: Bytes, url: bool, up: Request,
    s1: StoreState, s2: StoreState, out1: Outcome, out2: Outcome)
    requires ValidConfig(cfg) && Initial(cfg, s) && Plain(name)
    requires up == UploadRequest(name, url, LOW, up.body, up.accessed, up.modified)
    requires up.body != [] && !FitsInt(up.modified) && cfg.lowDir + name + [SLASH] !in s.files.dirs
    requires Step(cfg, z, s, Serve(up), s1, out1) && Step(cfg, z, s1, Restart, s2, out2)
    ensures out1 == Replied(OK) && out2 == Aborted
  {
    LowPathIsRaw(cfg, name);
    CStrIdentity(name);
    UploadSucceeds(cfg, z, s, map[], name, url, LOW, up.body, up.accessed, up.modified, s1, out1);
    Meant(cfg, name, url, up);
    UploadEffect(cfg, z, s.files, up);
    UploadWrites(cfg, z, s.files, up);
    assert !FitsInts(s1.table[UrlOf(cfg, up)]);
    LoadThrows(s1.persisted.value, s1.table);
  }

  lemma LowPathIsRaw(cfg: Config, name: Bytes)
    requires ValidConfig(cfg)
    ensures Contains(cfg.lowDir + name, LOW_STORAGE)
  {
    ContainsLeft(cfg.lowDir, name, LOW_STORAGE);
  }

  /** A deep upload of packed data under a name that mentions low storage comes back unpacked. */
  lemma PackedBodyComesBackUnpacked(cfg: Config, z: Zstd, up: Request, x: Bytes)
    requires ValidConfig(cfg) && Lossless(z) && z.pack(x) != [] && z.pack(x) != x
    requires Addressed(cfg, up) && up.storageType == DEEP && up.body == z.pack(x)
    requires
      var name := Base64.Decode(up.fileName).value;
      SLASH !in name && Contains(name, LOW_STORAGE)
    ensures Delivered(cfg, z, up) == x != up.body
  {
    var name := Base64.Decode(up.fileName).value;
    PlainDeepTargetIsDeep(cfg, name);
    ContainsRight(cfg.deepDir, name, LOW_STORAGE);
  }

  /** A directory of the same name in the low directory is served in place of a deep entry. */
  lemma DirectoryHidesDeepEntry(
    cfg: Config, z: Zstd, s: StoreState, name: Bytes, url: bool, up: Request, down: Request,
    s1: StoreState, s2: StoreState, out1: Outcome, out2: Outcome)
    requires ValidConfig(cfg) && Initial(cfg, s) && Plain(name) && cfg.lowDir + name + [SLASH] in s.files.dirs
    requires up == UploadRequest(name, url, DEEP, up.body, up.accessed, up.modified) && Addressed(cfg, up)
    requires Accepted(cfg, z, s.files, name, DEEP, up.body) && Storable(cfg, z, up)
    requires RouteOf(down.path) == ToDownload(cfg.prefix + name)
    requires Step(cfg, z, s, Serve(up), s1, out1) && Step(cfg, z, s1, Serve(down), s2, out2)
    ensures out1 == Replied(OK) && out2 == Replied([Reply(200, None)])
  {
    UploadSucceeds(cfg, z, s, map[], name, url, DEEP, up.body, up.accessed, up.modified, s1, out1);
    Meant(cfg, name, url, up);
    FirstIsAdmissible(cfg, z, s, up, out1);
    var m1 := Held(cfg, z, s, map[], name, up, s1, out1);
    StepReplies(cfg, z, s1, m1, cfg.prefix + name, Serve(down), s2, out2);
    BlockedExactly(cfg, s1.files, name, up);
  }

  lemma FirstIsAdmissible(cfg: Config, z: Zstd, s: StoreState, up: Request, out: Outcome)
    requires Initial(cfg, s) && RouteOf(up.path) == ToUpload && Addressed(cfg, up) && Storable(cfg, z, up)
    ensures Admissible(cfg, z, PathsOf(s.table), Serve(up), out) && Invariant(cfg, z, s, map[])
  {
  }

  // ---- Names with a NUL ----

  /** A non-empty low upload of the given name. */
  predicate LowUploadOf(req: Request, name: Bytes) {
    && RouteOf(req.path) == ToUpload && Base64.Decode(req.fileName) == Result<Bytes, Base64.DecodeError>.Ok(name)
    && req.storageType == LOW && req.body != []
  }

  /** The slash-free name can be opened in the low directory, NUL or not. */
  predicate LowTarget(cfg: Config, files: Files, name: Bytes) {
    SLASH !in name && Plain(CStr(name)) && cfg.lowDir + CStr(name) + [SLASH] !in files.dirs
  }

  /**
   * Files are opened by C strings but the table is keyed by whole names: of two low uploads under different
   * names, the first keeps its content exactly if the names differ before any NUL (or the bodies are equal).
   */
  lemma TwoLowUploads(
    cfg: Config, z: Zstd, s: StoreState, a: Bytes, b: Bytes, first: Request, second: Request, down: Request,
    s1: StoreState, s2: StoreState, s3: StoreState, out1: Outcome, out2: Outcome, out3: Outcome)
    requires ValidConfig(cfg) && Sound(cfg, s.files) && a != b
    requires LowTarget(cfg, s.files, a) && LowTarget(cfg, s.files, b)
    requires LowUploadOf(first, a) && LowUploadOf(second, b)
    requires RouteOf(down.path) == ToDownload(cfg.prefix + a)
    requires Step(cfg, z, s, Serve(first), s1, out1)
    requires Step(cfg, z, s1, Serve(second), s2, out2)
    requires Step(cfg, z, s2, Serve(down), s3, out3)
    ensures out1 == out2 == Replied(OK)
    ensures out3 == Replied([Reply(200, Some(if CStr(a) == CStr(b) then second.body else first.body))])
  {
    LowUpload(cfg, z, s, a, b, first, s1, out1);
    LowUpload(cfg, z, s1, b, a, second, s2, out2);
    assert (cfg.prefix + a)[|cfg.prefix|..] == a && (cfg.prefix + b)[|cfg.prefix|..] == b;
    assert (cfg.lowDir + CStr(a))[|cfg.lowDir|..] == CStr(a) && (cfg.lowDir + CStr(b))[|cfg.lowDir|..] == CStr(b);
    LowReply(cfg, z, s2, a, down, s3, out3);
  }

  /** So a name with a NUL loses its content to the name cut off there. */
  lemma NulNameLosesContent(
    cfg: Config, z: Zstd, s: StoreState, name: Bytes, first: Request, second: Request, down: Request,
    s1: StoreState, s2: StoreState, s3: StoreState, out1: Outcome, out2: Outcome, out3: Outcome)
    requires ValidConfig(cfg) && Sound(cfg, s.files)
    requires NUL in name && LowTarget(cfg, s.files, name)
    requires LowUploadOf(first, name) && LowUploadOf(second, CStr(name))
    requires RouteOf(down.path) == ToDownload(cfg.prefix + name)
    requires Step(cfg, z, s, Serve(first), s1, out1)
    requires Step(cfg, z, s1, Serve(second), s2, out2)
    requires Step(cfg, z, s2, Serve(down), s3, out3)
    ensures out1 == out2 == Replied(OK)
    ensures cfg.prefix + name != cfg.prefix + CStr(name)
    ensures out3 == Replied([Reply(200, Some(second.body))])
  {
    CStrIdentity(CStr(name));
    CStrIdentity(name);
    CStrSlash(name);
    assert (cfg.prefix + name)[|cfg.prefix|..] == name;
    assert (cfg.prefix + CStr(name))[|cfg.prefix|..] == CStr(name);
    TwoLowUploads(cfg, z, s, name, CStr(name), first, second, down, s1, s2, s3, out1, out2, out3);
  }

  /** A low file survives the download of a deep entry, exactly if the names differ before any NUL. */
  lemma ScratchTakes(cfg: Config, z: Zstd, files: Files, a: Bytes, b: Bytes)
    requires ValidConfig(cfg) && Sound(cfg, files) && SLASH !in a && SLASH !in b
    requires cfg.lowDir + CStr(b) in files.contents
    ensures
      var p, after := cfg.lowDir + CStr(b), Download(cfg, z, files, cfg.deepDir + a).files.contents;
      (p in after && after[p] == files.contents[p]) <==> CStr(a) != CStr(b)
  {
    DownloadFiles(cfg, z, files, cfg.deepDir + a);
    PlainDeepTargetIsDeep(cfg, a);
    FileNameIn(cfg.deepDir, a);
    ScratchFile(cfg, cfg.deepDir + a);
    assert (cfg.lowDir + CStr(a))[|cfg.lowDir|..] == CStr(a) && (cfg.lowDir + CStr(b))[|cfg.lowDir|..] == CStr(b);
  }

  /**
   * A read that destroys: `a` is uploaded deep and `b` low, under different names; a download of `a` then
   * removes the file of `b`, so that `b` cannot be downloaded any more, exactly if they differ only after a NUL.
   */
  lemma DeepDownloadTakesLowFile(
    cfg: Config, z: Zstd, s: StoreState, a: Bytes, b: Bytes, first: Request, second: Request,
    third: Request, fourth: Request, s1: StoreState, s2: StoreState, s3: StoreState, s4: StoreState,
    out1: Outcome, out2: Outcome, out3: Outcome, out4: Outcome)
    requires ValidConfig(cfg) && Sound(cfg, s.files) && a != b && SLASH !in a
    requires RouteOf(first.path) == ToUpload && Base64.Decode(first.fileName) == Result<Bytes, Base64.DecodeError>.Ok(a)
    requires first.storageType == DEEP && LowUploadOf(second, b) && LowTarget(cfg, s1.files, b)
    requires RouteOf(third.path) == ToDownload(cfg.prefix + a)
    requires RouteOf(fourth.path) == ToDownload(cfg.prefix + b)
    requires Step(cfg, z, s, Serve(first), s1, out1) && out1 == Replied(OK)
    requires Step(cfg, z, s1, Serve(second), s2, out2)
    requires Step(cfg, z, s2, Serve(third), s3, out3)
    requires Step(cfg, z, s3, Serve(fourth), s4, out4)
    ensures out2 == Replied(OK)
    ensures out4 == Replied([Reply(200, Some(second.body))]) <==> CStr(a) != CStr(b)
  {
    DeepEntry(cfg, z, s, a, first, s1, out1);
    assert (cfg.prefix + a)[|cfg.prefix|..] == a && (cfg.prefix + b)[|cfg.prefix|..] == b;
    LowUpload(cfg, z, s1, b, b, second, s2, out2);
    DeepDownload(cfg, z, s2, a, third, s3, out3);
    ScratchTakes(cfg, z, s2.files, a, b);
    LowReply(cfg, z, s3, b, fourth, s4, out4);
  }

  lemma DeepEntry(cfg: Config, z: Zstd, s: StoreState, a: Bytes, up: Request, s': StoreState, out: Outcome)
    requires ValidConfig(cfg) && Sound(cfg, s.files) && SLASH !in a
    requires RouteOf(up.path) == ToUpload && Base64.Decode(up.fileName) == Result<Bytes, Base64.DecodeError>.Ok(a)
    requires up.storageType == DEEP && Step(cfg, z, s, Serve(up), s', out) && out == Replied(OK)
    ensures Sound(cfg, s'.files) && PathOf(s'.table, cfg.prefix + a) == cfg.deepDir + a
  {
    UploadEffect(cfg, z, s.files, up);
    UploadWrites(cfg, z, s.files, up);
    FileNameIn(cfg.deepDir, a);
  }

  lemma DeepDownload(cfg: Config, z: Zstd, s: StoreState, a: Bytes, down: Request, s': StoreState, out: Outcome)
    requires ValidConfig(cfg) && Sound(cfg, s.files) && PathOf(s.table, cfg.prefix + a) == cfg.deepDir + a
    requires RouteOf(down.path) == ToDownload(cfg.prefix + a) && Step(cfg, z, s, Serve(down), s', out)
    ensures s'.files == Download(cfg, z, s.files, cfg.deepDir + a).files && s'.table == s.table && Sound(cfg, s'.files)
  {
    DownloadFiles(cfg, z, s.files, cfg.deepDir + a);
  }

  /** What is replied for a low entry: the content of its file, if that is there. */
  lemma LowReply(cfg: Config, z: Zstd, s: StoreState, name: Bytes, down: Request, s': StoreState, out: Outcome)
    requires ValidConfig(cfg) && Sound(cfg, s.files) && SLASH !in name
    requires RouteOf(down.path) == ToDownload(cfg.prefix + name)
    requires PathOf(s.table, cfg.prefix + name) == cfg.lowDir + name && Step(cfg, z, s, Serve(down), s', out)
    ensures
      var p := cfg.lowDir + CStr(name);
      if p in s.files.contents then out == Replied([Reply(200, Some(s.files.contents[p]))])
      else out.Replied? && |out.replies| > 0 && out.replies[0].body.None?
  {
    CStrAppend(cfg.lowDir, name);
    ContainsSelf(cfg.lowDir);
    ContainsLeft(cfg.lowDir, name, cfg.lowDir);
  }

  lemma LowUpload(
    cfg: Config, z: Zstd, s: StoreState, name: Bytes, other: Bytes, up: Request, s': StoreState, out: Outcome)
    requires ValidConfig(cfg) && Sound(cfg, s.files) && LowTarget(cfg, s.files, name)
    requires LowUploadOf(up, name) && LowTarget(cfg, s.files, other)
    requires Step(cfg, z, s, Serve(up), s', out)
    ensures out == Replied(OK) && Sound(cfg, s'.files) && cfg.lowDir in s'.files.dirs
    ensures LowTarget(cfg, s'.files, name) && LowTarget(cfg, s'.files, other)
    ensures s'.files.contents == s.files.contents[cfg.lowDir + CStr(name) := up.body]
    ensures cfg.prefix + name in s'.table && s'.table[cfg.prefix + name].storagePath == cfg.lowDir + name
    ensures forall k :: k in s.table && k != cfg.prefix + name ==> k in s'.table && s'.table[k] == s.table[k]
  {
    LowUploadResult(cfg, z, s.files, name, other, up);
  }

  lemma LowUploadResult(cfg: Config, z: Zstd, files: Files, name: Bytes, other: Bytes, up: Request)
    requires ValidConfig(cfg) && Sound(cfg, files) && LowTarget(cfg, files, name)
    requires LowUploadOf(up, name) && LowTarget(cfg, files, other)
    ensures
      var r := Upload(cfg, z, files, up);
      && r.outcome == Replied(OK)
      && r.inserted.Some? && r.inserted.value.url == cfg.prefix + name
      && r.inserted.value.storagePath == cfg.lowDir + name
      && Sound(cfg, r.files) && cfg.lowDir in r.files.dirs
      && LowTarget(cfg, r.files, name) && LowTarget(cfg, r.files, other)
      && r.files.contents == files.contents[cfg.lowDir + CStr(name) := up.body]
  {
    var made := files.MakeDirectory(cfg.lowDir);
    DirectoryMade(cfg, files, cfg.lowDir);
    NotInTheWay(cfg, cfg.lowDir, CStr(name), cfg.lowDir);
    NotInTheWay(cfg, cfg.lowDir, CStr(other), cfg.lowDir);
    LowPath(cfg, made, name);
    WriteKeepsSound(cfg, made, cfg.lowDir, CStr(name), up.body);
  }

  lemma LowPath(cfg: Config, files: Files, name: Bytes)
    requires ValidConfig(cfg) && files.WellFormed() && LowTarget(cfg, files, name) && cfg.lowDir in files.dirs
    ensures
      var path := cfg.lowDir + name;
      && CStr(path) == cfg.lowDir + CStr(name) && FileName(path) == name
      && files.Openable(path) && files.Openable(CStr(path)) && CStr(CStr(path)) == CStr(path)
      && FileName(CStr(path)) == CStr(name) && Contains(path, LOW_STORAGE) && Contains(path, cfg.lowDir)
  {
    FileNameIn(cfg.lowDir, name);
    FileNameIn(cfg.lowDir, CStr(name));
    CStrAppend(cfg.lowDir, name);
    PlainNameOpens(files, cfg.lowDir, CStr(name));
    ContainsSelf(cfg.lowDir);
    ContainsLeft(cfg.lowDir, name, LOW_STORAGE);
    ContainsLeft(cfg.lowDir, name, cfg.lowDir);
  }
}
