/** The HTTP handlers of src/server/Service.hpp as operations on files, table and persisted records. */
module Service {
  import opened Common
  import opened Paths
  import opened Files
  import opened DataManager
  import Base64
  import LineBreaks
  import UrlCodec

  /** The fields of Config that the handlers read. */
  datatype Config = Config(prefix: Bytes, deepDir: Bytes, lowDir: Bytes)

  /** `zstd_wrapper::pack`, empty on error, and `zstd_wrapper::unpack`. */
  datatype Zstd = Zstd(pack: Bytes -> Bytes, unpack: Bytes -> Bytes)

  /**
   * The path, two headers and body of a request, with the times that `stat` will report for the file
   * written while it is served.
   */
  datatype Request = Request(
    path: Bytes, fileName: Bytes, storageType: Bytes, body: Bytes, accessed: int, modified: int)

  datatype Op = Serve(request: Request) | Restart

  /** One reply sent; `Some` is a file's bytes, `None` a body this model does not describe. */
  datatype Reply = Reply(status: int, body: Option<Bytes>)

  /** What the client or operator sees; `Aborted` is an uncaught exception or a failed assertion. */
  datatype Outcome = Replied(replies: seq<Reply>) | Restarted | Aborted

  datatype StoreState = StoreState(files: Files, table: Table, persisted: Option<seq<JsonRecord>>)

  // "low_storage", "deep_storage", "/download/", "/upload", "low", "deep"
  const LOW_STORAGE: Bytes := [0x6c, 0x6f, 0x77, 0x5f, 0x73, 0x74, 0x6f, 0x72, 0x61, 0x67, 0x65]
  const DEEP_STORAGE: Bytes := [0x64, 0x65, 0x65, 0x70, 0x5f, 0x73, 0x74, 0x6f, 0x72, 0x61, 0x67, 0x65]
  const DOWNLOAD: Bytes := [0x2f, 0x64, 0x6f, 0x77, 0x6e, 0x6c, 0x6f, 0x61, 0x64, 0x2f]
  const UPLOAD: Bytes := [0x2f, 0x75, 0x70, 0x6c, 0x6f, 0x61, 0x64]
  const LOW: Bytes := [0x6c, 0x6f, 0x77]
  const DEEP: Bytes := [0x64, 0x65, 0x65, 0x70]

  const OK: seq<Reply> := [Reply(200, None)]

  // ---- GenHandler ----

  datatype Route = ToDownload(url: Bytes) | ToUpload | ToList | NotFound | Crash

  function RouteOf(path: Bytes): Route {
    var p := UrlCodec.Decoded(path);
    if p.Err? then Crash
    else if Contains(p.value, DOWNLOAD) then ToDownload(p.value)
    else if p.value == UPLOAD then ToUpload
    else if p.value == [SLASH] then ToList
    else NotFound
  }

  // ---- Upload ----

  function StorageDir(cfg: Config, storageType: Bytes): Option<Bytes> {
    if storageType == LOW then Some(cfg.lowDir) else if storageType == DEEP then Some(cfg.deepDir) else None
  }

  /** What an upload writes at `path`: the raw bytes if the path mentions low storage, else the packed ones. */
  function BytesToStore(z: Zstd, path: Bytes, body: Bytes): Option<Bytes> {
    if Contains(path, LOW_STORAGE) then Some(body)
    else if z.pack(body) == [] then None
    else Some(z.pack(body))
  }

  /** `NewStorageInfo`; the two times are stored the wrong way round, as in the source. */
  function InfoOf(cfg: Config, path: Bytes, size: SizeT, accessed: int, modified: int): StorageInfo {
    StorageInfo(accessed, modified, size, path, cfg.prefix + FileName(path))
  }

  datatype UploadResult = UploadResult(files: Files, inserted: Option<StorageInfo>, outcome: Outcome)

  /** The second half of an upload, once the storage path is known. */
  function StoreAt(cfg: Config, z: Zstd, files: Files, path: Bytes, req: Request): UploadResult {
    var data := BytesToStore(z, path, req.body);
    if data.None? || !files.Openable(path) then UploadResult(files, None, Replied([Reply(500, None)]))
    else
      UploadResult(
        files.Write(path, data.value),
        Some(InfoOf(cfg, path, StoredSize(|data.value|), req.accessed, req.modified)),
        Replied(OK))
  }

  function Upload(cfg: Config, z: Zstd, files: Files, req: Request): UploadResult {
    var name := Base64.Decode(req.fileName);
    var dir := StorageDir(cfg, req.storageType);
    if req.body == [] then UploadResult(files, None, Replied([Reply(400, None)]))
    else if name.Err? then UploadResult(files, None, Aborted)
    else if dir.None? then UploadResult(files, None, Replied([Reply(400, None)]))
    else if !files.CanMake(dir.value) then UploadResult(files, None, Aborted)
    else StoreAt(cfg, z, files.MakeDirectory(dir.value), dir.value + name.value, req)
  }

  // ---- Download ----

  /** What a default-constructed StorageInfo has as its path when the URL is unknown. */
  function PathOf(t: Table, url: Bytes): Bytes {
    if url in t then t[url].storagePath else []
  }

  predicate IsDeep(cfg: Config, path: Bytes) { !Contains(path, cfg.lowDir) }

  function Scratch(cfg: Config, path: Bytes): Bytes { cfg.lowDir + FileName(path) }

  /** The files once a deep entry has been unpacked into the low directory. */
  function Unpacked(cfg: Config, z: Zstd, files: Files, path: Bytes): Files {
    var made := files.MakeDirectory(cfg.lowDir);
    var packed := made.Get(path);
    if packed.Some? && made.Openable(Scratch(cfg, path)) then made.Write(Scratch(cfg, path), z.unpack(packed.value))
    else made
  }

  /** `download_path`, and the files when it is about to be served. */
  function Served(cfg: Config, path: Bytes): Bytes {
    if IsDeep(cfg, path) then Scratch(cfg, path) else path
  }

  function Ready(cfg: Config, z: Zstd, files: Files, path: Bytes): Files {
    if IsDeep(cfg, path) then Unpacked(cfg, z, files, path) else files
  }

  datatype DownloadResult = DownloadResult(files: Files, outcome: Outcome)

  /**
   * The second half of a download of the entry stored at `path`: reply with the file `served`, then remove a
   * scratch copy.
   */
  function Respond(files: Files, served: Bytes, path: Bytes): DownloadResult {
    if !files.Exists(served) then
      var first :=
        if Contains(path, DEEP_STORAGE) then [Reply(500, None)]
        else if !Contains(path, LOW_STORAGE) then [Reply(400, None)]
        else [];
      DownloadResult(files, Replied(first + [Reply(404, None)]))
    else
      DownloadResult(
        if served != path then files.Unlink(served) else files,
        Replied([Reply(200, files.Get(served))]))
  }

  function Download(cfg: Config, z: Zstd, files: Files, path: Bytes): DownloadResult {
    if IsDeep(cfg, path) && !files.CanMake(cfg.lowDir) then DownloadResult(files, Aborted)
    else Respond(Ready(cfg, z, files, path), Served(cfg, path), path)
  }

  // ---- Steps ----

  /** One request or restart; only the order in which the table is persisted is left open. */
  ghost predicate Step(cfg: Config, z: Zstd, s: StoreState, op: Op, s': StoreState, out: Outcome) {
    match op
    case Restart =>
      var t := LoadedFile(s.persisted);
      if t.Some? then out == Restarted && s' == s.(table := t.value) else out == Aborted && s' == s
    case Serve(req) =>
      match RouteOf(req.path)
      case Crash => out == Aborted && s' == s
      case NotFound => out == Replied([Reply(404, None)]) && s' == s
      case ToList => out == Replied(OK) && s' == s
      case ToDownload(url) =>
        var r := Download(cfg, z, s.files, PathOf(s.table, url));
        out == r.outcome && s' == s.(files := r.files)
      case ToUpload =>
        var r := Upload(cfg, z, s.files, req);
        && out == r.outcome
        && s'.files == r.files
        && (if r.inserted.None? then s'.table == s.table && s'.persisted == s.persisted
            else
              && s'.table == s.table[r.inserted.value.url := r.inserted.value]
              && s'.persisted.Some? && IsSave(s'.persisted.value, s'.table))
  }

  /** The server process, its disk and its persisted table. */
  class Server {
    const cfg: Config
    const zstd: Zstd
    const disk: Disk
    const storageFile: RecordFile
    var data: Manager

    ghost predicate Valid()
      reads this, data
    {
      data.needPersist && data.file == storageFile
    }

    ghost function View(): StoreState
      reads this, disk, data, storageFile
    {
      StoreState(disk.View(), data.table, storageFile.body)
    }

    constructor (cfg: Config, zstd: Zstd, disk: Disk, storageFile: RecordFile)
      requires storageFile.body == None
      ensures Valid() && View() == StoreState(disk.View(), map[], None)
      ensures this.cfg == cfg && this.zstd == zstd && this.disk == disk
      ensures this.storageFile == storageFile && fresh(data)
    {
      this.cfg := cfg;
      this.zstd := zstd;
      this.disk := disk;
      this.storageFile := storageFile;
      var m := new Manager(storageFile);
      var ok := m.Start();
      this.data := m;
    }

    /** A new process over the same files. */
    method RestartServer() returns (out: Outcome)
      requires Valid()
      modifies this, storageFile
      ensures Valid() && (data == old(data) || fresh(data))
      ensures Step(cfg, zstd, old(View()), Restart, View(), out)
    {
      var m := new Manager(storageFile);
      var ok := m.Start();
      if !ok {
        return Aborted;
      }
      data := m;
      return Restarted;
    }

    method GenHandler(req: Request) returns (out: Outcome)
      requires Valid()
      modifies disk, data, storageFile
      ensures Valid()
      ensures Step(cfg, zstd, old(View()), Serve(req), View(), out)
    {
      var path := UrlCodec.UrlDecode(req.path);
      if path.Err? {
        return Aborted;
      }
      ghost var s := View();
      if Contains(path.value, DOWNLOAD) {
        assert RouteOf(req.path) == ToDownload(path.value);
        out := HandleDownload(path.value);
        assert View() == s.(files := disk.View());
      } else if path.value == UPLOAD {
        assert RouteOf(req.path) == ToUpload;
        out := HandleUpload(req);
      } else if path.value == [SLASH] {
        out := Replied(OK);
      } else {
        out := Replied([Reply(404, None)]);
      }
    }

    /** The table and its persisted copy after an upload. */
    twostate predicate Recorded(inserted: Option<StorageInfo>)
      reads this, data, storageFile
    {
      if inserted.None? then data.table == old(data.table) && storageFile.body == old(storageFile.body)
      else
        && data.table == old(data.table)[inserted.value.url := inserted.value]
        && storageFile.body.Some? && IsSave(storageFile.body.value, data.table)
    }

    method HandleUpload(req: Request) returns (out: Outcome)
      requires Valid()
      modifies disk, data, storageFile
      ensures Valid()
      ensures out == Upload(cfg, zstd, old(disk.View()), req).outcome
      ensures disk.View() == Upload(cfg, zstd, old(disk.View()), req).files
      ensures Recorded(Upload(cfg, zstd, old(disk.View()), req).inserted)
    {
      if |req.body| == 0 {
        return Replied([Reply(400, None)]);
      }
      var filename := LineBreaks.Base64Decode(req.fileName, false);
      if filename.Err? {
        return Aborted;
      }
      var storagePath: Bytes;
      if req.storageType == LOW {
        storagePath := cfg.lowDir;
      } else if req.storageType == DEEP {
        storagePath := cfg.deepDir;
      } else {
        return Replied([Reply(400, None)]);
      }
      var made := disk.CreateDirectory(storagePath);
      if !made {
        return Aborted;
      }
      storagePath := storagePath + filename.value;
      out := StoreUpload(storagePath, req);
    }

    method StoreUpload(storagePath: Bytes, req: Request) returns (out: Outcome)
      requires Valid()
      modifies disk, data, storageFile
      ensures Valid()
      ensures out == StoreAt(cfg, zstd, old(disk.View()), storagePath, req).outcome
      ensures disk.View() == StoreAt(cfg, zstd, old(disk.View()), storagePath, req).files
      ensures Recorded(StoreAt(cfg, zstd, old(disk.View()), storagePath, req).inserted)
    {
      var ok: bool;
      if Contains(storagePath, LOW_STORAGE) {
        ok := disk.SetContent(storagePath, req.body);
      } else {
        ok := disk.Compress(storagePath, req.body, zstd.pack);
      }
      if !ok {
        return Replied([Reply(500, None)]);
      }
      var size := disk.FileSize(storagePath);
      var url := cfg.prefix + FileName(storagePath);
      data.Insert(StorageInfo(req.accessed, req.modified, StoredSize(size), storagePath, url));
      return Replied(OK);
    }

    method HandleDownload(url: Bytes) returns (out: Outcome)
      requires Valid()
      modifies disk
      ensures DownloadResult(disk.View(), out) == Download(cfg, zstd, old(disk.View()), PathOf(old(data.table), url))
    {
      var info := data.GetOneByURL(url);
      var storagePath: Bytes := if info.Some? then info.value.storagePath else [];
      var downloadPath := storagePath;
      if !Contains(storagePath, cfg.lowDir) {
        var unpacked := UnpackEntry(storagePath);
        if unpacked.None? {
          return Aborted;
        }
        downloadPath := unpacked.value;
      }
      ghost var ready := disk.View();
      assert ready == Ready(cfg, zstd, old(disk.View()), storagePath) && downloadPath == Served(cfg, storagePath);
      var replies := SendFile(downloadPath, storagePath);
      out := Replied(replies);
    }

    /**
     * Unpacks a deep entry into a scratch file of the low directory. `None` is the exception of
     * `create_directories`; any other failure shows only later, when the file is missing.
     */
    method UnpackEntry(storagePath: Bytes) returns (downloadPath: Option<Bytes>)
      modifies disk
      ensures downloadPath ==
        if old(disk.View()).CanMake(cfg.lowDir) then Some(Scratch(cfg, storagePath)) else None
      ensures disk.View() ==
        if downloadPath.Some? then Unpacked(cfg, zstd, old(disk.View()), storagePath) else old(disk.View())
    {
      var path := cfg.lowDir + storagePath[LastSlash(storagePath) + 1..];
      SplitPath(storagePath);
      var made := disk.CreateDirectory(cfg.lowDir);
      if !made {
        return None;
      }
      var unpacked := disk.UnCompress(storagePath, path, zstd.unpack);
      return Some(path);
    }

    method SendFile(downloadPath: Bytes, storagePath: Bytes) returns (replies: seq<Reply>)
      modifies disk
      ensures DownloadResult(disk.View(), Replied(replies)) == Respond(old(disk.View()), downloadPath, storagePath)
    {
      replies := [];
      if !disk.Exists(downloadPath) && Contains(storagePath, DEEP_STORAGE) {
        replies := [Reply(500, None)];
      } else if !disk.Exists(downloadPath) && !Contains(storagePath, LOW_STORAGE) {
        replies := [Reply(400, None)];
      }
      if !disk.Exists(downloadPath) {
        replies := replies + [Reply(404, None)];
        return;
      }
      var body := disk.GetContent(downloadPath);
      replies := [Reply(200, body)];
      if downloadPath != storagePath {
        disk.Remove(downloadPath);
      }
    }
  }
}
