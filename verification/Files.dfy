/**
 * The directory tree that `FileUtil` of src/server/Util.hpp works on: a map from paths to contents.
 * Paths are compared as strings; a directory is written with its final slash.
 */
module Files {
  import opened Common
  import opened Paths

  /** A path with its final slash. */
  function AsDirectory(path: Bytes): Bytes { if EndsInSlash(path) then path else path + [SLASH] }

  /** Every directory on the way to `dir`, itself included. */
  function Ancestors(dir: Bytes): set<Bytes> { set i | 0 < i <= |dir| && dir[i - 1] == SLASH :: dir[..i] }

  lemma AncestorsAre(dir: Bytes)
    ensures forall d :: d in Ancestors(dir) <==> EndsInSlash(d) && IsPrefix(d, dir)
  {
    forall d | EndsInSlash(d) && IsPrefix(d, dir) ensures d in Ancestors(dir) {
      assert d == dir[..|d|] && dir[|d| - 1] == d[|d| - 1];
    }
  }

  datatype Files = Files(contents: map<Bytes, Bytes>, dirs: set<Bytes>) {
    predicate IsDirectory(path: Bytes) {
      var p := CStr(path);
      p != [] && (AsDirectory(p) in dirs || (Dots(FileName(p)) && DirName(p) in dirs))
    }

    predicate Exists(path: Bytes) { CStr(path) in contents || IsDirectory(path) }

    /** Whether opening for writing succeeds: the path leads into an existing directory, and not to a directory. */
    predicate Openable(path: Bytes) {
      FileName(CStr(path)) != [] && DirName(CStr(path)) in dirs && !IsDirectory(path)
    }

    function Get(path: Bytes): Option<Bytes> {
      if CStr(path) in contents then Some(contents[CStr(path)]) else None
    }

    function Write(path: Bytes, data: Bytes): Files {
      Files(contents[CStr(path) := data], dirs)
    }

    /** No file stands where a directory on the way to `dir` would have to be. */
    predicate NoFileInTheWay(dir: Bytes) {
      forall p :: p in contents ==> !IsPrefix(p + [SLASH], dir)
    }

    /** Whether `create_directories` succeeds, if it is called at all. */
    predicate CanMake(path: Bytes) {
      Exists(path) || (CStr(path) != [] && NoFileInTheWay(AsDirectory(CStr(path))))
    }

    function MakeDirectory(path: Bytes): Files {
      if Exists(path) then this else Files(contents, dirs + Ancestors(AsDirectory(CStr(path))))
    }

    predicate EmptyDirectory(dir: Bytes) {
      && (forall p :: p in contents ==> !IsPrefix(dir, p))
      && (forall d :: d in dirs && d != dir ==> !IsPrefix(dir, d))
    }

    /** `remove(3)`: unlinks a file, or removes an empty directory. */
    function Unlink(path: Bytes): Files {
      var p := CStr(path);
      if p in contents then Files(contents - {p}, dirs)
      else if EmptyDirectory(AsDirectory(p)) then Files(contents, dirs - {AsDirectory(p)})
      else this
    }

    /** File paths name files, directory paths name directories, and no path is both. */
    predicate WellFormed() {
      && (forall p :: p in contents ==> FileName(p) != [] && !Dots(FileName(p)) && p + [SLASH] !in dirs)
      && (forall d :: d in dirs ==> EndsInSlash(d))
    }
  }

  class Disk {
    var contents: map<Bytes, Bytes>
    var dirs: set<Bytes>

    function View(): Files
      reads this
    {
      Files(contents, dirs)
    }

    constructor (contents: map<Bytes, Bytes>, dirs: set<Bytes>)
      ensures View() == Files(contents, dirs)
    {
      this.contents := contents;
      this.dirs := dirs;
    }

    predicate Exists(path: Bytes)
      reads this
    {
      View().Exists(path)
    }

    /** `FileUtil::FileSize`, -1 when `stat` fails; directories are not measured. */
    function FileSize(path: Bytes): (size: int)
      reads this
      ensures size == -1 <==> View().Get(path).None?
      ensures View().Get(path).Some? ==> size == |View().Get(path).value|
    {
      if CStr(path) in contents then |contents[CStr(path)]| else -1
    }

    method GetContent(path: Bytes) returns (content: Option<Bytes>)
      ensures content == View().Get(path)
      ensures content == if CStr(path) in contents then Some(contents[CStr(path)]) else None
    {
      var size := FileSize(path);
      if size == -1 {
        return None;
      }
      var data := contents[CStr(path)];
      assert data[..size] == data;
      return Some(data[..size]);
    }

    method SetContent(path: Bytes, content: Bytes) returns (ok: bool)
      modifies this
      ensures ok == old(View()).Openable(path)
      ensures ok ==> FileName(CStr(path)) != [] && DirName(CStr(path)) in dirs && !old(View()).IsDirectory(path)
      ensures View() == if ok then old(View()).Write(path, content) else old(View())
      ensures dirs == old(dirs)
      ensures contents == if ok then old(contents)[CStr(path) := content] else old(contents)
    {
      if !View().Openable(path) {
        return false;
      }
      contents := contents[CStr(path) := content];
      return true;
    }

    /** `FileUtil::CreateDirectory`; `false` is the exception of `create_directories`. */
    method CreateDirectory(path: Bytes) returns (ok: bool)
      modifies this
      ensures ok == old(View()).CanMake(path)
      ensures ok <==>
        || old(Exists(path))
        || (CStr(path) != [] && forall p :: p in contents ==> !IsPrefix(p + [SLASH], AsDirectory(CStr(path))))
      ensures View() == if ok then old(View()).MakeDirectory(path) else old(View())
      ensures contents == old(contents)
      ensures forall d :: d in dirs <==>
        || d in old(dirs)
        || (ok && !old(Exists(path)) && EndsInSlash(d) && IsPrefix(d, AsDirectory(CStr(path))))
    {
      if Exists(path) {
        return true;
      }
      if !View().CanMake(path) {
        return false;
      }
      AncestorsAre(AsDirectory(CStr(path)));
      dirs := dirs + Ancestors(AsDirectory(CStr(path)));
      return true;
    }

    method Remove(path: Bytes)
      modifies this
      ensures View() == old(View()).Unlink(path)
      ensures contents == old(contents) - {CStr(path)}
      ensures CStr(path) in old(contents) ==> dirs == old(dirs)
      ensures CStr(path) !in old(contents) ==>
        var dir := AsDirectory(CStr(path));
        var used :=
          || (exists p :: p in contents && IsPrefix(dir, p))
          || (exists d :: d in dirs && d != dir && IsPrefix(dir, d));
        dirs == if used then old(dirs) else old(dirs) - {dir}
    {
      if CStr(path) in contents {
        contents := contents - {CStr(path)};
      } else if View().EmptyDirectory(AsDirectory(CStr(path))) {
        dirs := dirs - {AsDirectory(CStr(path))};
      }
    }

    /** `FileUtil::Compress`. */
    method Compress(path: Bytes, content: Bytes, pack: Bytes -> Bytes) returns (ok: bool)
      modifies this
      ensures ok == (pack(content) != [] && old(View()).Openable(path))
      ensures View() == if ok then old(View()).Write(path, pack(content)) else old(View())
      ensures dirs == old(dirs)
      ensures contents == if ok then old(contents)[CStr(path) := pack(content)] else old(contents)
    {
      var packed := pack(content);
      if |packed| == 0 {
        return false;
      }
      ok := SetContent(path, packed);
    }

    /** `FileUtil::UnCompress`. */
    method UnCompress(path: Bytes, target: Bytes, unpack: Bytes -> Bytes) returns (ok: bool)
      modifies this
      ensures ok == (old(View()).Get(path).Some? && old(View()).Openable(target))
      ensures View() ==
        if ok then old(View()).Write(target, unpack(old(View()).Get(path).value)) else old(View())
      ensures ok ==> CStr(path) in old(contents) && dirs == old(dirs)
      ensures contents ==
        if ok then old(contents)[CStr(target) := unpack(old(contents)[CStr(path)])] else old(contents)
    {
      var body := GetContent(path);
      if body.None? {
        return false;
      }
      ok := SetContent(target, unpack(body.value));
    }
  }
}
