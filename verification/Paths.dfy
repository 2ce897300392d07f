/** Path strings: the C-string view of a name, `find`, and `FileUtil::FileName` of src/server/Util.hpp. */
module Paths {
  import opened Common

  const SLASH: Byte := 0x2f
  const DOT: Byte := 0x2e
  const NUL: Byte := 0

  /** What a system call sees of `path.c_str()`: the bytes before the first NUL. */
  function CStr(path: Bytes): (r: Bytes)
    ensures NUL !in r
  {
    if path == [] || path[0] == NUL then [] else [path[0]] + CStr(path[1..])
  }

  lemma {:induction false} CStrIdentity(path: Bytes)
    ensures CStr(path) == path <==> NUL !in path
  {
    if path != [] && path[0] != NUL {
      CStrIdentity(path[1..]);
      assert path == [path[0]] + path[1..];
    }
  }

  lemma {:induction false} CStrAppend(a: Bytes, b: Bytes)
    requires NUL !in a
    ensures CStr(a + b) == a + CStr(b)
  {
    if a == [] {
      assert a + b == b;
    } else {
      assert (a + b)[1..] == a[1..] + b;
      CStrAppend(a[1..], b);
    }
  }

  /** ... which end at the first NUL. */
  lemma {:induction false} CStrCuts(a: Bytes, b: Bytes)
    requires NUL !in a
    ensures CStr(a + [NUL] + b) == a
  {
    CStrAppend(a, [NUL] + b);
    assert a + [NUL] + b == a + ([NUL] + b) && a + [] == a;
  }

  lemma {:induction false} CStrSlash(name: Bytes)
    requires SLASH !in name
    ensures SLASH !in CStr(name)
  {
    if name != [] && name[0] != NUL {
      CStrSlash(name[1..]);
    }
  }

  /** `find_last_of("/")`, with -1 for `npos`. */
  function LastSlash(path: Bytes): (r: int)
    ensures -1 <= r < |path|
    ensures r >= 0 ==> path[r] == SLASH
    ensures forall i :: r < i < |path| ==> path[i] != SLASH
  {
    if path == [] then -1
    else if path[|path| - 1] == SLASH then |path| - 1
    else LastSlash(path[..|path| - 1])
  }

  /** `FileUtil::FileName`: what follows the last slash. */
  function FileName(path: Bytes): (r: Bytes)
    ensures SLASH !in r
    ensures NUL !in path ==> NUL !in r
  {
    if path == [] || path[|path| - 1] == SLASH then []
    else FileName(path[..|path| - 1]) + [path[|path| - 1]]
  }

  /** Everything up to and including the last slash. */
  function DirName(path: Bytes): Bytes {
    if path == [] || path[|path| - 1] == SLASH then path else DirName(path[..|path| - 1])
  }

  /** The two halves of a path, as `find_last_of` cuts it. */
  lemma {:induction false} SplitPath(path: Bytes)
    ensures path[..LastSlash(path) + 1] == DirName(path)
    ensures path[LastSlash(path) + 1..] == FileName(path)
  {
    if path != [] && path[|path| - 1] != SLASH {
      var front := path[..|path| - 1];
      SplitPath(front);
      assert path[..LastSlash(path) + 1] == front[..LastSlash(path) + 1];
      assert path[LastSlash(path) + 1..] == front[LastSlash(path) + 1..] + [path[|path| - 1]];
    }
  }

  predicate EndsInSlash(path: Bytes) { |path| > 0 && path[|path| - 1] == SLASH }

  predicate IsPrefix(a: Bytes, b: Bytes) { |a| <= |b| && b[..|a|] == a }

  lemma PrefixOfExtended(a: Bytes, rest: Bytes, b: Bytes)
    requires IsPrefix(a + rest, b)
    ensures IsPrefix(a, b) && |a| + |rest| <= |b|
  {
    assert b[..|a|] == (a + rest)[..|a|];
  }

  /** "." and "..", which name directories wherever they occur. */
  predicate Dots(name: Bytes) { name == [DOT] || name == [DOT, DOT] }

  predicate OccursAt(s: Bytes, t: Bytes, i: int) {
    0 <= i <= |s| - |t| && s[i..i + |t|] == t
  }

  /** `find(t) != npos`, trying each position in turn. */
  predicate Contains(s: Bytes, t: Bytes) {
    |t| <= |s| && (s[..|t|] == t || (s != [] && Contains(s[1..], t)))
  }

  lemma {:induction false} ContainsAt(s: Bytes, t: Bytes, i: int)
    requires OccursAt(s, t, i)
    ensures Contains(s, t)
  {
    if i == 0 {
      assert s[0..0 + |t|] == s[..|t|];
    } else {
      assert s[1..][i - 1..i - 1 + |t|] == s[i..i + |t|];
      ContainsAt(s[1..], t, i - 1);
    }
  }

  lemma {:induction false} Occurrence(s: Bytes, t: Bytes) returns (i: int)
    requires Contains(s, t)
    ensures OccursAt(s, t, i)
  {
    if s[..|t|] == t {
      assert s[0..0 + |t|] == s[..|t|];
      i := 0;
    } else {
      i := Occurrence(s[1..], t);
      assert s[1..][i..i + |t|] == s[i + 1..i + 1 + |t|];
      i := i + 1;
    }
  }

  /** A name placed in a directory: the file name is the name's own, and a plain name is itself. */
  lemma {:induction false} FileNameIn(dir: Bytes, name: Bytes)
    requires EndsInSlash(dir)
    ensures FileName(dir + name) == FileName(name)
    ensures SLASH !in name ==> FileName(dir + name) == name && DirName(dir + name) == dir
  {
    if name == [] {
      assert dir + name == dir;
    } else {
      var front := name[..|name| - 1];
      assert (dir + name)[..|dir + name| - 1] == dir + front;
      assert front + [name[|name| - 1]] == name;
      FileNameIn(dir, front);
    }
  }

  lemma OccurrenceBytes(s: Bytes, t: Bytes, i: int)
    requires OccursAt(s, t, i)
    ensures forall k :: i <= k < i + |t| ==> s[k] in t
  {
    forall k | i <= k < i + |t| ensures s[k] in t {
      assert s[k] == s[i..i + |t|][k - i];
    }
  }

  lemma ContainsLeft(a: Bytes, b: Bytes, t: Bytes)
    requires Contains(a, t)
    ensures Contains(a + b, t)
  {
    var i := Occurrence(a, t);
    assert (a + b)[i..i + |t|] == t;
    ContainsAt(a + b, t, i);
  }

  lemma ContainsRight(a: Bytes, b: Bytes, t: Bytes)
    requires Contains(b, t)
    ensures Contains(a + b, t)
  {
    var i := Occurrence(b, t);
    assert (a + b)[|a| + i..|a| + i + |t|] == t;
    ContainsAt(a + b, t, |a| + i);
  }

  lemma ContainsSelf(t: Bytes)
    ensures Contains(t, t)
  {
    assert t[0..0 + |t|] == t;
    ContainsAt(t, t, 0);
  }

  lemma ContainsTransitive(s: Bytes, t: Bytes, u: Bytes)
    requires Contains(s, t) && Contains(t, u)
    ensures Contains(s, u)
  {
    var i := Occurrence(s, t);
    var j := Occurrence(t, u);
    forall k | 0 <= k < |u| ensures s[i + j + k] == u[k] {
      assert t[j + k] == t[j..j + |u|][k];
      assert s[i + (j + k)] == s[i..i + |t|][j + k];
    }
    assert s[i + j..i + j + |u|] == u;
    ContainsAt(s, u, i + j);
  }

  /** A slash-free text occurs in `dir + name` only inside one of the two: it cannot straddle the slash. */
  lemma ContainsSplit(dir: Bytes, name: Bytes, t: Bytes)
    requires EndsInSlash(dir) && SLASH !in t && t != []
    ensures Contains(dir + name, t) <==> Contains(dir, t) || Contains(name, t)
  {
    var s := dir + name;
    if Contains(dir, t) {
      ContainsLeft(dir, name, t);
    }
    if Contains(name, t) {
      ContainsRight(dir, name, t);
    }
    if Contains(s, t) {
      var i := Occurrence(s, t);
      OccurrenceBytes(s, t, i);
      assert s[|dir| - 1] == SLASH;
      if i + |t| <= |dir| {
        assert dir[i..i + |t|] == s[i..i + |t|];
        ContainsAt(dir, t, i);
      } else if i >= |dir| {
        assert name[i - |dir|..i - |dir| + |t|] == s[i..i + |t|];
        ContainsAt(name, t, i - |dir|);
      } else {
        assert false;
      }
    }
  }
}
