/** The few Python string operations the parsers are built from, on `seq<char>`. */
module Text {
  import opened Errors

  /** `sep.join(parts)` for a one-character separator. */
  function Join(parts: seq<string>, sep: char): string
  {
    if |parts| == 0 then ""
    else if |parts| == 1 then parts[0]
    else parts[0] + [sep] + Join(parts[1..], sep)
  }

  /** `s.split(sep)` for a one-character separator: the pieces between the
      separators, empty ones included; never an empty list. */
  function Split(s: string, sep: char): (parts: seq<string>)
    ensures |parts| >= 1
    ensures forall i :: 0 <= i < |parts| ==> sep !in parts[i]
    ensures Join(parts, sep) == s
  {
    if s == [] then [""]
    else
      var rest := Split(s[1..], sep);
      if s[0] == sep then
        assert s == [sep] + s[1..];
        [""] + rest
      else
        var parts := [[s[0]] + rest[0]] + rest[1..];
        assert parts[1..] == rest[1..];
        assert s == [s[0]] + s[1..];
        parts
  }

  lemma {:induction false} SplitWithoutSeparator(s: string, sep: char)
    requires sep !in s
    ensures Split(s, sep) == [s]
  {
    if s != [] {
      SplitWithoutSeparator(s[1..], sep);
    }
  }

  lemma {:induction false} SplitAfterFirst(a: string, b: string, sep: char)
    requires sep !in a
    ensures Split(a + [sep] + b, sep) == [a] + Split(b, sep)
  {
    if a == [] {
      assert a + [sep] + b == [sep] + b;
      assert ([sep] + b)[1..] == b;
    } else {
      var t := a[1..] + [sep] + b;
      assert a + [sep] + b == [a[0]] + t;
      SplitAfterFirst(a[1..], b, sep);
      SplitCons(a[0], t, sep);
      assert [a[0]] + a[1..] == a;
    }
  }

  /** A first character other than the separator opens the first piece. */
  lemma SplitCons(c: char, t: string, sep: char)
    requires c != sep
    ensures Split([c] + t, sep) == [[c] + Split(t, sep)[0]] + Split(t, sep)[1..]
  {
    assert ([c] + t)[1..] == t;
  }

  /** Splitting undoes joining when no piece holds the separator. */
  lemma {:induction false} SplitJoin(parts: seq<string>, sep: char)
    requires |parts| >= 1
    requires forall i :: 0 <= i < |parts| ==> sep !in parts[i]
    ensures Split(Join(parts, sep), sep) == parts
  {
    if |parts| == 1 {
      SplitWithoutSeparator(parts[0], sep);
    } else {
      SplitJoin(parts[1..], sep);
      SplitAfterFirst(parts[0], Join(parts[1..], sep), sep);
      assert parts == [parts[0]] + parts[1..];
    }
  }

  /** `s.rfind(c)`: the index of the last `c`, or -1. */
  function LastIndex(s: string, c: char): (k: int)
    ensures -1 <= k < |s|
    ensures k == -1 <==> c !in s
    ensures k >= 0 ==> s[k] == c && c !in s[k + 1..]
  {
    if s == [] then -1
    else if s[|s| - 1] == c then |s| - 1
    else
      var k := LastIndex(s[..|s| - 1], c);
      assert s == s[..|s| - 1] + [s[|s| - 1]];
      if k >= 0 then
        assert s[k + 1..] == s[..|s| - 1][k + 1..] + [s[|s| - 1]];
        k
      else k
  }

  /** `head, tail = s.rsplit(sep, 1)`: None when `sep` does not occur, where
      Python's tuple unpacking raises ValueError. */
  function RSplit(s: string, sep: char): (r: Option<(string, string)>)
    ensures r.None? <==> sep !in s
    ensures r.Some? ==> r.value.0 + [sep] + r.value.1 == s && sep !in r.value.1
  {
    var k := LastIndex(s, sep);
    if k < 0 then None
    else
      assert s == s[..k] + [sep] + s[k + 1..];
      Some((s[..k], s[k + 1..]))
  }

  /** The split point `rsplit` picks is the last separator. */
  lemma RSplitLast(a: string, b: string, sep: char)
    requires sep !in b
    ensures RSplit(a + [sep] + b, sep) == Some((a, b))
  {
    var s := a + [sep] + b;
    var k := LastIndex(s, sep);
    assert s[|a|] == sep;
    assert s[..|a|] == a && s[|a| + 1..] == b;
  }

  predicate EndsWith(s: string, suffix: string)
  {
    |suffix| <= |s| && s[|s| - |suffix|..] == suffix
  }

  /** `s[:-len(suffix)]`. */
  function DropSuffix(s: string, suffix: string): (r: string)
    requires EndsWith(s, suffix)
    ensures r + suffix == s
  {
    s[..|s| - |suffix|]
  }

  lemma AppendedSuffix(base: string, suffix: string)
    ensures EndsWith(base + suffix, suffix) && DropSuffix(base + suffix, suffix) == base
  {
    assert (base + suffix)[|base|..] == suffix;
  }

  /** Python's `s[n:]`, empty when `n` is past the end. */
  function Slice(s: string, n: nat): (r: string)
    ensures n <= |s| ==> |r| == |s| - n && r == s[n..]
    ensures n >= |s| ==> r == []
  {
    if n <= |s| then s[n..] else []
  }

  /** `s.replace(from, to)` for single characters. */
  function ReplaceChar(s: string, from: char, to: char): (r: string)
    ensures |r| == |s|
    ensures forall i :: 0 <= i < |s| ==> r[i] == if s[i] == from then to else s[i]
  {
    seq(|s|, i requires 0 <= i < |s| => if s[i] == from then to else s[i])
  }

  /** `s.replace(c, '')`. */
  function RemoveChar(s: string, c: char): (r: string)
    ensures forall x :: x in r <==> x in s && x != c
    ensures c !in s ==> r == s
    ensures |s| == 1 ==> r == if s[0] == c then [] else s
    ensures |r| <= |s|
  {
    if s == [] then []
    else if s[0] == c then RemoveChar(s[1..], c)
    else [s[0]] + RemoveChar(s[1..], c)
  }

  /** Removing a character works piece by piece, keeping the order of what
      is left. */
  lemma {:induction false} RemoveCharAppend(a: string, b: string, c: char)
    ensures RemoveChar(a + b, c) == RemoveChar(a, c) + RemoveChar(b, c)
  {
    if a != [] {
      RemoveCharAppend(a[1..], b, c);
      assert (a + b)[1..] == a[1..] + b;
    } else {
      assert a + b == b;
    }
  }

  predicate IsDigit(c: char)
  {
    '0' <= c <= '9'
  }

  /** `os.path.basename(path)`, which is also what `link.rsplit('/', 1)` leaves
      as its last piece: everything after the last `/`. */
  function Basename(path: string): (base: string)
    ensures '/' !in base && EndsWith(path, base)
    ensures '/' !in path ==> base == path
    ensures '/' in path ==> exists dir :: path == dir + "/" + base
  {
    match RSplit(path, '/')
    case None => path
    case Some((dir, base)) =>
      assert path == dir + "/" + base;
      assert path[|path| - |base|..] == base;
      base
  }

  /** `os.path.join(folder, name)` */
  function PathJoin(folder: string, name: string): (path: string)
    ensures EndsWith(path, name)
    ensures "/" <= name || folder == [] ==> path == name
    ensures !("/" <= name) ==> folder <= path
    ensures !("/" <= name) && folder != [] ==>
      && |path| == |folder| + |name| + (if EndsWith(folder, "/") then 0 else 1)
      && (!EndsWith(folder, "/") ==> path[|folder|] == '/')
  {
    if "/" <= name || folder == [] then
      assert name[|name| - |name|..] == name;
      name
    else
      var sep := if EndsWith(folder, "/") then "" else "/";
      var path := folder + sep + name;
      assert path[..|folder|] == folder;
      assert path[|path| - |name|..] == name;
      path
  }

  /** The base name of a joined path is the name joined, when the name has no `/`. */
  lemma BasenameJoin(folder: string, name: string)
    requires '/' !in name
    ensures Basename(PathJoin(folder, name)) == name
  {
    assert name == [] || name[0] != '/';
    if folder != [] {
      if EndsWith(folder, "/") {
        var dir := folder[..|folder| - 1];
        assert folder == dir + folder[|folder| - 1..];
        assert PathJoin(folder, name) == dir + ['/'] + name;
        RSplitLast(dir, name, '/');
      } else {
        assert PathJoin(folder, name) == folder + ['/'] + name;
        RSplitLast(folder, name, '/');
      }
    }
  }
}
