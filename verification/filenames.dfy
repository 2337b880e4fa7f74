/** Artifact filename parsing as in wheelhouse_uploader/utils.py: the wheel,
    Windows installer and source archive grammars, and the name escaping they
    share. */
module Filenames {
  import opened Errors
  import opened Text
  import opened Versions

  // ---------------------------------------------------------------------
  // `_wheel_escape`: `re.sub("[^\w\d.]+", "_", component, re.UNICODE)`.
  // The flag lands in the `count` position, so at most re.UNICODE == 32
  // runs are replaced and the rest of the string is left as it is.

  predicate IsWordChar(c: char)
  {
    'a' <= c <= 'z' || 'A' <= c <= 'Z' || '0' <= c <= '9' || c == '_'
  }

  /** The characters the pattern does not match: word characters and `.`. */
  predicate Kept(c: char)
  {
    IsWordChar(c) || c == '.'
  }

  /** The value of `re.UNICODE`, passed as the replacement count. */
  const ESCAPE_COUNT: nat := 32

  /** `s` without its leading run of characters that are not kept. */
  function DropRun(s: string): (r: string)
    ensures |r| <= |s|
    ensures s != [] && !Kept(s[0]) ==> |r| < |s|
    ensures r == [] || Kept(r[0])
  {
    if s != [] && !Kept(s[0]) then DropRun(s[1..]) else s
  }

  /** What `DropRun` keeps is a suffix of its input. */
  lemma {:induction false} DropRunSuffix(s: string)
    ensures DropRun(s) == s[|s| - |DropRun(s)|..]
  {
    if s != [] && !Kept(s[0]) {
      DropRunSuffix(s[1..]);
    }
  }

  /** What `DropRun` drops is one run: every character before the suffix it
      keeps is outside the kept set. */
  lemma {:induction false} DropRunDrops(s: string, i: nat)
    requires i < |s| - |DropRun(s)|
    ensures !Kept(s[i])
  {
    if i > 0 {
      DropRunDrops(s[1..], i - 1);
    }
  }

  /** `s` with its first `remaining` maximal runs of characters that are not
      kept each replaced by one `_`. */
  function SubstituteRuns(s: string, remaining: nat): string
    decreases |s|
  {
    if s == [] then []
    else if Kept(s[0]) then [s[0]] + SubstituteRuns(s[1..], remaining)
    else if remaining == 0 then s
    else "_" + SubstituteRuns(DropRun(s), remaining - 1)
  }

  function WheelEscape(component: string): string
  {
    SubstituteRuns(component, ESCAPE_COUNT)
  }

  /** The number of maximal runs the pattern matches in `s`. */
  function RunCount(s: string): nat
    decreases |s|
  {
    if s == [] then 0
    else if Kept(s[0]) then RunCount(s[1..])
    else 1 + RunCount(DropRun(s))
  }

  predicate Clean(s: string)
  {
    forall i :: 0 <= i < |s| ==> Kept(s[i])
  }

  /** With no more runs than the count allows, every run is replaced. */
  lemma {:induction false} SubstituteCleans(s: string, remaining: nat)
    requires RunCount(s) <= remaining
    ensures Clean(SubstituteRuns(s, remaining))
    decreases |s|
  {
    if s == [] {
    } else if Kept(s[0]) {
      SubstituteCleans(s[1..], remaining);
    } else {
      SubstituteCleans(DropRun(s), remaining - 1);
    }
  }

  /** With more runs than the count, some character outside the kept set
      survives the substitution. */
  lemma {:induction false} SubstituteLeavesRest(s: string, remaining: nat)
    requires RunCount(s) > remaining
    ensures !Clean(SubstituteRuns(s, remaining))
    decreases |s|
  {
    var r := SubstituteRuns(s, remaining);
    if Kept(s[0]) {
      SubstituteLeavesRest(s[1..], remaining);
      var tail := SubstituteRuns(s[1..], remaining);
      var i :| 0 <= i < |tail| && !Kept(tail[i]);
      assert r[i + 1] == tail[i];
    } else if remaining == 0 {
      assert !Kept(r[0]);
    } else {
      SubstituteLeavesRest(DropRun(s), remaining - 1);
      var tail := SubstituteRuns(DropRun(s), remaining - 1);
      var i :| 0 <= i < |tail| && !Kept(tail[i]);
      assert r[i + 1] == tail[i];
    }
  }

  /** A string that is already clean is left unchanged. */
  lemma {:induction false} SubstituteClean(s: string, remaining: nat)
    requires Clean(s)
    ensures SubstituteRuns(s, remaining) == s
  {
    if s != [] {
      SubstituteClean(s[1..], remaining);
    }
  }

  /** Escaping keeps a clean prefix and carries on after it. */
  lemma {:induction false} SubstituteCleanPrefix(a: string, rest: string, remaining: nat)
    requires Clean(a)
    ensures SubstituteRuns(a + rest, remaining) == a + SubstituteRuns(rest, remaining)
  {
    if a != [] {
      SubstituteCleanPrefix(a[1..], rest, remaining);
      assert (a + rest)[1..] == a[1..] + rest;
    } else {
      assert a + rest == rest;
    }
  }

  /** A dash between two clean parts becomes an underscore, as in
      `scikit-learn` to `scikit_learn`. */
  lemma EscapeDash(a: string, b: string)
    requires Clean(a) && Clean(b)
    ensures WheelEscape(a + "-" + b) == a + "_" + b
  {
    assert a + "-" + b == a + ("-" + b);
    SubstituteCleanPrefix(a, "-" + b, ESCAPE_COUNT);
    assert ("-" + b)[1..] == b;
    assert DropRun("-" + b) == b;
    SubstituteClean(b, ESCAPE_COUNT - 1);
    assert SubstituteRuns("-" + b, ESCAPE_COUNT) == "_" + b;
  }

  /** Escaping is idempotent exactly for names with at most 32 runs to
      replace; a longer name keeps characters a second escape would change. */
  lemma EscapeIdempotent(s: string)
    ensures RunCount(s) <= ESCAPE_COUNT ==> Clean(WheelEscape(s)) && WheelEscape(WheelEscape(s)) == WheelEscape(s)
    ensures RunCount(s) > ESCAPE_COUNT ==> !Clean(WheelEscape(s))
  {
    if RunCount(s) <= ESCAPE_COUNT {
      SubstituteCleans(s, ESCAPE_COUNT);
      SubstituteClean(WheelEscape(s), ESCAPE_COUNT);
    } else {
      SubstituteLeavesRest(s, ESCAPE_COUNT);
    }
  }

  // ---------------------------------------------------------------------
  // Parsed artifacts.

  /** The distribution command the source names with a string. */
  datatype Kind = BdistWheel | BdistWininst | Sdist

  /** The kind together with its tags dictionary: `{python, abi, platform}`
      for a wheel, `{python, platform}` for an installer, `{}` for a source
      archive. Two formats are equal exactly when kind and tags are. */
  datatype Format =
    | Wheel(python: string, abi: string, platform: string)
    | Wininst(python: string, platform: string)
    | Source
  {
    function Kind(): Kind
    {
      match this
      case Wheel(_, _, _) => BdistWheel
      case Wininst(_, _) => BdistWininst
      case Source => Sdist
    }
  }

  /** The tuple `(distname, version, pyversion, kind, tags)`; the four-element
      form without tags is its projection. */
  datatype Artifact = Artifact(name: string, version: string, pyversion: string, format: Format)

  /** `s[:2]`. */
  function Head2(s: string): string
  {
    if |s| < 2 then s else s[..2]
  }

  /** The python version a wheel's python tag stands for; `host` is the
      running interpreter's `major.minor`. */
  function PythonVersion(pytag: string, host: string): (r: Result<string>)
    ensures r.Err? ==> r.error == IndexError || r.error == ValueError(UnsupportedPythonTag)
    ensures r == Err(IndexError) <==> Head2(pytag) == "cp" && |pytag| < 4
    ensures r.Ok? && pytag != "py2.py3" ==>
      && |pytag| >= 3
      && Head2(pytag) in {"py", "pp", "cp"}
      && (|r.value| == 1 || |r.value| == 3)
      && r.value[0] == pytag[2]
      && (|r.value| == 3 ==> |pytag| >= 4 && r.value[1] == '.' && r.value[2] == pytag[3])
    ensures pytag == "py2.py3" ==> r == Ok(host)
    ensures Head2(pytag) == "py" && |pytag| == 3 ==> r == Ok([pytag[2]])
    ensures (Head2(pytag) == "py" || Head2(pytag) == "pp") && |pytag| == 4 ==> r == Ok([pytag[2], '.', pytag[3]])
    ensures Head2(pytag) == "cp" && |pytag| >= 4 ==> r == Ok([pytag[2], '.', pytag[3]])
    ensures r == Err(ValueError(UnsupportedPythonTag)) <==>
      && pytag != "py2.py3"
      && !(Head2(pytag) == "py" && (|pytag| == 3 || |pytag| == 4))
      && !(Head2(pytag) == "pp" && |pytag| == 4)
      && Head2(pytag) != "cp"
  {
    var head := Head2(pytag);
    if pytag == "py2.py3" then
      assert head == "py";
      Ok(host)
    else if head == "py" && |pytag| == 3 then Ok([pytag[2]])
    else if (head == "pp" || head == "py") && |pytag| == 4 then Ok([pytag[2], '.', pytag[3]])
    else if head == "cp" then
      if |pytag| < 4 then Err(IndexError) else Ok([pytag[2], '.', pytag[3]])
    else Err(ValueError(UnsupportedPythonTag))
  }

  function ParseWheel(lib: VersionLib, host: string, basename: string, project: Option<string>): (r: Result<Artifact>)
    ensures r.Err? ==> r.error != ValueError(UnrecognizedExtension)
    ensures r.Ok? ==> r.value.format.Wheel?
    ensures r.Ok? && project.Some? ==> r.value.name == WheelEscape(project.value)
  {
    var c := Split(basename, '-');
    if project.Some? && c[0] != WheelEscape(project.value) then Err(ValueError(NameMismatch))
    else if |c| < 3 || |c[2]| < 3 then Err(ValueError(MalformedWheel))
    else if |c| < 5 then Err(IndexError)   // components[3], components[4]
    else match PythonVersion(c[2], host)
      case Err(e) => Err(e)
      case Ok(pyversion) => Ok(Artifact(c[0], lib.safe(c[1]), pyversion, Wheel(c[2], c[3], c[4])))
  }

  function ParseExe(lib: VersionLib, host: string, basename: string, project: Option<string>): (r: Result<Artifact>)
    ensures r.Err? ==> r.error.ValueError? && r.error != ValueError(UnrecognizedExtension)
    ensures r.Ok? ==> r.value.format.Wininst?
    ensures r.Ok? && project.Some? ==> r.value.name == WheelEscape(project.value)
  {
    match RSplit(basename, '-')
    case None => Err(ValueError(NotEnoughValues))
    case Some((head, tail)) =>
      // without a trailing `-py...` segment the installer is version independent
      if "py" <= tail then ParseInstaller(lib, head, tail, project)
      else ParseInstaller(lib, basename, "py" + host, project)
  }

  /** The installer name once the python tag is settled: `dist-version.platform`. */
  function ParseInstaller(lib: VersionLib, remainder: string, pythontag: string, project: Option<string>): (r: Result<Artifact>)
    ensures r.Err? ==> r.error.ValueError? && r.error != ValueError(UnrecognizedExtension)
    ensures r.Ok? ==> r.value.format.Wininst?
    ensures r.Ok? && project.Some? ==> r.value.name == WheelEscape(project.value)
  {
    match RSplit(remainder, '.')
    case None => Err(ValueError(NotEnoughValues))
    case Some((nameAndVersion, platform)) =>
      match RSplit(nameAndVersion, '-')
      case None => Err(ValueError(NotEnoughValues))
      case Some((dist, version)) =>
        var name := WheelEscape(dist);
        if project.Some? && name != WheelEscape(project.value) then Err(ValueError(NameMismatch))
        else Ok(Artifact(name, lib.safe(version), Slice(pythontag, 2),
                         Wininst(RemoveChar(pythontag, '.'), WheelEscape(platform))))
  }

  function ParseSource(lib: VersionLib, basename: string, project: Option<string>): (r: Result<Artifact>)
    ensures r.Err? ==> r.error.ValueError? && r.error != ValueError(UnrecognizedExtension)
    ensures r.Ok? ==> r.value.format.Source? && r.value.pyversion == ""
    ensures r.Ok? && project.Some? ==> r.value.name == WheelEscape(project.value)
  {
    match RSplit(basename, '-')
    case None => Err(ValueError(NotEnoughValues))
    case Some((dist, version)) =>
      var name := WheelEscape(dist);
      if project.Some? && name != WheelEscape(project.value) then Err(ValueError(NameMismatch))
      else Ok(Artifact(name, lib.safe(version), "", Source))
  }

  /** `parse_filename`: the extension picks the grammar; any other extension
      is a ValueError. */
  function ParseFilename(lib: VersionLib, host: string, filename: string, project: Option<string>): (r: Result<Artifact>)
    ensures r == Err(ValueError(UnrecognizedExtension)) <==>
      !(EndsWith(filename, ".whl") || EndsWith(filename, ".exe") || EndsWith(filename, ".zip")
        || EndsWith(filename, ".tar.gz"))
    ensures r.Ok? ==>
      && (r.value.format.Wheel? <==> EndsWith(filename, ".whl"))
      && (r.value.format.Wininst? <==> EndsWith(filename, ".exe"))
      && (r.value.format.Source? <==> EndsWith(filename, ".zip") || EndsWith(filename, ".tar.gz"))
    ensures r.Ok? && project.Some? ==> r.value.name == WheelEscape(project.value)
  {
    ExtensionsExclusive(filename);
    if EndsWith(filename, ".whl") then ParseWheel(lib, host, DropSuffix(filename, ".whl"), project)
    else if EndsWith(filename, ".exe") then ParseExe(lib, host, DropSuffix(filename, ".exe"), project)
    else if EndsWith(filename, ".zip") then ParseSource(lib, DropSuffix(filename, ".zip"), project)
    else if EndsWith(filename, ".tar.gz") then ParseSource(lib, DropSuffix(filename, ".tar.gz"), project)
    else Err(ValueError(UnrecognizedExtension))
  }

  /** At most one of the four extensions ends a name. */
  lemma ExtensionsExclusive(f: string)
    ensures EndsWith(f, ".whl") ==> !EndsWith(f, ".exe") && !EndsWith(f, ".zip") && !EndsWith(f, ".tar.gz")
    ensures EndsWith(f, ".exe") ==> !EndsWith(f, ".zip") && !EndsWith(f, ".tar.gz")
    ensures EndsWith(f, ".zip") ==> !EndsWith(f, ".tar.gz")
  {
    var n := |f|;
    if EndsWith(f, ".whl") { assert f[n - 1] == ".whl"[3]; }
    if EndsWith(f, ".exe") { assert f[n - 1] == ".exe"[3]; }
    if EndsWith(f, ".zip") { assert f[n - 1] == ".zip"[3]; }
    if EndsWith(f, ".tar.gz") { assert f[n - 1] == ".tar.gz"[6]; }
  }

  // ---------------------------------------------------------------------
  // The grammars, stated from both ends.

  predicate DashFreeParts(parts: seq<string>)
  {
    forall i :: 0 <= i < |parts| ==> '-' !in parts[i]
  }

  /** A wheel filename built from five or more dash-free components parses
      to its first component verbatim (the wheel name is not escaped), the
      normalised second component, and the tags of components three to five;
      later components are ignored. */
  lemma WheelFromComponents(lib: VersionLib, host: string, parts: seq<string>, project: Option<string>)
    requires |parts| >= 5 && DashFreeParts(parts) && |parts[2]| >= 3
    requires project.None? || parts[0] == WheelEscape(project.value)
    ensures ParseFilename(lib, host, Join(parts, '-') + ".whl", project) ==
      match PythonVersion(parts[2], host)
      case Ok(pyversion) => Ok(Artifact(parts[0], lib.safe(parts[1]), pyversion, Wheel(parts[2], parts[3], parts[4])))
      case Err(e) => Err(e)
  {
    AppendedSuffix(Join(parts, '-'), ".whl");
    SplitJoin(parts, '-');
  }

  /** A wheel with fewer than three components or a python tag shorter than
      three characters is a ValueError, however many components follow; with
      three or four components it gets past that check and fails on the
      missing tag with an IndexError. */
  lemma WheelTooShort(lib: VersionLib, host: string, parts: seq<string>, project: Option<string>)
    requires 1 <= |parts| && DashFreeParts(parts)
    requires project.None? || parts[0] == WheelEscape(project.value)
    ensures var r := ParseFilename(lib, host, Join(parts, '-') + ".whl", project);
      && (|parts| < 3 || |parts[2]| < 3 ==> r == Err(ValueError(MalformedWheel)))
      && (3 <= |parts| < 5 && |parts[2]| >= 3 ==> r == Err(IndexError))
  {
    AppendedSuffix(Join(parts, '-'), ".whl");
    SplitJoin(parts, '-');
  }

  /** Reading a parsed wheel back: the filename is its dash-separated
      components plus `.whl`, and name, version and tags come from the first
      five of them. */
  lemma WheelFields(lib: VersionLib, host: string, filename: string, project: Option<string>)
    requires ParseFilename(lib, host, filename, project).Ok?
    requires ParseFilename(lib, host, filename, project).value.format.Wheel?
    ensures EndsWith(filename, ".whl")
    ensures var a := ParseFilename(lib, host, filename, project).value;
      var c := Split(DropSuffix(filename, ".whl"), '-');
      && |c| >= 5 && DashFreeParts(c)
      && filename == Join(c, '-') + ".whl"
      && a.name == c[0] && a.version == lib.safe(c[1])
      && a.format == Wheel(c[2], c[3], c[4])
      && PythonVersion(c[2], host) == Ok(a.pyversion)
  {
  }

  /** `checked` is what `unchecked` becomes when the expected project name
      is enforced after parsing. */
  predicate NameFiltered(checked: Result<Artifact>, unchecked: Result<Artifact>, project: string)
  {
    && (checked.Ok? ==> checked.value.name == WheelEscape(project) && unchecked == checked)
    && (unchecked.Ok? ==>
          checked == if unchecked.value.name == WheelEscape(project) then unchecked
                     else Err(ValueError(NameMismatch)))
  }

  /** The expected project name only filters: a result with a project name
      carries the escaped project name and equals the unchecked result, and
      an unchecked result is kept or turned into a name mismatch. */
  lemma ProjectNameCheck(lib: VersionLib, host: string, filename: string, project: string)
    ensures NameFiltered(ParseFilename(lib, host, filename, Some(project)), ParseFilename(lib, host, filename, None), project)
  {
    ExtensionsExclusive(filename);
    if EndsWith(filename, ".whl") {
      WheelNameFiltered(lib, host, DropSuffix(filename, ".whl"), project);
    } else if EndsWith(filename, ".exe") {
      var basename := DropSuffix(filename, ".exe");
      match RSplit(basename, '-') {
        case None =>
        case Some((head, tail)) =>
          if "py" <= tail {
            InstallerNameFiltered(lib, head, tail, project);
          } else {
            InstallerNameFiltered(lib, basename, "py" + host, project);
          }
      }
    } else if EndsWith(filename, ".zip") {
      SourceNameFiltered(lib, DropSuffix(filename, ".zip"), project);
    } else if EndsWith(filename, ".tar.gz") {
      SourceNameFiltered(lib, DropSuffix(filename, ".tar.gz"), project);
    }
  }

  lemma WheelNameFiltered(lib: VersionLib, host: string, basename: string, project: string)
    ensures NameFiltered(ParseWheel(lib, host, basename, Some(project)), ParseWheel(lib, host, basename, None), project)
  {
  }

  lemma InstallerNameFiltered(lib: VersionLib, remainder: string, pythontag: string, project: string)
    ensures NameFiltered(ParseInstaller(lib, remainder, pythontag, Some(project)),
                         ParseInstaller(lib, remainder, pythontag, None), project)
  {
  }

  lemma SourceNameFiltered(lib: VersionLib, basename: string, project: string)
    ensures NameFiltered(ParseSource(lib, basename, Some(project)), ParseSource(lib, basename, None), project)
  {
  }

  /** An installer named `dist-version.platform-pytag.exe`: the name is
      escaped, the python version is the tag after `py`, and the platform
      (which may hold `-`, as `win-amd64` does) is escaped into the tags. */
  lemma ExeWithPythonTag(lib: VersionLib, host: string, dist: string, version: string, platform: string,
                         pyversion: string)
    requires '-' !in version && '.' !in platform && '-' !in pyversion
    ensures ParseFilename(lib, host, dist + "-" + version + "." + platform + "-py" + pyversion + ".exe", None) ==
      Ok(Artifact(WheelEscape(dist), lib.safe(version), pyversion,
                  Wininst(RemoveChar("py" + pyversion, '.'), WheelEscape(platform))))
  {
    var basename := dist + "-" + version + "." + platform + "-py" + pyversion;
    TagSuffix(dist + "-" + version + "." + platform, pyversion);
    ExeBasenameWithTag(lib, host, dist, version, platform, pyversion);
    AppendedSuffix(basename, ".exe");
    ExtensionsExclusive(basename + ".exe");
  }

  lemma ExeBasenameWithTag(lib: VersionLib, host: string, dist: string, version: string, platform: string,
                           pyversion: string)
    requires '-' !in version && '.' !in platform && '-' !in pyversion
    ensures ParseExe(lib, host, (dist + "-" + version + "." + platform) + ['-'] + ("py" + pyversion), None) ==
      Ok(Artifact(WheelEscape(dist), lib.safe(version), pyversion,
                  Wininst(RemoveChar("py" + pyversion, '.'), WheelEscape(platform))))
  {
    var tag := "py" + pyversion;
    assert '-' !in tag && "py" <= tag;
    ExeTagged(lib, host, dist + "-" + version + "." + platform, tag);
    InstallerFields(lib, dist, version, platform, tag);
    assert Slice(tag, 2) == pyversion;
  }

  lemma TagSuffix(remainder: string, pyversion: string)
    ensures remainder + "-py" + pyversion == remainder + ['-'] + ("py" + pyversion)
  {
  }

  /** A trailing dash-free `py` segment is taken as the python tag. */
  lemma ExeTagged(lib: VersionLib, host: string, remainder: string, tag: string)
    requires '-' !in tag && "py" <= tag
    ensures ParseExe(lib, host, remainder + ['-'] + tag, None) == ParseInstaller(lib, remainder, tag, None)
  {
    RSplitLast(remainder, tag, '-');
  }

  /** `dist-version.platform` with a dash-free version and a dot-free platform. */
  lemma InstallerFields(lib: VersionLib, dist: string, version: string, platform: string, pythontag: string)
    requires '-' !in version && '.' !in platform
    ensures ParseInstaller(lib, dist + "-" + version + "." + platform, pythontag, None) ==
      Ok(Artifact(WheelEscape(dist), lib.safe(version), Slice(pythontag, 2),
                  Wininst(RemoveChar(pythontag, '.'), WheelEscape(platform))))
  {
    var nameAndVersion := dist + ['-'] + version;
    assert dist + "-" + version + "." + platform == nameAndVersion + ['.'] + platform;
    RSplitLast(nameAndVersion, platform, '.');
    RSplitLast(dist, version, '-');
  }

  /** The last `-` segment of a platform does not read as a python tag. */
  predicate UntaggedPlatform(platform: string)
  {
    RSplit(platform, '-').Some? ==> !("py" <= RSplit(platform, '-').value.1)
  }

  /** An installer without a trailing python tag takes the running
      interpreter's version; the platform may hold `-`, as `win-amd64` does. */
  lemma ExeWithoutPythonTag(lib: VersionLib, host: string, dist: string, version: string, platform: string)
    requires '-' !in version && '.' !in platform && UntaggedPlatform(platform) && !("py" <= version)
    ensures ParseFilename(lib, host, dist + "-" + version + "." + platform + ".exe", None) ==
      Ok(Artifact(WheelEscape(dist), lib.safe(version), host,
                  Wininst(RemoveChar("py" + host, '.'), WheelEscape(platform))))
  {
    var basename := dist + "-" + version + "." + platform;
    ExeBasenameWithoutTag(lib, host, dist, version, platform);
    AppendedSuffix(basename, ".exe");
    ExtensionsExclusive(basename + ".exe");
  }

  lemma ExeBasenameWithoutTag(lib: VersionLib, host: string, dist: string, version: string, platform: string)
    requires '-' !in version && '.' !in platform && UntaggedPlatform(platform) && !("py" <= version)
    ensures ParseExe(lib, host, dist + "-" + version + "." + platform, None) ==
      Ok(Artifact(WheelEscape(dist), lib.safe(version), host,
                  Wininst(RemoveChar("py" + host, '.'), WheelEscape(platform))))
  {
    var nameAndVersion := dist + ['-'] + version;
    var basename := nameAndVersion + ['.'] + platform;
    assert dist + "-" + version + "." + platform == basename;
    match RSplit(platform, '-') {
      case None =>
        var tail := version + ['.'] + platform;
        assert basename == dist + ['-'] + tail;
        assert '-' !in tail;
        RSplitLast(dist, tail, '-');
        NotPyPrefixed(version, platform);
      case Some((head, last)) =>
        assert basename == (nameAndVersion + ['.'] + head) + ['-'] + last;
        RSplitLast(nameAndVersion + ['.'] + head, last, '-');
    }
    InstallerFields(lib, dist, version, platform, "py" + host);
    assert Slice("py" + host, 2) == host;
  }

  /** The documented installer `sklearn-template-0.0.3.win-amd64.exe`,
      whose platform holds a `-` and which has no python tag: it takes the
      running interpreter's version, and both dashes of its name and platform
      become underscores. */
  lemma DocumentedUntaggedInstaller(lib: VersionLib, host: string)
    ensures ParseFilename(lib, host, "sklearn-template" + "-" + "0.0.3" + "." + "win-amd64" + ".exe", None) ==
      Ok(Artifact("sklearn_template", lib.safe("0.0.3"), host,
                  Wininst(RemoveChar("py" + host, '.'), "win_amd64")))
  {
    WinAmd64Untagged();
    assert '-' !in "0.0.3" && '.' !in "win-amd64" && !("py" <= "0.0.3") by {
      assert "0.0.3"[0] != "py"[0];
    }
    ExeWithoutPythonTag(lib, host, "sklearn-template", "0.0.3", "win-amd64");
    SklearnTemplateEscaped();
    WinAmd64Escaped();
  }

  /** The documented project name escapes to `sklearn_template`. */
  lemma SklearnTemplateEscaped()
    ensures WheelEscape("sklearn-template") == "sklearn_template"
  {
    assert Clean("sklearn") && Clean("template");
    EscapeDash("sklearn", "template");
    assert "sklearn" + "-" + "template" == "sklearn-template";
    assert "sklearn" + "_" + "template" == "sklearn_template";
  }

  /** The documented platform escapes to `win_amd64`. */
  lemma WinAmd64Escaped()
    ensures WheelEscape("win-amd64") == "win_amd64"
  {
    assert Clean("win") && Clean("amd64");
    EscapeDash("win", "amd64");
    assert "win" + "-" + "amd64" == "win-amd64";
    assert "win" + "_" + "amd64" == "win_amd64";
  }

  /** `win-amd64` ends in `amd64`, which is not a python tag. */
  lemma WinAmd64Untagged()
    ensures UntaggedPlatform("win-amd64")
  {
    assert "win-amd64" == "win" + ['-'] + "amd64";
    RSplitLast("win", "amd64", '-');
    assert "amd64"[0] != "py"[0];
  }

  lemma NotPyPrefixed(version: string, platform: string)
    requires !("py" <= version)
    ensures !("py" <= version + ['.'] + platform)
  {
    var tail := version + ['.'] + platform;
    if |version| >= 2 {
      assert tail[..2] == version[..2];
    } else if |version| == 1 {
      assert tail[1] == '.';
    } else {
      assert tail[0] == '.';
    }
  }

  /** A source archive `dist-version.tar.gz` or `.zip`: escaped name, the
      part after the last `-` as version, no python version, no tags. */
  lemma SourceArchive(lib: VersionLib, host: string, dist: string, version: string, zip: bool)
    requires '-' !in version
    ensures var ext := if zip then ".zip" else ".tar.gz";
      ParseFilename(lib, host, dist + "-" + version + ext, None) ==
        Ok(Artifact(WheelEscape(dist), lib.safe(version), "", Source))
  {
    var ext := if zip then ".zip" else ".tar.gz";
    var basename := dist + "-" + version;
    AppendedSuffix(basename, ext);
    ExtensionsExclusive(basename + ext);
    assert basename == dist + ['-'] + version;
    RSplitLast(dist, version, '-');
  }
}
