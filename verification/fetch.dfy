/** The older, download-side filename parser of wheelhouse_uploader/fetch.py
    and the loop of `fetch_artifacts` that turns the links of an index page
    into the list of `(url, path)` pairs to download. This parser compares
    raw project names and returns `(version, pyversion, kind)` with the
    version exactly as written. */
module Fetch {
  import opened Errors
  import opened Text
  import F = Filenames

  /** `(version, pyversion, kind)`; `pyversion` is None for source archives. */
  datatype Found = Found(version: string, pyversion: Option<string>, kind: F.Kind)

  /** The doctest's running interpreter is the host version; `cp` tags name
      major and minor by one digit each. */
  function ParseWheel(host: string, project: string, basename: string): (r: Result<Found>)
    ensures r.Err? ==> r.error.ValueError?
    ensures r.Ok? ==> r.value.kind == F.BdistWheel && r.value.pyversion.Some?
    ensures r.Ok? ==> var c := Split(basename, '-');
      && c[0] == ReplaceChar(project, '-', '_') && |c| >= 3 && |c[2]| > 4
      && (c[2] == "py2.py3" || c[2][..2] == "cp")
      && r.value.version == c[1]
      && r.value.pyversion == Some(if c[2] == "py2.py3" then host else [c[2][2], '.', c[2][3]])
    ensures Split(basename, '-')[0] != ReplaceChar(project, '-', '_') ==> r == Err(ValueError(NameMismatch))
    ensures var c := Split(basename, '-');
      c[0] == ReplaceChar(project, '-', '_') && (|c| < 3 || |c[2]| <= 4) ==> r == Err(ValueError(MalformedWheel))
    ensures var c := Split(basename, '-');
      c[0] == ReplaceChar(project, '-', '_') && |c| >= 3 && |c[2]| > 4 && c[2] != "py2.py3" && c[2][..2] != "cp" ==>
        r == Err(ValueError(UnsupportedPythonTag))
  {
    var c := Split(basename, '-');
    if c[0] != ReplaceChar(project, '-', '_') then Err(ValueError(NameMismatch))
    else if |c| < 3 || !(|c[2]| > 4) then Err(ValueError(MalformedWheel))
    else
      var pytag := c[2];
      if pytag == "py2.py3" then Ok(Found(c[1], Some(host), F.BdistWheel))   // the universal tag
      else if pytag[..2] == "cp" then Ok(Found(c[1], Some([pytag[2], '.', pytag[3]]), F.BdistWheel))
      else Err(ValueError(UnsupportedPythonTag))
  }

  function ParseExe(project: string, basename: string): (r: Result<Found>)
    ensures r.Err? ==> r.error.ValueError?
    ensures r.Ok? ==> project <= basename && r.value.kind == F.BdistWininst && r.value.pyversion.Some?
  {
    if !(project <= basename) then Err(ValueError(NameMismatch))
    else
      var block := Slice(basename, |project| + 1);
      match RSplit(block, '-')
      case None => Err(ValueError(NotEnoughValues))
      case Some((rest, tag)) =>
        match RSplit(rest, '.')
        case None => Err(ValueError(NotEnoughValues))
        case Some((version, _)) => Ok(Found(version, Some(Slice(tag, 2)), F.BdistWininst))
  }

  function ParseSource(project: string, basename: string): (r: Result<Found>)
    ensures r.Err? ==> r == Err(ValueError(NameMismatch)) && !(project <= basename)
    ensures r.Ok? ==> project <= basename && r.value == Found(Slice(basename, |project| + 1), None, F.Sdist)
  {
    if !(project <= basename) then Err(ValueError(NameMismatch))
    else Ok(Found(Slice(basename, |project| + 1), None, F.Sdist))
  }

  /** `parse_filename(project_name, filename)`: every failure is a ValueError,
      so the selection loop, which catches only ValueError, never stops on a
      filename. */
  function ParseFilename(host: string, project: string, filename: string): (r: Result<Found>)
    ensures r.Err? ==> r.error.ValueError?
    ensures r == Err(ValueError(UnrecognizedExtension)) <==>
      !(EndsWith(filename, ".whl") || EndsWith(filename, ".exe") || EndsWith(filename, ".zip")
        || EndsWith(filename, ".tar.gz"))
    ensures r.Ok? ==>
      && (r.value.kind == F.BdistWheel <==> EndsWith(filename, ".whl"))
      && (r.value.kind == F.BdistWininst <==> EndsWith(filename, ".exe"))
      && (r.value.kind == F.Sdist <==> EndsWith(filename, ".zip") || EndsWith(filename, ".tar.gz"))
      && (r.value.pyversion.None? <==> r.value.kind == F.Sdist)
  {
    F.ExtensionsExclusive(filename);
    if EndsWith(filename, ".whl") then ParseWheel(host, project, DropSuffix(filename, ".whl"))
    else if EndsWith(filename, ".exe") then ParseExe(project, DropSuffix(filename, ".exe"))
    else if EndsWith(filename, ".zip") then ParseSource(project, DropSuffix(filename, ".zip"))
    else if EndsWith(filename, ".tar.gz") then ParseSource(project, DropSuffix(filename, ".tar.gz"))
    else Err(ValueError(UnrecognizedExtension))
  }

  // ---------------------------------------------------------------------
  // The grammars, stated from the filename's side.

  /** A wheel whose third component is longer than four characters and is
      `py2.py3` or starts with `cp` parses to its second component, verbatim;
      the components after the third are not looked at. */
  lemma WheelAccepted(host: string, project: string, parts: seq<string>)
    requires |parts| >= 3 && F.DashFreeParts(parts)
    requires parts[0] == ReplaceChar(project, '-', '_')
    requires |parts[2]| > 4 && (parts[2] == "py2.py3" || parts[2][..2] == "cp")
    ensures ParseFilename(host, project, Join(parts, '-') + ".whl") ==
      Ok(Found(parts[1], Some(if parts[2] == "py2.py3" then host else [parts[2][2], '.', parts[2][3]]), F.BdistWheel))
  {
    AppendedSuffix(Join(parts, '-'), ".whl");
    SplitJoin(parts, '-');
  }

  /** The length check rejects every python tag of four characters or fewer,
      `cp34` included. */
  lemma ShortTagRejected(host: string, project: string, parts: seq<string>)
    requires |parts| >= 3 && F.DashFreeParts(parts)
    requires parts[0] == ReplaceChar(project, '-', '_')
    requires |parts[2]| <= 4
    ensures ParseFilename(host, project, Join(parts, '-') + ".whl") == Err(ValueError(MalformedWheel))
  {
    AppendedSuffix(Join(parts, '-'), ".whl");
    SplitJoin(parts, '-');
  }

  /** The documented example `scikit_learn-0.15.2-cp34-none-win32.whl`
      (written here as its components) is rejected by the code instead of
      giving `('0.15.2', '3.4', 'bdist_wheel')`. */
  lemma DocumentedWheelRejected(host: string)
    ensures ParseFilename(host, "scikit-learn", Join(["scikit_learn", "0.15.2", "cp34", "none", "win32"], '-') + ".whl")
      == Err(ValueError(MalformedWheel))
  {
    var parts := ["scikit_learn", "0.15.2", "cp34", "none", "win32"];
    ProjectExampleText();
    assert F.DashFreeParts(parts) by {
      forall i | 0 <= i < 5 ensures '-' !in parts[i] {
        if i == 0 {} else if i == 1 {} else if i == 2 {} else if i == 3 {} else {}
      }
    }
    ShortTagRejected(host, "scikit-learn", parts);
  }

  lemma ProjectExampleText()
    ensures ReplaceChar("scikit-learn", '-', '_') == "scikit_learn"
  {
    var r := ReplaceChar("scikit-learn", '-', '_');
    assert |r| == 12;
    forall i | 0 <= i < 12 ensures r[i] == "scikit_learn"[i] {
      assert r[i] == if "scikit-learn"[i] == '-' then '_' else "scikit-learn"[i];
    }
  }

  /** An installer is the project name, one separator, the version, a dot,
      a dot-free platform, a dash and a dash-free tag whose first two
      characters are dropped. */
  lemma ExeAccepted(host: string, project: string, sep: char, version: string, platform: string, tag: string)
    requires '.' !in platform && '-' !in tag
    ensures ParseFilename(host, project, project + [sep] + (version + ['.'] + platform + ['-'] + tag) + ".exe") ==
      Ok(Found(version, Some(Slice(tag, 2)), F.BdistWininst))
  {
    var basename := project + [sep] + (version + ['.'] + platform + ['-'] + tag);
    AppendedSuffix(basename, ".exe");
    F.ExtensionsExclusive(basename + ".exe");
    ExeBlockAccepted(project, sep, version, platform, tag);
  }

  lemma ExeBlockAccepted(project: string, sep: char, version: string, platform: string, tag: string)
    requires '.' !in platform && '-' !in tag
    ensures ParseExe(project, project + [sep] + (version + ['.'] + platform + ['-'] + tag)) ==
      Ok(Found(version, Some(Slice(tag, 2)), F.BdistWininst))
  {
    var rest := version + ['.'] + platform;
    var block := rest + ['-'] + tag;
    var basename := project + [sep] + block;
    assert basename[..|project|] == project;
    assert Slice(basename, |project| + 1) == block;
    RSplitLast(rest, tag, '-');
    RSplitLast(version, platform, '.');
  }

  /** The documented installer example `scikit-learn-0.15.1-rc.win-amd64-py2.7.exe`,
      written as its parts. */
  lemma DocumentedInstaller(host: string)
    ensures ParseFilename(host, "scikit-learn", "scikit-learn" + "-" + ("0.15.1-rc" + "." + "win-amd64" + "-" + "py2.7") + ".exe")
      == Ok(Found("0.15.1-rc", Some("2.7"), F.BdistWininst))
  {
    ExeAccepted(host, "scikit-learn", '-', "0.15.1-rc", "win-amd64", "py2.7");
    assert Slice("py2.7", 2) == "2.7";
  }

  /** A source archive is the project name, one separator and the version. */
  lemma SourceAccepted(host: string, project: string, sep: char, version: string, ext: string)
    requires ext == ".zip" || ext == ".tar.gz"
    ensures ParseFilename(host, project, project + [sep] + version + ext) == Ok(Found(version, None, F.Sdist))
  {
    var basename := project + [sep] + version;
    AppendedSuffix(basename, ext);
    F.ExtensionsExclusive(basename + ext);
    SourceBlockAccepted(project, sep, version);
  }

  lemma SourceBlockAccepted(project: string, sep: char, version: string)
    ensures ParseSource(project, project + [sep] + version) == Ok(Found(version, None, F.Sdist))
  {
    var basename := project + [sep] + version;
    assert basename[..|project|] == project;
    assert Slice(basename, |project| + 1) == version;
  }

  /** The documented source archive examples `scikit-learn-0.15.1.tar.gz`
      and `scikit-learn-0.15.1.zip`, written as their parts. */
  lemma DocumentedSources(host: string)
    ensures ParseFilename(host, "scikit-learn", "scikit-learn" + "-" + "0.15.1" + ".tar.gz") == Ok(Found("0.15.1", None, F.Sdist))
    ensures ParseFilename(host, "scikit-learn", "scikit-learn" + "-" + "0.15.1" + ".zip") == Ok(Found("0.15.1", None, F.Sdist))
  {
    SourceAccepted(host, "scikit-learn", '-', "0.15.1", ".tar.gz");
    SourceAccepted(host, "scikit-learn", '-', "0.15.1", ".zip");
  }

  // ---------------------------------------------------------------------
  // Link selection in `fetch_artifacts`.

  /** The absolute URL of an `href` found on the index page. */
  function ResolveLink(indexUrl: string, link: string): (url: string)
    ensures indexUrl <= url && EndsWith(url, link)
    ensures |url| == |indexUrl| + |link| + (if EndsWith(indexUrl, "/") then 0 else 1)
    ensures !EndsWith(indexUrl, "/") ==> url[|indexUrl|] == '/'
  {
    var url := if EndsWith(indexUrl, "/") then indexUrl + link else indexUrl + "/" + link;
    assert url[|url| - |link|..] == link;
    url
  }

  /** A requested version filters only when it is given and not empty. */
  predicate Wanted(version: Option<string>, fileVersion: string)
  {
    version.None? || version.value == [] || fileVersion == version.value
  }

  /** One element of `artifacts`: where to download from and to. */
  datatype Transfer = Transfer(url: string, path: string)

  function TransferFor(indexUrl: string, folder: string, link: string): Transfer
  {
    Transfer(ResolveLink(indexUrl, link), PathJoin(folder, Basename(link)))
  }

  /** A link is kept when its last segment parses and its version is wanted. */
  predicate Keeps(host: string, project: string, version: Option<string>, link: string)
  {
    var r := ParseFilename(host, project, Basename(link));
    r.Ok? && Wanted(version, r.value.version)
  }

  function KeepFilter(host: string, project: string, version: Option<string>): string -> bool
  {
    link => Keeps(host, project, version, link)
  }

  function TransferMap(indexUrl: string, folder: string): string -> Transfer
  {
    link => TransferFor(indexUrl, folder, link)
  }

  /** The transfers for the links `keep` accepts, in link order. */
  function Selected(keep: string -> bool, transfer: string -> Transfer, links: seq<string>): seq<Transfer>
  {
    if links == [] then []
    else
      var init := Selected(keep, transfer, links[..|links| - 1]);
      var link := links[|links| - 1];
      if keep(link) then init + [transfer(link)] else init
  }

  /** The loop of `fetch_artifacts` over the links of the index page. */
  method SelectArtifacts(host: string, indexUrl: string, folder: string, project: string,
                         version: Option<string>, links: seq<string>) returns (artifacts: seq<Transfer>)
    ensures artifacts == Selected(KeepFilter(host, project, version), TransferMap(indexUrl, folder), links)
  {
    artifacts := [];
    for i := 0 to |links|
      invariant artifacts == Selected(KeepFilter(host, project, version), TransferMap(indexUrl, folder), links[..i])
    {
      var link := links[i];
      SelectStep(host, indexUrl, folder, project, version, links, i);
      var url := ResolveLink(indexUrl, link);
      var filename := Basename(link);
      // a link whose name does not parse is not a supported artifact
      var parsed := ParseFilename(host, project, filename);
      if parsed.Ok? && Wanted(version, parsed.value.version) {
        artifacts := artifacts + [Transfer(url, PathJoin(folder, filename))];
      }
    }
    assert links[..|links|] == links;
  }

  /** One turn of the loop: the next link's transfer is appended exactly
      when the link is kept. */
  lemma SelectStep(host: string, indexUrl: string, folder: string, project: string,
                   version: Option<string>, links: seq<string>, i: nat)
    requires i < |links|
    ensures var name := Basename(links[i]);
      var parsed := ParseFilename(host, project, name);
      Selected(KeepFilter(host, project, version), TransferMap(indexUrl, folder), links[..i + 1]) ==
      Selected(KeepFilter(host, project, version), TransferMap(indexUrl, folder), links[..i]) +
      (if parsed.Ok? && Wanted(version, parsed.value.version)
       then [Transfer(ResolveLink(indexUrl, links[i]), PathJoin(folder, name))] else [])
  {
    assert links[..i + 1] == links[..i] + [links[i]];
    SelectedSnoc(KeepFilter(host, project, version), TransferMap(indexUrl, folder), links[..i], links[i]);
  }

  lemma SelectedSnoc(keep: string -> bool, transfer: string -> Transfer, links: seq<string>, link: string)
    ensures Selected(keep, transfer, links + [link]) ==
      Selected(keep, transfer, links) + (if keep(link) then [transfer(link)] else [])
  {
    assert (links + [link])[..|links|] == links;
  }

  /** Every transfer comes from an accepted link. */
  lemma {:induction false} SelectedSound(keep: string -> bool, transfer: string -> Transfer, links: seq<string>, t: Transfer)
    requires t in Selected(keep, transfer, links)
    ensures exists link :: link in links && keep(link) && t == transfer(link)
  {
    var init := links[..|links| - 1];
    var last := links[|links| - 1];
    assert links == init + [last];
    if t in Selected(keep, transfer, init) {
      SelectedSound(keep, transfer, init, t);
      var link :| link in init && keep(link) && t == transfer(link);
      assert link in links;
    } else {
      assert last in links && keep(last) && t == transfer(last);
    }
  }

  /** Every accepted link gives its transfer. */
  lemma {:induction false} SelectedComplete(keep: string -> bool, transfer: string -> Transfer, links: seq<string>, link: string)
    requires link in links && keep(link)
    ensures transfer(link) in Selected(keep, transfer, links)
  {
    var init := links[..|links| - 1];
    var last := links[|links| - 1];
    assert links == init + [last];
    SelectedSnoc(keep, transfer, init, last);
    if link != last {
      assert link in init;
      SelectedComplete(keep, transfer, init, link);
    }
  }

  /** Selecting from a concatenation selects from each part in turn: the
      loop keeps link order. */
  lemma {:induction false} SelectedAppend(keep: string -> bool, transfer: string -> Transfer, l1: seq<string>, l2: seq<string>)
    ensures Selected(keep, transfer, l1 + l2) == Selected(keep, transfer, l1) + Selected(keep, transfer, l2)
    decreases |l2|
  {
    if l2 == [] {
      assert l1 + l2 == l1;
    } else {
      var init := l2[..|l2| - 1];
      var last := l2[|l2| - 1];
      assert l2 == init + [last];
      assert l1 + l2 == (l1 + init) + [last];
      SelectedSnoc(keep, transfer, l1 + init, last);
      SelectedSnoc(keep, transfer, init, last);
      SelectedAppend(keep, transfer, l1, init);
    }
  }

  /** What `fetch_artifacts` downloads: exactly the transfers of the links
      whose last segment parses and whose version is wanted. */
  lemma FetchSelection(host: string, indexUrl: string, folder: string, project: string,
                       version: Option<string>, links: seq<string>, t: Transfer)
    ensures t in Selected(KeepFilter(host, project, version), TransferMap(indexUrl, folder), links)
      <==> exists link :: link in links && Keeps(host, project, version, link) && t == TransferFor(indexUrl, folder, link)
  {
    var keep := KeepFilter(host, project, version);
    var transfer := TransferMap(indexUrl, folder);
    if t in Selected(keep, transfer, links) {
      SelectedSound(keep, transfer, links, t);
    }
    if exists link :: link in links && Keeps(host, project, version, link) && t == TransferFor(indexUrl, folder, link) {
      var link :| link in links && Keeps(host, project, version, link) && t == TransferFor(indexUrl, folder, link);
      SelectedComplete(keep, transfer, links, link);
    }
  }

  /** Without a version filter every link whose filename parses is kept. */
  lemma UnfilteredKeepsParsed(host: string, project: string, link: string)
    ensures Keeps(host, project, None, link) <==> ParseFilename(host, project, Basename(link)).Ok?
    ensures Keeps(host, project, Some(""), link) <==> ParseFilename(host, project, Basename(link)).Ok?
  {
  }
}
