/** Development builds, as wheelhouse_uploader/utils.py handles them:
    stamping a freshly built development wheel with the build time, and
    listing the development builds that fill the same slot as a reference
    build, newest first. */
module DevBuilds {
  import opened Errors
  import opened Text
  import opened Versions
  import opened Filenames

  // ---------------------------------------------------------------------
  // `stamp_dev_wheel`

  /** `(renamed, filename)` */
  datatype Stamped = Stamped(renamed: bool, filename: string)

  /** `"%s-%s-%s-%s-%s.whl" % (name, version, python, abi, platform)` */
  function WheelFilename(name: string, version: string, python: string, abi: string, platform: string): string
  {
    name + "-" + version + "-" + python + "-" + abi + "-" + platform + ".whl"
  }

  /** Release builds keep their name, a development installer or archive is
      refused, a development wheel that already carries a stamp keeps its
      name, and any other development wheel gets the build time put in
      front of its local version segment. */
  function StampDevWheel(lib: VersionLib, host: string, now: Instant, filename: string): (r: Result<Stamped>)
    ensures r.Ok? && !r.value.renamed ==> r.value.filename == filename
    ensures r.Ok? && r.value.renamed ==>
      var a := ParseFilename(lib, host, filename, None);
      && a.Ok? && a.value.format.Wheel? && IsDev(lib, a.value.version)
      && HasStamp(lib, a.value.version) == Ok(false)
      && EndsWith(r.value.filename, ".whl")
    ensures (var a := ParseFilename(lib, host, filename, None);
             a.Ok? && IsDev(lib, a.value.version) && !a.value.format.Wheel?) ==>
      r == Err(ValueError(UnstampableKind))
    ensures ParseFilename(lib, host, filename, None).Err? ==> r == Err(ParseFilename(lib, host, filename, None).error)
    ensures (var a := ParseFilename(lib, host, filename, None);
             a.Ok? && !IsDev(lib, a.value.version)) ==>
      r == Ok(Stamped(false, filename))
    ensures (var a := ParseFilename(lib, host, filename, None);
             a.Ok? && IsDev(lib, a.value.version) && a.value.format.Wheel? && HasStamp(lib, a.value.version) == Ok(true)) ==>
      r == Ok(Stamped(false, filename))
    ensures (var a := ParseFilename(lib, host, filename, None);
             a.Ok? && IsDev(lib, a.value.version) && a.value.format.Wheel? && HasStamp(lib, a.value.version) == Ok(false)) ==>
      var a := ParseFilename(lib, host, filename, None).value;
      r == Ok(Stamped(true, WheelFilename(a.name, LocalStamp(lib, a.version, now).value,
                                          a.format.python, a.format.abi, a.format.platform)))
  {
    match ParseFilename(lib, host, filename, None)
    case Err(e) => Err(e)
    case Ok(a) =>
      if !IsDev(lib, a.version) then Ok(Stamped(false, filename))   // release builds are not stamped
      else if !a.format.Wheel? then Err(ValueError(UnstampableKind))
      else if HasStamp(lib, a.version) == Ok(true) then Ok(Stamped(false, filename))   // never stamp twice
      else
        var version := LocalStamp(lib, a.version, now).value;
        var g := WheelFilename(a.name, version, a.format.python, a.format.abi, a.format.platform);
        assert g == (a.name + "-" + version + "-" + a.format.python + "-" + a.format.abi + "-" + a.format.platform) + ".whl";
        AppendedSuffix(a.name + "-" + version + "-" + a.format.python + "-" + a.format.abi + "-" + a.format.platform, ".whl");
        Ok(Stamped(true, g))
  }

  /** A wheel filename assembled from dash-free fields parses back to those
      fields. */
  lemma WheelFilenameParses(lib: VersionLib, host: string, name: string, version: string,
                            python: string, abi: string, platform: string)
    requires DashFreeParts([name, version, python, abi, platform]) && |python| >= 3
    ensures ParseFilename(lib, host, WheelFilename(name, version, python, abi, platform), None) ==
      match PythonVersion(python, host)
      case Ok(pyversion) => Ok(Artifact(name, lib.safe(version), pyversion, Wheel(python, abi, platform)))
      case Err(e) => Err(e)
  {
    var parts := [name, version, python, abi, platform];
    assert Join(parts[4..], '-') == platform;
    assert Join(parts[3..], '-') == abi + "-" + platform by {
      assert parts[3..][1..] == parts[4..];
    }
    assert Join(parts[2..], '-') == python + "-" + abi + "-" + platform by {
      assert parts[2..][1..] == parts[3..];
    }
    assert Join(parts[1..], '-') == version + "-" + python + "-" + abi + "-" + platform by {
      assert parts[1..][1..] == parts[2..];
    }
    assert Join(parts, '-') + ".whl" == WheelFilename(name, version, python, abi, platform);
    WheelFromComponents(lib, host, parts, None);
  }

  /** The stamped version of a development version holds no dash, so it
      stays one component of a wheel filename. */
  lemma StampDashFree(lib: VersionLib, version: string, now: Instant)
    requires Lawful(lib)
    requires IsDev(lib, version)
    ensures LocalStamp(lib, version, now).Ok?
    ensures '-' !in LocalStamp(lib, version, now).value
  {
    var v := lib.parse(version).value;
    var ts := Timestamp(now);
    assert DashFree(v);
    assert '-' !in ts by {
      forall i | 0 <= i < |ts| ensures ts[i] != '-' { assert IsDigit(ts[i]); }
    }
    var tail := if v.local.Some? then "_" + v.local.value else "";
    assert '-' !in tail;
    assert LocalStamp(lib, version, now).value == v.public + "+" + ts + tail;
  }

  lemma ReplaceVersion(c: seq<string>, version: string)
    requires |c| >= 5 && DashFreeParts(c) && '-' !in version
    ensures DashFreeParts([c[0], version, c[2], c[3], c[4]])
  {
    var parts := [c[0], version, c[2], c[3], c[4]];
    forall i | 0 <= i < 5 ensures '-' !in parts[i] {
      if i == 1 {} else { assert parts[i] == c[i]; }
    }
  }

  /** The renamed wheel parses to the same name, tags and python version,
      with the stamped version, which is a development version that counts
      as stamped. */
  lemma StampedWheel(lib: VersionLib, host: string, now: Instant, filename: string)
    requires Lawful(lib)
    requires ParseFilename(lib, host, filename, None).Ok?
    requires ParseFilename(lib, host, filename, None).value.format.Wheel?
    requires IsDev(lib, ParseFilename(lib, host, filename, None).value.version)
    ensures var a := ParseFilename(lib, host, filename, None).value;
      && LocalStamp(lib, a.version, now).Ok?
      && var version := LocalStamp(lib, a.version, now).value;
      && ParseFilename(lib, host, WheelFilename(a.name, version, a.format.python, a.format.abi, a.format.platform), None)
         == Ok(Artifact(a.name, lib.safe(version), a.pyversion, a.format))
      && IsDev(lib, lib.safe(version)) && HasStamp(lib, lib.safe(version)) == Ok(true)
  {
    var a := ParseFilename(lib, host, filename, None).value;
    WheelFields(lib, host, filename, None);
    var c := Split(DropSuffix(filename, ".whl"), '-');
    StampDashFree(lib, a.version, now);
    var version := LocalStamp(lib, a.version, now).value;
    ReplaceVersion(c, version);
    WheelFilenameParses(lib, host, a.name, version, c[2], c[3], c[4]);
    StampedIsStamped(lib, a.version, now);
  }

  /** Stamping is idempotent: whatever the clock says the second time, the
      output of a successful stamp is left as it is. */
  lemma StampIdempotent(lib: VersionLib, host: string, now: Instant, later: Instant, filename: string)
    requires Lawful(lib)
    ensures var r := StampDevWheel(lib, host, now, filename);
      r.Ok? ==> StampDevWheel(lib, host, later, r.value.filename) == Ok(Stamped(false, r.value.filename))
  {
    var r := StampDevWheel(lib, host, now, filename);
    if r.Ok? && r.value.renamed {
      var a := ParseFilename(lib, host, filename, None).value;
      StampedWheel(lib, host, now, filename);
      var version := LocalStamp(lib, a.version, now).value;
      assert r.value.filename == WheelFilename(a.name, version, a.format.python, a.format.abi, a.format.platform);
    }
  }

  /** The file `stamp_dev_wheel` leaves fills the same slot as the one it
      was given, with the same python version, and a development build stays
      a development build; so a stamped wheel is still matched against the
      builds it replaces. */
  lemma StampKeepsSlot(lib: VersionLib, host: string, now: Instant, filename: string)
    requires Lawful(lib)
    ensures var r := StampDevWheel(lib, host, now, filename);
      r.Ok? ==>
        var a := ParseFilename(lib, host, filename, None);
        var b := ParseFilename(lib, host, r.value.filename, None);
        && a.Ok? && b.Ok?
        && SlotOf(b.value) == SlotOf(a.value)
        && b.value.pyversion == a.value.pyversion
        && (IsDev(lib, a.value.version) ==> IsDev(lib, b.value.version))
  {
    var r := StampDevWheel(lib, host, now, filename);
    if r.Ok? && r.value.renamed {
      StampedWheel(lib, host, now, filename);
    }
  }

  // ---------------------------------------------------------------------
  // `matching_dev_filenames`

  /** The slot a build fills: `(distname, disttype, tags)`. */
  function SlotOf(a: Artifact): (string, Format)
  {
    (a.name, a.format)
  }

  /** The filenames the loop collects, in input order: those that parse, are
      development versions and fill `slot`. A ValueError skips a name; any
      other failure ends the scan. */
  function Candidates(lib: VersionLib, host: string, slot: (string, Format), names: seq<string>): Result<seq<string>>
  {
    if names == [] then Ok([])
    else
      var f := names[|names| - 1];
      match Candidates(lib, host, slot, names[..|names| - 1])
      case Err(e) => Err(e)
      case Ok(fs) =>
        match ParseFilename(lib, host, f, None)
        case Err(e) => if e.ValueError? then Ok(fs) else Err(e)
        case Ok(a) => if IsDev(lib, a.version) && SlotOf(a) == slot then Ok(fs + [f]) else Ok(fs)
  }

  /** What `matching_dev_filenames` returns before sorting: nothing for an
      unparseable or release reference, otherwise the candidates. */
  function DevMatches(lib: VersionLib, host: string, reference: string, existing: seq<string>): Result<seq<string>>
  {
    match ParseFilename(lib, host, reference, None)
    case Err(e) => if e.ValueError? then Ok([]) else Err(e)
    case Ok(a) => if !IsDev(lib, a.version) then Ok([]) else Candidates(lib, host, SlotOf(a), existing)
  }

  /** The parsed version of a filename, the sort key. */
  function FileVersion(lib: VersionLib, host: string, filename: string): Option<Version>
  {
    match ParseFilename(lib, host, filename, None)
    case Err(_) => None
    case Ok(a) => lib.parse(a.version)
  }

  predicate NewestFirst(lib: VersionLib, host: string, names: seq<string>)
  {
    forall i, j :: 0 <= i < j < |names| ==>
      && FileVersion(lib, host, names[i]).Some?
      && FileVersion(lib, host, names[j]).Some?
      && lib.le(FileVersion(lib, host, names[j]).value, FileVersion(lib, host, names[i]).value)
  }

  /** Every collected name is one of the inputs, parses, is a development
      version and fills the slot; every input that does so is collected; and
      the only failure is an IndexError. */
  lemma {:induction false} CandidatesExact(lib: VersionLib, host: string, slot: (string, Format), names: seq<string>)
    ensures var r := Candidates(lib, host, slot, names);
      && (r.Err? ==> r.error == IndexError)
      && (r.Ok? ==> forall f :: f in r.value <==>
            && f in names
            && ParseFilename(lib, host, f, None).Ok?
            && IsDev(lib, ParseFilename(lib, host, f, None).value.version)
            && SlotOf(ParseFilename(lib, host, f, None).value) == slot)
  {
    if names != [] {
      var init := names[..|names| - 1];
      CandidatesExact(lib, host, slot, init);
      assert names == init + [names[|names| - 1]];
    }
  }

  /** An unparseable or release reference matches nothing; otherwise the
      matches are exactly the development builds among `existing` that fill
      the reference's slot. */
  lemma DevMatchesExact(lib: VersionLib, host: string, reference: string, existing: seq<string>)
    ensures var r := DevMatches(lib, host, reference, existing);
      var ref := ParseFilename(lib, host, reference, None);
      && (r.Err? ==> r.error == IndexError)
      && ((ref.Err? && ref.error.ValueError?) || (ref.Ok? && !IsDev(lib, ref.value.version)) ==> r == Ok([]))
      && (r.Ok? && ref.Ok? && IsDev(lib, ref.value.version) ==> forall f :: f in r.value <==>
            && f in existing
            && ParseFilename(lib, host, f, None).Ok?
            && IsDev(lib, ParseFilename(lib, host, f, None).value.version)
            && SlotOf(ParseFilename(lib, host, f, None).value) == SlotOf(ref.value))
  {
    var ref := ParseFilename(lib, host, reference, None);
    if ref.Ok? && IsDev(lib, ref.value.version) {
      CandidatesExact(lib, host, SlotOf(ref.value), existing);
    }
  }

  lemma CandidatesSnoc(lib: VersionLib, host: string, slot: (string, Format), names: seq<string>, f: string)
    ensures Candidates(lib, host, slot, names + [f]) ==
      match Candidates(lib, host, slot, names)
      case Err(e) => Err(e)
      case Ok(fs) =>
        match ParseFilename(lib, host, f, None)
        case Err(e) => if e.ValueError? then Ok(fs) else Err(e)
        case Ok(a) => if IsDev(lib, a.version) && SlotOf(a) == slot then Ok(fs + [f]) else Ok(fs)
  {
    assert (names + [f])[..|names|] == names;
  }

  /** One turn of the loop of `matching_dev_filenames`. */
  lemma CandidatesStep(lib: VersionLib, host: string, slot: (string, Format), names: seq<string>, i: nat)
    requires i < |names|
    ensures Candidates(lib, host, slot, names[..i + 1]) ==
      match Candidates(lib, host, slot, names[..i])
      case Err(e) => Err(e)
      case Ok(fs) =>
        match ParseFilename(lib, host, names[i], None)
        case Err(e) => if e.ValueError? then Ok(fs) else Err(e)
        case Ok(a) => if IsDev(lib, a.version) && SlotOf(a) == slot then Ok(fs + [names[i]]) else Ok(fs)
  {
    assert names[..i + 1] == names[..i] + [names[i]];
    CandidatesSnoc(lib, host, slot, names[..i], names[i]);
  }

  lemma {:induction false} CandidatesErrorPersists(lib: VersionLib, host: string, slot: (string, Format),
                                                   names: seq<string>, k: nat)
    requires k <= |names|
    requires Candidates(lib, host, slot, names[..k]).Err?
    ensures Candidates(lib, host, slot, names) == Candidates(lib, host, slot, names[..k])
    decreases |names| - k
  {
    if k < |names| {
      assert names[..k + 1][..k] == names[..k];
      CandidatesErrorPersists(lib, host, slot, names, k + 1);
    } else {
      assert names[..k] == names;
    }
  }

  /** Ordered newest first by the versions `key` gives each name. */
  predicate SortedNewestFirst(le: (Version, Version) -> bool, key: map<string, Version>, names: seq<string>)
    requires forall f :: f in names ==> f in key
  {
    forall i, j :: 0 <= i < j < |names| ==> le(key[names[j]], key[names[i]])
  }

  /** `matching.sort(key=..., reverse=True)`: an insertion sort, newest
      version first. */
  method SortNewestFirst(le: (Version, Version) -> bool, key: map<string, Version>, names: seq<string>)
    returns (sorted: seq<string>)
    requires TotalPreorder(le)
    requires forall f :: f in names ==> f in key
    ensures multiset(sorted) == multiset(names)
    ensures forall f :: f in sorted ==> f in key
    ensures SortedNewestFirst(le, key, sorted)
  {
    sorted := [];
    for i := 0 to |names|
      invariant multiset(sorted) == multiset(names[..i])
      invariant forall f :: f in sorted ==> f in key
      invariant SortedNewestFirst(le, key, sorted)
    {
      var f := names[i];
      assert f in names;
      var k := 0;
      while k < |sorted| && le(key[f], key[sorted[k]])
        invariant 0 <= k <= |sorted|
        invariant forall j :: 0 <= j < k ==> le(key[f], key[sorted[j]])
      {
        k := k + 1;
      }
      InsertKeepsOrder(le, key, sorted, k, f);
      InsertCounts(sorted, k, f);
      assert multiset(names[..i + 1]) == multiset(names[..i]) + multiset{f} by {
        assert names[..i + 1] == names[..i] + [f];
      }
      sorted := sorted[..k] + [f] + sorted[k..];
    }
    assert names[..|names|] == names;
  }

  /** Inserting a name anywhere adds exactly that name. */
  lemma InsertCounts(s: seq<string>, k: nat, f: string)
    requires k <= |s|
    ensures multiset(s[..k] + [f] + s[k..]) == multiset(s) + multiset{f}
  {
    assert s == s[..k] + s[k..];
  }

  lemma InsertKeepsOrder(le: (Version, Version) -> bool, key: map<string, Version>, s: seq<string>, k: nat, f: string)
    requires TotalPreorder(le)
    requires forall g :: g in s ==> g in key
    requires f in key
    requires SortedNewestFirst(le, key, s)
    requires k <= |s|
    requires forall j :: 0 <= j < k ==> le(key[f], key[s[j]])
    requires k < |s| ==> !le(key[f], key[s[k]])
    ensures forall g :: g in s[..k] + [f] + s[k..] ==> g in key
    ensures SortedNewestFirst(le, key, s[..k] + [f] + s[k..])
  {
    var t := s[..k] + [f] + s[k..];
    assert forall g :: g in t ==> g in s || g == f;
    forall i, j | 0 <= i < j < |t| ensures le(key[t[j]], key[t[i]]) {
      if j < k {
      } else if j == k {
      } else if i < k {
        assert t[j] == s[j - 1];
      } else if i == k {
        assert t[j] == s[j - 1];
        assert le(key[s[k]], key[f]);
        if j - 1 > k { assert le(key[s[j - 1]], key[s[k]]); }
      } else {
        assert t[i] == s[i - 1] && t[j] == s[j - 1];
      }
    }
  }

  /** `matching_dev_filenames`: the development builds among `existing` that
      fill the reference's slot, newest version first. A ValueError from a
      filename skips it, an IndexError propagates. */
  method MatchingDevFilenames(lib: VersionLib, host: string, reference: string, existing: seq<string>)
    returns (r: Result<seq<string>>)
    requires TotalPreorder(lib.le)
    ensures r.Err? <==> DevMatches(lib, host, reference, existing).Err?
    ensures r.Err? ==> r == DevMatches(lib, host, reference, existing)
    ensures r.Ok? ==>
      && multiset(r.value) == multiset(DevMatches(lib, host, reference, existing).value)
      && NewestFirst(lib, host, r.value)
  {
    match ParseFilename(lib, host, reference, None) {
      case Err(e) =>
        if e.ValueError? {
          return Ok([]);   // invalid filename: no dev match
        }
        return Err(e);
      case Ok(a) =>
        if !IsDev(lib, a.version) {
          return Ok([]);
        }
        var matching, versions := CollectMatching(lib, host, SlotOf(a), existing);
        if matching.Err? {
          return Err(matching.error);
        }
        var sorted := SortNewestFirst(lib.le, versions, matching.value);
        r := Ok(sorted);
    }
  }

  /** The loop of `matching_dev_filenames`: the candidates in input order,
      each with its parsed version. */
  method CollectMatching(lib: VersionLib, host: string, slot: (string, Format), existing: seq<string>)
    returns (r: Result<seq<string>>, versions: map<string, Version>)
    ensures r == Candidates(lib, host, slot, existing)
    ensures r.Ok? ==> forall f :: f in r.value ==> f in versions
    ensures forall f :: f in versions ==> FileVersion(lib, host, f) == Some(versions[f])
  {
    var matching: seq<string> := [];
    versions := map[];
    for i := 0 to |existing|
      invariant Candidates(lib, host, slot, existing[..i]) == Ok(matching)
      invariant forall f :: f in matching ==> f in versions
      invariant forall f :: f in versions ==> FileVersion(lib, host, f) == Some(versions[f])
    {
      var f := existing[i];
      CandidatesStep(lib, host, slot, existing, i);
      match ParseFilename(lib, host, f, None) {
        case Err(e) =>
          if !e.ValueError? {
            CandidatesErrorPersists(lib, host, slot, existing, i + 1);
            return Err(e), versions;
          }
        case Ok(b) =>
          if IsDev(lib, b.version) && SlotOf(b) == slot {
            assert FileVersion(lib, host, f) == Some(lib.parse(b.version).value);
            matching := matching + [f];
            versions := versions[f := lib.parse(b.version).value];
          }
      }
    }
    assert existing[..|existing|] == existing;
    r := Ok(matching);
  }
}
