/** The upload side of wheelhouse_uploader/upload.py: one `Uploader` that
    scans a local folder, copies its files into a storage container, merges
    their digests into the `metadata.json` manifest kept in that container,
    renders `index.html` from the container listing, and retries the whole
    attempt on any failure other than bad credentials.

    The storage provider is an in-memory `Store`: a map from container name
    to `Bucket`, a table of accounts, and a schedule saying which requests
    fail on the network. The local folder is a `Disk` value. */
module Upload {
  import opened Errors
  import opened Text

  newtype byte = x: int | 0 <= x < 256

  /** One manifest value, `{"sha256": ..., "size": ...}`. A manifest read back
      from the container may lack either key, or hold `null` for it. */
  datatype Entry = Entry(sha256: Option<string>, size: Option<nat>)

  type Manifest = map<string, Entry>

  const MetadataName := "metadata.json"
  const IndexName := "index.html"

  /** What ends an attempt. `InvalidCreds` is libcloud's InvalidCredsError;
      `Transient` any other error raised by a request; `MissingPath` the
      OSError of listing or reading a path that is not there; `CorruptManifest`
      the error `json.load` raises on a manifest object it cannot decode. */
  datatype Fault = InvalidCreds | Transient | MissingPath | CorruptManifest

  /** The result of a storage or file-system step. It is kept apart from
      `Result`, whose failures are the filename parsers' ValueError and
      IndexError: the upload path never parses a filename, and a `Fault` is
      what `upload` inspects to decide whether to retry. */
  datatype Outcome<+T> = Done(value: T) | Failed(fault: Fault)

  // ---------------------------------------------------------------------
  // `metadata.update(local_metadata)`.

  /** The manifest after the local entries are merged into the remote one. */
  function Merge(remote: Manifest, local: Manifest): (m: Manifest)
    ensures m.Keys == remote.Keys + local.Keys
    ensures forall k :: k in local ==> m[k] == local[k]
    ensures forall k :: k in remote && k !in local ==> m[k] == remote[k]
  {
    remote + local
  }

  /** Merging the same local entries a second time changes nothing, so an
      attempt retried after its manifest was written leaves the same manifest. */
  lemma MergeIdempotent(remote: Manifest, local: Manifest)
    ensures Merge(Merge(remote, local), local) == Merge(remote, local)
  {
    var once := Merge(remote, local);
    var twice := Merge(once, local);
    assert forall k :: k in twice <==> k in once;
    assert forall k :: k in twice ==> twice[k] == once[k];
  }

  // ---------------------------------------------------------------------
  // `_scan_local_files`.

  /** What `os.listdir`, `os.path.isdir` and `open(path, 'rb').read()` see:
      the names listed in each folder, the directories, and file contents. */
  datatype Disk = Disk(listing: map<string, seq<string>>, dirs: set<string>, files: map<string, seq<byte>>)

  /** `(filepaths, local_metadata)`. */
  datatype Scan = Scan(filepaths: seq<string>, local: Manifest)

  predicate Hidden(name: string)
  {
    "." <= name
  }

  /** A listed name the scan takes: not hidden, not a directory. */
  predicate Taken(disk: Disk, folder: string, name: string)
  {
    !Hidden(name) && PathJoin(folder, name) !in disk.dirs
  }

  function EntryFor(digest: seq<byte> -> string, content: seq<byte>): Entry
  {
    Entry(Some(digest(content)), Some(|content|))
  }

  /** The scan after it has looked at the listed `names`, in order. */
  function Scanned(disk: Disk, folder: string, digest: seq<byte> -> string, names: seq<string>): (r: Outcome<Scan>)
    ensures r.Failed? ==> r.fault == MissingPath
    ensures r.Done? ==> forall p :: p in r.value.filepaths ==> p in disk.files
  {
    if names == [] then Done(Scan([], map[]))
    else
      match Scanned(disk, folder, digest, names[..|names| - 1])
      case Failed(f) => Failed(f)
      case Done(s) =>
        var name := names[|names| - 1];
        var path := PathJoin(folder, name);
        if !Taken(disk, folder, name) then Done(s)
        else if path !in disk.files then Failed(MissingPath)
        else Done(Scan(s.filepaths + [path], s.local[name := EntryFor(digest, disk.files[path])]))
  }

  /** `_scan_local_files(folder)`; listing a folder that is not there fails. */
  function ScanFolder(disk: Disk, folder: string, digest: seq<byte> -> string): Outcome<Scan>
  {
    if folder in disk.listing then Scanned(disk, folder, digest, disk.listing[folder])
    else Failed(MissingPath)
  }

  /** The scan fails exactly when a taken name is not a readable file. */
  lemma {:induction false} ScanFails(disk: Disk, folder: string, digest: seq<byte> -> string, names: seq<string>)
    ensures Scanned(disk, folder, digest, names).Failed? <==>
      exists n :: n in names && Taken(disk, folder, n) && PathJoin(folder, n) !in disk.files
  {
    if names != [] {
      var init := names[..|names| - 1];
      ScanFails(disk, folder, digest, init);
      assert names == init + [names[|names| - 1]];
    }
  }

  /** The local manifest records exactly the taken names. */
  lemma {:induction false} ScanKeys(disk: Disk, folder: string, digest: seq<byte> -> string, names: seq<string>)
    requires Scanned(disk, folder, digest, names).Done?
    ensures forall n :: n in Scanned(disk, folder, digest, names).value.local <==> n in names && Taken(disk, folder, n)
  {
    if names != [] {
      var init := names[..|names| - 1];
      ScanKeys(disk, folder, digest, init);
      assert names == init + [names[|names| - 1]];
    }
  }

  /** Every recorded name has its entry `{sha256, size}` for the file at its
      joined path, and that path is among the file paths. */
  lemma {:induction false} ScanEntry(disk: Disk, folder: string, digest: seq<byte> -> string, names: seq<string>, n: string)
    requires Scanned(disk, folder, digest, names).Done?
    requires n in Scanned(disk, folder, digest, names).value.local
    ensures var s := Scanned(disk, folder, digest, names).value;
      PathJoin(folder, n) in s.filepaths && s.local[n] == EntryFor(digest, disk.files[PathJoin(folder, n)])
  {
    var init := names[..|names| - 1];
    if n in Scanned(disk, folder, digest, init).value.local {
      ScanEntry(disk, folder, digest, init, n);
    }
  }

  /** Every file path is the joined path of a recorded name. */
  lemma {:induction false} ScanOrigin(disk: Disk, folder: string, digest: seq<byte> -> string, names: seq<string>, p: string)
    returns (n: string)
    requires Scanned(disk, folder, digest, names).Done?
    requires p in Scanned(disk, folder, digest, names).value.filepaths
    ensures n in Scanned(disk, folder, digest, names).value.local && p == PathJoin(folder, n)
  {
    var init := names[..|names| - 1];
    if p in Scanned(disk, folder, digest, init).value.filepaths {
      n := ScanOrigin(disk, folder, digest, init, p);
    } else {
      n := names[|names| - 1];
    }
  }

  /** The keys of the local manifest are exactly the base names of the file
      paths, since a listed name never holds a `/`. */
  lemma ScanBasenames(disk: Disk, folder: string, digest: seq<byte> -> string, names: seq<string>)
    requires forall n :: n in names ==> '/' !in n
    requires Scanned(disk, folder, digest, names).Done?
    ensures var s := Scanned(disk, folder, digest, names).value;
      forall n :: n in s.local <==> exists p :: p in s.filepaths && Basename(p) == n
  {
    var s := Scanned(disk, folder, digest, names).value;
    ScanKeys(disk, folder, digest, names);
    forall n | n in s.local
      ensures exists p :: p in s.filepaths && Basename(p) == n
    {
      ScanEntry(disk, folder, digest, names, n);
      BasenameJoin(folder, n);
    }
    forall p | p in s.filepaths
      ensures Basename(p) in s.local
    {
      var n := ScanOrigin(disk, folder, digest, names, p);
      ScanKeys(disk, folder, digest, names);
      BasenameJoin(folder, n);
    }
  }

  /** Once the scan has failed, looking at more names does not revive it. */
  lemma {:induction false} ScanFailurePersists(disk: Disk, folder: string, digest: seq<byte> -> string, names: seq<string>, k: nat)
    requires k <= |names| && Scanned(disk, folder, digest, names[..k]).Failed?
    ensures Scanned(disk, folder, digest, names).Failed?
  {
    if k == |names| {
      assert names[..k] == names;
    } else {
      var init := names[..|names| - 1];
      assert init[..k] == names[..k];
      ScanFailurePersists(disk, folder, digest, init, k);
    }
  }

  lemma ScanStep(disk: Disk, folder: string, digest: seq<byte> -> string, names: seq<string>, i: nat)
    requires i < |names|
    ensures Scanned(disk, folder, digest, names[..i + 1]) ==
      match Scanned(disk, folder, digest, names[..i])
      case Failed(f) => Failed(f)
      case Done(s) =>
        var path := PathJoin(folder, names[i]);
        if !Taken(disk, folder, names[i]) then Done(s)
        else if path !in disk.files then Failed(MissingPath)
        else Done(Scan(s.filepaths + [path], s.local[names[i] := EntryFor(digest, disk.files[path])]))
  {
    assert names[..i + 1][..i] == names[..i];
  }

  // ---------------------------------------------------------------------
  // The HTML index.

  /** Objects whose name ends in `.json` or `.html` get no link. */
  predicate Listed(name: string)
  {
    !EndsWith(name, ".json") && !EndsWith(name, ".html")
  }

  /** `metadata.get(name, {}).get('sha256')`. */
  function Digest(m: Manifest, name: string): Option<string>
  {
    if name in m then m[name].sha256 else None
  }

  function Href(m: Manifest, name: string): string
  {
    match Digest(m, name)
    case Some(d) => name + "#sha256=" + d
    case None => name
  }

  /** The link line written for one object. */
  function Item(m: Manifest, name: string): string
  {
    "<li><a href=\"" + Href(m, name) + "\">" + name + "<a></li>\n"
  }

  const Header := "<html><body><p>\n"
  const Footer := "</p></body></html>\n"

  /** The link lines for a listing, in listing order. */
  function Items(m: Manifest, objects: seq<string>): string
  {
    if objects == [] then ""
    else
      var name := objects[|objects| - 1];
      Items(m, objects[..|objects| - 1]) + (if Listed(name) then Item(m, name) else "")
  }

  function IndexPage(m: Manifest, objects: seq<string>): (page: string)
    ensures Header <= page && EndsWith(page, Footer)
  {
    var page := Header + Items(m, objects) + Footer;
    assert page[..|Header|] == Header;
    assert page[|page| - |Footer|..] == Footer;
    page
  }

  lemma ItemsStep(m: Manifest, objects: seq<string>, i: nat)
    requires i < |objects|
    ensures Items(m, objects[..i + 1]) == Items(m, objects[..i]) + (if Listed(objects[i]) then Item(m, objects[i]) else "")
  {
    assert objects[..i + 1][..i] == objects[..i];
  }

  lemma UpdateTwice<K, V>(m: map<K, V>, k: K, v: V, w: V)
    ensures m[k := v][k := w] == m[k := w]
  {
  }

  lemma Appended<T>(a: seq<T>, b: seq<T>, c: seq<T>)
    ensures a + b + c == a + (b + c)
  {
  }

  /** The link lines of a listing are those of its parts, one after the other. */
  lemma {:induction false} ItemsAppend(m: Manifest, a: seq<string>, b: seq<string>)
    ensures Items(m, a + b) == Items(m, a) + Items(m, b)
  {
    if b != [] {
      var init := b[..|b| - 1];
      var last := b[|b| - 1];
      var line := if Listed(last) then Item(m, last) else "";
      ItemsAppend(m, a, init);
      assert (a + b)[..|a + b| - 1] == a + init;
      assert (a + b)[|a + b| - 1] == last;
      assert Items(m, a + b) == Items(m, a + init) + line;
      Appended(Items(m, a), Items(m, init), line);
    } else {
      assert a + b == a;
    }
  }

  /** One object gives one link line, or none when it is a `.json` or `.html` object. */
  lemma ItemsSingle(m: Manifest, name: string)
    ensures Items(m, [name]) == if Listed(name) then Item(m, name) else ""
  {
    assert [name][..0] == [];
  }

  /** The href carries `#sha256=d` exactly when the manifest records digest `d`,
      and is the bare name exactly when it records none. */
  lemma HrefFragment(m: Manifest, name: string, d: string)
    ensures Href(m, name) == name + "#sha256=" + d <==> Digest(m, name) == Some(d)
    ensures Href(m, name) == name <==> Digest(m, name).None?
  {
    match Digest(m, name)
    case Some(e) =>
      var h := name + "#sha256=" + e;
      assert |h| > |name|;
      if h == name + "#sha256=" + d {
        assert d == h[|name| + 8..];
        assert e == h[|name| + 8..];
      }
    case None =>
      assert |name + "#sha256=" + d| > |name|;
  }

  /** Every listed package object gets its link line on the index page,
      between the header and the footer. */
  lemma IndexLinks(m: Manifest, objects: seq<string>, name: string)
    requires name in objects && Listed(name)
    ensures exists pre, post :: IndexPage(m, objects) == Header + (pre + Item(m, name) + post) + Footer
  {
    var i :| 0 <= i < |objects| && objects[i] == name;
    var before, after := objects[..i], objects[i + 1..];
    var pre, post := Items(m, before), Items(m, after);
    assert objects == (before + [name]) + after;
    assert Items(m, objects) == pre + Item(m, name) + post by {
      ItemsAppend(m, before + [name], after);
      ItemsAppend(m, before, [name]);
      ItemsSingle(m, name);
    }
    assert IndexPage(m, objects) == Header + (pre + Item(m, name) + post) + Footer;
  }

  /** The index ignores its own object and the manifest. */
  lemma IndexSkipsOwnObjects(m: Manifest, objects: seq<string>)
    ensures IndexPage(m, objects + [IndexName]) == IndexPage(m, objects)
    ensures IndexPage(m, objects + [MetadataName]) == IndexPage(m, objects)
  {
    assert (objects + [IndexName])[..|objects|] == objects;
    assert (objects + [MetadataName])[..|objects|] == objects;
    assert !Listed(IndexName) by {
      assert IndexName[|IndexName| - 5..] == ".html";
    }
    assert !Listed(MetadataName) by {
      assert MetadataName[|MetadataName| - 5..] == ".json";
    }
  }

  // ---------------------------------------------------------------------
  // Containers.

  /** What a stored object holds. The manifest and the index are kept as
      values instead of their JSON and HTML bytes. */
  datatype Blob = FileData(bytes: seq<byte>) | ManifestData(manifest: Manifest) | PageData(html: string)

  /** The objects of one container, and the order `list_container_objects`
      reports their names in. */
  datatype Bucket = Bucket(objects: map<string, Blob>, listing: seq<string>)

  /** The listing names every object once. */
  ghost predicate Consistent(b: Bucket)
  {
    && (forall i, j :: 0 <= i < j < |b.listing| ==> b.listing[i] != b.listing[j])
    && (forall n :: n in b.listing <==> n in b.objects)
  }

  /** `upload_object_via_stream`: the object is created or replaced. */
  function Put(b: Bucket, name: string, blob: Blob): (r: Bucket)
    ensures r.objects == b.objects[name := blob]
  {
    Bucket(b.objects[name := blob], if name in b.objects then b.listing else b.listing + [name])
  }

  /** Writing an object keeps the listing consistent: a new name is listed
      once, at the end, and an existing one keeps its place. */
  lemma PutConsistent(b: Bucket, name: string, blob: Blob)
    requires Consistent(b)
    ensures Consistent(Put(b, name, blob))
    ensures name in b.objects ==> Put(b, name, blob).listing == b.listing
    ensures name !in b.objects ==> Put(b, name, blob).listing == b.listing + [name]
  {
  }

  /** A container that `create_container` has just made is empty. */
  function Start(buckets: map<string, Bucket>, container: string): Bucket
  {
    if container in buckets then buckets[container] else Bucket(map[], [])
  }

  /** The manifest an attempt reads: none stored means an empty one. */
  function LoadManifest(b: Bucket): (r: Outcome<Manifest>)
    ensures r.Failed? <==> MetadataName in b.objects && !b.objects[MetadataName].ManifestData?
    ensures MetadataName !in b.objects ==> r == Done(map[])
  {
    if MetadataName !in b.objects then Done(map[])
    else match b.objects[MetadataName]
      case ManifestData(m) => Done(m)
      case _ => Failed(CorruptManifest)
  }

  /** The container after `upload_file` has run for each path in turn; each
      object is named after the path's base name. */
  function Uploaded(b: Bucket, disk: Disk, paths: seq<string>): Bucket
    requires forall p :: p in paths ==> p in disk.files
  {
    if paths == [] then b
    else
      var last := paths[|paths| - 1];
      Put(Uploaded(b, disk, paths[..|paths| - 1]), Basename(last), FileData(disk.files[last]))
  }

  /** The objects written by those uploads; a later path wins over an earlier
      one of the same base name. */
  function Written(disk: Disk, paths: seq<string>): map<string, Blob>
    requires forall p :: p in paths ==> p in disk.files
  {
    if paths == [] then map[]
    else
      var last := paths[|paths| - 1];
      Written(disk, paths[..|paths| - 1])[Basename(last) := FileData(disk.files[last])]
  }

  /** Uploading adds or replaces objects and never removes one. */
  lemma {:induction false} UploadedObjects(b: Bucket, disk: Disk, paths: seq<string>)
    requires forall p :: p in paths ==> p in disk.files
    ensures Uploaded(b, disk, paths).objects == b.objects + Written(disk, paths)
  {
    if paths != [] {
      var init := paths[..|paths| - 1];
      var last := paths[|paths| - 1];
      UploadedObjects(b, disk, init);
      UnionUpdate(b.objects, Written(disk, init), Basename(last), FileData(disk.files[last]));
    }
  }

  lemma UnionUpdate(m: map<string, Blob>, w: map<string, Blob>, k: string, v: Blob)
    ensures (m + w)[k := v] == m + w[k := v]
  {
  }

  /** Every uploaded path leaves an object under its base name. */
  lemma {:induction false} WrittenNames(disk: Disk, paths: seq<string>)
    requires forall p :: p in paths ==> p in disk.files
    ensures forall p :: p in paths ==> Basename(p) in Written(disk, paths)
  {
    if paths != [] {
      var init := paths[..|paths| - 1];
      WrittenNames(disk, init);
      assert forall p :: p in paths ==> p in init || p == paths[|paths| - 1];
    }
  }

  /** Uploads of names the container already holds leave its listing alone. */
  lemma {:induction false} UploadedListing(b: Bucket, disk: Disk, paths: seq<string>)
    requires forall p :: p in paths ==> p in disk.files && Basename(p) in b.objects
    ensures Uploaded(b, disk, paths).listing == b.listing
    ensures Uploaded(b, disk, paths).objects.Keys == b.objects.Keys
  {
    if paths != [] {
      UploadedListing(b, disk, paths[..|paths| - 1]);
    }
  }

  /** The container after the manifest and, when enabled, the index are written. */
  function Published(b: Bucket, merged: Manifest, updateIndex: bool): Bucket
  {
    var stored := Put(b, MetadataName, ManifestData(merged));
    if updateIndex then Put(stored, IndexName, PageData(IndexPage(merged, stored.listing))) else stored
  }

  /** The container after one successful attempt that read `remote` as the
      stored manifest and scanned `s`. */
  function Synced(b: Bucket, disk: Disk, s: Scan, remote: Manifest, updateIndex: bool): Bucket
    requires forall p :: p in s.filepaths ==> p in disk.files
  {
    Published(Uploaded(b, disk, s.filepaths), Merge(remote, s.local), updateIndex)
  }

  /** One attempt of `_upload` on container contents `b`, when no request fails. */
  function Sync(b: Bucket, disk: Disk, folder: string, digest: seq<byte> -> string, updateIndex: bool): Outcome<Bucket>
  {
    match LoadManifest(b)
    case Failed(f) => Failed(f)
    case Done(remote) =>
      match ScanFolder(disk, folder, digest)
      case Failed(f) => Failed(f)
      case Done(s) => Done(Synced(b, disk, s, remote, updateIndex))
  }

  /** After an attempt every uploaded file is stored, the manifest holds the
      merge of the old manifest with the scanned entries, the index exists
      when it is enabled, no object is removed and the listing stays consistent. */
  lemma SyncedContents(b: Bucket, disk: Disk, s: Scan, remote: Manifest, updateIndex: bool)
    requires forall p :: p in s.filepaths ==> p in disk.files
    ensures var after := Synced(b, disk, s, remote, updateIndex);
      && after.objects[MetadataName] == ManifestData(Merge(remote, s.local))
      && (var page := IndexPage(Merge(remote, s.local), Uploaded(b, disk, s.filepaths).listing);
          updateIndex ==> after.objects[IndexName] == PageData(page))
      && b.objects.Keys <= after.objects.Keys
      && (forall p :: p in s.filepaths ==> Basename(p) in after.objects)
      && (Consistent(b) ==> Consistent(after))
  {
    UploadedObjects(b, disk, s.filepaths);
    WrittenNames(disk, s.filepaths);
    PublishedObjects(Uploaded(b, disk, s.filepaths), Merge(remote, s.local), updateIndex);
    if Consistent(b) {
      UploadedConsistent(b, disk, s.filepaths);
    }
  }

  /** With a consistent listing, the index an attempt writes links every
      uploaded package file under its base name. */
  lemma SyncedIndexLinks(b: Bucket, disk: Disk, s: Scan, remote: Manifest, p: string)
    requires forall q :: q in s.filepaths ==> q in disk.files
    requires Consistent(b)
    requires p in s.filepaths && Listed(Basename(p))
    ensures var page := Synced(b, disk, s, remote, true).objects[IndexName].html;
      exists pre, post :: page == Header + (pre + Item(Merge(remote, s.local), Basename(p)) + post) + Footer
  {
    var up := Uploaded(b, disk, s.filepaths);
    SyncedContents(b, disk, s, remote, true);
    UploadedObjects(b, disk, s.filepaths);
    WrittenNames(disk, s.filepaths);
    UploadedConsistent(b, disk, s.filepaths);
    assert Basename(p) in up.listing;
    IndexLinks(Merge(remote, s.local), up.listing, Basename(p));
  }

  /** Writing the manifest and the index keeps every object name and the
      consistency of the listing. */
  lemma PublishedObjects(b: Bucket, merged: Manifest, updateIndex: bool)
    ensures var after := Published(b, merged, updateIndex);
      && after.objects[MetadataName] == ManifestData(merged)
      && (updateIndex ==> after.objects[IndexName] == PageData(IndexPage(merged, b.listing)))
      && after.objects.Keys == b.objects.Keys + {MetadataName} + (if updateIndex then {IndexName} else {})
      && (forall k :: k in b.objects && k != MetadataName && k != IndexName ==> after.objects[k] == b.objects[k])
      && (Consistent(b) ==> Consistent(after))
  {
    var stored := Put(b, MetadataName, ManifestData(merged));
    var page := IndexPage(merged, stored.listing);
    assert MetadataName != IndexName by {
      assert MetadataName[0] != IndexName[0];
    }
    UpdatedTwice(b.objects, MetadataName, ManifestData(merged), IndexName, PageData(page), updateIndex);
    assert page == IndexPage(merged, b.listing) by {
      if MetadataName !in b.objects {
        IndexSkipsOwnObjects(merged, b.listing);
      }
    }
    if Consistent(b) {
      PublishedConsistent(b, merged, updateIndex);
    }
  }

  /** Writing the manifest and the index keeps the listing consistent. */
  lemma PublishedConsistent(b: Bucket, merged: Manifest, updateIndex: bool)
    requires Consistent(b)
    ensures Consistent(Published(b, merged, updateIndex))
  {
    var stored := Put(b, MetadataName, ManifestData(merged));
    PutConsistent(b, MetadataName, ManifestData(merged));
    if updateIndex {
      PutConsistent(stored, IndexName, PageData(IndexPage(merged, stored.listing)));
    }
  }

  /** One or two writes to distinct keys add those keys and leave every
      other entry as it was. */
  lemma UpdatedTwice<K, V>(m: map<K, V>, k1: K, v1: V, k2: K, v2: V, second: bool)
    requires k1 != k2
    ensures var r := if second then m[k1 := v1][k2 := v2] else m[k1 := v1];
      && r[k1] == v1 && (second ==> r[k2] == v2)
      && r.Keys == m.Keys + {k1} + (if second then {k2} else {})
      && (forall k :: k in m && k != k1 && k != k2 ==> r[k] == m[k])
  {
  }

  lemma {:induction false} UploadedConsistent(b: Bucket, disk: Disk, paths: seq<string>)
    requires forall p :: p in paths ==> p in disk.files
    requires Consistent(b)
    ensures Consistent(Uploaded(b, disk, paths))
  {
    if paths != [] {
      var init := paths[..|paths| - 1];
      var last := paths[|paths| - 1];
      UploadedConsistent(b, disk, init);
      PutConsistent(Uploaded(b, disk, init), Basename(last), FileData(disk.files[last]));
    }
  }

  /** Running a successful attempt a second time, with no request failing,
      changes nothing: `_upload` is idempotent on the container it leaves. */
  lemma SyncIdempotent(b: Bucket, disk: Disk, folder: string, digest: seq<byte> -> string, updateIndex: bool)
    requires Sync(b, disk, folder, digest, updateIndex).Done?
    ensures var once := Sync(b, disk, folder, digest, updateIndex).value;
      Sync(once, disk, folder, digest, updateIndex) == Done(once)
  {
    var remote := LoadManifest(b).value;
    var s := ScanFolder(disk, folder, digest).value;
    var merged := Merge(remote, s.local);
    var once := Synced(b, disk, s, remote, updateIndex);
    SyncedContents(b, disk, s, remote, updateIndex);
    assert LoadManifest(once) == Done(merged);
    MergeIdempotent(remote, s.local);
    SyncedAgain(b, disk, s, remote, updateIndex);
  }

  lemma SyncedAgain(b: Bucket, disk: Disk, s: Scan, remote: Manifest, updateIndex: bool)
    requires forall p :: p in s.filepaths ==> p in disk.files
    ensures var once := Synced(b, disk, s, remote, updateIndex);
      Synced(once, disk, s, Merge(remote, s.local), updateIndex) == once
  {
    var merged := Merge(remote, s.local);
    MergeIdempotent(remote, s.local);
    var up := Uploaded(b, disk, s.filepaths);
    var once := Published(up, merged, updateIndex);
    UploadedObjects(b, disk, s.filepaths);
    WrittenNames(disk, s.filepaths);
    PublishedObjects(up, merged, updateIndex);
    UploadedObjects(once, disk, s.filepaths);
    UploadedListing(once, disk, s.filepaths);
    PublishedAgain(up, Uploaded(once, disk, s.filepaths), Written(disk, s.filepaths), merged, updateIndex);
  }

  /** Publishing again over a container that only had the same objects
      rewritten gives back the same container. */
  lemma PublishedAgain(up: Bucket, up2: Bucket, w: map<string, Blob>, merged: Manifest, updateIndex: bool)
    requires up2.listing == Published(up, merged, updateIndex).listing
    requires up2.objects == Published(up, merged, updateIndex).objects + w
    requires forall k :: k in w ==> k in up.objects && up.objects[k] == w[k]
    ensures Published(up2, merged, updateIndex) == Published(up, merged, updateIndex)
  {
    var md := ManifestData(merged);
    var stored := Put(up, MetadataName, md);
    PublishedObjects(up, merged, updateIndex);
    if updateIndex {
      var page := PageData(IndexPage(merged, stored.listing));
      IndexSkipsOwnObjects(merged, stored.listing);
      Absorb2(up.objects, w, MetadataName, md, IndexName, page);
    } else {
      Absorb1(up.objects, w, MetadataName, md);
    }
  }

  /** Rewriting values a map already holds, then redoing the last update,
      gives the map back. */
  lemma Absorb1<K, V>(m: map<K, V>, w: map<K, V>, k: K, v: V)
    requires forall x :: x in w ==> x in m && m[x] == w[x]
    ensures (m[k := v] + w)[k := v] == m[k := v]
  {
  }

  lemma Absorb2<K, V>(m: map<K, V>, w: map<K, V>, k1: K, v1: V, k2: K, v2: V)
    requires forall x :: x in w ==> x in m && m[x] == w[x]
    ensures (m[k1 := v1][k2 := v2] + w)[k1 := v1][k2 := v2] == m[k1 := v1][k2 := v2]
  {
  }

  // ---------------------------------------------------------------------
  // The storage provider.

  /** Drops the schedule entry a request used. */
  function Rest(faults: seq<bool>): seq<bool>
  {
    if faults == [] then [] else faults[1..]
  }

  /** An in-memory storage provider. A request made with credentials it does
      not know raises InvalidCredsError and changes nothing; any other
      request uses the next entry of `faults` (none left: it succeeds), and
      fails without effect when that entry is true. `writes` records every
      object written, in order. */
  class Store {
    var buckets: map<string, Bucket>
    const accounts: map<string, string>
    var faults: seq<bool>
    var writes: seq<(string, string)>

    constructor (accounts: map<string, string>, buckets: map<string, Bucket>, faults: seq<bool>)
      ensures this.accounts == accounts && this.buckets == buckets && this.faults == faults
      ensures writes == []
    {
      this.accounts := accounts;
      this.buckets := buckets;
      this.faults := faults;
      writes := [];
    }

    predicate Authorized(user: string, secret: string)
    {
      user in accounts && accounts[user] == secret
    }

    /** How the next request ends. */
    function Answer(faults: seq<bool>, user: string, secret: string): Option<Fault>
    {
      if !Authorized(user, secret) then Some(InvalidCreds)
      else if faults != [] && faults[0] then Some(Transient)
      else None
    }

    /** The schedule after the next request. */
    function Next(faults: seq<bool>, user: string, secret: string): seq<bool>
    {
      if Authorized(user, secret) then Rest(faults) else faults
    }

    /** A request that reads nothing; `upload_file` makes one to look its container up. */
    method Request(user: string, secret: string) returns (f: Option<Fault>)
      modifies this`faults
      ensures f == Answer(old(faults), user, secret)
      ensures faults == Next(old(faults), user, secret)
    {
      f := Answer(faults, user, secret);
      faults := Next(faults, user, secret);
    }

    /** `get_container`: whether the container exists. */
    method GetContainer(user: string, secret: string, container: string) returns (r: Outcome<bool>)
      modifies this`faults
      ensures faults == Next(old(faults), user, secret)
      ensures r == match Answer(old(faults), user, secret)
        case Some(f) => Failed(f)
        case None => Done(container in buckets)
    {
      var f := Request(user, secret);
      r := if f.Some? then Failed(f.value) else Done(container in buckets);
    }

    /** `create_container`: a new, empty container. */
    method CreateContainer(user: string, secret: string, container: string) returns (f: Option<Fault>)
      modifies this`faults, this`buckets
      ensures faults == Next(old(faults), user, secret)
      ensures f == Answer(old(faults), user, secret)
      ensures buckets == if f.None? then old(buckets)[container := Bucket(map[], [])] else old(buckets)
    {
      f := Request(user, secret);
      if f.None? {
        buckets := buckets[container := Bucket(map[], [])];
      }
    }

    /** `container.get_object(name)`: the object, or None for
        ObjectDoesNotExistError. */
    method GetObject(user: string, secret: string, container: string, name: string) returns (r: Outcome<Option<Blob>>)
      requires container in buckets
      modifies this`faults
      ensures faults == Next(old(faults), user, secret)
      ensures r == match Answer(old(faults), user, secret)
        case Some(f) => Failed(f)
        case None => Done(if name in buckets[container].objects then Some(buckets[container].objects[name]) else None)
    {
      var f := Request(user, secret);
      if f.Some? {
        r := Failed(f.value);
      } else if name in buckets[container].objects {
        r := Done(Some(buckets[container].objects[name]));
      } else {
        r := Done(None);
      }
    }

    /** `upload_object_via_stream`. */
    method PutObject(user: string, secret: string, container: string, name: string, blob: Blob) returns (f: Option<Fault>)
      requires container in buckets
      modifies this`faults, this`buckets, this`writes
      ensures faults == Next(old(faults), user, secret)
      ensures f == Answer(old(faults), user, secret)
      ensures buckets == if f.None? then old(buckets)[container := Put(old(buckets)[container], name, blob)] else old(buckets)
      ensures writes == if f.None? then old(writes) + [(container, name)] else old(writes)
    {
      f := Request(user, secret);
      if f.None? {
        buckets := buckets[container := Put(buckets[container], name, blob)];
        writes := writes + [(container, name)];
      }
    }

    /** `list_container_objects`: the names, in the container's order. */
    method ListObjects(user: string, secret: string, container: string) returns (r: Outcome<seq<string>>)
      requires container in buckets
      modifies this`faults
      ensures faults == Next(old(faults), user, secret)
      ensures r == match Answer(old(faults), user, secret)
        case Some(f) => Failed(f)
        case None => Done(buckets[container].listing)
    {
      var f := Request(user, secret);
      r := if f.Some? then Failed(f.value) else Done(buckets[container].listing);
    }
  }

  /** The writes of the file uploads, in order. */
  function FileWrites(container: string, paths: seq<string>): seq<(string, string)>
  {
    if paths == [] then []
    else FileWrites(container, paths[..|paths| - 1]) + [(container, Basename(paths[|paths| - 1]))]
  }

  /** The writes of a successful attempt: every file, then the manifest, then
      the index when it is enabled. */
  function AttemptWrites(container: string, paths: seq<string>, updateIndex: bool): seq<(string, string)>
  {
    FileWrites(container, paths) + PublishWrites(container, updateIndex)
  }

  function PublishWrites(container: string, updateIndex: bool): seq<(string, string)>
  {
    [(container, MetadataName)] + (if updateIndex then [(container, IndexName)] else [])
  }

  lemma UploadStep(b: Bucket, disk: Disk, container: string, paths: seq<string>, i: nat)
    requires i < |paths| && forall p :: p in paths ==> p in disk.files
    ensures Uploaded(b, disk, paths[..i + 1]) == Put(Uploaded(b, disk, paths[..i]), Basename(paths[i]), FileData(disk.files[paths[i]]))
    ensures FileWrites(container, paths[..i + 1]) == FileWrites(container, paths[..i]) + [(container, Basename(paths[i]))]
  {
    assert paths[..i + 1][..i] == paths[..i];
  }

  /** The number of retries a budget allows. */
  function Retries(retry: int): nat
  {
    if retry > 0 then retry else 0
  }

  class Uploader {
    const username: string
    const secret: string
    /** The driver that `provider_name` and `region` select. */
    const store: Store
    const updateIndex: bool
    /** `sha256(content).hexdigest()`. */
    const sha256: seq<byte> -> string

    constructor (username: string, secret: string, store: Store, updateIndex: bool, sha256: seq<byte> -> string)
      ensures this.username == username && this.secret == secret && this.store == store
      ensures this.updateIndex == updateIndex && this.sha256 == sha256
    {
      this.username := username;
      this.secret := secret;
      this.store := store;
      this.updateIndex := updateIndex;
      this.sha256 := sha256;
    }

    predicate Clean()
      reads store
    {
      store.Authorized(username, secret) && store.faults == []
    }

    /** `_scan_local_files`. */
    method ScanLocalFiles(disk: Disk, folder: string) returns (r: Outcome<Scan>)
      ensures r == ScanFolder(disk, folder, sha256)
    {
      if folder !in disk.listing {
        return Failed(MissingPath);
      }
      var names := disk.listing[folder];
      var filepaths: seq<string> := [];
      var local: Manifest := map[];
      var i := 0;
      while i < |names|
        invariant 0 <= i <= |names|
        invariant Scanned(disk, folder, sha256, names[..i]) == Done(Scan(filepaths, local))
      {
        var name := names[i];
        ScanStep(disk, folder, sha256, names, i);
        var path := PathJoin(folder, name);
        if Hidden(name) || path in disk.dirs {
          i := i + 1;
          continue;
        }
        if path !in disk.files {
          ScanFailurePersists(disk, folder, sha256, names, i + 1);
          return Failed(MissingPath);
        }
        var content := disk.files[path];
        filepaths := filepaths + [path];
        local := local[name := Entry(Some(sha256(content)), Some(|content|))];
        i := i + 1;
      }
      assert names[..i] == names;
      r := Done(Scan(filepaths, local));
    }

    /** `upload_file(path, container)`: look the container up, then store
        the file under its base name. */
    method UploadFile(disk: Disk, container: string, path: string) returns (f: Option<Fault>)
      requires container in store.buckets && path in disk.files
      modifies store
      ensures store.buckets.Keys == old(store.buckets.Keys)
      ensures f == Some(InvalidCreds) <==> !store.Authorized(username, secret)
      ensures old(Clean()) ==> f.None? && Clean()
      ensures f.None? ==> store.buckets == old(store.buckets)[container := Put(old(store.buckets)[container], Basename(path), FileData(disk.files[path]))]
      ensures f.None? ==> store.writes == old(store.writes) + [(container, Basename(path))]
    {
      f := store.Request(username, secret);
      if f.Some? {
        return;
      }
      f := store.PutObject(username, secret, container, Basename(path), FileData(disk.files[path]));
    }

    /** The uploads that `_upload` dispatches, one after the other. */
    method UploadFiles(disk: Disk, container: string, paths: seq<string>) returns (f: Option<Fault>)
      requires container in store.buckets
      requires forall p :: p in paths ==> p in disk.files
      modifies store
      ensures store.buckets.Keys == old(store.buckets.Keys)
      ensures f == Some(InvalidCreds) ==> !store.Authorized(username, secret)
      ensures old(Clean()) ==> f.None? && Clean()
      ensures f.None? ==> store.buckets == old(store.buckets)[container := Uploaded(old(store.buckets)[container], disk, paths)]
      ensures f.None? ==> store.writes == old(store.writes) + FileWrites(container, paths)
    {
      ghost var buckets := store.buckets;
      ghost var b := buckets[container];
      ghost var writes := store.writes;
      ghost var clean := Clean();
      var i := 0;
      while i < |paths|
        invariant 0 <= i <= |paths|
        invariant store.buckets.Keys == buckets.Keys
        invariant clean ==> Clean()
        invariant store.buckets == buckets[container := Uploaded(b, disk, paths[..i])]
        invariant store.writes == writes + FileWrites(container, paths[..i])
      {
        UploadStep(b, disk, container, paths, i);
        Appended(writes, FileWrites(container, paths[..i]), [(container, Basename(paths[i]))]);
        f := UploadFile(disk, container, paths[i]);
        if f.Some? {
          return;
        }
        UpdateTwice(buckets, container, Uploaded(b, disk, paths[..i]), Uploaded(b, disk, paths[..i + 1]));
        i := i + 1;
      }
      assert paths[..i] == paths;
      f := None;
    }

    /** The index page built line by line, as `payload.write` does. */
    method RenderIndex(m: Manifest, objects: seq<string>) returns (page: string)
      ensures page == IndexPage(m, objects)
    {
      var payload := Header;
      var i := 0;
      while i < |objects|
        invariant 0 <= i <= |objects|
        invariant payload == Header + Items(m, objects[..i])
      {
        var name := objects[i];
        ItemsStep(m, objects, i);
        if Listed(name) {
          var d := Digest(m, name);
          var href := if d.Some? then name + "#sha256=" + d.value else name;
          var line := "<li><a href=\"" + href + "\">" + name + "<a></li>\n";
          assert href == Href(m, name);
          Appended(Header, Items(m, objects[..i]), line);
          payload := payload + line;
        }
        i := i + 1;
      }
      assert objects[..i] == objects;
      page := payload + Footer;
    }

    /** Get or create the container, then read its manifest. */
    method Prepare(container: string) returns (r: Outcome<Manifest>)
      modifies store
      ensures r.Done? ==> container in store.buckets
      ensures r.Done? ==> store.buckets == old(store.buckets)[container := Start(old(store.buckets), container)]
      ensures r.Done? ==> r == LoadManifest(Start(old(store.buckets), container)) && store.writes == old(store.writes)
      ensures r == Failed(InvalidCreds) <==> !store.Authorized(username, secret)
      ensures old(Clean()) ==> Clean() && r == LoadManifest(Start(old(store.buckets), container))
    {
      var e := store.GetContainer(username, secret, container);
      if e.Failed? {
        return Failed(e.fault);
      }
      if !e.value {
        var f := store.CreateContainer(username, secret, container);
        if f.Some? {
          return Failed(f.value);
        }
      }
      var o := store.GetObject(username, secret, container, MetadataName);
      if o.Failed? {
        return Failed(o.fault);
      }
      match o.value {
        case None => r := Done(map[]);
        case Some(ManifestData(m)) => r := Done(m);
        case Some(_) => r := Failed(CorruptManifest);
      }
    }

    /** Write the merged manifest, then the index when it is enabled. */
    method Publish(container: string, merged: Manifest) returns (f: Option<Fault>)
      requires container in store.buckets
      modifies store
      ensures f == Some(InvalidCreds) ==> !store.Authorized(username, secret)
      ensures old(Clean()) ==> f.None? && Clean()
      ensures f.None? ==> store.buckets == old(store.buckets)[container := Published(old(store.buckets)[container], merged, updateIndex)]
      ensures f.None? ==> store.writes == old(store.writes) + PublishWrites(container, updateIndex)
    {
      ghost var buckets := store.buckets;
      ghost var writes := store.writes;
      ghost var stored := Put(buckets[container], MetadataName, ManifestData(merged));
      f := store.PutObject(username, secret, container, MetadataName, ManifestData(merged));
      if f.Some? || !updateIndex {
        return;
      }
      var l := store.ListObjects(username, secret, container);
      if l.Failed? {
        return Some(l.fault);
      }
      var page := RenderIndex(merged, l.value);
      f := store.PutObject(username, secret, container, IndexName, PageData(page));
      if f.None? {
        UpdateTwice(buckets, container, stored, Published(buckets[container], merged, updateIndex));
        Appended(writes, [(container, MetadataName)], [(container, IndexName)]);
      }
    }

    /** `_upload(local_folder, container)`: one attempt. */
    method UploadOnce(disk: Disk, folder: string, container: string) returns (f: Option<Fault>)
      modifies store
      ensures f == Some(InvalidCreds) <==> !store.Authorized(username, secret)
      ensures f.None? ==> Sync(Start(old(store.buckets), container), disk, folder, sha256, updateIndex).Done?
      ensures f.None? ==> store.buckets == old(store.buckets)[container := Sync(Start(old(store.buckets), container), disk, folder, sha256, updateIndex).value]
      ensures f.None? ==> store.writes == old(store.writes) + AttemptWrites(container, ScanFolder(disk, folder, sha256).value.filepaths, updateIndex)
      ensures old(Clean()) ==> Clean() && match Sync(Start(old(store.buckets), container), disk, folder, sha256, updateIndex)
        case Done(_) => f.None?
        case Failed(fault) => f == Some(fault)
    {
      ghost var buckets := store.buckets;
      ghost var writes := store.writes;
      ghost var b := Start(buckets, container);
      var remote := Prepare(container);
      if remote.Failed? {
        return Some(remote.fault);
      }
      var scan := ScanLocalFiles(disk, folder);
      if scan.Failed? {
        return Some(scan.fault);
      }
      var s := scan.value;
      ghost var up := Uploaded(b, disk, s.filepaths);
      f := UploadFiles(disk, container, s.filepaths);
      if f.Some? {
        return;
      }
      UpdateTwice(buckets, container, b, up);
      ghost var done := Published(up, Merge(remote.value, s.local), updateIndex);
      f := Publish(container, Merge(remote.value, s.local));
      if f.None? {
        UpdateTwice(buckets, container, up, done);
        assert Sync(b, disk, folder, sha256, updateIndex) == Done(done);
        Appended(writes, FileWrites(container, s.filepaths), PublishWrites(container, updateIndex));
      }
    }

    /** `upload(local_folder, container, retry_on_error)`: the attempt is
        repeated after any failure but bad credentials, at most
        `retry_on_error` more times, and the last failure is reported. */
    method Upload(disk: Disk, folder: string, container: string, retry: int) returns (f: Option<Fault>, attempts: nat, ghost before: map<string, Bucket>)
      modifies store
      ensures 1 <= attempts <= Retries(retry) + 1
      ensures f == Some(InvalidCreds) <==> !store.Authorized(username, secret)
      ensures !store.Authorized(username, secret) ==> attempts == 1
      ensures f.Some? && f != Some(InvalidCreds) ==> attempts == Retries(retry) + 1
      ensures f.None? ==> Sync(Start(before, container), disk, folder, sha256, updateIndex).Done?
      ensures f.None? ==> store.buckets == before[container := Sync(Start(before, container), disk, folder, sha256, updateIndex).value]
      ensures old(Clean()) && Sync(Start(old(store.buckets), container), disk, folder, sha256, updateIndex).Done? ==>
        f.None? && attempts == 1 && before == old(store.buckets)
    {
      ghost var clean := Clean() && Sync(Start(store.buckets, container), disk, folder, sha256, updateIndex).Done?;
      ghost var start := store.buckets;
      before := store.buckets;
      f := UploadOnce(disk, folder, container);
      attempts := 1;
      var left := retry;
      while f.Some? && f != Some(InvalidCreds) && left > 0
        invariant 1 <= attempts && attempts + Retries(left) == Retries(retry) + 1
        invariant f == Some(InvalidCreds) <==> !store.Authorized(username, secret)
        invariant !store.Authorized(username, secret) ==> attempts == 1
        invariant f.None? ==> Sync(Start(before, container), disk, folder, sha256, updateIndex).Done?
        invariant f.None? ==> store.buckets == before[container := Sync(Start(before, container), disk, folder, sha256, updateIndex).value]
        invariant clean ==> f.None? && attempts == 1 && before == start
        decreases left
      {
        left := left - 1;
        before := store.buckets;
        f := UploadOnce(disk, folder, container);
        attempts := attempts + 1;
      }
    }
  }
}
