// The path and collection helpers of SharedStorage in
// kvdroid/tools/storage.py: the choice of a shared root directory from a
// name or a MIME type, the MIME type guessed from a file name, the
// MediaStore collection a root directory belongs to, volume normalisation,
// the layout of the pre-API-29 directory, and how get_uri starts.

module Storage {
  import opened Wrappers
  import opened PyText

  /** The Environment.DIRECTORY_* roots the helpers choose between. */
  datatype Root = Downloads | Pictures | Movies | Music | Dcim | Documents

  /** The values of the Environment.DIRECTORY_* constants on the device. */
  datatype Directories = Directories(downloads: string, pictures: string, movies: string, music: string,
                                     dcim: string, documents: string)

  function DirectoryName(env: Directories, r: Root): string
  {
    match r
    case Downloads => env.downloads
    case Pictures => env.pictures
    case Movies => env.movies
    case Music => env.music
    case Dcim => env.dcim
    case Documents => env.documents
  }

  /** A result, or the ValueError of a failed tuple unpacking. */
  datatype Outcome<T> = Ok(value: T) | ValueError

  // --- _get_root_directory ---

  /** The root a lower-cased name selects. */
  function RootOfName(lower: string): Root
  {
    if lower == "downloads" || lower == "download" then Downloads
    else if lower == "pictures" then Pictures
    else if lower == "movies" then Movies
    else if lower == "music" then Music
    else if lower == "dcim" then Dcim
    else Documents
  }

  /** The root name the '*' wildcard takes from a MIME type's major type. */
  function NameOfMajorType(major: string): string
  {
    if major == "image" then "pictures"
    else if major == "video" then "movies"
    else if major == "audio" then "music"
    else "documents"
  }

  /** _get_root_directory(root_dir, mime_type): '*' picks the root from
      the MIME type, whose `split('/')` must give exactly two parts. */
  function RootDirectory(rootDir: string, mime: string): (r: Outcome<Root>)
    ensures r.ValueError? ==> rootDir == "*"
    ensures r == Ok(Dcim) ==> Lower(rootDir) == "dcim"
  {
    if rootDir == "*" then
      if Count(mime, '/') != 1 then ValueError
      else Ok(RootOfName(Lower(NameOfMajorType(SplitHead(mime, '/')))))
    else Ok(RootOfName(Lower(rootDir)))
  }

  /** The wildcard fails exactly on a MIME type without exactly one '/'. */
  lemma RootDirectoryFailsIff(rootDir: string, mime: string)
    ensures RootDirectory(rootDir, mime) == ValueError <==> rootDir == "*" && Count(mime, '/') != 1
  {
  }

  /** Lower-casing leaves a string without capitals as it is. */
  lemma LowerNoCapitals(s: string)
    requires forall i :: 0 <= i < |s| ==> !('A' <= s[i] <= 'Z')
    ensures Lower(s) == s
  {
  }

  lemma NamesAreLower()
    ensures forall r :: Lower(RootName(r)) == RootName(r)
  {
    forall r
      ensures Lower(RootName(r)) == RootName(r)
    {
      LowerNoCapitals(RootName(r));
    }
  }

  /** With '*', the major type decides: image -> pictures, video -> movies,
      audio -> music, anything else -> documents. */
  lemma WildcardFollowsMime(mime: string)
    requires Count(mime, '/') == 1
    ensures var major := SplitHead(mime, '/');
            RootDirectory("*", mime)
            == Ok(if major == "image" then Pictures
                  else if major == "video" then Movies
                  else if major == "audio" then Music
                  else Documents)
  {
    NamesAreLower();
    assert NameOfMajorType(SplitHead(mime, '/')) in {RootName(Pictures), RootName(Movies), RootName(Music), RootName(Documents)};
  }

  /** The wildcard never selects Downloads or DCIM. */
  lemma WildcardNeverDownloads(mime: string)
    ensures RootDirectory("*", mime) != Ok(Downloads) && RootDirectory("*", mime) != Ok(Dcim)
  {
    if Count(mime, '/') == 1 {
      WildcardFollowsMime(mime);
    }
  }

  lemma {:induction false} LowerIdempotent(s: string)
    ensures Lower(Lower(s)) == Lower(s)
  {
    assert forall i :: 0 <= i < |s| ==> LowerChar(LowerChar(s[i])) == LowerChar(s[i]);
  }

  lemma LowerStar(s: string)
    ensures Lower(s) == "*" <==> s == "*"
  {
    if Lower(s) == "*" {
      assert LowerChar(s[0]) == '*';
    }
  }

  /** Root names are matched without regard to case. */
  lemma RootDirectoryIgnoresCase(rootDir: string, mime: string)
    ensures RootDirectory(Lower(rootDir), mime) == RootDirectory(rootDir, mime)
  {
    LowerIdempotent(rootDir);
    LowerStar(rootDir);
  }

  /** The name each root is selected by. */
  function RootName(r: Root): string
  {
    match r
    case Downloads => "downloads"
    case Pictures => "pictures"
    case Movies => "movies"
    case Music => "music"
    case Dcim => "dcim"
    case Documents => "documents"
  }

  /** Every root is selected by its own name, and by that name only among
      the six (the result is always one of the six roots). */
  lemma RootNameRoundTrip(r: Root, mime: string)
    ensures RootDirectory(RootName(r), mime) == Ok(r)
    ensures forall r' :: RootDirectory(RootName(r'), mime) == Ok(r) ==> r' == r
  {
    NamesAreLower();
  }

  // --- _get_file_mime_type ---

  /** What MimeTypeMap.getMimeTypeFromExtension answers: a string (possibly
      empty), null, or a Java exception. */
  datatype MimeAnswer = Mime(mime: string) | Null | JavaError

  /** _get_file_mime_type(file_name), the MimeTypeMap lookup being
      `lookup`. */
  function FileMimeType(fileName: string, lookup: string -> MimeAnswer): (r: string)
    ensures r != []
  {
    var ext := Extension(fileName);
    var extNoDot := if ext == [] then [] else ext[1..];
    if extNoDot == [] then Application("unknown")
    else
      match lookup(Lower(extNoDot))
      case JavaError => Application("unknown")
      case Null => Application(extNoDot)
      case Mime(m) => if m == [] then Application(extNoDot) else m
  }

  /** The MIME type `application/<subtype>`. */
  function Application(subtype: string): string
  {
    "application/" + subtype
  }

  /** One `c` between two runs without it is counted once. */
  lemma CountOne(a: string, b: string, c: char)
    requires c !in a && c !in b
    ensures Count(a + [c] + b, c) == 1
  {
    assert multiset(a + [c] + b) == multiset(a) + multiset{c} + multiset(b);
    assert c !in multiset(a) && c !in multiset(b);
  }

  /** The extension without its dot holds no '/'. */
  lemma ExtensionTail(fileName: string)
    ensures var ext := Extension(fileName); |ext| > 1 ==> '/' !in ext[1..]
  {
    var ext := Extension(fileName);
    ExtensionSpec(fileName);
    if |ext| > 1 {
      assert forall k :: 1 <= k < |ext| ==> ext[k] == ext[1..][k - 1];
    }
  }

  /** "application/" followed by an extension has exactly one '/'. */
  lemma ApplicationSlash(subtype: string)
    requires '/' !in subtype
    ensures Count(Application(subtype), '/') == 1
  {
    var app := "application";
    assert '/' !in app;
    assert Application(subtype) == app + ['/'] + subtype;
    CountOne(app, subtype, '/');
  }

  /** The MIME type is what MimeTypeMap answered for the lower-cased
      extension when that is a non-empty string; otherwise it is one the
      helper makes up, and that one always has exactly one '/'. */
  lemma FileMimeTypeShape(fileName: string, lookup: string -> MimeAnswer)
    ensures var r := FileMimeType(fileName, lookup);
            var ext := Extension(fileName);
            || (|ext| > 1 && r != [] && lookup(Lower(ext[1..])) == Mime(r))
            || Count(r, '/') == 1
  {
    var r := FileMimeType(fileName, lookup);
    var ext := Extension(fileName);
    if |ext| <= 1 {
      assert r == Application("unknown");
      ApplicationSlash("unknown");
    } else {
      var sub := ext[1..];
      var answer := lookup(Lower(sub));
      if answer == JavaError {
        assert r == Application("unknown");
        ApplicationSlash("unknown");
      } else if answer == Null || answer == Mime([]) {
        assert r == Application(sub);
        ExtensionTail(fileName);
        ApplicationSlash(sub);
      } else {
        assert r == answer.mime && r != [];
      }
    }
  }

  /** No extension (or a bare final '.') gives application/unknown, and a
      miss falls back to application/ plus the extension in its original
      case. */
  lemma FileMimeTypeFallbacks(fileName: string, lookup: string -> MimeAnswer)
    ensures |Extension(fileName)| <= 1 ==> FileMimeType(fileName, lookup) == Application("unknown")
    ensures var ext := Extension(fileName);
            |ext| > 1 && lookup(Lower(ext[1..])) in {Null, Mime("")}
            ==> FileMimeType(fileName, lookup) == Application(ext[1..])
    ensures var ext := Extension(fileName);
            |ext| > 1 && lookup(Lower(ext[1..])) == JavaError
            ==> FileMimeType(fileName, lookup) == Application("unknown")
  {
  }

  /** The wildcard root can fail only on a MIME type MimeTypeMap supplied. */
  lemma WildcardFailsOnlyOnLookup(fileName: string, lookup: string -> MimeAnswer)
    requires RootDirectory("*", FileMimeType(fileName, lookup)) == ValueError
    ensures var ext := Extension(fileName);
            |ext| > 1 && lookup(Lower(ext[1..])) == Mime(FileMimeType(fileName, lookup))
  {
    FileMimeTypeShape(fileName, lookup);
  }

  // --- _get_root_uri ---

  /** The MediaStore collections a content URI can name. */
  datatype Collection = DownloadsCollection | ImagesCollection | VideoCollection | AudioCollection | FilesCollection

  /** `<collection>.getContentUri(volume)` */
  datatype ContentUri = ContentUri(collection: Collection, volume: string)

  /** _get_root_uri(root_directory, volume, mime_type) on a device whose
      SDK_INT is `api`. */
  function RootUri(root: Root, volume: string, mime: string, api: int): (r: Option<ContentUri>)
    ensures r.Some? ==> r.value.volume == volume
  {
    if root == Downloads then
      if api < 29 then None else Some(ContentUri(DownloadsCollection, volume))
    else if root == Pictures || (root == Dcim && Contains(mime, "image/")) then
      Some(ContentUri(ImagesCollection, volume))
    else if root == Movies || (root == Dcim && Contains(mime, "video/")) then
      Some(ContentUri(VideoCollection, volume))
    else if root == Music then
      Some(ContentUri(AudioCollection, volume))
    else
      Some(ContentUri(FilesCollection, volume))
  }

  /** There is no collection exactly for Downloads below API 29. */
  lemma RootUriNoneIff(root: Root, volume: string, mime: string, api: int)
    ensures RootUri(root, volume, mime, api) == None <==> root == Downloads && api < 29
  {
  }

  /** Which roots reach each collection: Downloads from API 29 on, Images
      from Pictures and image DCIM files, Video from Movies and the other
      video DCIM files, Audio from Music, Files from Documents and the
      remaining DCIM files. */
  lemma CollectionIff(root: Root, volume: string, mime: string, api: int)
    ensures RootUri(root, volume, mime, api) == Some(ContentUri(DownloadsCollection, volume))
            <==> root == Downloads && api >= 29
    ensures RootUri(root, volume, mime, api) == Some(ContentUri(ImagesCollection, volume))
            <==> root == Pictures || (root == Dcim && Contains(mime, "image/"))
    ensures RootUri(root, volume, mime, api) == Some(ContentUri(VideoCollection, volume))
            <==> root == Movies || (root == Dcim && !Contains(mime, "image/") && Contains(mime, "video/"))
    ensures RootUri(root, volume, mime, api) == Some(ContentUri(AudioCollection, volume))
            <==> root == Music
    ensures RootUri(root, volume, mime, api) == Some(ContentUri(FilesCollection, volume))
            <==> root == Documents || (root == Dcim && !Contains(mime, "image/") && !Contains(mime, "video/"))
  {
  }

  /** DCIM files go to Images or Video by their MIME type, to Files
      otherwise; the other roots ignore the MIME type. */
  lemma DcimByMime(volume: string, mime: string, api: int)
    ensures Contains(mime, "image/") ==> RootUri(Dcim, volume, mime, api) == Some(ContentUri(ImagesCollection, volume))
    ensures !Contains(mime, "image/") && Contains(mime, "video/")
            ==> RootUri(Dcim, volume, mime, api) == Some(ContentUri(VideoCollection, volume))
    ensures !Contains(mime, "image/") && !Contains(mime, "video/")
            ==> RootUri(Dcim, volume, mime, api) == Some(ContentUri(FilesCollection, volume))
    ensures forall r, m :: r != Dcim ==> RootUri(r, volume, m, api) == RootUri(r, volume, mime, api)
  {
  }

  // --- volume normalisation (insert, get_uri) ---

  function NormalizeVolume(volume: string): (r: string)
    ensures r == "internal" || r == "external"
    ensures Lower(volume) == "internal" ==> r == "internal"
    ensures Lower(volume) != "internal" ==> r == "external"
  {
    var v := Lower(volume);
    if v == "internal" || v == "external" then v else "external"
  }

  /** Normalising is idempotent and ignores case. */
  lemma NormalizeVolumeStable(volume: string)
    ensures NormalizeVolume(NormalizeVolume(volume)) == NormalizeVolume(volume)
    ensures NormalizeVolume(Lower(volume)) == NormalizeVolume(volume)
  {
    LowerIdempotent(volume);
    LowerIdempotent(NormalizeVolume(volume));
  }

  // --- _get_pre_29_directory ---

  /** `join(storage, root)`, then the app name given (this app's name
      `thisApp` when it is empty), then `subDir` when it is not empty. */
  function Pre29Directory(storage: string, root: string, subDir: string, appName: string, thisApp: string)
    : (r: string)
    ensures var last := if subDir != [] then subDir else if appName != [] then appName else thisApp;
            !(|last| > 0 && last[0] == '/') ==> |last| <= |r| && r[|r| - |last|..] == last
  {
    var d := Join(Join(storage, root), if appName != [] then appName else thisApp);
    if subDir != [] then Join(d, subDir) else d
  }

  /** Below a storage root that does not end in '/' (an absolute path such
      as /storage/emulated/0 included), plain components are joined by
      single '/'s. */
  lemma Pre29Layout(storage: string, root: string, subDir: string, appName: string, thisApp: string)
    requires |storage| > 0 && storage[|storage| - 1] != '/'
    requires Plain(root) && Plain(thisApp)
    requires appName == [] || Plain(appName)
    requires subDir == [] || Plain(subDir)
    ensures var app := if appName != [] then appName else thisApp;
            Pre29Directory(storage, root, subDir, appName, thisApp)
            == if subDir != [] then storage + "/" + root + "/" + app + "/" + subDir
               else storage + "/" + root + "/" + app
  {
    var app := if appName != [] then appName else thisApp;
    JoinPlain(storage, root);
    JoinPlain(storage + "/" + root, app);
    if subDir != [] {
      JoinPlain(storage + "/" + root + "/" + app, subDir);
    }
  }

  // --- the start of get_uri ---

  /** How get_uri proceeds before it queries the content resolver: it
      returns None at once, or it fails, or it searches `uri` for the file
      under `path` (RELATIVE_PATH `location/` from API 29 on, DATA
      `<pre-29 directory>/<file name>` before). */
  datatype UriStart = EarlyNone | Failed | Search(uri: Option<ContentUri>, path: string)

  /** The guard of get_uri: Downloads has no collection below API 29. */
  predicate DownloadsBefore29(rootDir: string, api: int)
  {
    api < 29 && (Lower(rootDir) == "downloads" || Lower(rootDir) == "download")
  }

  function GetUriStart(fileName: string, rootDir: string, subDir: string, appName: string, volume: string,
                       api: int, env: Directories, storage: string, thisApp: string,
                       lookup: string -> MimeAnswer): (r: UriStart)
    ensures r == EarlyNone <==> DownloadsBefore29(rootDir, api)
  {
    if DownloadsBefore29(rootDir, api) then EarlyNone
    else
      var vol := NormalizeVolume(volume);
      var mime := FileMimeType(fileName, lookup);
      match RootDirectory(rootDir, mime)
      case ValueError => Failed
      case Ok(root) =>
        Search(RootUri(root, vol, mime, api),
               SearchPath(fileName, DirectoryName(env, root), subDir, appName, api, storage, thisApp))
  }

  /** The path get_uri matches: the location below the root directory
      from API 29 on, the file's pre-29 path before. */
  function SearchPath(fileName: string, dir: string, subDir: string, appName: string, api: int,
                      storage: string, thisApp: string): (r: string)
    ensures api > 28 ==> |r| > 0 && r[|r| - 1] == '/'
    ensures api <= 28 && !(|fileName| > 0 && fileName[0] == '/')
            ==> |fileName| <= |r| && r[|r| - |fileName|..] == fileName
  {
    var location := Join(dir, if appName != [] then appName else thisApp);
    var location := if subDir != [] then Join(location, subDir) else location;
    if api > 28 then location + "/"
    else Join(Pre29Directory(storage, dir, subDir, appName, thisApp), fileName)
  }

  lemma GuardedRoot(rootDir: string, mime: string, api: int)
    requires !DownloadsBefore29(rootDir, api) && RootDirectory(rootDir, mime).Ok?
    ensures RootDirectory(rootDir, mime).value == Downloads ==> api >= 29
  {
    if rootDir == "*" {
      WildcardNeverDownloads(mime);
    }
  }

  /** Without the guard, a Downloads name below API 29 would reach the
      query with no collection to search. */
  lemma GuardNeeded(rootDir: string, mime: string, volume: string, api: int)
    requires DownloadsBefore29(rootDir, api)
    ensures RootDirectory(rootDir, mime) == Ok(Downloads)
    ensures RootUri(RootDirectory(rootDir, mime).value, volume, mime, api) == None
  {
    assert Lower(rootDir) != Lower("*");
  }

  /** The guard is what keeps the query off a missing collection: whenever
      get_uri searches, it has a content URI, on a normalised volume. */
  lemma GuardSuffices(fileName: string, rootDir: string, subDir: string, appName: string, volume: string,
                      api: int, env: Directories, storage: string, thisApp: string,
                      lookup: string -> MimeAnswer)
    requires GetUriStart(fileName, rootDir, subDir, appName, volume, api, env, storage, thisApp, lookup).Search?
    ensures var s := GetUriStart(fileName, rootDir, subDir, appName, volume, api, env, storage, thisApp, lookup);
            s.uri.Some? && (s.uri.value.volume == "internal" || s.uri.value.volume == "external")
  {
    var mime := FileMimeType(fileName, lookup);
    var root := RootDirectory(rootDir, mime).value;
    var vol := NormalizeVolume(volume);
    assert GetUriStart(fileName, rootDir, subDir, appName, volume, api, env, storage, thisApp, lookup).uri
           == RootUri(root, vol, mime, api);
    GuardedRoot(rootDir, mime, api);
    RootUriNoneIff(root, vol, mime, api);
  }
}
