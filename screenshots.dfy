/**
 * The winners' screenshot archive: the upload filter and size limit, the
 * stored file name, and the directory the uploads land in and are deleted
 * from. The filesystem is a map from absolute paths to nodes.
 */
module Screenshots {
  import opened Wrappers
  import opened Text
  import opened Paths
  import opened Gallery
  import opened Http

  /** The upload size limit: 10 MiB. */
  const MaxScreenshotBytes: nat := 10 * 1024 * 1024

  const StoredPrefix: string := "winner-"

  /** The form field the screenshot must arrive in. */
  const ScreenshotField: string := "screenshot"

  /** One uploaded file part as the multipart parser sees it. */
  datatype Upload = Upload(field: string, mimetype: string, originalname: string, size: nat)

  predicate HasPrefix(s: string, prefix: string)
  {
    prefix <= s
  }

  /** The file filter: only parts whose mimetype starts with "image/". */
  predicate IsImageMime(mimetype: string)
  {
    HasPrefix(mimetype, "image/")
  }

  /**
   * What the parser does with a file part before the route runs: None when
   * it lets the part through, or the error it raises. The field name is
   * checked first, then the filter, then the size while the file streams.
   */
  function Rejection(u: Upload): (err: Option<string>)
    ensures err.None? <==> u.field == ScreenshotField && IsImageMime(u.mimetype) && u.size <= MaxScreenshotBytes
    ensures u.field == ScreenshotField && !IsImageMime(u.mimetype) ==> err == Some("Nur Bilddateien erlaubt!")
    ensures u.field == ScreenshotField && IsImageMime(u.mimetype) && u.size > MaxScreenshotBytes
            ==> err == Some("File too large")
  {
    if u.field != ScreenshotField then Some("Unexpected field")
    else if !IsImageMime(u.mimetype) then Some("Nur Bilddateien erlaubt!")
    else if u.size > MaxScreenshotBytes then Some("File too large")
    else None
  }

  /** "winner-" + the clock in milliseconds + the original name's extension. */
  function StoredName(now: nat, original: string): string
  {
    StoredPrefix + NatToDecimal(now) + ExtName(original)
  }

  lemma PrefixHasNoDot(digits: string)
    requires forall i :: 0 <= i < |digits| ==> IsDigit(digits[i])
    ensures '.' !in StoredPrefix + digits && '/' !in StoredPrefix + digits
  {
    var s := StoredPrefix + digits;
    forall i | 0 <= i < |s| ensures s[i] != '.' && s[i] != '/' {
      if i >= |StoredPrefix| {
        assert s[i] == digits[i - |StoredPrefix|];
      }
    }
  }

  /**
   * The stored name starts with "winner-", then the clock's digits, which
   * read back as the clock, and ends with the original extension; it is a
   * single plain path segment.
   */
  lemma StoredNameParts(now: nat, original: string)
    ensures var name, ext := StoredName(now, original), ExtName(original);
      && HasPrefix(name, StoredPrefix)
      && |StoredPrefix| + |ext| < |name|
      && name[|name| - |ext|..] == ext
      && (forall i :: |StoredPrefix| <= i < |name| - |ext| ==> IsDigit(name[i]))
      && DecimalValue(name[|StoredPrefix|..|name| - |ext|]) == now
      && PlainSegment(name)
  {
    var digits := NatToDecimal(now);
    var ext := ExtName(original);
    var name := StoredName(now, original);
    assert name == StoredPrefix + digits + ext;
    assert name[|StoredPrefix|..|name| - |ext|] == digits;
    DecimalRoundTrip(now);
    PrefixHasNoDot(digits);
    assert name[0] == 'w';
    forall i | 0 <= i < |name| ensures name[i] != '/' {
      if i >= |StoredPrefix| + |digits| {
        assert name[i] == ext[i - |StoredPrefix| - |digits|];
      }
    }
  }

  /** The stored name has the same extension as the original name had. */
  lemma StoredNameKeepsExtension(now: nat, original: string)
    ensures ExtName(StoredName(now, original)) == ExtName(original)
  {
    var stem := StoredPrefix + NatToDecimal(now);
    var ext := ExtName(original);
    PrefixHasNoDot(NatToDecimal(now));
    if ext == [] {
      assert StoredName(now, original) == stem;
      ExtNameNoDot(stem);
    } else {
      var rest := ext[1..];
      assert ext == "." + rest;
      assert StoredName(now, original) == stem + "." + rest;
      assert stem[0] == 'w';
      ExtNameOfDotted(stem, rest);
    }
  }

  /**
   * The stored screenshot shows up in the gallery exactly when the original
   * name's extension is an image extension in some letter case.
   */
  lemma StoredNameListed(now: nat, original: string)
    ensures IsImageName(StoredName(now, original)) <==> Lower(ExtName(original)) in ImageExtensions
  {
    var ext := ExtName(original);
    PrefixHasNoDot(NatToDecimal(now));
    DottedNameListed(StoredPrefix + NatToDecimal(now), ext);
  }

  /** A filesystem node, with its modification time. */
  datatype Node = File(mtime: int) | Directory(mtime: int)

  predicate Present(fs: map<Path, Node>, j: Joined)
  {
    j.segs in fs && (j.trailing ==> fs[j.segs].Directory?)
  }

  predicate IsDirectory(fs: map<Path, Node>, p: Path)
  {
    p in fs && fs[p].Directory?
  }

  /** The error text `unlinkSync` raises on a directory. */
  function UnlinkDirectoryError(j: Joined): string
  {
    "EISDIR: illegal operation on a directory, unlink '" + PathString(j) + "'"
  }

  const DeletePrefix: string := "Fehler beim Löschen: "

  /** The screenshots directory and the filesystem around it. */
  class Archive {
    const dir: Path
    var fs: map<Path, Node>

    /** The directory is a plain absolute path and exists as a directory. */
    ghost predicate Valid()
      reads this
    {
      dir != [] && PlainPath(dir) && dir in fs && fs[dir].Directory?
    }

    /**
     * Start-up: the directory is created when nothing exists at its path
     * (the server does not start when a file is in its way).
     */
    constructor (dir: Path, fs: map<Path, Node>, now: int)
      requires dir != [] && PlainPath(dir)
      requires dir in fs ==> fs[dir].Directory?
      ensures Valid()
      ensures this.dir == dir
      ensures this.fs == if dir in fs then fs else fs[dir := Directory(now)]
    {
      this.dir := dir;
      this.fs := if dir in fs then fs else fs[dir := Directory(now)];
    }

    /** Where an upload is renamed to: the stored name inside the directory. */
    function Target(now: nat, u: Upload): (t: Path)
      ensures |t| == |dir| + 1 && t[..|dir|] == dir
      ensures PlainSegment(t[|dir|]) && HasPrefix(t[|dir|], StoredPrefix)
    {
      StoredNameParts(now, u.originalname);
      dir + [StoredName(now, u.originalname)]
    }

    /**
     * `POST /api/upload-screenshot` once the admin gate has passed: the
     * parser's checks, then the rename to the stored name.
     */
    method Store(upload: Option<Upload>, now: nat) returns (r: Response)
      requires Valid()
      modifies this
      ensures Valid()
      ensures upload.None? ==> r == BadRequest("Keine Datei hochgeladen") && fs == old(fs)
      ensures upload.Some? && Rejection(upload.value).Some? ==>
        r == Crash(Rejection(upload.value).value) && fs == old(fs)
      ensures upload.Some? && Rejection(upload.value).None? && IsDirectory(old(fs), Target(now, upload.value)) ==>
        r.Crash? && fs == old(fs)
      ensures upload.Some? && Rejection(upload.value).None? && !IsDirectory(old(fs), Target(now, upload.value)) ==>
        r == Stored(StoredName(now, upload.value.originalname))
        && fs == old(fs)[Target(now, upload.value) := File(now)]
    {
      if upload.None? {
        return BadRequest("Keine Datei hochgeladen");
      }
      var u := upload.value;
      var err := Rejection(u);
      if err.Some? {
        return Crash(err.value);
      }
      var name := StoredName(now, u.originalname);
      var target := Target(now, u);
      if IsDirectory(fs, target) {
        return Crash("EISDIR: illegal operation on a directory, rename");
      }
      PutFile(target, now);
      r := Stored(name);
    }

    /** Writes a file at `target`, a path inside the directory. */
    method PutFile(target: Path, mtime: int)
      requires Valid() && |target| == |dir| + 1
      modifies this
      ensures Valid()
      ensures fs == old(fs)[target := File(mtime)]
    {
      assert target != dir;
      fs := fs[target := File(mtime)];
      assert fs[dir] == old(fs)[dir];
    }

    /**
     * `DELETE /api/screenshots/:filename` once the admin gate has passed:
     * join, check the string prefix, test existence, then unlink.
     * `failure` is the error the OS raises for an unlink of a file, if any.
     */
    method Delete(filename: string, failure: Option<string>) returns (r: Response)
      requires Valid()
      modifies this
      ensures Valid()
      ensures !PassesPrefixCheck(dir, filename) ==> r == Forbidden
      ensures PassesPrefixCheck(dir, filename) && !Present(old(fs), Join(dir, filename)) ==>
        r == NotFound("Datei nicht gefunden")
      ensures PassesPrefixCheck(dir, filename) && Present(old(fs), Join(dir, filename))
              && old(fs)[Join(dir, filename).segs].Directory? ==>
        r == ServerError(DeletePrefix + UnlinkDirectoryError(Join(dir, filename)))
      ensures r.Done? <==> PassesPrefixCheck(dir, filename) && Present(old(fs), Join(dir, filename))
                           && old(fs)[Join(dir, filename).segs].File? && failure.None?
      ensures r.Done? ==> fs == old(fs) - {Join(dir, filename).segs}
      ensures !r.Done? ==> fs == old(fs)
      ensures failure.Some? && PassesPrefixCheck(dir, filename) && Present(old(fs), Join(dir, filename))
              && old(fs)[Join(dir, filename).segs].File? ==>
        r == ServerError(DeletePrefix + failure.value)
    {
      var j := Join(dir, filename);
      if !PassesPrefixCheck(dir, filename) {
        return Forbidden;
      }
      if !Present(fs, j) {
        return NotFound("Datei nicht gefunden");
      }
      if fs[j.segs].Directory? {
        return ServerError(DeletePrefix + UnlinkDirectoryError(j));
      }
      if failure.Some? {
        return ServerError(DeletePrefix + failure.value);
      }
      fs := fs - {j.segs};
      r := Done;
    }

    /** The directory's entries in the order `order` gives, with their modification times. */
    function Stamps(order: seq<string>): (m: map<string, int>)
      reads this
      ensures forall n :: n in m <==> n in order && dir + [n] in fs
    {
      map n | n in order && dir + [n] in fs :: fs[dir + [n]].mtime
    }

    /**
     * `GET /api/screenshots` on this directory. `order` is the order the
     * directory read returns its entries in: each child exactly once.
     */
    method List(order: seq<string>) returns (r: Response)
      requires Valid()
      requires forall n :: n in order <==> dir + [n] in fs
      ensures r.Screenshots?
      ensures forall n :: n in r.names <==> dir + [n] in fs && IsImageName(n)
      ensures multiset(r.names) == multiset(Images(order))
      ensures NewestFirst(r.names, Stamps(order))
    {
      var stamps := Stamps(order);
      var images := Images(order);
      assert Stamped(images, stamps) by {
        forall k | 0 <= k < |images| ensures images[k] in stamps {
          assert images[k] in order;
        }
      }
      ListingCorrect(order, stamps);
      r := Screenshots(ListScreenshots(Entries(order, stamps)));
    }
  }
}
