/**
  The two subcommands of simplegallery as methods of one `Runner` class:
  `Prepare` (the `run` of `GalleryPrepare`) scans a directory listing and
  writes the sidecar text; `Process` (the `run` of `GalleryProcess`) reads the
  sidecar back and collects what the index template receives. Both keep the
  runner's `contents` list, from which `Archive` builds the `tar` call.

  What the source gets from the outside world comes in as parameters: the
  `glob` listing, the `jhead` output per file, `json.dumps` and `json.loads`,
  whether `sg.json` could be opened and what it held, and whether the archive
  file exists when the index is rendered.
 */
module Gallery {
  import opened Wrappers
  import opened Bytes
  import opened FileNames
  import opened Sidecar
  import opened Seqs

  /** An image the runner knows of: its file name and the EXIF text `jhead`
      printed for it, if any. */
  datatype Image = Image(filename: ByteString, exif: Option<ByteString>)

  /** A subprocess call: the argument vector and the working directory. */
  datatype Command = Command(argv: seq<ByteString>, cwd: ByteString)

  /** The arguments `index.tmpl` is rendered with; `images` holds the
      `tn_filename` of each `{'tn_filename': ...}` entry, in order. */
  datatype RenderContext = RenderContext(title: ByteString, images: seq<ByteString>, archive: Option<ByteString>)

  /** What `process` produces when it gets past reading the sidecar. */
  datatype ProcessOutput = ProcessOutput(context: RenderContext, tar: Option<Command>)

  /** The two ways `process` stops early; both end in `SystemExit(-1)`. */
  datatype ProcessError = SidecarMissing | SidecarNotJson

  /** `prepare` stops early when the JSON encoder fails (in Python 2, on a name
      that is not valid UTF-8); the exception is not caught. */
  datatype PrepareError = RecordsNotEncodable

  const TarPrefix: seq<ByteString> := ["tar", "-cvzf", "_web/sg.tgz"]

  const Title: ByteString := "whatever title!"

  /** The value of `context['archive']` when the archive file exists. */
  const ArchiveMarker: ByteString := "archive!"

  function Filenames(images: seq<Image>): seq<ByteString> {
    seq(|images|, k requires 0 <= k < |images| => images[k].filename)
  }

  lemma FilenamesSnoc(images: seq<Image>, image: Image)
    ensures Filenames(images + [image]) == Filenames(images) + [image.filename]
  {
  }

  // ---------------------------------------------------------------------------
  // Scanning (prepare)
  // ---------------------------------------------------------------------------

  /** The names of a listing that `is_image_file` keeps, in listing order. */
  function ImageFiles(listing: seq<ByteString>): seq<ByteString> {
    Filter(IsImageFile, listing)
  }

  /** A name is kept exactly when it is listed and is an image file. */
  lemma ImageFilesMembership(listing: seq<ByteString>, name: ByteString)
    ensures name in ImageFiles(listing) <==> name in listing && IsImageFile(name)
  {
    FilterMembership(IsImageFile, listing, name);
  }

  /** The filter distributes over concatenation: kept names stay in listing order. */
  lemma ImageFilesAppend(a: seq<ByteString>, b: seq<ByteString>)
    ensures ImageFiles(a + b) == ImageFiles(a) + ImageFiles(b)
  {
    FilterAppend(IsImageFile, a, b);
  }

  /** The filter seen one listed name at a time, as the scanning loop sees it. */
  lemma ImageFilesSnoc(listing: seq<ByteString>, name: ByteString)
    ensures ImageFiles(listing + [name]) == if IsImageFile(name) then ImageFiles(listing) + [name] else ImageFiles(listing)
  {
    ImageFilesAppend(listing, [name]);
    assert [name][1..] == [];
  }

  /** A listing of image files only is kept whole. */
  lemma ImageFilesAllImages(listing: seq<ByteString>)
    requires forall k :: 0 <= k < |listing| ==> IsImageFile(listing[k])
    ensures ImageFiles(listing) == listing
  {
    FilterAll(IsImageFile, listing);
  }

  /** A listing without image files yields no records at all. */
  lemma ImageFilesNoImages(listing: seq<ByteString>)
    requires forall k :: 0 <= k < |listing| ==> !IsImageFile(listing[k])
    ensures ImageFiles(listing) == []
  {
    FilterNone(IsImageFile, listing);
  }

  /** Some listed name is an image file that `quote` would change: the
      condition under which `prepare` warns. */
  predicate HasBadImage(listing: seq<ByteString>) {
    exists k :: 0 <= k < |listing| && IsImageFile(listing[k]) && IsBadName(listing[k])
  }

  /** The warning condition extends one name at a time. */
  lemma HasBadImageSnoc(listing: seq<ByteString>, name: ByteString)
    ensures HasBadImage(listing + [name]) <==> HasBadImage(listing) || (IsImageFile(name) && IsBadName(name))
  {
    var longer := listing + [name];
    assert longer[|listing|] == name;
    if HasBadImage(listing) {
      var k :| 0 <= k < |listing| && IsImageFile(listing[k]) && IsBadName(listing[k]);
      assert longer[k] == listing[k];
    }
    if HasBadImage(longer) {
      var k :| 0 <= k < |longer| && IsImageFile(longer[k]) && IsBadName(longer[k]);
      if k < |listing| {
        assert longer[k] == listing[k];
      }
    }
  }

  /** The warning condition read over the kept names: a listed name that is
      not an image file never raises the flag. */
  lemma BadNameAmongKept(listing: seq<ByteString>)
    ensures HasBadImage(listing) <==> (exists name :: name in ImageFiles(listing) && IsBadName(name))
  {
    if HasBadImage(listing) {
      var k :| 0 <= k < |listing| && IsImageFile(listing[k]) && IsBadName(listing[k]);
      var name := listing[k];
      assert name in listing;
      ImageFilesMembership(listing, name);
      assert name in ImageFiles(listing) && IsBadName(name);
    }
    if exists name :: name in ImageFiles(listing) && IsBadName(name) {
      var name :| name in ImageFiles(listing) && IsBadName(name);
      ImageFilesMembership(listing, name);
      var k :| 0 <= k < |listing| && listing[k] == name;
      assert IsImageFile(listing[k]) && IsBadName(listing[k]);
    }
  }

  /** The scanning loop of `prepare`: keep the image files with their `jhead`
      output, and raise the warning flag for a kept name that `quote` would change. */
  method Scan(listing: seq<ByteString>, jhead: ByteString -> Option<ByteString>)
    returns (contents: seq<Image>, badName: bool)
    ensures Filenames(contents) == ImageFiles(listing)
    ensures forall k :: 0 <= k < |contents| ==> contents[k].exif == jhead(contents[k].filename)
    ensures badName == HasBadImage(listing)
  {
    contents, badName := [], false;
    var i := 0;
    while i < |listing|
      invariant 0 <= i <= |listing|
      invariant Filenames(contents) == ImageFiles(listing[..i])
      invariant forall k :: 0 <= k < |contents| ==> contents[k].exif == jhead(contents[k].filename)
      invariant badName == HasBadImage(listing[..i])
    {
      var filename := listing[i];
      ImageFilesSnoc(listing[..i], filename);
      HasBadImageSnoc(listing[..i], filename);
      assert listing[..i + 1] == listing[..i] + [filename];
      if IsImageFile(filename) {
        if IsBadName(filename) {
          badName := true;
        }
        var exif := jhead(filename);
        var image := Image(filename, exif);
        FilenamesSnoc(contents, image);
        contents := contents + [image];
      }
      i := i + 1;
    }
    assert listing[..i] == listing;
  }

  /** The loop that turns the scanned images into database records. */
  method BuildDbData(contents: seq<Image>) returns (dbdata: seq<Record>)
    ensures dbdata == DbData(Filenames(contents))
  {
    dbdata := [];
    var i := 0;
    while i < |contents|
      invariant 0 <= i <= |contents|
      invariant |dbdata| == i
      invariant forall k :: 0 <= k < i ==> dbdata[k] == Record(contents[k].filename, "")
    {
      dbdata := dbdata + [Record(contents[i].filename, "")];
      i := i + 1;
    }
    var expected := DbData(Filenames(contents));
    assert forall k :: 0 <= k < |dbdata| ==> dbdata[k] == expected[k];
  }

  // ---------------------------------------------------------------------------
  // Thumbnails (process) and the tar member list
  // ---------------------------------------------------------------------------

  /** `split('/')[-1]` of each path, in order: one base name per path, each
      free of `/` and ending its path. */
  function Basenames(paths: seq<ByteString>): (names: seq<ByteString>)
    ensures |names| == |paths|
    ensures forall k :: 0 <= k < |paths| ==> names[k] == Basename(paths[k])
    ensures forall k :: 0 <= k < |paths| ==> '/' !in names[k] && EndsWith(paths[k], names[k])
  {
    seq(|paths|, k requires 0 <= k < |paths| => Basename(paths[k]))
  }

  /** The filenames of the database records, in order. */
  function RecordNames(records: seq<Record>): seq<ByteString> {
    seq(|records|, k requires 0 <= k < |records| => records[k].filename)
  }

  /** The `tn_filename` of each record, in database order. */
  function ThumbnailNames(records: seq<Record>): (names: seq<ByteString>)
    ensures |names| == |records|
    ensures forall k :: 0 <= k < |records| ==> names[k] == Basename(records[k].filename)
  {
    Basenames(RecordNames(records))
  }

  /** The images `process` appends to `contents`: one per record, under its base name. */
  function Thumbnails(records: seq<Record>): (images: seq<Image>)
    ensures Filenames(images) == ThumbnailNames(records)
    ensures forall k :: 0 <= k < |images| ==> images[k].exif == None
  {
    seq(|records|, k requires 0 <= k < |records| => Image(Basename(records[k].filename), None))
  }

  /** The thumbnail loop seen one record at a time. */
  lemma ThumbnailsSnoc(records: seq<Record>, record: Record)
    ensures ThumbnailNames(records + [record]) == ThumbnailNames(records) + [Basename(record.filename)]
    ensures Thumbnails(records + [record]) == Thumbnails(records) + [Image(Basename(record.filename), None)]
  {
    var longer := records + [record];
    assert RecordNames(longer) == RecordNames(records) + [record.filename];
    assert Basenames(RecordNames(longer)) == Basenames(RecordNames(records)) + [Basename(record.filename)];
    assert Thumbnails(longer) == Thumbnails(records) + [Image(Basename(record.filename), None)];
  }

  /** The members of the tarball: the base name of each known image, in the
      order of `contents`. */
  function ArchiveMembers(images: seq<Image>): (members: seq<ByteString>)
    ensures |members| == |images|
    ensures forall k :: 0 <= k < |images| ==> members[k] == Basename(images[k].filename)
  {
    Basenames(Filenames(images))
  }

  /** Images that already carry base names are archived under those names. */
  lemma ArchiveMembersOfBasenames(images: seq<Image>)
    requires forall k :: 0 <= k < |images| ==> '/' !in images[k].filename
    ensures ArchiveMembers(images) == Filenames(images)
  {
    forall k | 0 <= k < |images| ensures ArchiveMembers(images)[k] == Filenames(images)[k] {
      BasenameFixed(images[k].filename);
    }
  }

  /** After `process` on a fresh runner, the archive holds exactly the thumbnail
      names the template lists, in the same order. */
  lemma ProcessedArchiveMatchesIndex(records: seq<Record>)
    ensures ArchiveMembers(Thumbnails(records)) == ThumbnailNames(records)
  {
    var images := Thumbnails(records);
    assert Filenames(images) == ThumbnailNames(records);
    ArchiveMembersOfBasenames(images);
  }

  // ---------------------------------------------------------------------------
  // prepare followed by process
  // ---------------------------------------------------------------------------

  /** The sidecar written by `prepare` decodes, in `process`, to the records it
      was written from, provided the JSON codec round-trips them and its text
      has no line starting with `#` (the output of `json.dumps(..., indent=2)`
      starts each line with a bracket, a brace or indentation). The template
      then lists the base name of every scanned image, in scan order. */
  lemma PrepareThenProcess(listing: seq<ByteString>, dumps: seq<Record> -> Option<ByteString>,
                           loads: ByteString -> Option<seq<Record>>)
    requires dumps(DbData(ImageFiles(listing))).Some?
    requires NoCommentLine(dumps(DbData(ImageFiles(listing))).value)
    requires loads(dumps(DbData(ImageFiles(listing))).value) == Some(DbData(ImageFiles(listing)))
    ensures loads(JsonText(Header + dumps(DbData(ImageFiles(listing))).value)) == Some(DbData(ImageFiles(listing)))
    ensures var names := ThumbnailNames(DbData(ImageFiles(listing)));
            && |names| == |ImageFiles(listing)|
            && forall k :: 0 <= k < |names| ==> names[k] == Basename(ImageFiles(listing)[k])
  {
    HeaderRoundTrip(dumps(DbData(ImageFiles(listing))).value);
  }

  // ---------------------------------------------------------------------------
  // The runner
  // ---------------------------------------------------------------------------

  class Runner {
    /** `args.directory[0]`, already normalised by `IsDir`. */
    const directory: ByteString
    /** `args.archive` */
    const archiveFlag: bool
    /** The images known to this run, which `Archive` puts in the tarball. */
    var contents: seq<Image>

    constructor (directory: ByteString, archiveFlag: bool)
      ensures this.directory == directory && this.archiveFlag == archiveFlag
      ensures contents == []
    {
      this.directory := directory;
      this.archiveFlag := archiveFlag;
      contents := [];
    }

    /** `archive()`: the `tar` call, run in the gallery directory, that packs
        the known images under their base names, one member each, in order. */
    function Archive(): (tar: Command)
      reads this
      ensures tar.cwd == directory
      ensures tar.argv == TarPrefix + ArchiveMembers(contents)
      ensures |tar.argv| == |TarPrefix| + |contents| && tar.argv[..|TarPrefix|] == TarPrefix
      ensures forall k :: 0 <= k < |contents| ==>
        '/' !in tar.argv[|TarPrefix| + k] && EndsWith(contents[k].filename, tar.argv[|TarPrefix| + k])
    {
      var members := ArchiveMembers(contents);
      var argv := TarPrefix + members;
      assert argv[..|TarPrefix|] == TarPrefix;
      assert forall k :: 0 <= k < |members| ==> argv[|TarPrefix| + k] == members[k];
      Command(argv, directory)
    }

    /** `GalleryPrepare.run`: scan, remember the images, and produce the text of
        `sg.json` (the comment line, then the JSON of the records), the warning
        flag, and the `tar` call when an archive was asked for. `dumps` yields
        `None` where `json.dumps` raises; the comment line is then already
        written, and the run stops before the archive step. */
    method Prepare(listing: seq<ByteString>, jhead: ByteString -> Option<ByteString>,
                   dumps: seq<Record> -> Option<ByteString>)
      returns (sidecar: ByteString, badName: bool, r: Result<Option<Command>, PrepareError>)
      modifies this
      ensures Filenames(contents) == ImageFiles(listing)
      ensures forall k :: 0 <= k < |contents| ==> contents[k].exif == jhead(contents[k].filename)
      ensures badName == HasBadImage(listing)
      ensures dumps(DbData(ImageFiles(listing))).None? ==>
                sidecar == Header && r == Failure(RecordsNotEncodable)
      ensures dumps(DbData(ImageFiles(listing))).Some? ==>
                && sidecar == Header + dumps(DbData(ImageFiles(listing))).value
                && r == Success(if archiveFlag then Some(Archive()) else None)
    {
      var scanned;
      scanned, badName := Scan(listing, jhead);
      contents := scanned;
      sidecar := Header;
      var dbdata := BuildDbData(scanned);
      var json := dumps(dbdata);
      if json.None? {
        return sidecar, badName, Failure(RecordsNotEncodable);
      }
      sidecar := sidecar + json.value;
      var tar := if archiveFlag then Some(Archive()) else None;
      r := Success(tar);
    }

    /** The loop of `process` over the records: each one's base name goes to
        the template list and, as an image without EXIF text, to `contents`. */
    method AddThumbnails(dbdata: seq<Record>) returns (images: seq<ByteString>)
      modifies this
      ensures images == ThumbnailNames(dbdata)
      ensures contents == old(contents) + Thumbnails(dbdata)
    {
      images := [];
      var i := 0;
      while i < |dbdata|
        invariant 0 <= i <= |dbdata|
        invariant images == ThumbnailNames(dbdata[..i])
        invariant contents == old(contents) + Thumbnails(dbdata[..i])
      {
        var tnFilename := Basename(dbdata[i].filename);
        ThumbnailsSnoc(dbdata[..i], dbdata[i]);
        assert dbdata[..i + 1] == dbdata[..i] + [dbdata[i]];
        images := images + [tnFilename];
        contents := contents + [Image(tnFilename, None)];
        i := i + 1;
      }
      assert dbdata[..i] == dbdata;
    }

    /** `GalleryProcess.run`. `file` is the content of `sg.json`, or `None`
        when it cannot be opened; `archiveExists` is whether `_web/sg.tgz`
        exists once the optional archive step has run. */
    method Process(file: Option<ByteString>, loads: ByteString -> Option<seq<Record>>, archiveExists: bool)
      returns (r: Result<ProcessOutput, ProcessError>)
      modifies this
      ensures file.None? ==> r == Failure(SidecarMissing) && contents == old(contents)
      ensures file.Some? && loads(JsonText(file.value)).None? ==>
                r == Failure(SidecarNotJson) && contents == old(contents)
      ensures file.Some? && loads(JsonText(file.value)).Some? ==>
                var dbdata := loads(JsonText(file.value)).value;
                && contents == old(contents) + Thumbnails(dbdata)
                && r.Success?
                && r.value.context.title == Title
                && r.value.context.images == ThumbnailNames(dbdata)
                && r.value.context.archive == (if archiveExists then Some(ArchiveMarker) else None)
                && r.value.tar == (if archiveFlag then Some(Archive()) else None)
    {
      if file.None? {
        return Failure(SidecarMissing);
      }
      var lines := Lines(file.value);
      var content := StripComments(lines);
      var parsed := loads(Join(content));
      if parsed.None? {
        return Failure(SidecarNotJson);
      }
      var dbdata := parsed.value;
      var images := AddThumbnails(dbdata);

      var tar := if archiveFlag then Some(Archive()) else None;
      var archive := if archiveExists then Some(ArchiveMarker) else None;
      r := Success(ProcessOutput(RenderContext(Title, images, archive), tar));
    }
  }
}
