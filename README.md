# simplegallery: a Dafny model of its string and list layer

simplegallery turns a directory of images into a static web gallery in two
steps. `prepare` lists the image files of the directory, warns when a name
would need URL encoding, and writes the database `sg.json`: a comment line
`#` followed by the JSON list of `{filename, title: ""}` records. `process`
reads `sg.json` back, drops its comment lines, decodes the JSON, derives a
thumbnail name (the base name) per record, and hands the list of thumbnail
names to the index template. Either step can also build a `tar` call that
packs the known images by base name.

This project models that logic in Dafny and proves what it promises:

- `bytes.dfy` (module `Bytes`): Python 2 byte strings (`ByteString`, one
  byte per character) and the `str` methods used: `startswith`, `endswith`,
  `lower` and `split`.
- `filenames.dfy` (module `FileNames`): `is_dir`, `is_image_file`,
  `is_bad_name` with `urllib.quote` written out byte by byte (percent-encoding
  as in section 2.1 of RFC 3986), and the base name `split('/')[-1]`.
- `sidecar.dfy` (module `Sidecar`): the database records, `readlines`,
  the comment filter of `process` and the round trip with the comment line
  written by `prepare`.
- `gallery.dfy` (module `Gallery`): the scan, the record loop, the
  thumbnail loop, the `tar` member list, and the class `Runner` whose
  `Prepare` and `Process` methods are the `run` methods of `GalleryPrepare`
  and `GalleryProcess`, with the `contents` field they update.
- `seqs.dfy` (module `Seqs`): the order-keeping filter that both the scan of
  `prepare` and the comment skip of `process` are instances of.
- `wrappers.dfy` (module `Wrappers`): `Option` and `Result`.

The outside world comes in as parameters: the `glob` listing (a sequence of
paths, in whatever order `glob` gives), the `jhead` output per file, whether
`os.path.isdir` holds, `json.dumps` and `json.loads` (each answering `None`
where the Python call raises), the content of `sg.json`
(or its absence), and whether `_web/sg.tgz` exists when the index is rendered.

The data: an `Image` (`Gallery.Image`, the namedtuple of line 16) pairs a
file name with the `jhead` output for it, if any. A database `Record`
(`Sidecar.Record`) holds a `filename` and a `title`. `Runner` holds the
directory, the archive flag and the `contents` list of images.

Two points the code settles:
the `-A` flag sits on the top-level parser, so both subcommands may build the
archive; and `is_bad_name` is applied to the full path `glob` returns, so the
directory part of the name counts too (a directory whose own name holds a
space makes every image name bad).

## Model

| member | source | states |
|---|---|---|
| `FileNames.RStrip` | simplegallery/simplegallery.py:24 | `rstrip('/')` returns a prefix of the input that does not end in `/`, and everything it drops is `/` |
| `FileNames.IsDir` | simplegallery/simplegallery.py:20-28 | succeeds exactly when the path is a directory; then the result ends in `/` and is the input with its trailing slashes stripped plus one `/`; otherwise the error carries the message `<dir> is not a valid directory` |
| `FileNames.IsDirIdempotent` | simplegallery/simplegallery.py:24 | normalising an already normalised directory gives it back unchanged |
| `FileNames.IsDirOnlyTouchesTrailingSlashes` | simplegallery/simplegallery.py:24 | the normalised directory agrees with the input up to its last byte, only `/` bytes were dropped, and it ends in exactly one `/` |
| `FileNames.IsImageFile` | simplegallery/simplegallery.py:30-32 | definition, no contract: some default extension ends the lower-cased name; its meaning is stated by `FileNames.IsImageFileIff` and the lemmas after it |
| `FileNames.IsImageFileIff` | simplegallery/simplegallery.py:30-32 | a name is an image file exactly when its lower-cased form ends in `.jpg`, `.jpeg`, `.gif` or `.png` |
| `FileNames.IsImageFileIgnoresCase` | simplegallery/simplegallery.py:32 | `is_image_file(s) == is_image_file(lower(s))` |
| `FileNames.IsImageFileSuffix` | simplegallery/simplegallery.py:32 | any name that ends with an accepted name is accepted, whatever comes before |
| `FileNames.ImageFileAcceptsUpperCase` | simplegallery/simplegallery.py:30-32 | `A.JPG` is accepted |
| `FileNames.ImageFileRejectsBitmap` | simplegallery/simplegallery.py:30-32 | `a.bmp` is rejected |
| `FileNames.ImageFileNeedsDot` | simplegallery/simplegallery.py:30-32 | `jpg` alone is rejected: the extensions include their dot |
| `FileNames.IsQuoteSafe` | simplegallery/simplegallery.py:36 | definition, no contract: the bytes `urllib.quote` keeps, which are its `always_safe` set (ASCII letters, digits, `_`, `.`, `-`) plus the default `safe='/'`; its role is stated by `FileNames.QuoteByte`, `FileNames.QuoteFixedIff` and `FileNames.IsBadNameIff` |
| `FileNames.QuoteByte` | simplegallery/simplegallery.py:36 | a safe byte is kept as it is, and only a safe byte is; any other byte becomes `%` and two hexadecimal digits whose value is that byte |
| `FileNames.Quote` | simplegallery/simplegallery.py:36 | `urllib.quote` never shortens a name |
| `FileNames.QuoteFixedIff` | simplegallery/simplegallery.py:36 | `quote` returns its input unchanged exactly when every byte is in the safe set |
| `FileNames.IsBadName` | simplegallery/simplegallery.py:34-38 | definition, no contract: `quote` changes the name; its meaning is stated by `FileNames.IsBadNameIff` |
| `FileNames.IsBadNameIff` | simplegallery/simplegallery.py:34-38 | a name is bad exactly when some byte is outside the quote-safe set (ASCII letters, digits, `_`, `.`, `-`, `/`) |
| `FileNames.SafeNameIsNotBad` | simplegallery/simplegallery.py:34-38 | a name of letters, digits, `/`, `-`, `_` and `.` is not bad |
| `FileNames.UnsafeByteMakesNameBad` | simplegallery/simplegallery.py:34-38 | a single byte outside the safe set, anywhere in the name, makes it bad |
| `FileNames.SpaceMakesNameBad` | simplegallery/simplegallery.py:34-38 | a name with a space is bad |
| `FileNames.NonAsciiMakesNameBad` | simplegallery/simplegallery.py:34-38 | a name with a non-ASCII byte is bad |
| `FileNames.TildeMakesNameBad` | simplegallery/simplegallery.py:34-38 | a name with `~` is bad (Python 2 encodes it) |
| `FileNames.UnquoteQuote` | simplegallery/simplegallery.py:36 | percent-decoding inverts `quote`, so distinct names quote to distinct strings |
| `FileNames.Basename` | simplegallery/simplegallery.py:176 | the base name holds no `/`, ends the path, and is the whole path or follows a `/` |
| `FileNames.BasenameFixed` | simplegallery/simplegallery.py:176 | the base name is the whole path exactly when the path has no `/`; taking it twice equals taking it once |
| `Bytes.StartsWith` | simplegallery/simplegallery.py:157 | definition, no contract: `str.startswith`, the prefix of the right length equals the given one; it is used by `Sidecar.IsComment`, whose meaning `Sidecar.UncommentedMembership` and `Sidecar.LaterLinesNotComments` state |
| `Bytes.EndsWith` | simplegallery/simplegallery.py:32 | definition, no contract: `str.endswith`, the suffix of the right length equals the given one; its use in the image test is stated by `FileNames.IsImageFileIff` and `FileNames.IsImageFileSuffix`, and as a suffix relation by `FileNames.Basename` and `Bytes.SplitLast` |
| `Bytes.Lower` | simplegallery/simplegallery.py:32 | definition, no contract: `LowerByte` applied to each byte; its properties are stated by `Bytes.LowerFacts` |
| `Bytes.LowerFacts` | simplegallery/simplegallery.py:32 | `lower()` keeps the length, turns each ASCII capital into its small letter (32 places further on), keeps every other byte, leaves no capital, and is idempotent |
| `Bytes.Split` | simplegallery/simplegallery.py:176 | `split('/')` yields at least one field |
| `Bytes.SplitFieldsLackSeparator` | simplegallery/simplegallery.py:176 | no field of `split` contains the separator |
| `Bytes.JoinSplit` | simplegallery/simplegallery.py:176 | joining the fields of `split` with the separator gives the string back |
| `Bytes.SplitSnoc` | simplegallery/simplegallery.py:176 | one more byte either opens a new, empty last field (the separator) or extends the last field by that byte, leaving the number of fields alone |
| `Bytes.LastField` | simplegallery/simplegallery.py:176 | definition, no contract: `split(sep)[-1]`, the last field of `Bytes.Split`; its meaning is stated by `Bytes.SplitSnoc` and `Bytes.SplitLast` |
| `Bytes.SplitLast` | simplegallery/simplegallery.py:176 | `split(sep)[-1]` is a suffix of the string, equal to it exactly when there is a single field, and otherwise preceded by the separator |
| `Sidecar.DbData` | simplegallery/simplegallery.py:116-123 | one record per scanned name, in order, with `filename` the name and `title` empty |
| `Sidecar.Lines` | simplegallery/simplegallery.py:155 | `readlines` gives no lines exactly for an empty file, and the first line begins with the first byte |
| `Sidecar.LinesShape` | simplegallery/simplegallery.py:155 | every line is non-empty, only the last byte of a line can be a newline, and every line but the last ends in one |
| `Sidecar.Join` | simplegallery/simplegallery.py:162 | definition, no contract: `''.join`, the concatenation of the parts in order; its meaning is stated by `Sidecar.JoinAppend` and `Sidecar.JoinLines` |
| `Sidecar.JoinAppend` | simplegallery/simplegallery.py:162 | `''.join` of two lists of lines is the concatenation of their joins |
| `Sidecar.JoinLines` | simplegallery/simplegallery.py:155 | joining the lines of `readlines` gives the file text back |
| `Sidecar.LinesAfterHeader` | simplegallery/simplegallery.py:115 | the `#\n` written first is a line of its own, followed by the lines of the rest |
| `Sidecar.IsComment` | simplegallery/simplegallery.py:157 | definition, no contract: the line starts with `#`; its role is stated by `Sidecar.UncommentedMembership`, `Sidecar.HeaderRoundTrip` and `Sidecar.CommentLineDropped` |
| `Sidecar.Uncommented` | simplegallery/simplegallery.py:154-158 | definition, no contract: `Seqs.Filter` keeping the lines that do not start with `#`; its properties are stated by the three lemmas after it |
| `Sidecar.UncommentedMembership` | simplegallery/simplegallery.py:157-158 | a line is kept exactly when it was read and does not start with `#` |
| `Sidecar.UncommentedAppend` | simplegallery/simplegallery.py:155-158 | filtering distributes over concatenation, so kept lines stay in file order |
| `Sidecar.UncommentedNoComments` | simplegallery/simplegallery.py:157-158 | lines none of which starts with `#` are all kept, in order |
| `Sidecar.StripComments` | simplegallery/simplegallery.py:154-159 | the skip-comments loop produces exactly the filtered lines |
| `Sidecar.JsonText` | simplegallery/simplegallery.py:155-162 | definition, no contract: the text handed to `json.loads` is the join of the uncommented lines of the file; its properties are stated by `Sidecar.HeaderRoundTrip` and `Sidecar.CommentLineDropped` |
| `Sidecar.NoCommentLineHasNoCommentLines` | simplegallery/simplegallery.py:157 | text that does not start with `#` and has no `#` right after a newline has no line starting with `#` |
| `Sidecar.HeaderRoundTrip` | simplegallery/simplegallery.py:154-162 | for such a body, the text decoded from `#\n` + body (the file `prepare` writes at lines 115 and 124) is the body itself |
| `Sidecar.CommentLineDropped` | simplegallery/simplegallery.py:154-162 | a leading `#\n` line never reaches the JSON decoder |
| `Seqs.Filter` | simplegallery/simplegallery.py:94-95 | an order-keeping filter keeps no more elements than it is given |
| `Seqs.FilterMembership` | simplegallery/simplegallery.py:94-95 | an element is kept exactly when it was given and passes the test |
| `Seqs.FilterAppend` | simplegallery/simplegallery.py:94-95 | filtering a concatenation is concatenating the filtered parts, so the kept elements stay in order |
| `Seqs.FilterAll` | simplegallery/simplegallery.py:94-95 | when every element passes, the whole sequence is kept |
| `Seqs.FilterNone` | simplegallery/simplegallery.py:94-95 | when no element passes, nothing is kept |
| `Gallery.ImageFiles` | simplegallery/simplegallery.py:94-95 | definition, no contract: `Seqs.Filter` with `is_image_file` over the listing; its properties are stated by the `ImageFiles` lemmas after it |
| `Gallery.ImageFilesMembership` | simplegallery/simplegallery.py:94-95 | a name is kept exactly when it is listed and `is_image_file` holds |
| `Gallery.ImageFilesAppend` | simplegallery/simplegallery.py:94-95 | the filter distributes over concatenation: kept names are in listing order |
| `Gallery.ImageFilesSnoc` | simplegallery/simplegallery.py:94-95 | one more listed name is appended to the kept names exactly when it is an image file |
| `Gallery.ImageFilesNoImages` | simplegallery/simplegallery.py:94-95 | a listing without image files gives no records |
| `Gallery.ImageFilesAllImages` | simplegallery/simplegallery.py:94-95 | a listing of image files only is kept whole, one entry per file |
| `Gallery.HasBadImage` | simplegallery/simplegallery.py:95-97 | definition, no contract: some listed name is an image file whose name is bad; its properties are stated by `Gallery.HasBadImageSnoc` and `Gallery.BadNameAmongKept` |
| `Gallery.HasBadImageSnoc` | simplegallery/simplegallery.py:95-97 | the warning condition over a listing one name longer holds exactly when it held before or the new name is an image file with a bad name |
| `Gallery.BadNameAmongKept` | simplegallery/simplegallery.py:95-97 | the warning condition over the listing is the same as "some kept name is bad": rejected names play no part |
| `Gallery.Scan` | simplegallery/simplegallery.py:90-107 | the scan loop keeps exactly the image files in listing order, with each one's `jhead` output, and sets the flag exactly when a kept name is bad |
| `Gallery.BuildDbData` | simplegallery/simplegallery.py:116-123 | the record loop builds one `{filename, title: ""}` record per scanned image, in order |
| `Gallery.Basenames` | simplegallery/simplegallery.py:176 | `split('/')[-1]` over a list of paths gives one name per path, in order, each the `Basename` of its path and so a `/`-free suffix of it; the thumbnail names of `process` (line 176) and the `tar` members (line 59) are both this list |
| `Gallery.ThumbnailNames` | simplegallery/simplegallery.py:172-180 | one `tn_filename` per record, in database order, each the base name of the record's `filename` |
| `Gallery.ArchiveMembers` | simplegallery/simplegallery.py:59 | one `tar` member per known image, in the order of `contents`, each the base name of the image's filename |
| `Gallery.Thumbnails` | simplegallery/simplegallery.py:182 | the images appended to `contents` have the template's names, in order, and no EXIF text |
| `Gallery.ArchiveMembersOfBasenames` | simplegallery/simplegallery.py:59 | images already named by base name are archived under exactly those names |
| `Gallery.ProcessedArchiveMatchesIndex` | simplegallery/simplegallery.py:172-182 | after `process`, the archive members equal the names listed in the index, same length and order |
| `Gallery.PrepareThenProcess` | simplegallery/simplegallery.py:114-176 | when the encoder succeeds on the records, the JSON codec round-trips the records and writes no line starting with `#`, `process` decodes the sidecar of `prepare` to its records and lists the base name of every scanned image, in scan order |
| `Gallery.Runner.constructor` | simplegallery/simplegallery.py:43-48 | a runner starts with the given directory and archive flag and an empty `contents` |
| `Gallery.Runner.Archive` | simplegallery/simplegallery.py:55-59 | the `tar` call runs in the gallery directory; its arguments are exactly `tar -cvzf _web/sg.tgz` followed by `ArchiveMembers(contents)`: one member per known image, in order, each the base name of that image's filename and so a `/`-free suffix of it |
| `Gallery.Runner.Prepare` | simplegallery/simplegallery.py:64-131 | `contents` becomes the scanned images; the flag is set exactly when a kept name is bad; when the encoder fails, the sidecar holds only `#\n` and the run stops with `RecordsNotEncodable` before the archive step; otherwise the sidecar text is `#\n` followed by the JSON of the records, and the `tar` call is produced exactly when the archive flag is set |
| `Gallery.Runner.AddThumbnails` | simplegallery/simplegallery.py:172-182 | the record loop appends one base-named image without EXIF text per record to `contents`, in order, and returns the base names in the same order |
| `Gallery.Runner.Process` | simplegallery/simplegallery.py:140-239 | a missing file and undecodable JSON each fail with their own error and leave `contents` alone; otherwise `contents` gains one base-named image per record, the template gets the fixed title, one name per record in order, the archive marker exactly when the archive file exists, and the `tar` call exactly when the archive flag is set |

## Left out

- The `mkdir`, `cp`, `jhead`, `convert` and `tar` subprocesses (lines 76-88, 100, 186-201, 59): external programs. Only the argument list and working directory of the `tar` call are modelled; the `jhead` output is a parameter and its failure is the `None` it yields.
- The two `convert` argument lists per image (lines 186-201) are not modelled. Besides fixed options, they hold the record's `filename` and two output paths built from `directory` and `tn_filename` by string formatting, and building those paths can raise (see the `Gallery.Runner.Process` line below). The effect of the calls is outside the model.
- File I/O on `sg.json` and `index.html` (lines 114-127, 148-152, 218, 243): the file contents are byte strings passed in or returned. That `index.html` is opened, and so emptied, before the archive step is not modelled.
- `os.path.isdir`, `os.path.isfile` and `glob.glob` (lines 22, 227, 94): their answers are parameters. That `glob` skips hidden files, and its order, belong to the listing given.
- `json.dumps` and `json.loads` (lines 124, 162): parameters. `dumps` answers `None` where `json.dumps` raises (in Python 2, `UnicodeDecodeError` on a name that is not valid UTF-8); `Runner.Prepare` then has written only the comment line and stops before the archive step, as the uncaught exception does.
- The decoder answers a list of records. A decoded `[]`, `{}` or `""` makes the loop at line 173 run zero times, so all three are `Some([])` here. Any other shape raises an uncaught exception. A non-empty dict or string, a number, or an entry that is not an object raises `TypeError` at lines 173-175. An entry without `filename` raises `KeyError` at line 175. An entry whose `filename` is a number, `null`, a list or an object reaches line 176 and raises `AttributeError`, since only a string has `.split`. The model does not represent that exception.
- Python 2's `json.loads` returns `unicode` strings, but a decoded `filename` is a byte string here, one character per byte in 0..255. A decoded name with a character above U+00FF, such as U+20AC, cannot be represented. For the same reason, the round trip `loads(dumps(records)) == Some(records)` that `Gallery.PrepareThenProcess` assumes holds in Python 2 only for ASCII names. The base-name logic does not depend on this: it splits on `/` alone, which is the same byte in either representation.
- Gallery.Runner.Process: the success clause assumes the thumbnail step completes. Suppose the gallery directory's path holds a non-ASCII byte, say `F\xc3\xb6tos/`, and `sg.json` names at least one image. Then line 192 formats a byte-string `directory` together with the `unicode` `tn_filename` from `json.loads`. Python 2 decodes the byte string as ASCII there and raises an uncaught `UnicodeDecodeError`. `index.html` is never opened or written (line 218), and the `tar` step (lines 222-224) is never reached. The model returns `Success` for such a run.
- The `jhead` reader is a function of the file name, so two reads of one file agree; the source calls it once per file anyway.
- Jinja2 loading and rendering (lines 233-239): the model stops at the arguments passed to `render`.
- argparse construction and dispatch (lines 248-267), `Runner.dispatch` (lines 50-53), and all `print` output, including the diagnostics before `SystemExit(-1)`.
- `Bytes.LowerByte`: models `str.lower()` in the C locale, changing ASCII capitals only; other locales can change bytes above 127 too.
