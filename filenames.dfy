/**
  The convenience functions at the top of simplegallery.py: the directory
  argument check, the image-extension filter, the URL-safety check, and the
  base name that the renderer and the archiver take of a path.
 */
module FileNames {
  import opened Wrappers
  import opened Bytes

  // ---------------------------------------------------------------------------
  // is_dir: the argparse type of the -d option
  // ---------------------------------------------------------------------------

  /** `s.rstrip(c)`: `s` without its trailing run of `c`. */
  function RStrip(s: ByteString, c: Byte): (r: ByteString)
    ensures |r| <= |s| && r == s[..|r|]
    ensures r == [] || r[|r| - 1] != c
    ensures forall i :: |r| <= i < |s| ==> s[i] == c
  {
    if s == [] || s[|s| - 1] != c then s else RStrip(s[..|s| - 1], c)
  }

  /** `is_dir(dir)`, where `isDirectory` is what `os.path.isdir(dir)` answered.
      A directory comes back with its trailing slashes replaced by exactly one;
      anything else is the argument error with its message. */
  function IsDir(dir: ByteString, isDirectory: bool): (r: Result<ByteString, ByteString>)
    ensures r.Success? <==> isDirectory
    ensures r.Success? ==> EndsWith(r.value, "/") && |r.value| <= |dir| + 1
    ensures r.Success? ==> r.value[..|r.value| - 1] == RStrip(dir, '/')
    ensures r.Failure? ==> r.error == dir + " is not a valid directory"
  {
    if isDirectory then Success(RStrip(dir, '/') + "/")
    else Failure(dir + " is not a valid directory")
  }

  /** Normalising a normalised directory changes nothing. */
  lemma IsDirIdempotent(dir: ByteString)
    ensures IsDir(IsDir(dir, true).value, true) == IsDir(dir, true)
  {
    var once := IsDir(dir, true).value;
    var stripped := RStrip(dir, '/');
    assert once[..|once| - 1] == stripped;
    assert RStrip(once[..|once| - 1], '/') == stripped;
  }

  /** The normalised directory names the same path: only trailing slashes were
      dropped, and exactly one is put back. */
  lemma IsDirOnlyTouchesTrailingSlashes(dir: ByteString)
    ensures var d := IsDir(dir, true).value;
            && d[..|d| - 1] == dir[..|d| - 1]
            && (forall i :: |d| - 1 <= i < |dir| ==> dir[i] == '/')
            && (|d| >= 2 ==> d[|d| - 2] != '/')
  {
  }

  // ---------------------------------------------------------------------------
  // is_image_file
  // ---------------------------------------------------------------------------

  /** The default `extensions` argument of `is_image_file`. */
  const ImageExtensions: seq<ByteString> := [".jpg", ".jpeg", ".gif", ".png"]

  /** The lower-cased name ends with one of the given extensions. */
  predicate HasExtension(filename: ByteString, extensions: seq<ByteString>) {
    exists k :: 0 <= k < |extensions| && EndsWith(Lower(filename), extensions[k])
  }

  /** `is_image_file(filename)` with its default extensions. */
  predicate IsImageFile(filename: ByteString) {
    HasExtension(filename, ImageExtensions)
  }

  /** The filter, written out: a case-insensitive match of one of the four suffixes. */
  lemma IsImageFileIff(filename: ByteString)
    ensures IsImageFile(filename) <==>
      EndsWith(Lower(filename), ".jpg") || EndsWith(Lower(filename), ".jpeg") ||
      EndsWith(Lower(filename), ".gif") || EndsWith(Lower(filename), ".png")
  {
    if IsImageFile(filename) {
      var k :| 0 <= k < |ImageExtensions| && EndsWith(Lower(filename), ImageExtensions[k]);
      assert ImageExtensions[k] in [".jpg", ".jpeg", ".gif", ".png"];
    }
    assert ImageExtensions[0] == ".jpg" && ImageExtensions[1] == ".jpeg";
    assert ImageExtensions[2] == ".gif" && ImageExtensions[3] == ".png";
  }

  /** Case does not matter to the filter. */
  lemma IsImageFileIgnoresCase(filename: ByteString)
    ensures IsImageFile(filename) == IsImageFile(Lower(filename))
  {
    LowerFacts(filename);
  }

  /** Read as an extension test, the filter only looks at the tail of the name:
      any name with an accepted ending is accepted, whatever precedes it. */
  lemma IsImageFileSuffix(stem: ByteString, ext: ByteString)
    requires IsImageFile(ext)
    ensures IsImageFile(stem + ext)
  {
    var k :| 0 <= k < |ImageExtensions| && EndsWith(Lower(ext), ImageExtensions[k]);
    var e := ImageExtensions[k];
    var whole := Lower(stem + ext);
    assert whole[|stem|..] == Lower(ext);
    assert whole[|whole| - |e|..] == Lower(ext)[|Lower(ext)| - |e|..];
    assert EndsWith(whole, e);
  }

  lemma ImageFileAcceptsUpperCase()
    ensures IsImageFile("A.JPG")
  {
    assert Lower("A.JPG") == "a.jpg";
    IsImageFileIff("A.JPG");
  }

  lemma ImageFileRejectsBitmap()
    ensures !IsImageFile("a.bmp")
  {
    assert Lower("a.bmp") == "a.bmp";
    IsImageFileIff("a.bmp");
  }

  /** The extension includes its dot. */
  lemma ImageFileNeedsDot()
    ensures !IsImageFile("jpg")
  {
    assert Lower("jpg") == "jpg";
    IsImageFileIff("jpg");
  }

  // ---------------------------------------------------------------------------
  // is_bad_name: does urllib.quote (Python 2, safe='/') change the name?
  // ---------------------------------------------------------------------------

  /** The bytes `urllib.quote` leaves alone: its `always_safe` set
      (ASCII letters, digits, `_`, `.`, `-`) plus the default `safe` argument `/`. */
  predicate IsQuoteSafe(c: Byte) {
    ('A' <= c <= 'Z') || ('a' <= c <= 'z') || ('0' <= c <= '9') ||
    c == '_' || c == '.' || c == '-' || c == '/'
  }

  const HexDigits: ByteString := "0123456789ABCDEF"

  /** Every other byte becomes `%XX` with two upper-case hexadecimal digits
      (percent-encoding as in section 2.1 of RFC 3986). */
  function QuoteByte(c: Byte): (q: ByteString)
    ensures IsQuoteSafe(c) <==> q == [c]
    ensures !IsQuoteSafe(c) ==>
      && |q| == 3 && q[0] == '%' && IsHexDigit(q[1]) && IsHexDigit(q[2])
      && HexValue(q[1]) * 16 + HexValue(q[2]) == c as int
  {
    if IsQuoteSafe(c) then [c]
    else
      var hi, lo := c as int / 16, c as int % 16;
      HexDigitsInverse(hi);
      HexDigitsInverse(lo);
      ['%', HexDigits[hi], HexDigits[lo]]
  }

  /** `urllib.quote(s)`. Its two fast paths (an empty string, a string of safe
      bytes only) return `s`, which is also what the byte map gives. */
  function Quote(s: ByteString): (q: ByteString)
    ensures |q| >= |s|
  {
    if s == [] then [] else QuoteByte(s[0]) + Quote(s[1..])
  }

  /** `is_bad_name(filename)` */
  predicate IsBadName(filename: ByteString) {
    Quote(filename) != filename
  }

  /** Every byte is in the safe set. */
  predicate AllQuoteSafe(s: ByteString) {
    forall i :: 0 <= i < |s| ==> IsQuoteSafe(s[i])
  }

  lemma AllQuoteSafeCons(c: Byte, tail: ByteString)
    ensures AllQuoteSafe([c] + tail) <==> IsQuoteSafe(c) && AllQuoteSafe(tail)
  {
    var s := [c] + tail;
    assert s[0] == c;
    assert forall i :: 0 <= i < |tail| ==> s[i + 1] == tail[i];
  }

  /** `quote` leaves a string alone exactly when all its bytes are safe. */
  lemma {:induction false} QuoteFixedIff(s: ByteString)
    ensures Quote(s) == s <==> AllQuoteSafe(s)
  {
    if s != [] {
      var c, tail := s[0], s[1..];
      assert s == [c] + tail;
      QuoteFixedIff(tail);
      AllQuoteSafeCons(c, tail);
      if IsQuoteSafe(c) {
        assert Quote(s) == [c] + Quote(tail);
        assert Quote(s) == s ==> Quote(s)[1..] == s[1..];
      } else {
        assert |Quote(s)| == 3 + |Quote(tail)|;
      }
    }
  }

  /** A name is bad exactly when one of its bytes is outside the safe set. */
  lemma IsBadNameIff(filename: ByteString)
    ensures IsBadName(filename) <==> exists i :: 0 <= i < |filename| && !IsQuoteSafe(filename[i])
  {
    QuoteFixedIff(filename);
  }

  /** A name made of letters, digits, `_`, `.`, `-` and `/` only is not bad. */
  lemma SafeNameIsNotBad(filename: ByteString)
    requires AllQuoteSafe(filename)
    ensures !IsBadName(filename)
  {
    QuoteFixedIff(filename);
  }

  /** One byte outside the safe set is enough. */
  lemma UnsafeByteMakesNameBad(filename: ByteString, i: nat)
    requires i < |filename| && !IsQuoteSafe(filename[i])
    ensures IsBadName(filename)
  {
    IsBadNameIff(filename);
  }

  /** A name with a space is bad. */
  lemma SpaceMakesNameBad(filename: ByteString)
    requires ' ' in filename
    ensures IsBadName(filename)
  {
    var i :| 0 <= i < |filename| && filename[i] == ' ';
    UnsafeByteMakesNameBad(filename, i);
  }

  /** A name with a byte beyond ASCII (any byte of a UTF-8 umlaut, say) is bad. */
  lemma NonAsciiMakesNameBad(filename: ByteString, i: nat)
    requires i < |filename| && filename[i] as int >= 0x80
    ensures IsBadName(filename)
  {
    UnsafeByteMakesNameBad(filename, i);
  }

  /** Python 2 also encodes `~`, so a name with one is bad. */
  lemma TildeMakesNameBad(filename: ByteString)
    requires '~' in filename
    ensures IsBadName(filename)
  {
    var i :| 0 <= i < |filename| && filename[i] == '~';
    UnsafeByteMakesNameBad(filename, i);
  }

  // Percent-decoding, the inverse of Quote.

  function HexValue(c: Byte): (v: nat)
    ensures v < 16
  {
    if '0' <= c <= '9' then c as int - '0' as int
    else if 'A' <= c <= 'F' then c as int - 'A' as int + 10
    else if 'a' <= c <= 'f' then c as int - 'a' as int + 10
    else 0
  }

  predicate IsHexDigit(c: Byte) {
    ('0' <= c <= '9') || ('A' <= c <= 'F') || ('a' <= c <= 'f')
  }

  /** Replaces each `%XX` by the byte it encodes and keeps every other byte. */
  function Unquote(s: ByteString): ByteString
    decreases |s|
  {
    if |s| >= 3 && s[0] == '%' && IsHexDigit(s[1]) && IsHexDigit(s[2]) then
      [(HexValue(s[1]) * 16 + HexValue(s[2])) as char] + Unquote(s[3..])
    else if s == [] then []
    else [s[0]] + Unquote(s[1..])
  }

  lemma HexDigitsInverse(n: nat)
    requires n < 16
    ensures IsHexDigit(HexDigits[n]) && HexValue(HexDigits[n]) == n
  {
  }

  lemma UnquoteSafeByte(c: Byte, rest: ByteString)
    requires IsQuoteSafe(c)
    ensures Unquote([c] + rest) == [c] + Unquote(rest)
  {
    assert ([c] + rest)[1..] == rest;
  }

  lemma UnquoteEscapedByte(c: Byte, rest: ByteString)
    requires !IsQuoteSafe(c)
    ensures Unquote(QuoteByte(c) + rest) == [c] + Unquote(rest)
  {
    var q := QuoteByte(c) + rest;
    assert q[..3] == QuoteByte(c) && q[3..] == rest;
    assert (HexValue(q[1]) * 16 + HexValue(q[2])) as char == c;
  }

  /** Percent-decoding undoes `quote`: no two names quote alike. */
  lemma {:induction false} UnquoteQuote(s: ByteString)
    ensures Unquote(Quote(s)) == s
  {
    if s != [] {
      var c, tail := s[0], s[1..];
      UnquoteQuote(tail);
      assert Quote(s) == QuoteByte(c) + Quote(tail);
      if IsQuoteSafe(c) {
        UnquoteSafeByte(c, Quote(tail));
      } else {
        UnquoteEscapedByte(c, Quote(tail));
      }
      assert s == [c] + tail;
    }
  }

  // ---------------------------------------------------------------------------
  // filename.split('/')[-1]
  // ---------------------------------------------------------------------------

  /** The part of a path after its last `/`. */
  function Basename(path: ByteString): (name: ByteString)
    ensures '/' !in name
    ensures EndsWith(path, name)
    ensures |name| < |path| ==> path[|path| - |name| - 1] == '/'
  {
    SplitLast(path, '/');
    SplitFieldsLackSeparator(path, '/');
    LastField(path, '/')
  }

  /** A name without `/` is its own base name; so taking the base name twice is
      taking it once. */
  lemma BasenameFixed(path: ByteString)
    ensures '/' !in path <==> Basename(path) == path
    ensures Basename(Basename(path)) == Basename(path)
  {
    var name := Basename(path);
    if '/' !in path {
      assert !(|name| < |path|);
    }
  }
}
