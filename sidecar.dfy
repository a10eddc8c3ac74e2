/**
  The sidecar database `sg.json`: the records `prepare` writes, the comment
  line in front of them, and how `process` reads the file back (split into
  lines, drop the comment lines, join the rest, hand it to the JSON decoder).
 */
module Sidecar {
  import opened Bytes
  import opened Seqs

  /** One entry of the database: `{'filename': ..., 'title': ...}`. */
  datatype Record = Record(filename: ByteString, title: ByteString)

  /** The records `prepare` writes, one per scanned image, in scan order,
      each with an empty title. */
  function DbData(names: seq<ByteString>): (records: seq<Record>)
    ensures |records| == |names|
    ensures forall k :: 0 <= k < |names| ==> records[k].filename == names[k] && records[k].title == []
  {
    if names == [] then [] else [Record(names[0], "")] + DbData(names[1..])
  }

  /** The comment line `prepare` writes in front of the JSON text. */
  const Header: ByteString := "#\n"

  /** `file.readlines()`: the text cut after every newline; each line keeps its
      newline, and a last line without one is kept as it is. */
  function Lines(text: ByteString): (lines: seq<ByteString>)
    ensures text == [] <==> lines == []
    ensures lines != [] ==> lines[0] != [] && lines[0][0] == text[0]
  {
    if text == [] then []
    else
      var rest := Lines(text[1..]);
      if text[0] == '\n' || rest == [] then [[text[0]]] + rest
      else [[text[0]] + rest[0]] + rest[1..]
  }

  /** Every line is non-empty, only its last byte may be a newline, and every
      line but the last ends in one. */
  predicate LineShaped(lines: seq<ByteString>) {
    && (forall k :: 0 <= k < |lines| ==> lines[k] != [])
    && (forall k, j :: 0 <= k < |lines| && 0 <= j < |lines[k]| - 1 ==> lines[k][j] != '\n')
    && (forall k :: 0 <= k < |lines| - 1 ==> lines[k][|lines[k]| - 1] == '\n')
  }

  lemma {:induction false} LinesShape(text: ByteString)
    ensures LineShaped(Lines(text))
  {
    if text != [] {
      LinesShape(text[1..]);
      var c, rest := text[0], Lines(text[1..]);
      if c == '\n' || rest == [] {
        assert Lines(text) == [[c]] + rest;
        LineShapedNewLine(c, rest);
      } else {
        assert Lines(text) == [[c] + rest[0]] + rest[1..];
        LineShapedExtend(c, rest);
      }
    }
  }

  /** A byte that starts a line of its own: a newline, or the last byte of the text. */
  lemma LineShapedNewLine(c: Byte, rest: seq<ByteString>)
    requires LineShaped(rest)
    requires c == '\n' || rest == []
    ensures LineShaped([[c]] + rest)
  {
    var lines := [[c]] + rest;
    forall k | 1 <= k < |lines| ensures lines[k] == rest[k - 1] { }
  }

  /** A byte that is not a newline joins the line after it. */
  lemma LineShapedExtend(c: Byte, rest: seq<ByteString>)
    requires LineShaped(rest)
    requires c != '\n' && rest != []
    ensures LineShaped([[c] + rest[0]] + rest[1..])
  {
    var lines := [[c] + rest[0]] + rest[1..];
    var first := lines[0];
    forall k | 1 <= k < |lines| ensures lines[k] == rest[k] { }
    forall j | 1 <= j < |first| ensures first[j] == rest[0][j - 1] { }
    assert first[|first| - 1] == rest[0][|rest[0]| - 1];
  }

  /** `''.join(parts)` */
  function Join(parts: seq<ByteString>): ByteString {
    if parts == [] then [] else parts[0] + Join(parts[1..])
  }

  lemma {:induction false} JoinAppend(a: seq<ByteString>, b: seq<ByteString>)
    ensures Join(a + b) == Join(a) + Join(b)
  {
    if a == [] {
      assert a + b == b;
    } else {
      var ab := a + b;
      assert ab[0] == a[0] && ab[1..] == a[1..] + b;
      calc {
        Join(ab);
        a[0] + Join(a[1..] + b);
        { JoinAppend(a[1..], b); }
        a[0] + (Join(a[1..]) + Join(b));
      }
    }
  }

  /** Joining the lines gives back the text: `readlines` loses nothing. */
  lemma {:induction false} JoinLines(text: ByteString)
    ensures Join(Lines(text)) == text
  {
    if text != [] {
      var c, tail := text[0], text[1..];
      var rest := Lines(tail);
      JoinLines(tail);
      if c == '\n' || rest == [] {
        JoinCons([c], rest);
      } else {
        JoinCons(rest[0], rest[1..]);
        JoinCons([c] + rest[0], rest[1..]);
      }
      assert text == [c] + tail;
    }
  }

  lemma JoinCons(first: ByteString, more: seq<ByteString>)
    ensures Join([first] + more) == first + Join(more)
  {
    assert ([first] + more)[1..] == more;
  }

  /** The comment line is a line of its own. */
  lemma LinesAfterHeader(body: ByteString)
    ensures Lines(Header + body) == [Header] + Lines(body)
  {
    var text := Header + body;
    var nl := text[1..];
    assert nl == "\n" + body && nl[1..] == body;
    assert Lines(nl) == [nl[..1]] + Lines(body);
    var rest := Lines(nl);
    assert Lines(text) == [[text[0]] + rest[0]] + rest[1..];
    assert [text[0]] + rest[0] == Header;
    assert rest[1..] == Lines(body);
  }

  /** `line.startswith('#')` */
  predicate IsComment(line: ByteString) {
    StartsWith(line, "#")
  }

  predicate IsNotComment(line: ByteString) {
    !IsComment(line)
  }

  /** The lines `process` keeps: every line that is not a comment, in order. */
  function Uncommented(lines: seq<ByteString>): seq<ByteString> {
    Filter(IsNotComment, lines)
  }

  /** A line survives exactly when it was there and is not a comment. */
  lemma UncommentedMembership(lines: seq<ByteString>, line: ByteString)
    ensures line in Uncommented(lines) <==> line in lines && !IsComment(line)
  {
    FilterMembership(IsNotComment, lines, line);
  }

  /** Filtering distributes over concatenation, so it keeps the original order. */
  lemma UncommentedAppend(a: seq<ByteString>, b: seq<ByteString>)
    ensures Uncommented(a + b) == Uncommented(a) + Uncommented(b)
  {
    FilterAppend(IsNotComment, a, b);
  }

  /** Lines without comments pass through unchanged. */
  lemma UncommentedNoComments(lines: seq<ByteString>)
    requires forall k :: 0 <= k < |lines| ==> !IsComment(lines[k])
    ensures Uncommented(lines) == lines
  {
    FilterAll(IsNotComment, lines);
  }

  /** The skip-comments loop of `process`. */
  method StripComments(lines: seq<ByteString>) returns (content: seq<ByteString>)
    ensures content == Uncommented(lines)
  {
    content := [];
    var i := 0;
    while i < |lines|
      invariant 0 <= i <= |lines|
      invariant content == Uncommented(lines[..i])
    {
      var line := lines[i];
      UncommentedAppend(lines[..i], [line]);
      assert lines[..i + 1] == lines[..i] + [line];
      if !IsComment(line) {
        content := content + [line];
      }
      i := i + 1;
    }
    assert lines[..i] == lines;
  }

  /** The text handed to the JSON decoder when the file holds `text`. */
  function JsonText(text: ByteString): ByteString {
    Join(Uncommented(Lines(text)))
  }

  /** Text in which no line begins with `#`: it does not start with one, and
      none follows a newline. */
  predicate NoCommentLine(body: ByteString) {
    && (body != [] ==> body[0] != '#')
    && forall i :: 0 <= i < |body| - 1 && body[i] == '\n' ==> body[i + 1] != '#'
  }

  lemma {:induction false} LaterLinesNotComments(text: ByteString)
    requires forall i :: 0 <= i < |text| - 1 && text[i] == '\n' ==> text[i + 1] != '#'
    ensures forall k :: 1 <= k < |Lines(text)| ==> !IsComment(Lines(text)[k])
  {
    if text != [] {
      var tail := text[1..];
      assert forall i :: 0 <= i < |tail| - 1 && tail[i] == '\n' ==> tail[i + 1] != '#' by {
        forall i | 0 <= i < |tail| - 1 && tail[i] == '\n' ensures tail[i + 1] != '#' {
          assert text[i + 1] == '\n';
        }
      }
      LaterLinesNotComments(tail);
      var rest := Lines(tail);
      var lines := Lines(text);
      if text[0] == '\n' || rest == [] {
        assert lines[1..] == rest;
        forall k | 1 <= k < |lines| ensures !IsComment(lines[k]) {
          assert lines[k] == rest[k - 1];
          if k == 1 {
            assert text[0] == '\n' && rest[0][0] == tail[0] == text[1];
          }
        }
      } else {
        assert lines[1..] == rest[1..];
        forall k | 1 <= k < |lines| ensures !IsComment(lines[k]) {
          assert lines[k] == rest[k];
        }
      }
    }
  }

  lemma NoCommentLineHasNoCommentLines(body: ByteString)
    requires NoCommentLine(body)
    ensures forall k :: 0 <= k < |Lines(body)| ==> !IsComment(Lines(body)[k])
  {
    LaterLinesNotComments(body);
  }

  /** The comment line written by `prepare` is the only thing `process` drops
      from such a file: the decoder sees exactly the text written after it. */
  lemma HeaderRoundTrip(body: ByteString)
    requires NoCommentLine(body)
    ensures JsonText(Header + body) == body
  {
    LinesAfterHeader(body);
    assert IsComment(Header);
    assert Uncommented([Header] + Lines(body)) == Uncommented(Lines(body));
    NoCommentLineHasNoCommentLines(body);
    UncommentedNoComments(Lines(body));
    JoinLines(body);
  }

  /** A file whose first line is a comment: the comment does not reach the decoder. */
  lemma CommentLineDropped(text: ByteString)
    ensures JsonText(Header + text) == JsonText(text)
  {
    LinesAfterHeader(text);
    assert IsComment(Header);
    assert Uncommented([Header] + Lines(text)) == Uncommented(Lines(text));
  }
}
