/**
  Byte strings and the few `str` methods of Python 2 that the gallery uses:
  `startswith`, `endswith`, `lower` and `split`.
  A Python 2 `str` (what `glob` returns and what a file yields) holds one
  byte per character, so a character here is restricted to 0..255.
 */
module Bytes {

  type Byte = c: char | c as int < 0x100

  type ByteString = seq<Byte>

  /** `s.startswith(prefix)` */
  predicate StartsWith(s: ByteString, prefix: ByteString) {
    |prefix| <= |s| && s[..|prefix|] == prefix
  }

  /** `s.endswith(suffix)` */
  predicate EndsWith(s: ByteString, suffix: ByteString) {
    |suffix| <= |s| && s[|s| - |suffix|..] == suffix
  }

  predicate IsUpper(c: Byte) {
    'A' <= c <= 'Z'
  }

  /** `str.lower()` on one byte in the C locale: only ASCII capitals change. */
  function LowerByte(c: Byte): Byte {
    if IsUpper(c) then (c as int + ('a' as int - 'A' as int)) as char else c
  }

  /** `s.lower()` */
  function Lower(s: ByteString): ByteString {
    seq(|s|, i requires 0 <= i < |s| => LowerByte(s[i]))
  }

  /** Lowering keeps the length, leaves no capital behind and changes nothing a second time. */
  lemma LowerFacts(s: ByteString)
    ensures |Lower(s)| == |s|
    ensures forall i :: 0 <= i < |s| ==> !IsUpper(Lower(s)[i])
    ensures forall i :: 0 <= i < |s| && !IsUpper(s[i]) ==> Lower(s)[i] == s[i]
    ensures forall i :: 0 <= i < |s| && IsUpper(s[i]) ==> Lower(s)[i] as int == s[i] as int + 32
    ensures Lower(Lower(s)) == Lower(s)
  {
  }

  /** `s.split(sep)` with an explicit one-byte separator: the fields between
      the separators, read here from the end of the string. */
  function Split(s: ByteString, sep: Byte): (fields: seq<ByteString>)
    ensures |fields| >= 1
  {
    if s == [] then [[]]
    else
      var init := Split(s[..|s| - 1], sep);
      var c := s[|s| - 1];
      if c == sep then init + [[]]
      else init[..|init| - 1] + [init[|init| - 1] + [c]]
  }

  /** No field contains the separator. */
  lemma {:induction false} SplitFieldsLackSeparator(s: ByteString, sep: Byte)
    ensures forall k :: 0 <= k < |Split(s, sep)| ==> sep !in Split(s, sep)[k]
  {
    if s != [] {
      var t, c := s[..|s| - 1], s[|s| - 1];
      var init := Split(t, sep);
      SplitFieldsLackSeparator(t, sep);
      var fields := Split(s, sep);
      if c == sep {
        assert fields == init + [[]];
        forall k | 0 <= k < |fields| ensures sep !in fields[k] {
          if k < |init| { assert fields[k] == init[k]; }
        }
      } else {
        var last := init[|init| - 1];
        assert fields == init[..|init| - 1] + [last + [c]];
        assert sep !in last + [c];
        forall k | 0 <= k < |fields| ensures sep !in fields[k] {
          if k < |init| - 1 { assert fields[k] == init[k]; }
        }
      }
    }
  }

  /** `sep.join(fields)` */
  function JoinWith(fields: seq<ByteString>, sep: Byte): ByteString
    requires |fields| >= 1
  {
    if |fields| == 1 then fields[0]
    else JoinWith(fields[..|fields| - 1], sep) + [sep] + fields[|fields| - 1]
  }

  /** Extending the last field extends the joined string. */
  lemma {:induction false} JoinWithExtendLast(fields: seq<ByteString>, sep: Byte, c: Byte)
    requires |fields| >= 1
    ensures JoinWith(fields[..|fields| - 1] + [fields[|fields| - 1] + [c]], sep) == JoinWith(fields, sep) + [c]
  {
    var n := |fields|;
    var longer := fields[..n - 1] + [fields[n - 1] + [c]];
    if n > 1 {
      assert longer[..n - 1] == fields[..n - 1];
    }
  }

  /** Joining the fields of a split with the same separator gives back the string. */
  lemma {:induction false} JoinSplit(s: ByteString, sep: Byte)
    ensures JoinWith(Split(s, sep), sep) == s
  {
    if s != [] {
      var t, c := s[..|s| - 1], s[|s| - 1];
      assert s == t + [c];
      JoinSplit(t, sep);
      JoinSplitSnoc(t, c, sep);
    }
  }

  /** One more byte: a new empty field after a separator, or a longer last field. */
  lemma JoinSplitSnoc(t: ByteString, c: Byte, sep: Byte)
    ensures JoinWith(Split(t + [c], sep), sep) == JoinWith(Split(t, sep), sep) + [c]
  {
    var init := Split(t, sep);
    assert (t + [c])[..|t|] == t;
    if c == sep {
      assert (init + [[]])[..|init|] == init;
    } else {
      JoinWithExtendLast(init, sep, c);
    }
  }

  /** `s.split(sep)[-1]` */
  function LastField(s: ByteString, sep: Byte): ByteString {
    var fields := Split(s, sep);
    fields[|fields| - 1]
  }

  /** How the last field and the number of fields grow with one more byte. */
  lemma SplitSnoc(t: ByteString, c: Byte, sep: Byte)
    ensures LastField(t + [c], sep) == if c == sep then [] else LastField(t, sep) + [c]
    ensures |Split(t + [c], sep)| == if c == sep then |Split(t, sep)| + 1 else |Split(t, sep)|
  {
    assert (t + [c])[..|t|] == t;
  }

  /** A suffix stays a suffix when both grow by the same byte, with the same byte before it. */
  lemma EndsWithSnoc(t: ByteString, suffix: ByteString, c: Byte)
    requires EndsWith(t, suffix)
    ensures EndsWith(t + [c], suffix + [c])
    ensures |suffix| < |t| ==> (t + [c])[|t| - |suffix| - 1] == t[|t| - |suffix| - 1]
  {
    assert (t + [c])[|t| - |suffix|..] == t[|t| - |suffix|..] + [c];
  }

  /** The last field of a split is a suffix of the string; it is the whole
      string exactly when there is one field, and is otherwise preceded by the separator. */
  lemma {:induction false} SplitLast(s: ByteString, sep: Byte)
    ensures EndsWith(s, LastField(s, sep))
    ensures |LastField(s, sep)| < |s| ==> s[|s| - |LastField(s, sep)| - 1] == sep
    ensures |Split(s, sep)| == 1 <==> LastField(s, sep) == s
  {
    if s != [] {
      var t, c := s[..|s| - 1], s[|s| - 1];
      assert s == t + [c];
      SplitLast(t, sep);
      SplitSnoc(t, c, sep);
      if c != sep {
        EndsWithSnoc(t, LastField(t, sep), c);
      }
    }
  }
}
