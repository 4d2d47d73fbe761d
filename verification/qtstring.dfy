/** The handful of Qt 5 string operations the update pipeline, the activation
    dialog and the search filter rely on, written out over `seq<char>`:
    white-space trimming, splitting with empty parts skipped, conversion of
    decimal text to `quint64`, and the truncate/remove pair used for labels. */
module QtString {
  import opened Common

  // ---------------------------------------------------------------------------
  // White space and trimming (QChar::isSpace, QString::trimmed)
  // ---------------------------------------------------------------------------

  /** The characters `QChar::isSpace` accepts: the ASCII controls TAB..CR, the
      space, NEL, NO-BREAK SPACE and the Unicode space, line and paragraph
      separators. */
  predicate IsSpace(c: char) {
    || ('\t' <= c <= '\r')
    || c == ' '
    || c == '\U{85}'
    || c == '\U{A0}'
    || c == '\U{1680}'
    || ('\U{2000}' <= c <= '\U{200A}')
    || c == '\U{2028}'
    || c == '\U{2029}'
    || c == '\U{202F}'
    || c == '\U{205F}'
    || c == '\U{3000}'
  }

  /** Every character of `s` is white space (vacuously so for ""). */
  predicate AllSpace(s: string) {
    forall i :: 0 <= i < |s| ==> IsSpace(s[i])
  }

  /** `s` without its leading white space. */
  function TrimStart(s: string): (r: string)
    ensures |r| <= |s| && r == s[|s| - |r|..]
    ensures forall i :: 0 <= i < |s| - |r| ==> IsSpace(s[i])
    ensures r != [] ==> !IsSpace(r[0])
    decreases |s|
  {
    if s != [] && IsSpace(s[0]) then
      var tail := s[1..];
      var r := TrimStart(tail);
      assert tail[|tail| - |r|..] == s[|s| - |r|..];
      r
    else s
  }

  /** `s` without its trailing white space. */
  function TrimEnd(s: string): (r: string)
    ensures |r| <= |s| && r == s[..|r|]
    ensures AllSpace(s[|r|..])
    ensures r != [] ==> !IsSpace(r[|r| - 1])
    decreases |s|
  {
    if s != [] && IsSpace(s[|s| - 1]) then
      var init := s[..|s| - 1];
      var r := TrimEnd(init);
      assert init[..|r|] == s[..|r|];
      assert forall i :: |r| <= i < |init| ==> s[i] == init[i];
      r
    else s
  }

  /** `QString::trimmed`: `s` without leading and trailing white space. The
      result is the part of `s` left after its leading white space, cut
      short; it neither starts nor ends with white space, and it is empty
      exactly when `s` holds nothing but white space. */
  function Trimmed(s: string): (r: string)
    ensures r == [] <==> AllSpace(s)
    ensures r != [] ==> !IsSpace(r[0]) && !IsSpace(r[|r| - 1])
    ensures |r| <= |TrimStart(s)| && r == TrimStart(s)[..|r|]
  {
    TrimmedEmptyIffAllSpace(s);
    var t := TrimStart(s);
    var r := TrimEnd(t);
    assert r != [] ==> r[0] == t[0];
    r
  }

  /** Trimming both ends leaves nothing exactly when everything was space. */
  lemma TrimmedEmptyIffAllSpace(s: string)
    ensures TrimEnd(TrimStart(s)) == [] <==> AllSpace(s)
  {
    var t := TrimStart(s);
    var k := |s| - |t|;
    if TrimEnd(t) == [] {
      assert t[0..] == t;
      assert t == [];
      assert s == s[..k];
    }
  }

  // ---------------------------------------------------------------------------
  // Splitting (QString::split with QString::SkipEmptyParts)
  // ---------------------------------------------------------------------------

  /** Length of the longest prefix of `s` that does not contain `sep`. */
  function PieceLength(s: string, sep: char): (n: nat)
    ensures n <= |s|
    ensures sep !in s[..n]
    ensures n < |s| ==> s[n] == sep
  {
    if s == [] || s[0] == sep then 0
    else
      var k := PieceLength(s[1..], sep);
      assert s[..k + 1] == [s[0]] + s[1..][..k];
      k + 1
  }

  /** `s.split(sep, QString::SkipEmptyParts)`: the maximal runs of `s` free of
      `sep`, in order, with the empty runs left out. */
  function SplitSkipEmpty(s: string, sep: char): (r: seq<string>)
    ensures forall i :: 0 <= i < |r| ==> r[i] != [] && sep !in r[i]
    decreases |s|
  {
    if s == [] then []
    else if s[0] == sep then SplitSkipEmpty(s[1..], sep)
    else
      var n := PieceLength(s, sep);
      [s[..n]] + SplitSkipEmpty(s[n..], sep)
  }

  /** Text without the separator is one piece, or none when empty. */
  lemma SplitWithoutSeparator(s: string, sep: char)
    requires sep !in s
    ensures SplitSkipEmpty(s, sep) == if s == [] then [] else [s]
  {
    if s != [] {
      assert s[0] in s;
      var n := PieceLength(s, sep);
      assert s[..n] == s && s[n..] == [];
    }
  }

  /** The pieces written one after another with `sep` between neighbours. */
  function Join(pieces: seq<string>, sep: char): string {
    if pieces == [] then []
    else if |pieces| == 1 then pieces[0]
    else pieces[0] + [sep] + Join(pieces[1..], sep)
  }

  /** Three pieces joined. */
  lemma JoinThree(x: string, y: string, z: string, sep: char)
    ensures Join([x, y, z], sep) == x + [sep] + y + [sep] + z
  {
    assert [x, y, z][1..] == [y, z] && [y, z][1..] == [z];
    assert Join([y, z], sep) == y + [sep] + z;
    assert Join([x, y, z], sep) == x + [sep] + (y + [sep] + z);
  }

  /** Splitting undoes joining: non-empty pieces free of the separator come
      back unchanged, in order. */
  lemma {:induction false} SplitJoin(pieces: seq<string>, sep: char)
    requires forall i :: 0 <= i < |pieces| ==> pieces[i] != [] && sep !in pieces[i]
    ensures SplitSkipEmpty(Join(pieces, sep), sep) == pieces
    decreases |pieces|
  {
    if pieces == [] {
    } else {
      var p := pieces[0];
      var s := Join(pieces, sep);
      var rest := if |pieces| == 1 then [] else [sep] + Join(pieces[1..], sep);
      assert s == p + rest;
      assert s[0] == p[0];
      PieceLengthOfPrefix(p, rest, sep);
      assert s[..|p|] == p;
      assert s[|p|..] == rest;
      if |pieces| == 1 {
        assert SplitSkipEmpty(rest, sep) == [];
      } else {
        var tail := Join(pieces[1..], sep);
        assert rest[0] == sep && rest[1..] == tail;
        SplitJoin(pieces[1..], sep);
      }
    }
  }

  /** The pieces written one after another with nothing between them. */
  function Concat(pieces: seq<string>): string {
    if pieces == [] then [] else pieces[0] + Concat(pieces[1..])
  }

  /** Splitting loses only the separators: the pieces, put back together,
      are the text with every separator removed. */
  lemma {:induction false} SplitConcatenation(s: string, sep: char)
    ensures Concat(SplitSkipEmpty(s, sep)) == RemoveChar(s, sep)
    decreases |s|
  {
    if s != [] {
      assert s == [s[0]] + s[1..];
      if s[0] == sep {
        SplitConcatenation(s[1..], sep);
      } else {
        var n := PieceLength(s, sep);
        var l := SplitSkipEmpty(s, sep);
        assert l[0] == s[..n] && l[1..] == SplitSkipEmpty(s[n..], sep);
        assert s == s[..n] + s[n..];
        RemoveCharAppend(s[..n], s[n..], sep);
        SplitConcatenation(s[n..], sep);
      }
    }
  }

  /** Text that splits into pieces with no empty piece dropped: it neither
      starts nor ends with the separator, and no two separators are
      adjacent. */
  predicate NoEmptyParts(s: string, sep: char) {
    s == [] ||
    (s[0] != sep && s[|s| - 1] != sep &&
     forall i :: 0 <= i < |s| - 1 && s[i] == sep ==> s[i + 1] != sep)
  }

  /** Joining undoes splitting when no empty piece was dropped. */
  lemma {:induction false} JoinOfSplit(s: string, sep: char)
    requires NoEmptyParts(s, sep)
    ensures Join(SplitSkipEmpty(s, sep), sep) == s
    decreases |s|
  {
    if s != [] {
      var n := PieceLength(s, sep);
      if n == |s| {
        assert s[n..] == [] && s[..n] == s;
      } else {
        var t := s[n + 1..];
        RestHasNoEmptyParts(s, sep, n);
        JoinOfSplit(t, sep);
        JoinAtSeparator(s, sep, n);
      }
    }
  }

  /** The pieces of a text whose first piece is followed by a separator
      and then by another piece. */
  lemma SplitAtSeparator(s: string, sep: char, n: nat)
    requires s != [] && s[0] != sep
    requires n == PieceLength(s, sep) && n + 1 < |s| && s[n + 1] != sep
    ensures var t := s[n + 1..];
      SplitSkipEmpty(s, sep) == [s[..n]] + SplitSkipEmpty(t, sep) && SplitSkipEmpty(t, sep) != []
  {
    assert s[n..] == [sep] + s[n + 1..];
  }

  /** One step of `JoinOfSplit`: the first piece, the separator, then the
      joined pieces of the rest. */
  lemma JoinAtSeparator(s: string, sep: char, n: nat)
    requires s != [] && s[0] != sep
    requires n == PieceLength(s, sep) && n + 1 < |s| && s[n + 1] != sep
    requires Join(SplitSkipEmpty(s[n + 1..], sep), sep) == s[n + 1..]
    ensures Join(SplitSkipEmpty(s, sep), sep) == s
  {
    SplitAtSeparator(s, sep, n);
    JoinCons(s[..n], SplitSkipEmpty(s[n + 1..], sep), sep);
    Reassemble(s, n);
  }

  /** Joining a piece in front of non-empty pieces puts a separator
      between. */
  lemma JoinCons(p: string, rest: seq<string>, sep: char)
    requires rest != []
    ensures Join([p] + rest, sep) == p + [sep] + Join(rest, sep)
  {
    assert ([p] + rest)[1..] == rest;
  }

  /** A text is what comes before position `n`, the character there, and
      what follows. */
  lemma Reassemble(s: string, n: nat)
    requires n < |s|
    ensures s == s[..n] + [s[n]] + s[n + 1..]
  {
  }

  /** After the first piece and its separator, the rest of a text with no
      empty parts is non-empty, starts with a piece and has no empty parts
      either. */
  lemma RestHasNoEmptyParts(s: string, sep: char, n: nat)
    requires NoEmptyParts(s, sep) && s != []
    requires n == PieceLength(s, sep) && n < |s|
    ensures n + 1 < |s| && s[n + 1] != sep
    ensures NoEmptyParts(s[n + 1..], sep)
  {
    var t := s[n + 1..];
    forall i | 0 <= i < |t| - 1 && t[i] == sep
      ensures t[i + 1] != sep
    {
      assert t[i] == s[n + 1 + i] && t[i + 1] == s[n + 1 + i + 1];
    }
  }

  /** Joining one more piece adds a separator and the piece at the end. */
  lemma {:induction false} JoinSnoc(pieces: seq<string>, last: string, sep: char)
    requires pieces != []
    ensures Join(pieces + [last], sep) == Join(pieces, sep) + [sep] + last
    decreases |pieces|
  {
    var ps := pieces + [last];
    assert ps[0] == pieces[0];
    if |pieces| == 1 {
      assert ps[1..] == [last];
    } else {
      assert ps[1..] == pieces[1..] + [last];
      JoinSnoc(pieces[1..], last, sep);
    }
  }

  /** The first piece of `p + rest` is `p` when `p` is free of `sep` and
      `rest` is empty or starts with `sep`. */
  lemma {:induction false} PieceLengthOfPrefix(p: string, rest: string, sep: char)
    requires sep !in p
    requires rest == [] || rest[0] == sep
    ensures PieceLength(p + rest, sep) == |p|
    decreases |p|
  {
    if p != [] {
      assert (p + rest)[0] == p[0];
      assert (p + rest)[1..] == p[1..] + rest;
      PieceLengthOfPrefix(p[1..], rest, sep);
    } else {
      assert p + rest == rest;
    }
  }

  // ---------------------------------------------------------------------------
  // Decimal numbers (QString::toULongLong in the C locale, QString::number)
  // ---------------------------------------------------------------------------

  predicate IsDigit(c: char) {
    '0' <= c <= '9'
  }

  predicate AllDigits(s: string) {
    forall i :: 0 <= i < |s| ==> IsDigit(s[i])
  }

  function DigitValue(c: char): (d: nat)
    requires IsDigit(c)
    ensures d < 10
  {
    c as int - '0' as int
  }

  function DigitChar(d: nat): (c: char)
    requires d < 10
    ensures IsDigit(c) && DigitValue(c) == d
  {
    ('0' as int + d) as char
  }

  /** The number a string of decimal digits denotes (most significant first). */
  function DecimalValue(s: string): nat
    requires AllDigits(s)
  {
    if s == [] then 0
    else DecimalValue(s[..|s| - 1]) * 10 + DigitValue(s[|s| - 1])
  }

  /** `QString::number(n)`: the shortest decimal spelling of `n`. */
  function Decimal(n: nat): (s: string)
    ensures s != [] && AllDigits(s)
    decreases n
  {
    if n < 10 then [DigitChar(n)]
    else Decimal(n / 10) + [DigitChar(n % 10)]
  }

  /** Reading back the decimal spelling gives the number again. */
  lemma {:induction false} DecimalRoundTrip(n: nat)
    ensures DecimalValue(Decimal(n)) == n
    decreases n
  {
    if n >= 10 {
      var s := Decimal(n);
      assert s[..|s| - 1] == Decimal(n / 10);
      DecimalRoundTrip(n / 10);
    }
  }

  /** `s` with one leading '+' removed, if there is one. */
  function DropPlus(s: string): string {
    if s != [] && s[0] == '+' then s[1..] else s
  }

  /** `s.toULongLong(&ok)`: surrounding white space is ignored, one leading '+'
      is allowed, then one or more ASCII digits whose value must fit in 64
      bits. `None` is the `ok == false` case (Qt then returns 0). */
  function ToULongLong(s: string): (r: Option<u64>)
    ensures r.Some? <==>
              var d := DropPlus(Trimmed(s));
              d != [] && AllDigits(d) && DecimalValue(d) < U64_LIMIT
    ensures r.Some? ==> r.value == DecimalValue(DropPlus(Trimmed(s)))
  {
    var d := DropPlus(Trimmed(s));
    if d != [] && AllDigits(d) && DecimalValue(d) < U64_LIMIT then Some(DecimalValue(d)) else None
  }

  /** Every `quint64` printed in decimal converts back to itself. */
  lemma ToULongLongOfDecimal(n: u64)
    ensures ToULongLong(Decimal(n)) == Some(n)
  {
    DecimalRoundTrip(n);
    ToULongLongOfDigits(Decimal(n));
  }

  /** A bare run of digits denoting a 64-bit value converts to that value. */
  lemma ToULongLongOfDigits(s: string)
    requires s != [] && AllDigits(s) && DecimalValue(s) < U64_LIMIT
    ensures ToULongLong(s) == Some(DecimalValue(s))
  {
    DigitsAreUnpadded(s);
    assert DropPlus(s) == s;
  }

  /** `k` zero digits. */
  function Zeros(k: nat): (z: string)
    ensures |z| == k && AllDigits(z)
    ensures forall i :: 0 <= i < k ==> z[i] == '0'
  {
    seq(k, _ => '0')
  }

  /** A run of digits is worth 0 exactly when it is all zeros. */
  lemma {:induction false} ZeroValue(p: string)
    requires AllDigits(p)
    ensures DecimalValue(p) == 0 <==> p == Zeros(|p|)
    decreases |p|
  {
    if p != [] {
      var q := p[..|p| - 1];
      ZeroValue(q);
      if DecimalValue(p) == 0 {
        assert p == q + [p[|p| - 1]];
      }
    }
  }

  /** Leading zeros do not change the value. */
  lemma {:induction false} DecimalValueAfterZeros(k: nat, t: string)
    requires AllDigits(t)
    ensures AllDigits(Zeros(k) + t)
    ensures DecimalValue(Zeros(k) + t) == DecimalValue(t)
    decreases |t|
  {
    var u := Zeros(k) + t;
    assert forall i :: 0 <= i < |u| ==> IsDigit(u[i]);
    if t == [] {
      assert u == Zeros(k);
      ZeroValue(u);
    } else {
      assert u[..|u| - 1] == Zeros(k) + t[..|t| - 1];
      DecimalValueAfterZeros(k, t[..|t| - 1]);
    }
  }

  /** Every non-empty run of digits is the shortest spelling of its value
      behind some zeros. */
  lemma {:induction false} DigitsArePaddedDecimal(d: string)
    requires d != [] && AllDigits(d)
    ensures exists k: nat :: d == Zeros(k) + Decimal(DecimalValue(d))
    decreases |d|
  {
    var p, c := d[..|d| - 1], d[|d| - 1];
    var n := DecimalValue(d);
    assert d == p + [c];
    if DecimalValue(p) == 0 {
      ZeroValue(p);
      assert n == DigitValue(c) && Decimal(n) == [c];
      assert d == Zeros(|p|) + Decimal(n);
    } else {
      DigitsArePaddedDecimal(p);
      var k: nat :| p == Zeros(k) + Decimal(DecimalValue(p));
      assert n >= 10 && n / 10 == DecimalValue(p) && n % 10 == DigitValue(c);
      assert Decimal(n) == Decimal(DecimalValue(p)) + [c];
      assert d == Zeros(k) + Decimal(n);
    }
  }

  /** `toULongLong` accepts exactly the decimal spelling of a 64-bit value
      behind optional zeros, an optional '+' and surrounding white space:
      whatever it accepts has that shape, ... */
  lemma ToULongLongIsPaddedDecimal(s: string, n: u64)
    requires ToULongLong(s) == Some(n)
    ensures exists k: nat :: DropPlus(Trimmed(s)) == Zeros(k) + Decimal(n)
  {
    DigitsArePaddedDecimal(DropPlus(Trimmed(s)));
  }

  /** ... and every such spelling converts to its value. */
  lemma ToULongLongOfPaddedDecimal(k: nat, n: u64)
    ensures ToULongLong(Zeros(k) + Decimal(n)) == Some(n)
  {
    DecimalValueAfterZeros(k, Decimal(n));
    DecimalRoundTrip(n);
    ToULongLongOfDigits(Zeros(k) + Decimal(n));
  }

  /** A non-empty run of digits has no white space to trim and no sign. */
  lemma DigitsAreUnpadded(s: string)
    requires s != [] && AllDigits(s)
    ensures Trimmed(s) == s
  {
    assert IsDigit(s[0]) && IsDigit(s[|s| - 1]);
    assert !IsSpace(s[0]);
    assert TrimStart(s) == s;
    assert !IsSpace(s[|s| - 1]);
    assert TrimEnd(s) == s;
  }

  // ---------------------------------------------------------------------------
  // Bytes and text (QString(QByteArray), QString::toUtf8, QString::toLatin1)
  // ---------------------------------------------------------------------------

  /** A UTF-8 continuation byte, 10xxxxxx. */
  predicate IsContinuation(b: byte) {
    0x80 <= b < 0xC0
  }

  /** The length of the well-formed UTF-8 sequence at the front of `bytes`
      (table 3-7 of the Unicode Standard: no overlong forms, no surrogates,
      nothing above U+10FFFF), or 0 when the front is not one. */
  function SequenceLength(bytes: seq<byte>): (n: nat)
    ensures n <= 4 && n <= |bytes|
    ensures n == 0 ==> bytes == [] || bytes[0] >= 0x80
  {
    if bytes == [] then 0
    else
      var b0 := bytes[0];
      if b0 < 0x80 then 1
      else if 0xC2 <= b0 <= 0xDF then
        if |bytes| >= 2 && IsContinuation(bytes[1]) then 2 else 0
      else if 0xE0 <= b0 <= 0xEF then
        var lo := if b0 == 0xE0 then 0xA0 else 0x80;
        var hi := if b0 == 0xED then 0xA0 else 0xC0;
        if |bytes| >= 3 && lo <= bytes[1] < hi && IsContinuation(bytes[2]) then 3 else 0
      else if 0xF0 <= b0 <= 0xF4 then
        var lo := if b0 == 0xF0 then 0x90 else 0x80;
        var hi := if b0 == 0xF4 then 0x90 else 0xC0;
        if |bytes| >= 4 && lo <= bytes[1] < hi && IsContinuation(bytes[2]) && IsContinuation(bytes[3]) then 4
        else 0
      else 0
  }

  /** The character the well-formed sequence at the front of `bytes`
      encodes. */
  function SequenceValue(bytes: seq<byte>): char
    requires SequenceLength(bytes) > 0
  {
    var n := SequenceLength(bytes);
    var b0 := bytes[0] as int;
    if n == 1 then b0 as char
    else if n == 2 then ((b0 - 0xC0) * 64 + (bytes[1] as int - 0x80)) as char
    else if n == 3 then ((b0 - 0xE0) * 4096 + (bytes[1] as int - 0x80) * 64 + (bytes[2] as int - 0x80)) as char
    else
      ((b0 - 0xF0) * 262144 + (bytes[1] as int - 0x80) * 4096 + (bytes[2] as int - 0x80) * 64
       + (bytes[3] as int - 0x80)) as char
  }

  /** `QString(QByteArray)` in Qt 5: the bytes before the first NUL, decoded
      as UTF-8. A byte that does not start a well-formed sequence reads as
      U+FFFD and decoding goes on with the next byte. */
  function FromByteArray(bytes: seq<byte>): (s: string)
    ensures |s| <= |bytes|
    ensures s == [] <==> bytes == [] || bytes[0] == 0
    ensures '\0' !in s
    decreases |bytes|
  {
    if bytes == [] || bytes[0] == 0 then []
    else
      var n := SequenceLength(bytes);
      if n == 0 then ['\U{FFFD}'] + FromByteArray(bytes[1..])
      else
        var c := SequenceValue(bytes);
        assert c != '\0' by {
          if n == 1 {
          } else {
            assert bytes[0] >= 0xC2;
          }
        }
        [c] + FromByteArray(bytes[n..])
  }

  /** The UTF-8 encoding of one character: one byte below U+0080, two
      below U+0800, three below U+10000, four above. */
  function Utf8Char(c: char): (e: seq<byte>)
    ensures 1 <= |e| <= 4
    ensures |e| == 1 <==> c as int < 0x80
  {
    var v := c as int;
    if v < 0x80 then [v]
    else if v < 0x800 then [0xC0 + v / 64, 0x80 + v % 64]
    else if v < 0x10000 then [0xE0 + v / 4096, 0x80 + v / 64 % 64, 0x80 + v % 64]
    else [0xF0 + v / 262144, 0x80 + v / 4096 % 64, 0x80 + v / 64 % 64, 0x80 + v % 64]
  }

  /** `QString::toUtf8()`: each character's encoding, in order. */
  function ToUtf8(s: string): (b: seq<byte>)
    ensures |b| >= |s|
    decreases |s|
  {
    if s == [] then [] else Utf8Char(s[0]) + ToUtf8(s[1..])
  }

  /** The encoding of a character is a well-formed sequence that decodes
      back to it, whatever follows. */
  lemma Utf8CharDecodes(c: char, rest: seq<byte>)
    ensures var e := Utf8Char(c);
      SequenceLength(e + rest) == |e| && SequenceValue(e + rest) == c
  {
    var v := c as int;
    if v < 0x80 {
    } else if v < 0x800 {
      TwoByteDecodes(c, rest);
    } else if v < 0x10000 {
      ThreeByteDecodes(c, rest);
    } else {
      FourByteDecodes(c, rest);
    }
  }

  /** A code point as its six-bit groups, most significant first. */
  lemma SplitBase64(v: int)
    requires 0 <= v < 0x110000
    ensures v == v / 4096 * 4096 + v / 64 % 64 * 64 + v % 64
    ensures v == v / 262144 * 262144 + v / 4096 % 64 * 4096 + v / 64 % 64 * 64 + v % 64
    ensures v / 262144 <= 4
    ensures v / 262144 == 0 && v >= 0x10000 ==> v / 4096 % 64 >= 0x10
    ensures v / 262144 == 4 ==> v / 4096 % 64 < 0x10
  {
    var q := v / 64;
    assert v == q * 64 + v % 64;
    assert q == q / 64 * 64 + q % 64;
    assert q / 64 == v / 4096;
    var p := v / 4096;
    assert p == p / 64 * 64 + p % 64;
    assert p / 64 == v / 262144;
  }

  lemma TwoByteDecodes(c: char, rest: seq<byte>)
    requires 0x80 <= c as int < 0x800
    ensures var e := Utf8Char(c);
      SequenceLength(e + rest) == 2 && SequenceValue(e + rest) == c
  {
    var v := c as int;
    var hi, lo := v / 64, v % 64;
    assert v == hi * 64 + lo;
    var b := [0xC0 + hi, 0x80 + lo] + rest;
    assert Utf8Char(c) + rest == b;
    assert b[0] == 0xC0 + hi && b[1] == 0x80 + lo;
  }

  lemma ThreeByteDecodes(c: char, rest: seq<byte>)
    requires 0x800 <= c as int < 0x10000
    ensures var e := Utf8Char(c);
      SequenceLength(e + rest) == 3 && SequenceValue(e + rest) == c
  {
    var v := c as int;
    var hi, mid, lo := v / 4096, v / 64 % 64, v % 64;
    SplitBase64(v);
    assert hi == 0 ==> mid >= 0x20;
    assert hi == 13 ==> mid < 0x20;
    var b := [0xE0 + hi, 0x80 + mid, 0x80 + lo] + rest;
    assert Utf8Char(c) + rest == b;
    assert b[0] == 0xE0 + hi && b[1] == 0x80 + mid && b[2] == 0x80 + lo;
  }

  lemma FourByteDecodes(c: char, rest: seq<byte>)
    requires 0x10000 <= c as int
    ensures var e := Utf8Char(c);
      SequenceLength(e + rest) == 4 && SequenceValue(e + rest) == c
  {
    var v := c as int;
    var top, hi, mid, lo := v / 262144, v / 4096 % 64, v / 64 % 64, v % 64;
    SplitBase64(v);
    var b := [0xF0 + top, 0x80 + hi, 0x80 + mid, 0x80 + lo] + rest;
    assert Utf8Char(c) + rest == b;
    assert b[0] == 0xF0 + top && b[1] == 0x80 + hi && b[2] == 0x80 + mid && b[3] == 0x80 + lo;
  }

  /** Decoding undoes `toUtf8` for every text without a NUL character. */
  lemma {:induction false} Utf8RoundTrip(s: string)
    requires '\0' !in s
    ensures FromByteArray(ToUtf8(s)) == s
    decreases |s|
  {
    if s != [] {
      var e := Utf8Char(s[0]);
      var rest := ToUtf8(s[1..]);
      Utf8CharDecodes(s[0], rest);
      assert (e + rest)[|e|..] == rest;
      assert (e + rest)[0] != 0 by {
        if |e| == 1 {
          assert s[0] != '\0';
        }
      }
      Utf8RoundTrip(s[1..]);
    }
  }

  /** The number of UTF-16 code units of `s`, the length `QString` reports:
      two for a character above U+FFFF, one for any other. */
  function Utf16Length(s: string): (n: nat)
    ensures |s| <= n <= 2 * |s|
    ensures (forall i :: 0 <= i < |s| ==> s[i] as int < 0x10000) ==> n == |s|
    decreases |s|
  {
    if s == [] then 0 else (if s[0] as int < 0x10000 then 1 else 2) + Utf16Length(s[1..])
  }

  /** `QString::toLatin1()`: one byte per UTF-16 code unit; a code unit
      outside Latin-1 becomes '?', so a character above U+FFFF becomes two. */
  function Latin1(s: string): (b: seq<byte>)
    ensures |b| == Utf16Length(s)
    ensures forall k :: 0 <= k < |b| ==> b[k] == '?' as int || b[k] as char in s
    decreases |s|
  {
    if s == [] then []
    else
      var v := s[0] as int;
      var head := if v < 256 then [v] else if v < 0x10000 then ['?' as int] else ['?' as int, '?' as int];
      var rest := Latin1(s[1..]);
      assert forall k :: 0 <= k < |rest| ==> rest[k] as char in s[1..] ==> rest[k] as char in s;
      head + rest
  }

  /** `QString::fromLatin1(b)`: one character per byte. */
  function FromLatin1(b: seq<byte>): (s: string)
    ensures |s| == |b|
    ensures forall k :: 0 <= k < |b| ==> s[k] as int == b[k]
  {
    seq(|b|, k requires 0 <= k < |b| => b[k] as char)
  }

  /** A text within Latin-1 survives `toLatin1` unchanged. */
  lemma {:induction false} Latin1RoundTrip(s: string)
    requires forall i :: 0 <= i < |s| ==> s[i] as int < 256
    ensures FromLatin1(Latin1(s)) == s
    decreases |s|
  {
    if s != [] {
      Latin1RoundTrip(s[1..]);
      var b := Latin1(s);
      assert b == [s[0] as int] + Latin1(s[1..]);
      assert FromLatin1(b) == [s[0]] + FromLatin1(Latin1(s[1..]));
    }
  }

  // ---------------------------------------------------------------------------
  // Character edits used by labels and the search key
  // ---------------------------------------------------------------------------

  /** `QString::truncate(n)` for n >= 0: at most the first `n` characters. */
  function Truncated(s: string, n: nat): (r: string)
    ensures |r| == if |s| < n then |s| else n
    ensures r == s[..|r|]
  {
    if |s| <= n then s else s[..n]
  }

  /** `QString::remove(0, n)`: drop the first `n` characters; a negative or
      zero count removes nothing and a count reaching the end empties it. */
  function RemovedFront(s: string, n: int): (r: string)
    ensures n <= 0 ==> r == s
    ensures n >= |s| ==> r == []
    ensures 0 <= n <= |s| ==> r == s[n..]
  {
    if s == [] || n <= 0 then s
    else if n >= |s| then []
    else s[n..]
  }

  /** `s` with every occurrence of `c` removed. */
  function RemoveChar(s: string, c: char): (r: string)
    ensures c !in r
    ensures forall x :: x != c ==> (x in r <==> x in s)
    ensures c !in s ==> r == s
    ensures |r| + multiset(s)[c] == |s|
  {
    if s == [] then []
    else
      var rest := RemoveChar(s[1..], c);
      assert s == [s[0]] + s[1..];
      if s[0] == c then rest else [s[0]] + rest
  }

  /** Removing a character from two texts one after the other is removing
      it from their concatenation. */
  lemma {:induction false} RemoveCharAppend(a: string, b: string, c: char)
    ensures RemoveChar(a + b, c) == RemoveChar(a, c) + RemoveChar(b, c)
    decreases |a|
  {
    if a == [] {
      assert a + b == b;
    } else {
      assert (a + b)[0] == a[0] && (a + b)[1..] == a[1..] + b;
      RemoveCharAppend(a[1..], b, c);
      if a[0] != c {
        assert RemoveChar(a + b, c) == [a[0]] + RemoveChar(a[1..] + b, c);
      }
    }
  }

  /** Every other character keeps its number of occurrences; `c` has none
      left. */
  lemma {:induction false} RemoveCharCounts(s: string, c: char)
    ensures multiset(RemoveChar(s, c)) == multiset(s)[c := 0]
    decreases |s|
  {
    if s != [] {
      assert s == [s[0]] + s[1..];
      RemoveCharCounts(s[1..], c);
    }
  }

  /** `s` with every occurrence of `a` replaced by `b`. */
  function ReplaceChar(s: string, a: char, b: char): (r: string)
    ensures |r| == |s|
    ensures forall i :: 0 <= i < |s| ==> r[i] == (if s[i] == a then b else s[i])
  {
    seq(|s|, i requires 0 <= i < |s| => if s[i] == a then b else s[i])
  }
}
