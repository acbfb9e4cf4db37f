/** The ed2k link (catalog_matching/ed2k_link.py): UTF-8 (section 3 of RFC 3629), percent-encoding (section 2.1 of
    RFC 3986), and the bars that frame the fields, which is what a reader of the link splits it on. */
module Ed2kLink {
  import opened Fields
  import opened Options

  // ---------- UTF-8 ----------

  type Byte = b: int | 0 <= b < 256

  /** A character is a Unicode scalar value; a lone surrogate, on which `quote` raises, is not one. */
  function Utf8(c: char): seq<Byte> {
    var n := c as int;
    if n < 0x80 then [n]
    else if n < 0x800 then [0xC0 + n / 0x40, 0x80 + n % 0x40]
    else if n < 0x1_0000 then [0xE0 + n / 0x1000, 0x80 + n / 0x40 % 0x40, 0x80 + n % 0x40]
    else [0xF0 + n / 0x4_0000, 0x80 + n / 0x1000 % 0x40, 0x80 + n / 0x40 % 0x40, 0x80 + n % 0x40]
  }

  predicate IsScalar(n: int) { 0 <= n < 0xD800 || 0xE000 <= n < 0x11_0000 }

  function Payload(b: Byte): int { (b as int) - 0x80 }

  predicate IsContinuation(b: Byte) { 0x80 <= b < 0xC0 }

  /** The code point of the first sequence and its length, or nothing if the bytes are not well formed. */
  function FirstCodePoint(bytes: seq<Byte>): Option<(int, nat)>
    requires bytes != []
  {
    var b: int := bytes[0];
    if b < 0x80 then Some((b, 1))
    else if 0xC0 <= b < 0xE0 && |bytes| >= 2 && IsContinuation(bytes[1]) then
      Some(((b - 0xC0) * 0x40 + Payload(bytes[1]), 2))
    else if 0xE0 <= b < 0xF0 && |bytes| >= 3 && IsContinuation(bytes[1]) && IsContinuation(bytes[2]) then
      Some(((b - 0xE0) * 0x1000 + Payload(bytes[1]) * 0x40 + Payload(bytes[2]), 3))
    else if 0xF0 <= b < 0xF8 && |bytes| >= 4 && IsContinuation(bytes[1]) && IsContinuation(bytes[2])
            && IsContinuation(bytes[3]) then
      Some(((b - 0xF0) * 0x4_0000 + Payload(bytes[1]) * 0x1000 + Payload(bytes[2]) * 0x40 + Payload(bytes[3]), 4))
    else None
  }

  /** The first character and the bytes it takes, unless they are not its own encoding: overlong, surrogate. */
  function NextChar(bytes: seq<Byte>): (r: Option<(char, nat)>)
    requires bytes != []
    ensures r.Some? ==> 0 < r.value.1 <= |bytes| && bytes[..r.value.1] == Utf8(r.value.0)
  {
    match FirstCodePoint(bytes)
    case None => None
    case Some((n, length)) =>
      if !IsScalar(n) || length == 0 || length > |bytes| || Utf8(n as char) != bytes[..length] then None
      else Some((n as char, length))
  }

  /** Accepts only what encoding produces. */
  function DecodeUtf8(bytes: seq<Byte>): (text: Option<string>)
    ensures text.Some? ==> EncodeUtf8(text.value) == bytes
    decreases |bytes|
  {
    if bytes == [] then Some([])
    else
      var next := NextChar(bytes);
      if next.None? then None
      else
        var (c, length) := next.value;
        var rest := DecodeUtf8(bytes[length..]);
        if rest.None? then None
        else
          EncodeCons(c, rest.value, bytes, length);
          Some([c] + rest.value)
  }

  function EncodeUtf8(text: string): seq<Byte> {
    if text == [] then [] else Utf8(text[0]) + EncodeUtf8(text[1..])
  }

  lemma EncodeCons(c: char, rest: string, bytes: seq<Byte>, length: nat)
    requires length <= |bytes| && Utf8(c) == bytes[..length] && EncodeUtf8(rest) == bytes[length..]
    ensures EncodeUtf8([c] + rest) == bytes
  {
    assert ([c] + rest)[1..] == rest;
    assert bytes == bytes[..length] + bytes[length..];
  }

  lemma SixBits(n: nat)
    ensures n == n / 0x40 * 0x40 + n % 0x40 && n % 0x40 < 0x40
    ensures n / 0x1000 == n / 0x40 / 0x40 && n / 0x4_0000 == n / 0x1000 / 0x40
  {
  }

  lemma TwoBytesBack(n: nat, bytes: seq<Byte>)
    requires 0x80 <= n < 0x800 && |bytes| >= 2 && bytes[0] == 0xC0 + n / 0x40 && bytes[1] == 0x80 + n % 0x40
    ensures FirstCodePoint(bytes) == Some((n, 2))
  {
    SixBits(n);
  }

  lemma ThreeBytesBack(n: nat, bytes: seq<Byte>)
    requires 0x800 <= n < 0x1_0000 && |bytes| >= 3
    requires bytes[0] == 0xE0 + n / 0x1000 && bytes[1] == 0x80 + n / 0x40 % 0x40 && bytes[2] == 0x80 + n % 0x40
    ensures FirstCodePoint(bytes) == Some((n, 3))
  {
    SixBits(n);
    SixBits(n / 0x40);
  }

  lemma FourBytesBack(n: nat, bytes: seq<Byte>)
    requires 0x1_0000 <= n < 0x11_0000 && |bytes| >= 4
    requires bytes[0] == 0xF0 + n / 0x4_0000 && bytes[1] == 0x80 + n / 0x1000 % 0x40
    requires bytes[2] == 0x80 + n / 0x40 % 0x40 && bytes[3] == 0x80 + n % 0x40
    ensures FirstCodePoint(bytes) == Some((n, 4))
  {
    SixBits(n);
    SixBits(n / 0x40);
    SixBits(n / 0x1000);
  }

  lemma CodePointBack(c: char, rest: seq<Byte>)
    ensures FirstCodePoint(Utf8(c) + rest) == Some((c as int, |Utf8(c)|))
  {
    var n, bytes := c as int, Utf8(c) + rest;
    if n >= 0x1_0000 {
      FourBytesBack(n, bytes);
    } else if n >= 0x800 {
      ThreeBytesBack(n, bytes);
    } else if n >= 0x80 {
      TwoBytesBack(n, bytes);
    }
  }

  /** The first character of an encoded text is read back, and what it takes. */
  lemma NextCharBack(c: char, rest: seq<Byte>)
    ensures Utf8(c) + rest != [] && NextChar(Utf8(c) + rest) == Some((c, |Utf8(c)|))
    ensures (Utf8(c) + rest)[|Utf8(c)|..] == rest
  {
    CodePointBack(c, rest);
    assert (Utf8(c) + rest)[..|Utf8(c)|] == Utf8(c);
  }

  lemma DecodeNext(c: char, rest: seq<Byte>)
    requires DecodeUtf8(rest).Some?
    ensures DecodeUtf8(Utf8(c) + rest) == Some([c] + DecodeUtf8(rest).value)
  {
    NextCharBack(c, rest);
  }

  /** Decoding gives the text back. */
  lemma {:induction false} Utf8RoundTrip(text: string)
    ensures DecodeUtf8(EncodeUtf8(text)) == Some(text)
  {
    if text != [] {
      Utf8RoundTrip(text[1..]);
      DecodeNext(text[0], EncodeUtf8(text[1..]));
      assert text == [text[0]] + text[1..];
    }
  }

  // ---------- percent-encoding ----------

  const HEX := "0123456789ABCDEF"

  function HexValue(c: char): Option<int> {
    if '0' <= c <= '9' then Some(c as int - '0' as int)
    else if 'A' <= c <= 'F' then Some(c as int - 'A' as int + 10)
    else None
  }

  lemma HexBack(n: int)
    requires 0 <= n < 16
    ensures HexValue(HEX[n]) == Some(n) && HEX[n] != '|'
  {
    assert HEX[0] == '0' && HEX[1] == '1' && HEX[2] == '2' && HEX[3] == '3' && HEX[4] == '4' && HEX[5] == '5';
    assert HEX[6] == '6' && HEX[7] == '7' && HEX[8] == '8' && HEX[9] == '9' && HEX[10] == 'A' && HEX[11] == 'B';
    assert HEX[12] == 'C' && HEX[13] == 'D' && HEX[14] == 'E' && HEX[15] == 'F';
  }

  /** Letters, digits, `_.-~` (always safe) and `()[]` (kept readable). */
  predicate IsSafe(c: char) {
    || 'a' <= c <= 'z' || 'A' <= c <= 'Z' || '0' <= c <= '9'
    || c == '_' || c == '.' || c == '-' || c == '~' || c == '(' || c == ')' || c == '[' || c == ']'
  }

  function QuoteByte(b: Byte): string {
    if b < 0x80 && IsSafe(b as char) then [b as char] else ['%', HEX[b / 16], HEX[b % 16]]
  }

  function QuoteBytes(bytes: seq<Byte>): string {
    if bytes == [] then [] else QuoteByte(bytes[0]) + QuoteBytes(bytes[1..])
  }

  /** `urllib.parse.quote(text, safe=".()[]-_")` */
  function Quote(text: string): string { QuoteBytes(EncodeUtf8(text)) }

  function PercentDecode(text: string): Option<seq<Byte>>
    decreases |text|
  {
    if text == [] then Some([])
    else if text[0] == '%' then
      if |text| < 3 || HexValue(text[1]).None? || HexValue(text[2]).None? then None
      else
        match PercentDecode(text[3..])
        case None => None
        case Some(rest) => Some([HexValue(text[1]).value * 16 + HexValue(text[2]).value] + rest)
    else if text[0] as int >= 0x80 then None
    else
      match PercentDecode(text[1..])
      case None => None
      case Some(rest) => Some([text[0] as int] + rest)
  }

  function Unquote(text: string): Option<string> {
    match PercentDecode(text)
    case None => None
    case Some(bytes) => DecodeUtf8(bytes)
  }

  lemma PlainBack(b: Byte, text: string)
    requires b < 0x80 && b as char != '%' && PercentDecode(text).Some?
    ensures PercentDecode([b as char] + text) == Some([b] + PercentDecode(text).value)
  {
    assert ([b as char] + text)[1..] == text && ([b as char] + text)[0] == b as char;
  }

  lemma TripleBack(b: Byte, text: string)
    requires PercentDecode(text).Some?
    ensures PercentDecode(['%', HEX[b / 16], HEX[b % 16]] + text) == Some([b] + PercentDecode(text).value)
    ensures '|' !in ['%', HEX[b / 16], HEX[b % 16]]
  {
    var quoted := ['%', HEX[b / 16], HEX[b % 16]];
    HexBack(b / 16);
    HexBack(b % 16);
    assert (quoted + text)[3..] == text;
    assert (quoted + text)[1] == HEX[b / 16] && (quoted + text)[2] == HEX[b % 16];
  }

  /** A quoted byte is read first, whatever follows. */
  lemma ByteBack(b: Byte, text: string)
    requires PercentDecode(text).Some?
    ensures PercentDecode(QuoteByte(b) + text) == Some([b] + PercentDecode(text).value)
    ensures '|' !in QuoteByte(b)
  {
    if b < 0x80 && IsSafe(b as char) {
      PlainBack(b, text);
    } else {
      TripleBack(b, text);
    }
  }

  lemma {:induction false} PercentRoundTrip(bytes: seq<Byte>)
    ensures PercentDecode(QuoteBytes(bytes)) == Some(bytes)
    ensures '|' !in QuoteBytes(bytes)
  {
    if bytes != [] {
      PercentRoundTrip(bytes[1..]);
      ByteBack(bytes[0], QuoteBytes(bytes[1..]));
      assert bytes == [bytes[0]] + bytes[1..];
    }
  }

  lemma QuoteRoundTrip(text: string)
    ensures Unquote(Quote(text)) == Some(text)
    ensures '|' !in Quote(text)
  {
    Utf8RoundTrip(text);
    PercentRoundTrip(EncodeUtf8(text));
  }

  /** The characters a quoted name keeps: letters, digits, and `_.-~()[]`. */
  predicate KeptReadable(c: char) {
    || 'a' <= c <= 'z' || 'A' <= c <= 'Z' || '0' <= c <= '9' || c in "_.-~()[]"
  }

  lemma {:induction false} EncodeJoin(a: string, b: string)
    ensures EncodeUtf8(a + b) == EncodeUtf8(a) + EncodeUtf8(b)
  {
    if a == [] {
      assert [] + b == b;
    } else {
      EncodeJoin(a[1..], b);
      assert (a + b)[1..] == a[1..] + b && (a + b)[0] == a[0];
    }
  }

  lemma {:induction false} QuoteJoin(a: seq<Byte>, b: seq<Byte>)
    ensures QuoteBytes(a + b) == QuoteBytes(a) + QuoteBytes(b)
  {
    if a == [] {
      assert a + b == b;
    } else {
      QuoteJoin(a[1..], b);
      assert (a + b)[1..] == a[1..] + b && (a + b)[0] == a[0];
      Associates(QuoteByte(a[0]), QuoteBytes(a[1..]), QuoteBytes(b));
    }
  }

  lemma Associates(x: string, y: string, z: string)
    ensures x + (y + z) == (x + y) + z
  {
  }

  /** A text is quoted character by character. */
  lemma QuoteSnoc(text: string, c: char)
    ensures Quote([]) == []
    ensures Quote(text + [c]) == Quote(text) + Quote([c])
  {
    EncodeJoin(text, [c]);
    QuoteJoin(EncodeUtf8(text), EncodeUtf8([c]));
  }

  /** A readable character stands for itself; of any other each byte of its UTF-8 is written as `%` and two hexadecimal
      digits in capitals. */
  lemma QuoteChar(c: char)
    ensures Quote([c]) == if KeptReadable(c) then [c] else Escapes(Utf8(c))
  {
    assert [c][1..] == [] && EncodeUtf8([c]) == Utf8(c) + [] == Utf8(c);
    if c as int < 0x80 {
      OneByte(c as int);
      assert Utf8(c) == [c as int];
    } else {
      assert !KeptReadable(c);
      HighBytes(Utf8(c));
    }
  }

  /** `%` and the two hexadecimal digits of a byte. */
  function Escape(b: Byte): string { ['%', HexDigit(b / 16), HexDigit(b % 16)] }

  function HexDigit(n: int): char
    requires 0 <= n < 16
  {
    if n < 10 then ('0' as int + n) as char else ('A' as int + n - 10) as char
  }

  function Escapes(bytes: seq<Byte>): string {
    if bytes == [] then [] else Escape(bytes[0]) + Escapes(bytes[1..])
  }

  lemma HexDigits(n: int)
    requires 0 <= n < 16
    ensures HEX[n] == HexDigit(n)
  {
    assert HEX[0] == '0' && HEX[1] == '1' && HEX[2] == '2' && HEX[3] == '3' && HEX[4] == '4' && HEX[5] == '5';
    assert HEX[6] == '6' && HEX[7] == '7' && HEX[8] == '8' && HEX[9] == '9' && HEX[10] == 'A' && HEX[11] == 'B';
    assert HEX[12] == 'C' && HEX[13] == 'D' && HEX[14] == 'E' && HEX[15] == 'F';
  }

  lemma OneByte(b: Byte)
    requires b < 0x80
    ensures QuoteBytes([b]) == if KeptReadable(b as char) then [b as char] else Escape(b)
    ensures Escapes([b]) == Escape(b)
  {
    HexDigits(b / 16);
    HexDigits(b % 16);
    assert [b][1..] == [];
  }

  lemma {:induction false} HighBytes(bytes: seq<Byte>)
    requires forall i :: 0 <= i < |bytes| ==> bytes[i] >= 0x80
    ensures QuoteBytes(bytes) == Escapes(bytes)
  {
    if bytes != [] {
      HighBytes(bytes[1..]);
      HexDigits(bytes[0] / 16);
      HexDigits(bytes[0] % 16);
    }
  }

  // ---------- the size ----------

  function Digits(n: nat): string {
    if n < 10 then [('0' as int + n) as char] else Digits(n / 10) + [('0' as int + n % 10) as char]
  }

  /** `str(size_bytes)` */
  function Decimal(n: int): string { if n < 0 then ['-'] + Digits(-n) else Digits(n) }

  function DigitsValue(text: string): int {
    if text == [] then 0 else DigitsValue(text[..|text| - 1]) * 10 + (text[|text| - 1] as int - '0' as int)
  }

  function DecimalValue(text: string): int {
    if text != [] && text[0] == '-' then -DigitsValue(text[1..]) else DigitsValue(text)
  }

  lemma {:induction false} DigitsRoundTrip(n: nat)
    ensures DigitsValue(Digits(n)) == n
    ensures Digits(n) != [] && forall i :: 0 <= i < |Digits(n)| ==> '0' <= Digits(n)[i] <= '9'
  {
    var text := Digits(n);
    if n < 10 {
      assert text[..0] == [];
    } else {
      DigitsRoundTrip(n / 10);
      assert text[..|text| - 1] == Digits(n / 10);
    }
  }

  /** No leading zeros, and a sign exactly on a negative number. */
  lemma {:induction false} DigitsPlain(n: nat)
    ensures Digits(n) != [] && (Digits(n)[0] == '0' <==> n == 0)
    ensures Decimal(n) == Digits(n) && (n > 0 ==> Decimal(-(n as int)) == "-" + Digits(n))
  {
    if n >= 10 {
      DigitsPlain(n / 10);
    }
  }

  lemma DecimalRoundTrip(n: int)
    ensures DecimalValue(Decimal(n)) == n && '|' !in Decimal(n)
  {
    DigitsRoundTrip(if n < 0 then -n else n);
    assert n < 0 ==> Decimal(n)[1..] == Digits(-n);
  }

  // ---------- the link ----------

  const SCHEME := "ed2k://"

  function BuildEd2kLink(filename: string, size: int, hash: string): string {
    SCHEME + "|file|" + Quote(filename) + "|" + Decimal(size) + "|" + hash + "|/"
  }

  /** The frame of a link. */
  lemma LinkFrame(filename: string, size: int, hash: string)
    ensures
      var link := BuildEd2kLink(filename, size, hash);
      && |link| >= 15 && link[..13] == "ed2k://|file|" && link[|link| - 2..] == "|/"
      && link[13..|link| - 2] == Quote(filename) + "|" + Decimal(size) + "|" + hash
  {
    FramedBy(Quote(filename) + "|" + Decimal(size) + "|" + hash);
    Grouped(Quote(filename), Decimal(size), hash);
  }

  lemma Grouped(name: string, size: string, hash: string)
    ensures SCHEME + "|file|" + name + "|" + size + "|" + hash + "|/"
         == "ed2k://|file|" + (name + "|" + size + "|" + hash) + "|/"
  {
  }

  lemma FramedBy(inner: string)
    ensures
      var link := "ed2k://|file|" + inner + "|/";
      && |link| == 15 + |inner| && link[..13] == "ed2k://|file|" && link[|link| - 2..] == "|/"
      && link[13..|link| - 2] == inner
  {
  }

  datatype Link = Link(filename: string, size: int, hash: string)

  /** Split on the bars, percent-decode the name, read the size. */
  function ParseLink(link: string): Option<Link> {
    var fields := Split(link, '|');
    if |fields| != 6 || fields[0] != SCHEME || fields[1] != "file" || fields[5] != "/" then None
    else
      match Unquote(fields[2])
      case None => None
      case Some(name) => Some(Link(name, DecimalValue(fields[3]), fields[4]))
  }

  lemma LinkFields(filename: string, size: int, hash: string)
    requires '|' !in hash
    ensures Split(BuildEd2kLink(filename, size, hash), '|')
         == [SCHEME, "file", Quote(filename), Decimal(size), hash, "/"]
  {
    var fields := [SCHEME, "file", Quote(filename), Decimal(size), hash, "/"];
    QuoteRoundTrip(filename);
    DecimalRoundTrip(size);
    JoinedFields(fields, '|');
    JoinSix(SCHEME, "file", Quote(filename), Decimal(size), hash, "/", '|');
    LinkAssociates(Quote(filename), Decimal(size), hash);
  }

  lemma JoinSix(a: string, b: string, c: string, d: string, e: string, f: string, s: char)
    ensures Join([a, b, c, d, e, f], s) == a + [s] + (b + [s] + (c + [s] + (d + [s] + (e + [s] + f))))
  {
    assert [a, b, c, d, e, f][1..] == [b, c, d, e, f];
    assert [b, c, d, e, f][1..] == [c, d, e, f];
    assert [c, d, e, f][1..] == [d, e, f];
    assert [d, e, f][1..] == [e, f];
    assert [e, f][1..] == [f];
    assert Join([e, f], s) == e + [s] + f;
    assert Join([d, e, f], s) == d + [s] + Join([e, f], s);
    assert Join([c, d, e, f], s) == c + [s] + Join([d, e, f], s);
    assert Join([b, c, d, e, f], s) == b + [s] + Join([c, d, e, f], s);
  }

  lemma LinkAssociates(name: string, size: string, hash: string)
    ensures SCHEME + "|file|" + name + "|" + size + "|" + hash + "|/"
      == SCHEME + ['|'] + ("file" + ['|'] + (name + ['|'] + (size + ['|'] + (hash + ['|'] + "/"))))
  {
    assert "|file|" == ['|'] + "file" + ['|'] && "|/" == ['|'] + "/";
  }

  /** Whatever the name, the link has exactly its five structural bars and gives its fields back. */
  lemma LinkRoundTrip(filename: string, size: int, hash: string)
    requires '|' !in hash
    ensures Occurrences(BuildEd2kLink(filename, size, hash), '|') == 5
    ensures ParseLink(BuildEd2kLink(filename, size, hash)) == Some(Link(filename, size, hash))
  {
    LinkFields(filename, size, hash);
    FieldCount(BuildEd2kLink(filename, size, hash), '|');
    QuoteRoundTrip(filename);
    DecimalRoundTrip(size);
  }

  /** Different files never share a link. */
  lemma LinkInjective(a: Link, b: Link)
    requires '|' !in a.hash && '|' !in b.hash
    requires BuildEd2kLink(a.filename, a.size, a.hash) == BuildEd2kLink(b.filename, b.size, b.hash)
    ensures a == b
  {
    LinkRoundTrip(a.filename, a.size, a.hash);
    LinkRoundTrip(b.filename, b.size, b.hash);
  }
}
