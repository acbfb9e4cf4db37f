/** Arrays of strings as `json.dumps` writes them with its defaults: ASCII only, `", "` between the items. A
    character that is not printable ASCII is written as `\u` and four hexadecimal digits, unless it has a short
    escape, and one outside the basic plane as the two of its surrogate pair. */
module Json {
  import opened Options

  const HEX := "0123456789abcdef"

  function HexValue(c: char): Option<nat> {
    if '0' <= c <= '9' then Some(c as int - '0' as int)
    else if 'a' <= c <= 'f' then Some(c as int - 'a' as int + 10)
    else None
  }

  function Hex4(n: nat): (r: string)
    requires n < 0x1_0000
    ensures |r| == 4
  {
    [HEX[n / 0x1000], HEX[n / 0x100 % 16], HEX[n / 0x10 % 16], HEX[n % 16]]
  }

  function Hex4Value(text: string): Option<nat>
    requires |text| >= 4
  {
    var a, b, c, d := HexValue(text[0]), HexValue(text[1]), HexValue(text[2]), HexValue(text[3]);
    if a.None? || b.None? || c.None? || d.None? then None
    else Some(((a.value * 16 + b.value) * 16 + c.value) * 16 + d.value)
  }

  function UnicodeEscape(n: nat): (r: string)
    requires n < 0x1_0000
    ensures |r| == 6
  {
    ['\\', 'u'] + Hex4(n)
  }

  /** The short escape of a character, when it has one. */
  function ShortEscape(c: char): Option<char> {
    if c == '"' then Some('"')
    else if c == '\\' then Some('\\')
    else if c == '\n' then Some('n')
    else if c == '\r' then Some('r')
    else if c == '\t' then Some('t')
    else if c as int == 8 then Some('b')
    else if c as int == 12 then Some('f')
    else None
  }

  function Unescape(c: char): Option<char> {
    if c == '"' then Some('"')
    else if c == '\\' then Some('\\')
    else if c == 'n' then Some('\n')
    else if c == 'r' then Some('\r')
    else if c == 't' then Some('\t')
    else if c == 'b' then Some(8 as char)
    else if c == 'f' then Some(12 as char)
    else None
  }

  /** Printable ASCII stands for itself; above the basic plane a character is written as two surrogates. */
  function EscapeChar(c: char): string {
    var n := c as int;
    if ShortEscape(c).Some? then ['\\', ShortEscape(c).value]
    else if ' ' <= c <= '~' then [c]
    else if n < 0x1_0000 then UnicodeEscape(n)
    else UnicodeEscape(High(n)) + UnicodeEscape(Low(n))
  }

  function High(n: int): (r: nat)
    requires 0x1_0000 <= n < 0x11_0000
    ensures 0xD800 <= r < 0xDC00
  {
    0xD800 + (n - 0x1_0000) / 0x400
  }

  function Low(n: int): (r: nat)
    requires 0x1_0000 <= n < 0x11_0000
    ensures 0xDC00 <= r < 0xE000
  {
    0xDC00 + (n - 0x1_0000) % 0x400
  }

  function Paired(high: nat, low: nat): (n: int)
    requires 0xD800 <= high < 0xDC00 <= low < 0xE000
    ensures 0x1_0000 <= n < 0x11_0000
  {
    0x1_0000 + (high - 0xD800) * 0x400 + (low - 0xDC00)
  }

  lemma PairedBack(n: int)
    requires 0x1_0000 <= n < 0x11_0000
    ensures Paired(High(n), Low(n)) == n
  {
  }

  /** The value of a `\uXXXX` at the start. */
  function ReadUnicode(text: string): Option<nat> {
    if |text| < 6 || text[0] != '\\' || text[1] != 'u' then None else Hex4Value(text[2..])
  }

  /** The first character of an escaped text and its length. */
  function ReadChar(text: string): Option<(char, nat)> {
    if text == [] || text[0] == '"' then None
    else if text[0] != '\\' then Some((text[0], 1))
    else if |text| >= 2 && text[1] != 'u' then
      if Unescape(text[1]).Some? then Some((Unescape(text[1]).value, 2)) else None
    else ReadEscaped(text)
  }

  function ReadEscaped(text: string): Option<(char, nat)> {
    match ReadUnicode(text)
    case None => None
    case Some(n) =>
      if n < 0xD800 || 0xE000 <= n < 0x1_0000 then Some((n as char, 6))
      else if n < 0xDC00 then
        match ReadUnicode(text[6..])
        case None => None
        case Some(m) =>
          if 0xDC00 <= m < 0xE000 then Some((Paired(n, m) as char, 12)) else None
      else None
  }

  lemma HexBack(n: nat)
    requires n < 16
    ensures HexValue(HEX[n]) == Some(n)
  {
  }

  lemma Digits16(n: nat)
    requires n < 0x1_0000
    ensures ((n / 0x1000 * 16 + n / 0x100 % 16) * 16 + n / 0x10 % 16) * 16 + n % 16 == n && n / 0x1000 < 16
  {
    assert n / 0x10 == n / 0x100 * 16 + n / 0x10 % 16;
    assert n / 0x100 == n / 0x1000 * 16 + n / 0x100 % 16;
  }

  lemma Hex4Back(n: nat, rest: string)
    requires n < 0x1_0000
    ensures Hex4Value(Hex4(n) + rest) == Some(n)
  {
    Digits16(n);
    HexBack(n / 0x1000);
    HexBack(n / 0x100 % 16);
    HexBack(n / 0x10 % 16);
    HexBack(n % 16);
  }

  lemma UnicodeBack(n: nat, rest: string)
    requires n < 0x1_0000
    ensures ReadUnicode(UnicodeEscape(n) + rest) == Some(n)
  {
    assert (UnicodeEscape(n) + rest)[2..] == Hex4(n) + rest;
    Hex4Back(n, rest);
  }

  lemma ShortBack(c: char, rest: string)
    requires ShortEscape(c).Some?
    ensures ReadChar(['\\', ShortEscape(c).value] + rest) == Some((c, 2))
  {
    assert Unescape(ShortEscape(c).value) == Some(c);
  }

  lemma WideEscape(c: char)
    requires 0x1_0000 <= c as int
    ensures EscapeChar(c) == UnicodeEscape(High(c as int)) + UnicodeEscape(Low(c as int))
  {
  }

  lemma WideBack(c: char, rest: string)
    requires 0x1_0000 <= c as int
    ensures EscapeChar(c) + rest != [] && ReadChar(EscapeChar(c) + rest) == Some((c, 12)) && |EscapeChar(c)| == 12
  {
    WideEscape(c);
    SurrogatesBack(High(c as int), Low(c as int), rest);
    PairedBack(c as int);
    EscapedIsRead(EscapeChar(c) + rest);
  }

  lemma EscapedIsRead(text: string)
    requires |text| >= 2 && text[0] == '\\' && text[1] == 'u'
    ensures ReadChar(text) == ReadEscaped(text)
  {
  }

  lemma CodeBack(c: char, rest: string)
    requires c as int < 0x1_0000
    ensures ReadChar(UnicodeEscape(c as int) + rest) == Some((c, 6))
  {
    UnicodeBack(c as int, rest);
  }

  lemma CharBack(c: char, rest: string)
    ensures EscapeChar(c) != [] && ReadChar(EscapeChar(c) + rest) == Some((c, |EscapeChar(c)|))
  {
    if ShortEscape(c).Some? {
      ShortBack(c, rest);
    } else if !(' ' <= c <= '~') {
      if c as int < 0x1_0000 {
        CodeBack(c, rest);
      } else {
        WideBack(c, rest);
      }
    }
  }

  lemma SurrogatesBack(high: nat, low: nat, rest: string)
    requires 0xD800 <= high < 0xDC00 <= low < 0xE000
    ensures ReadEscaped(UnicodeEscape(high) + UnicodeEscape(low) + rest) == Some((Paired(high, low) as char, 12))
  {
    var text := UnicodeEscape(high) + UnicodeEscape(low) + rest;
    assert text == UnicodeEscape(high) + (UnicodeEscape(low) + rest);
    UnicodeBack(high, UnicodeEscape(low) + rest);
    assert text[6..] == UnicodeEscape(low) + rest;
    UnicodeBack(low, rest);
  }

  // ---------- a text escaped character by character, up to a closing quote ----------

  type Escape = char -> string

  type Reader = string -> Option<(char, nat)>

  function Escaped(escape: Escape, s: string): string {
    if s == [] then [] else escape(s[0]) + Escaped(escape, s[1..])
  }

  /** The text up to the closing quote, and how much of the input it takes. */
  function ReadQuoted(read: Reader, text: string): Option<(string, nat)>
    decreases |text|
  {
    if text == [] then None
    else if text[0] == '"' then Some(("", 1))
    else
      match read(text)
      case None => None
      case Some((c, length)) =>
        if length == 0 || length > |text| then None
        else
          match ReadQuoted(read, text[length..])
          case None => None
          case Some((rest, n)) => Some(([c] + rest, length + n))
  }

  /** Whatever follows, the reader finds the character that was escaped; no escape starts with a quote. */
  ghost predicate Reads(escape: Escape, read: Reader) {
    forall c, rest ::
      escape(c) != [] && escape(c)[0] != '"' && read(escape(c) + rest) == Some((c, |escape(c)|))
  }

  lemma AfterHead(first: string, body: string, rest: string)
    ensures
      var text := first + body + "\"" + rest;
      text == first + (body + "\"" + rest) && text[|first|..] == body + "\"" + rest
  {
  }

  lemma {:induction false} EscapedBack(escape: Escape, read: Reader, s: string, rest: string)
    requires Reads(escape, read)
    ensures ReadQuoted(read, Escaped(escape, s) + "\"" + rest) == Some((s, |Escaped(escape, s)| + 1))
  {
    if s == [] {
      assert Escaped(escape, s) + "\"" + rest == "\"" + rest;
    } else {
      var first, body := escape(s[0]), Escaped(escape, s[1..]);
      AfterHead(first, body, rest);
      assert read(first + (body + "\"" + rest)) == Some((s[0], |first|));
      EscapedBack(escape, read, s[1..], rest);
      assert s == [s[0]] + s[1..];
    }
  }

  lemma EscapesAreRead()
    ensures Reads(EscapeChar, ReadChar)
  {
    var escape: Escape := EscapeChar;
    var read: Reader := ReadChar;
    forall c, rest
      ensures escape(c) != [] && escape(c)[0] != '"' && read(escape(c) + rest) == Some((c, |escape(c)|))
    {
      assert escape(c) == EscapeChar(c);
      FirstNotQuote(c);
      CharBack(c, rest);
    }
    assert Reads(escape, read);
  }

  // ---------- arrays ----------

  function Body(s: string): string { Escaped(EscapeChar, s) }

  function Quoted(s: string): string { "\"" + Body(s) + "\"" }

  /** `", ".join(quoted items)` */
  function Items(values: seq<string>): string {
    if values == [] then []
    else if |values| == 1 then Quoted(values[0])
    else Quoted(values[0]) + ", " + Items(values[1..])
  }

  /** `json.dumps(values)` */
  function Dumps(values: seq<string>): string { "[" + Items(values) + "]" }

  /** An array is its items between brackets, a comma and a blank between two of them. */
  lemma {:induction false} ItemsSnoc(values: seq<string>, x: string)
    ensures Items([]) == [] && Items([x]) == Quoted(x)
    ensures values != [] ==> Items(values + [x]) == Items(values) + ", " + Quoted(x)
  {
    if |values| == 1 {
      assert (values + [x])[1..] == [x];
    } else if values != [] {
      ItemsSnoc(values[1..], x);
      assert (values + [x])[1..] == values[1..] + [x] && (values + [x])[0] == values[0];
      MoveRight(Quoted(values[0]), Items(values[1..]), Quoted(x));
    }
  }

  lemma MoveRight(a: string, b: string, c: string)
    ensures a + ", " + (b + ", " + c) == a + ", " + b + ", " + c
  {
  }

  /** The text of an array is framed by brackets, and of an item by quotes. */
  lemma Framed(values: seq<string>, x: string)
    ensures Dumps(values) == "[" + Items(values) + "]"
    ensures |Quoted(x)| == |Body(x)| + 2 && Quoted(x)[0] == '"' && Quoted(x)[|Quoted(x)| - 1] == '"'
    ensures Quoted(x)[1..|Quoted(x)| - 1] == Body(x)
  {
  }

  /** How a character is written: itself, a short escape, or one or two groups of four hexadecimal digits. */
  lemma EscapesAre(c: char)
    ensures EscapeChar('"') == "\\\"" && EscapeChar('\\') == "\\\\"
    ensures EscapeChar('\n') == "\\n" && EscapeChar('\r') == "\\r" && EscapeChar('\t') == "\\t"
    ensures EscapeChar(8 as char) == "\\b" && EscapeChar(12 as char) == "\\f"
    ensures ' ' <= c <= '~' && c != '"' && c != '\\' ==> EscapeChar(c) == [c]
    ensures forall i :: 0 <= i < |EscapeChar(c)| ==> ' ' <= EscapeChar(c)[i] <= '~'
    ensures |EscapeChar(c)| == 1 || |EscapeChar(c)| == 2 || |EscapeChar(c)| == 6 || |EscapeChar(c)| == 12
  {
    if !ShortEscape(c).Some? && !(' ' <= c <= '~') {
      if c as int < 0x1_0000 {
        HexPrintable(c as int);
      } else {
        HexPrintable(High(c as int));
        HexPrintable(Low(c as int));
        WideEscape(c);
      }
    }
  }

  lemma HexPrintable(n: nat)
    requires n < 0x1_0000
    ensures forall i :: 0 <= i < 6 ==> ' ' <= UnicodeEscape(n)[i] <= '~'
  {
    Digits16(n);
    assert forall d :: 0 <= d < 16 ==> '0' <= HEX[d] <= 'f';
  }

  lemma Together(a: string, b: string, c: string)
    ensures a + (b + c) == (a + b) + c
  {
  }

  /** A text is escaped character by character. */
  lemma {:induction false} BodySnoc(s: string, c: char)
    ensures Body([]) == [] && Body(s + [c]) == Body(s) + EscapeChar(c)
  {
    if s == [] {
      assert [c][1..] == [] && [] + [c] == [c];
    } else {
      BodySnoc(s[1..], c);
      assert (s + [c])[1..] == s[1..] + [c] && (s + [c])[0] == s[0];
      Together(EscapeChar(s[0]), Body(s[1..]), EscapeChar(c));
    }
  }

  lemma FirstNotQuote(c: char)
    ensures EscapeChar(c) != [] && EscapeChar(c)[0] != '"'
  {
  }

  lemma BodyBack(s: string, rest: string)
    ensures ReadQuoted(ReadChar, Body(s) + "\"" + rest) == Some((s, |Body(s)| + 1))
  {
    EscapesAreRead();
    EscapedBack(EscapeChar, ReadChar, s, rest);
  }

  /** What follows the first item of an array. */
  function AfterFirst(values: seq<string>): string
    requires values != []
  {
    if |values| == 1 then "]" else ", " + Items(values[1..]) + "]"
  }

  lemma Wrapped(body: string, tail: string)
    ensures
      var text := "\"" + body + "\"" + tail;
      text[0] == '"' && text[1..] == body + "\"" + tail && text[|body| + 2..] == tail
  {
    var text := "\"" + body + "\"" + tail;
    assert text == "\"" + (body + "\"" + tail);
    assert text == ("\"" + body + "\"") + tail;
  }

  lemma ItemsSplit(values: seq<string>)
    requires values != []
    ensures Items(values) + "]" == Quoted(values[0]) + AfterFirst(values)
  {
    if |values| > 1 {
      Regroup(Quoted(values[0]), Items(values[1..]));
    }
  }

  lemma Regroup(first: string, rest: string)
    ensures first + ", " + rest + "]" == first + (", " + rest + "]")
  {
  }

  lemma FirstItem(values: seq<string>)
    requires values != []
    ensures
      var text := Items(values) + "]";
      && text[0] == '"' && ReadQuoted(ReadChar, text[1..]) == Some((values[0], |Body(values[0])| + 1))
      && text[|Body(values[0])| + 2..] == AfterFirst(values)
  {
    ItemsSplit(values);
    Wrapped(Body(values[0]), AfterFirst(values));
    BodyBack(values[0], AfterFirst(values));
  }

  /** Equal texts start with equal items and go on equally. */
  lemma SameFirst(a: seq<string>, b: seq<string>)
    requires a != [] && b != [] && Items(a) + "]" == Items(b) + "]"
    ensures a[0] == b[0] && AfterFirst(a) == AfterFirst(b)
  {
    FirstItem(a);
    FirstItem(b);
  }

  lemma {:induction false} ItemsInjective(a: seq<string>, b: seq<string>)
    requires Items(a) + "]" == Items(b) + "]"
    ensures a == b
  {
    if a == [] || b == [] {
      EmptyItems(a);
      EmptyItems(b);
    } else {
      SameFirst(a, b);
      RestItems(a);
      RestItems(b);
      if |a| > 1 && |b| > 1 {
        ItemsInjective(a[1..], b[1..]);
      }
      assert a == [a[0]] + a[1..] && b == [b[0]] + b[1..];
    }
  }

  lemma EmptyItems(values: seq<string>)
    ensures (Items(values) + "]")[0] == ']' <==> values == []
  {
    if values != [] {
      FirstItem(values);
    }
  }

  lemma RestItems(values: seq<string>)
    requires values != []
    ensures AfterFirst(values)[0] == ']' <==> |values| == 1
    ensures |values| > 1 ==> AfterFirst(values)[2..] == Items(values[1..]) + "]"
  {
  }

  lemma Bracketed(items: string)
    ensures ("[" + items + "]")[1..] == items + "]"
  {
  }

  /** Different arrays have different texts. */
  lemma DumpsInjective(a: seq<string>, b: seq<string>)
    requires Dumps(a) == Dumps(b)
    ensures a == b
  {
    Bracketed(Items(a));
    Bracketed(Items(b));
    ItemsInjective(a, b);
  }
}
