/**
 * The text stored in the `unique_key` column of `_tables`: the JSON document
 * `{"columns":[...]}` holding the ordered column ids of the table's unique key,
 * written with the character escapes JSON.stringify uses and read back by a
 * parser for exactly that shape.
 */
module UniqueKeyCodec {
  import opened Wrappers

  const Prefix := "{\"columns\":["
  const Suffix := "]}"

  /** Lower-case hexadecimal digit of `d`, as JSON.stringify writes `\u00XX`. */
  function HexDigit(d: nat): (c: char)
    requires d < 16
    ensures HexValue(c) == Some(d)
  {
    if d < 10 then (48 + d) as char else (87 + d) as char
  }

  function HexValue(c: char): Option<nat>
  {
    if '0' <= c <= '9' then Some(c as int - '0' as int)
    else if 'a' <= c <= 'f' then Some(c as int - 'a' as int + 10)
    else if 'A' <= c <= 'F' then Some(c as int - 'A' as int + 10)
    else None
  }

  /** One character of a JSON string literal, as JSON.stringify escapes it. */
  function EscapeChar(c: char): string
  {
    if c == '"' then "\\\""
    else if c == '\\' then "\\\\"
    else if c == '\U{8}' then "\\b"
    else if c == '\U{C}' then "\\f"
    else if c == '\n' then "\\n"
    else if c == '\r' then "\\r"
    else if c == '\t' then "\\t"
    else if c < ' ' then "\\u00" + [HexDigit(c as int / 16), HexDigit(c as int % 16)]
    else [c]
  }

  function EscapeString(s: string): string
  {
    if s == [] then [] else EscapeChar(s[0]) + EscapeString(s[1..])
  }

  function Quote(s: string): string
  {
    "\"" + EscapeString(s) + "\""
  }

  /** The array elements, comma separated, without the brackets. */
  function JoinQuoted(items: seq<string>): string
  {
    if |items| == 0 then ""
    else if |items| == 1 then Quote(items[0])
    else Quote(items[0]) + "," + JoinQuoted(items[1..])
  }

  /** JSON.stringify({ columns: key }). */
  function Encode(key: seq<string>): (text: string)
    ensures |text| > 0
  {
    Prefix + JoinQuoted(key) + Suffix
  }

  /**
   * The escape sequence after a backslash: the character it stands for and
   * how many characters of `s` it takes. A `\u` escape naming a surrogate
   * code unit is refused, since a lone surrogate is not a character here.
   */
  function Unescape(s: string): (r: Option<(char, nat)>)
    ensures r.Some? ==> 1 <= r.value.1 <= |s|
  {
    if |s| == 0 then None
    else if s[0] == '"' then Some(('"', 1))
    else if s[0] == '\\' then Some(('\\', 1))
    else if s[0] == '/' then Some(('/', 1))
    else if s[0] == 'b' then Some(('\U{8}', 1))
    else if s[0] == 'f' then Some(('\U{C}', 1))
    else if s[0] == 'n' then Some(('\n', 1))
    else if s[0] == 'r' then Some(('\r', 1))
    else if s[0] == 't' then Some(('\t', 1))
    else if s[0] == 'u' && |s| >= 5 then
      match (HexValue(s[1]), HexValue(s[2]), HexValue(s[3]), HexValue(s[4]))
      case (Some(a), Some(b), Some(c), Some(d)) =>
        var v := a * 4096 + b * 256 + c * 16 + d;
        if v < 0xD800 || 0xE000 <= v < 0x11_0000 then Some((v as char, 5)) else None
      case _ => None
    else None
  }

  /**
   * The characters of a string literal whose opening quote has been read:
   * the decoded text and what follows the closing quote.
   */
  function ParseChars(s: string): (r: Option<(string, string)>)
    ensures r.Some? ==> |r.value.1| < |s|
    decreases |s|
  {
    if |s| == 0 then None
    else if s[0] == '"' then Some(([], s[1..]))
    else if s[0] == '\\' then
      match Unescape(s[1..])
      case None => None
      case Some((c, n)) => Prepend(c, ParseChars(s[1 + n..]))
    else if s[0] < ' ' then None
    else Prepend(s[0], ParseChars(s[1..]))
  }

  function Prepend(c: char, r: Option<(string, string)>): Option<(string, string)>
  {
    match r
    case None => None
    case Some((t, rest)) => Some(([c] + t, rest))
  }

  /** One or more quoted elements, comma separated, up to the closing `]}`. */
  function ParseItems(s: string): Option<seq<string>>
    decreases |s|
  {
    if |s| == 0 || s[0] != '"' then None
    else
      match ParseChars(s[1..])
      case None => None
      case Some((item, rest)) =>
        if rest == Suffix then Some([item])
        else if |rest| > 0 && rest[0] == ',' then
          match ParseItems(rest[1..])
          case None => None
          case Some(items) => Some([item] + items)
        else None
  }

  /** JSON.parse(text).columns, for text of the shape Encode writes. */
  function Decode(text: string): Option<seq<string>>
  {
    if |text| >= |Prefix| && text[..|Prefix|] == Prefix then
      var body := text[|Prefix|..];
      if body == Suffix then Some([]) else ParseItems(body)
    else None
  }

  lemma EscapeCharRoundTrip(c: char, rest: string)
    ensures ParseChars(EscapeChar(c) + rest) == Prepend(c, ParseChars(rest))
  {
    if c == '"' || c == '\\' || c == '\U{8}' || c == '\U{C}' || c == '\n' || c == '\r' || c == '\t' {
      ShortEscapeRoundTrip(c, rest);
    } else if c < ' ' {
      UnicodeEscapeRoundTrip(c, rest);
    } else {
      assert (EscapeChar(c) + rest)[1..] == rest;
    }
  }

  /** A two-character escape such as `\n` reads back as its character. */
  lemma ShortEscapeRoundTrip(c: char, rest: string)
    requires c == '"' || c == '\\' || c == '\U{8}' || c == '\U{C}' || c == '\n' || c == '\r' || c == '\t'
    ensures ParseChars(EscapeChar(c) + rest) == Prepend(c, ParseChars(rest))
  {
    var s := EscapeChar(c) + rest;
    assert s[0] == '\\' && s[2..] == rest;
  }

  /** A `\u00XX` escape of a control character reads back as that character. */
  lemma UnicodeEscapeRoundTrip(c: char, rest: string)
    requires c < ' ' && c != '\U{8}' && c != '\U{C}' && c != '\n' && c != '\r' && c != '\t'
    ensures ParseChars(EscapeChar(c) + rest) == Prepend(c, ParseChars(rest))
  {
    var s := EscapeChar(c) + rest;
    var hi, lo := c as int / 16, c as int % 16;
    assert s[0] == '\\' && s[1..][0] == 'u';
    assert s[1..][1] == '0' && s[1..][2] == '0';
    assert s[1..][3] == HexDigit(hi) && s[1..][4] == HexDigit(lo);
    assert 0 * 4096 + 0 * 256 + hi * 16 + lo == c as int;
    assert s[6..] == rest;
  }

  lemma {:induction false} StringRoundTrip(s: string, rest: string)
    ensures ParseChars(EscapeString(s) + "\"" + rest) == Some((s, rest))
    decreases |s|
  {
    if s == [] {
      assert EscapeString(s) + "\"" + rest == ['"'] + rest;
    } else {
      calc {
        ParseChars(EscapeString(s) + "\"" + rest);
        { assert EscapeString(s) + "\"" + rest == EscapeChar(s[0]) + (EscapeString(s[1..]) + "\"" + rest); }
        ParseChars(EscapeChar(s[0]) + (EscapeString(s[1..]) + "\"" + rest));
        { EscapeCharRoundTrip(s[0], EscapeString(s[1..]) + "\"" + rest); }
        Prepend(s[0], ParseChars(EscapeString(s[1..]) + "\"" + rest));
        { StringRoundTrip(s[1..], rest); }
        Some(([s[0]] + s[1..], rest));
        { assert [s[0]] + s[1..] == s; }
        Some((s, rest));
      }
    }
  }

  /** Reading one quoted element leaves what follows its closing quote. */
  lemma QuotedRoundTrip(item: string, tail: string)
    ensures (Quote(item) + tail)[0] == '"'
    ensures ParseChars((Quote(item) + tail)[1..]) == Some((item, tail))
  {
    assert (Quote(item) + tail)[1..] == EscapeString(item) + "\"" + tail;
    StringRoundTrip(item, tail);
  }

  lemma ParseLastItem(item: string)
    ensures ParseItems(Quote(item) + Suffix) == Some([item])
  {
    QuotedRoundTrip(item, Suffix);
  }

  lemma ParseNextItem(item: string, rest: string)
    ensures ParseItems(Quote(item) + "," + rest) ==
      match ParseItems(rest)
      case None => None
      case Some(items) => Some([item] + items)
  {
    var tail := "," + rest;
    assert Quote(item) + "," + rest == Quote(item) + tail;
    QuotedRoundTrip(item, tail);
    assert tail != Suffix by {
      assert tail[0] != Suffix[0];
    }
    assert tail[1..] == rest;
  }

  lemma {:induction false} ItemsRoundTrip(key: seq<string>)
    requires |key| > 0
    ensures ParseItems(JoinQuoted(key) + Suffix) == Some(key)
    decreases |key|
  {
    if |key| == 1 {
      ParseLastItem(key[0]);
      assert [key[0]] == key;
    } else {
      var rest := JoinQuoted(key[1..]) + Suffix;
      assert JoinQuoted(key) + Suffix == Quote(key[0]) + "," + rest;
      ParseNextItem(key[0], rest);
      ItemsRoundTrip(key[1..]);
      assert [key[0]] + key[1..] == key;
    }
  }

  /** Reading back the stored text gives exactly the column list written. */
  lemma DecodeEncode(key: seq<string>)
    ensures Decode(Encode(key)) == Some(key)
  {
    var text := Encode(key);
    assert text[..|Prefix|] == Prefix;
    assert text[|Prefix|..] == JoinQuoted(key) + Suffix;
    if |key| > 0 {
      ItemsRoundTrip(key);
      assert JoinQuoted(key)[0] == '"';
      assert JoinQuoted(key) + Suffix != Suffix;
    }
  }

  /** Distinct column lists are stored as distinct texts. */
  lemma EncodeInjective(a: seq<string>, b: seq<string>)
    requires Encode(a) == Encode(b)
    ensures a == b
  {
    DecodeEncode(a);
    DecodeEncode(b);
  }
}
