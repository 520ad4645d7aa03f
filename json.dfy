/** `json.dumps` of a dict of strings, as `json.dumps({'email': email,
    'status': status})` calls it, with Python's default settings: `", "` and
    `": "` as separators, items in insertion order, and
    `ensure_ascii=True`, so that every character outside `' '..'~'` and every
    `"` and `\` is written as an escape. A decoder for exactly this output
    shows that the encoding loses nothing. */
module Json {
  import opened Wrappers

  /** The lower-case hexadecimal digit Python's encoder writes for `v`. */
  function HexDigit(v: nat): (c: char)
    requires v < 16
    ensures ('0' <= c <= '9') || ('a' <= c <= 'f')
  {
    if v < 10 then ('0' as int + v) as char else ('a' as int + v - 10) as char
  }

  function HexValue(c: char): (r: Option<nat>)
    ensures r.Some? ==> r.value < 16
  {
    if '0' <= c <= '9' then Some(c as int - '0' as int)
    else if 'a' <= c <= 'f' then Some(c as int - 'a' as int + 10)
    else if 'A' <= c <= 'F' then Some(c as int - 'A' as int + 10)
    else None
  }

  /** `'{0:04x}'.format(n)`: four lower-case hexadecimal digits. */
  function Hex4(n: nat): (h: string)
    requires n < 0x10000
    ensures |h| == 4
  {
    [HexDigit(n / 0x1000), HexDigit(n / 0x100 % 0x10), HexDigit(n / 0x10 % 0x10), HexDigit(n % 0x10)]
  }

  function ParseHex4(h: string): (r: Option<nat>)
    requires |h| == 4
    ensures r.Some? ==> r.value < 0x10000
  {
    match (HexValue(h[0]), HexValue(h[1]), HexValue(h[2]), HexValue(h[3]))
    case (Some(a), Some(b), Some(c), Some(d)) => Some(a * 0x1000 + b * 0x100 + c * 0x10 + d)
    case _ => None
  }

  lemma HexDigitRoundTrip(v: nat)
    requires v < 16
    ensures HexValue(HexDigit(v)) == Some(v)
  {
  }

  lemma {:induction false} Hex4RoundTrip(n: nat)
    requires n < 0x10000
    ensures ParseHex4(Hex4(n)) == Some(n)
  {
    var a, b, c, d := n / 0x1000, n / 0x100 % 0x10, n / 0x10 % 0x10, n % 0x10;
    assert n == (n / 0x10) * 0x10 + d;
    assert n / 0x10 == (n / 0x100) * 0x10 + c;
    assert n / 0x100 == a * 0x10 + b;
    HexDigitRoundTrip(a);
    HexDigitRoundTrip(b);
    HexDigitRoundTrip(c);
    HexDigitRoundTrip(d);
  }

  /** The characters the encoder writes as themselves: printable ASCII. */
  predicate IsPrintableAscii(c: char)
  {
    ' ' <= c <= '~'
  }

  /** The letter of the two-letter escape `ensure_ascii` uses for `"`, `\`,
      newline, carriage return, tab, backspace and form feed. */
  function ShortEscape(c: char): Option<char>
  {
    if c == '"' then Some('"')
    else if c == '\\' then Some('\\')
    else if c == '\n' then Some('n')
    else if c == '\r' then Some('r')
    else if c == '\t' then Some('t')
    else if c == '\U{8}' then Some('b')
    else if c == '\U{c}' then Some('f')
    else None
  }

  /** `\uXXXX` for one UTF-16 code unit. */
  function UnicodeEscape(n: nat): string
    requires n < 0x10000
  {
    "\\u" + Hex4(n)
  }

  /** One character of a string as `ensure_ascii` writes it: a two-letter
      escape where there is one; other printable ASCII as itself; any other
      code point below U+10000 as `\uXXXX`; anything above as a UTF-16
      surrogate pair of two such escapes. */
  function EscapeChar(c: char): string
  {
    match ShortEscape(c)
    case Some(letter) => ['\\', letter]
    case None =>
      if IsPrintableAscii(c) then [c]
      else if c as int < 0x10000 then UnicodeEscape(c as int)
      else
        var m := c as int - 0x10000;
        UnicodeEscape(0xD800 + m / 0x400) + UnicodeEscape(0xDC00 + m % 0x400)
  }

  /** The body of a JSON string literal for `s`. */
  function Escape(s: string): string
  {
    if s == [] then [] else EscapeChar(s[0]) + Escape(s[1..])
  }

  predicate AllPrintable(s: string)
  {
    forall k :: 0 <= k < |s| ==> IsPrintableAscii(s[k])
  }

  lemma AllPrintableAppend(a: string, b: string)
    requires AllPrintable(a) && AllPrintable(b)
    ensures AllPrintable(a + b)
  {
    forall k | 0 <= k < |a + b| ensures IsPrintableAscii((a + b)[k]) {
      if k < |a| { assert (a + b)[k] == a[k]; } else { assert (a + b)[k] == b[k - |a|]; }
    }
  }

  lemma UnicodeEscapePrintable(n: nat)
    requires n < 0x10000
    ensures AllPrintable(UnicodeEscape(n))
  {
    AllPrintableAppend("\\u", Hex4(n));
  }

  lemma EscapeBmp(c: char)
    requires ShortEscape(c).None? && !IsPrintableAscii(c) && c as int < 0x10000
    ensures EscapeChar(c) == UnicodeEscape(c as int)
  {
  }

  lemma EscapeCharPrintable(c: char)
    ensures AllPrintable(EscapeChar(c))
  {
    if c as int >= 0x10000 {
      var m := c as int - 0x10000;
      EscapeAstral(c);
      UnicodeEscapePrintable(0xD800 + m / 0x400);
      UnicodeEscapePrintable(0xDC00 + m % 0x400);
      AllPrintableAppend(UnicodeEscape(0xD800 + m / 0x400), UnicodeEscape(0xDC00 + m % 0x400));
    } else if ShortEscape(c).None? && !IsPrintableAscii(c) {
      EscapeBmp(c);
      UnicodeEscapePrintable(c as int);
    }
  }

  /** The escaped text is printable ASCII only, so in particular no line
      break can appear in it. */
  lemma {:induction false} EscapePrintable(s: string)
    ensures AllPrintable(Escape(s))
  {
    if s != [] {
      EscapeCharPrintable(s[0]);
      EscapePrintable(s[1..]);
      AllPrintableAppend(EscapeChar(s[0]), Escape(s[1..]));
    }
  }

  /** Decodes `\uXXXX` (the `\u` already read), joining a high and a low
      surrogate escape into one code point above U+FFFF. */
  function DecodeUnicode(u: string): (r: Option<(char, string)>)
    ensures r.Some? ==> |r.value.1| < |u|
  {
    if |u| < 4 then None
    else match ParseHex4(u[..4])
      case None => None
      case Some(n) =>
        if n < 0xD800 || 0xDFFF < n then Some((n as char, u[4..]))
        else if 0xDBFF < n || |u| < 10 || u[4..6] != "\\u" then None
        else match ParseHex4(u[6..10])
          case None => None
          case Some(lo) =>
            if lo < 0xDC00 || 0xDFFF < lo then None
            else Some(((0x10000 + (n - 0xD800) * 0x400 + (lo - 0xDC00)) as char, u[10..]))
  }

  /** The character a two-letter escape stands for (JSON also allows `\/`). */
  function ShortUnescape(letter: char): Option<char>
  {
    match letter
    case '"' => Some('"')
    case '\\' => Some('\\')
    case '/' => Some('/')
    case 'b' => Some('\U{8}')
    case 'f' => Some('\U{c}')
    case 'n' => Some('\n')
    case 'r' => Some('\r')
    case 't' => Some('\t')
    case _ => None
  }

  /** Reads one (possibly escaped) character of a string literal's body. */
  function DecodeChar(t: string): (r: Option<(char, string)>)
    ensures r.Some? ==> |r.value.1| < |t|
  {
    if |t| == 0 || t[0] == '"' then None
    else if t[0] != '\\' then Some((t[0], t[1..]))
    else if |t| < 2 then None
    else if t[1] == 'u' then DecodeUnicode(t[2..])
    else match ShortUnescape(t[1])
      case None => None
      case Some(c) => Some((c, t[2..]))
  }

  /** Reads a string literal's body up to its closing quote; returns the
      string and the text after the quote. */
  function DecodeString(t: string): (r: Option<(string, string)>)
    ensures r.Some? ==> |r.value.1| < |t|
    decreases |t|
  {
    if |t| > 0 && t[0] == '"' then Some(([], t[1..]))
    else match DecodeChar(t)
      case None => None
      case Some((c, rest)) =>
        match DecodeString(rest)
        case None => None
        case Some((s, after)) => Some(([c] + s, after))
  }

  lemma BmpEscapeRoundTrip(c: char, more: string)
    requires !IsPrintableAscii(c) && c as int < 0x10000
    ensures DecodeUnicode(Hex4(c as int) + more) == Some((c, more))
  {
    var u := Hex4(c as int) + more;
    Hex4RoundTrip(c as int);
    assert u[..4] == Hex4(c as int) && u[4..] == more;
  }

  lemma AstralEscapeRoundTrip(c: char, more: string)
    requires c as int >= 0x10000
    ensures var m := c as int - 0x10000;
      DecodeUnicode(Hex4(0xD800 + m / 0x400) + "\\u" + Hex4(0xDC00 + m % 0x400) + more) == Some((c, more))
  {
    var m := c as int - 0x10000;
    var hi, lo := 0xD800 + m / 0x400, 0xDC00 + m % 0x400;
    var u := Hex4(hi) + "\\u" + Hex4(lo) + more;
    Hex4RoundTrip(hi);
    Hex4RoundTrip(lo);
    assert u[..4] == Hex4(hi) && u[4..6] == "\\u" && u[6..10] == Hex4(lo) && u[10..] == more;
    assert 0x10000 + (hi - 0xD800) * 0x400 + (lo - 0xDC00) == c as int;
  }

  lemma ShortEscapeInverse(c: char)
    requires ShortEscape(c).Some?
    ensures ShortEscape(c).value != 'u' && ShortUnescape(ShortEscape(c).value) == Some(c)
  {
  }

  lemma ShortEscapeRoundTrip(c: char, more: string)
    requires ShortEscape(c).Some?
    ensures DecodeChar(EscapeChar(c) + more) == Some((c, more))
  {
    var e := EscapeChar(c) + more;
    ShortEscapeInverse(c);
    assert e[0] == '\\' && e[1] == ShortEscape(c).value && e[2..] == more;
  }

  lemma BmpCharRoundTrip(c: char, more: string)
    requires ShortEscape(c).None? && !IsPrintableAscii(c) && c as int < 0x10000
    ensures DecodeChar(EscapeChar(c) + more) == Some((c, more))
  {
    EscapeBmp(c);
    var e := UnicodeEscape(c as int) + more;
    assert e[0] == '\\' && e[1] == 'u' && e[2..] == Hex4(c as int) + more;
    BmpEscapeRoundTrip(c, more);
  }

  lemma EscapeAstral(c: char)
    requires c as int >= 0x10000
    ensures var m := c as int - 0x10000;
      EscapeChar(c) == UnicodeEscape(0xD800 + m / 0x400) + UnicodeEscape(0xDC00 + m % 0x400)
  {
  }

  lemma SurrogatePairDecodes(c: char, hi: nat, lo: nat, more: string)
    requires c as int >= 0x10000
    requires hi == 0xD800 + (c as int - 0x10000) / 0x400 && lo == 0xDC00 + (c as int - 0x10000) % 0x400
    ensures DecodeChar(UnicodeEscape(hi) + UnicodeEscape(lo) + more) == Some((c, more))
  {
    var e := UnicodeEscape(hi) + UnicodeEscape(lo) + more;
    assert e[0] == '\\' && e[1] == 'u';
    assert e[2..] == Hex4(hi) + "\\u" + Hex4(lo) + more;
    AstralEscapeRoundTrip(c, more);
  }

  lemma AstralCharRoundTrip(c: char, more: string)
    requires c as int >= 0x10000
    ensures DecodeChar(EscapeChar(c) + more) == Some((c, more))
  {
    var m := c as int - 0x10000;
    EscapeAstral(c);
    SurrogatePairDecodes(c, 0xD800 + m / 0x400, 0xDC00 + m % 0x400, more);
  }

  lemma EscapeCharRoundTrip(c: char, more: string)
    ensures DecodeChar(EscapeChar(c) + more) == Some((c, more))
  {
    if ShortEscape(c).Some? {
      ShortEscapeRoundTrip(c, more);
    } else if IsPrintableAscii(c) {
      var e := EscapeChar(c) + more;
      assert e[1..] == more;
    } else if c as int < 0x10000 {
      BmpCharRoundTrip(c, more);
    } else {
      AstralCharRoundTrip(c, more);
    }
  }

  /** Decoding undoes escaping, whatever follows the closing quote. */
  lemma {:induction false} EscapeRoundTrip(s: string, more: string)
    ensures DecodeString(Escape(s) + "\"" + more) == Some((s, more))
  {
    if s == [] {
      assert Escape(s) + "\"" + more == "\"" + more;
    } else {
      var t := Escape(s) + "\"" + more;
      var rest := Escape(s[1..]) + "\"" + more;
      assert t == EscapeChar(s[0]) + rest;
      EscapeCharRoundTrip(s[0], rest);
      EscapeRoundTrip(s[1..], more);
      assert [s[0]] + s[1..] == s;
    }
  }

  /** One `"key": "value"` member of an object whose values are strings. */
  function Member(m: (string, string)): string
  {
    Quoted(m.0) + ": " + Quoted(m.1)
  }

  /** A JSON string literal. */
  function Quoted(s: string): string
  {
    "\"" + Escape(s) + "\""
  }

  /** The members of an object, separated by `", "`. */
  function Members(ms: seq<(string, string)>): string
  {
    if ms == [] then "" else if |ms| == 1 then Member(ms[0]) else Member(ms[0]) + ", " + Members(ms[1..])
  }

  /** `json.dumps` of a dict whose keys and values are strings, its items in
      insertion order. */
  function Dumps(ms: seq<(string, string)>): string
  {
    "{" + Members(ms) + "}"
  }

  /** Reads one string literal; returns it and the text after it. */
  function ReadQuoted(t: string): (r: Option<(string, string)>)
    ensures r.Some? ==> |r.value.1| < |t|
  {
    if |t| == 0 || t[0] != '"' then None else DecodeString(t[1..])
  }

  /** Reads one `"key": "value"` member; returns it and the text after it. */
  function ParseMember(t: string): (r: Option<((string, string), string)>)
    ensures r.Some? ==> |r.value.1| < |t|
  {
    match ReadQuoted(t)
    case None => None
    case Some((key, rest)) =>
      if |rest| < 2 || rest[..2] != ": " then None
      else match ReadQuoted(rest[2..])
        case None => None
        case Some((value, after)) => Some(((key, value), after))
  }

  /** Reads members up to the closing brace of the object. */
  function ParseMembers(t: string): Option<seq<(string, string)>>
    decreases |t|
  {
    match ParseMember(t)
    case None => None
    case Some((m, after)) =>
      if after == "}" then Some([m])
      else if |after| < 2 || after[..2] != ", " then None
      else match ParseMembers(after[2..])
        case None => None
        case Some(more) => Some([m] + more)
  }

  /** Reads back an object of exactly the shape `Dumps` writes. */
  function ParseDumps(j: string): Option<seq<(string, string)>>
  {
    if |j| < 2 || j[0] != '{' then None
    else if j[1..] == "}" then Some([])
    else ParseMembers(j[1..])
  }

  lemma QuotedRoundTrip(s: string, more: string)
    ensures ReadQuoted(Quoted(s) + more) == Some((s, more))
  {
    var t := Quoted(s) + more;
    assert t[1..] == Escape(s) + "\"" + more;
    EscapeRoundTrip(s, more);
  }

  lemma MemberRoundTrip(m: (string, string), more: string)
    ensures ParseMember(Member(m) + more) == Some((m, more))
  {
    var rest := ": " + Quoted(m.1) + more;
    assert Member(m) + more == Quoted(m.0) + rest;
    QuotedRoundTrip(m.0, rest);
    assert rest[..2] == ": " && rest[2..] == Quoted(m.1) + more;
    QuotedRoundTrip(m.1, more);
  }

  lemma ParseLastMember(m: (string, string))
    ensures ParseMembers(Member(m) + "}") == Some([m])
  {
    MemberRoundTrip(m, "}");
  }

  lemma ParseNextMember(m: (string, string), rest: string)
    requires ParseMembers(rest).Some?
    ensures ParseMembers(Member(m) + ", " + rest) == Some([m] + ParseMembers(rest).value)
  {
    var tail := ", " + rest;
    assert Member(m) + ", " + rest == Member(m) + tail;
    MemberRoundTrip(m, tail);
    assert tail[..2] == ", " && tail[2..] == rest;
  }

  lemma {:induction false} MembersRoundTrip(ms: seq<(string, string)>)
    requires ms != []
    ensures ParseMembers(Members(ms) + "}") == Some(ms)
  {
    if |ms| == 1 {
      assert Members(ms) == Member(ms[0]);
      ParseLastMember(ms[0]);
      assert [ms[0]] == ms;
    } else {
      var rest := Members(ms[1..]) + "}";
      assert Members(ms) + "}" == Member(ms[0]) + ", " + rest;
      MembersRoundTrip(ms[1..]);
      ParseNextMember(ms[0], rest);
      assert [ms[0]] + ms[1..] == ms;
    }
  }

  /** The encoding of a dict can be read back, so no two dicts share a
      document. */
  lemma MembersNotEmpty(ms: seq<(string, string)>)
    requires ms != []
    ensures |Members(ms)| > 0
  {
    assert |Quoted(ms[0].0)| >= 2;
  }

  lemma ParseDumpsOf(body: string)
    requires |body| > 1
    ensures ParseDumps("{" + body) == ParseMembers(body)
  {
    assert ("{" + body)[1..] == body;
  }

  lemma DumpsRoundTrip(ms: seq<(string, string)>)
    ensures ParseDumps(Dumps(ms)) == Some(ms)
  {
    if ms != [] {
      var body := Members(ms) + "}";
      assert Dumps(ms) == "{" + body;
      MembersNotEmpty(ms);
      ParseDumpsOf(body);
      MembersRoundTrip(ms);
    }
  }

  lemma QuotedPrintable(s: string)
    ensures AllPrintable(Quoted(s))
  {
    EscapePrintable(s);
    AllPrintableAppend("\"", Escape(s));
    AllPrintableAppend("\"" + Escape(s), "\"");
  }

  lemma MemberPrintable(m: (string, string))
    ensures AllPrintable(Member(m))
  {
    QuotedPrintable(m.0);
    QuotedPrintable(m.1);
    AllPrintableAppend(Quoted(m.0), ": ");
    AllPrintableAppend(Quoted(m.0) + ": ", Quoted(m.1));
  }

  lemma {:induction false} AllPrintableMembers(ms: seq<(string, string)>)
    ensures AllPrintable(Members(ms))
  {
    if |ms| == 1 {
      MemberPrintable(ms[0]);
    } else if |ms| > 1 {
      MemberPrintable(ms[0]);
      AllPrintableMembers(ms[1..]);
      AllPrintableAppend(Member(ms[0]), ", ");
      AllPrintableAppend(Member(ms[0]) + ", ", Members(ms[1..]));
    }
  }

  /** The document is one line of printable ASCII. */
  lemma DumpsIsPrintable(ms: seq<(string, string)>)
    ensures AllPrintable(Dumps(ms))
  {
    AllPrintableMembers(ms);
    AllPrintableAppend("{", Members(ms));
    AllPrintableAppend("{" + Members(ms), "}");
  }

  lemma PrintableHasNoLineBreak(s: string)
    requires AllPrintable(s)
    ensures '\n' !in s && '\r' !in s
  {
  }
}
