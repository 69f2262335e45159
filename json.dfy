/** The part of Python's `json.dumps` that the chain uses: a flat object whose
    values are integers or strings, written with `sort_keys=True`, the default
    separators ", " and ": ", and the default `ensure_ascii=True` escaping of
    strings (RFC 8259 string syntax). */
module Json {
  import opened Wrappers
  import Decimal

  /** The characters ' ' through '~', which `ensure_ascii` output is made of. */
  predicate IsPrintable(c: char) {
    ' ' <= c <= '~'
  }

  predicate AllPrintable(s: string) {
    forall k | 0 <= k < |s| :: IsPrintable(s[k])
  }

  predicate IsHexDigit(c: char) {
    '0' <= c <= '9' || 'a' <= c <= 'f' || 'A' <= c <= 'F'
  }

  function HexValue(c: char): (v: int)
    requires IsHexDigit(c)
    ensures 0 <= v < 16
  {
    if c <= '9' then c as int - '0' as int
    else if c >= 'a' then c as int - 'a' as int + 10
    else c as int - 'A' as int + 10
  }

  /** A lower-case hexadecimal digit. */
  function HexDigit(d: int): (c: char)
    requires 0 <= d < 16
    ensures IsHexDigit(c) && IsPrintable(c) && HexValue(c) == d
  {
    if d < 10 then ('0' as int + d) as char else ('a' as int + d - 10) as char
  }

  /** `'{0:04x}'.format(v)`: four lower-case hexadecimal digits. */
  function Hex4(v: int): (s: string)
    requires 0 <= v < 0x10000
    ensures |s| == 4
  {
    var a := v / 16;
    var b := a / 16;
    [HexDigit(b / 16), HexDigit(b % 16), HexDigit(a % 16), HexDigit(v % 16)]
  }

  /** Reads four hexadecimal digits (either case) from the front of `s`. */
  function ParseHex4(s: string): (r: Option<int>)
    ensures r.Some? ==> |s| >= 4 && 0 <= r.value < 0x10000
  {
    if |s| >= 4 && IsHexDigit(s[0]) && IsHexDigit(s[1]) && IsHexDigit(s[2]) && IsHexDigit(s[3]) then
      Some(((HexValue(s[0]) * 16 + HexValue(s[1])) * 16 + HexValue(s[2])) * 16 + HexValue(s[3]))
    else
      None
  }

  lemma ParseHex4Hex4(v: int, rest: string)
    requires 0 <= v < 0x10000
    ensures ParseHex4(Hex4(v) + rest) == Some(v)
  {
    var s := Hex4(v) + rest;
    assert s[..4] == Hex4(v);
  }

  /** The escape of one character under `ensure_ascii`: backslash and quote are
      escaped, the control characters with a short form get it, the other
      printable ASCII characters stand for themselves, and everything else
      becomes `\uXXXX` (a surrogate pair of them above U+FFFF). */
  function EscapeChar(c: char): (r: string)
    ensures |r| == 1 <==> IsPrintable(c) && c != '"' && c != '\\'
    ensures |r| == 1 ==> r[0] == c
    ensures |r| > 1 ==> r[0] == '\\'
  {
    if c == '\\' then "\\\\"
    else if c == '"' then "\\\""
    else if c as int == 0x08 then "\\b"
    else if c as int == 0x0C then "\\f"
    else if c == '\n' then "\\n"
    else if c == '\r' then "\\r"
    else if c == '\t' then "\\t"
    else if IsPrintable(c) then [c]
    else if c as int < 0x10000 then "\\u" + Hex4(c as int)
    else SurrogateEscape(c as int)
  }

  /** The high (leading) half of the UTF-16 surrogate pair of `n`. */
  function HighSurrogate(n: int): (h: int)
    requires 0x10000 <= n < 0x110000
    ensures 0xD800 <= h < 0xDC00
  {
    0xD800 + (n - 0x10000) / 1024
  }

  /** The low (trailing) half of the UTF-16 surrogate pair of `n`. */
  function LowSurrogate(n: int): (l: int)
    requires 0x10000 <= n < 0x110000
    ensures 0xDC00 <= l < 0xE000
  {
    0xDC00 + (n - 0x10000) % 1024
  }

  /** A code point above U+FFFF as the `\uXXXX\uXXXX` escape of its UTF-16
      surrogate pair. */
  function SurrogateEscape(n: int): (r: string)
    requires 0x10000 <= n < 0x110000
    ensures |r| == 12 && r[0] == '\\'
  {
    "\\u" + Hex4(HighSurrogate(n)) + "\\u" + Hex4(LowSurrogate(n))
  }

  function EscapeBody(s: string): string {
    if s == [] then [] else EscapeChar(s[0]) + EscapeBody(s[1..])
  }

  /** The JSON string literal for `s`, as `json.dumps` writes it. */
  function Quote(s: string): string {
    "\"" + EscapeBody(s) + "\""
  }

  /** Reads the hexadecimal part of a `\uXXXX` escape (what follows the `\u`),
      joining a high surrogate with the `\uXXXX` low surrogate that must follow
      it. Returns the character and the number of characters read. */
  function ParseUnicodeEscape(s: string): (r: Option<(char, nat)>)
    ensures r.Some? ==> 4 <= r.value.1 <= |s|
  {
    match ParseHex4(s)
    case None => None
    case Some(v) =>
      if 0xD800 <= v < 0xDC00 then
        if |s| >= 6 && s[4] == '\\' && s[5] == 'u' then
          match ParseHex4(s[6..])
          case None => None
          case Some(w) =>
            if 0xDC00 <= w < 0xE000 then
              Some(((0x10000 + (v - 0xD800) * 1024 + (w - 0xDC00)) as char, 10))
            else None
        else None
      else if 0xDC00 <= v < 0xE000 then None
      else Some((v as char, 4))
  }

  /** Reads one escape sequence, starting at a backslash, from the front of `s`.
      Returns the character it stands for and its length. */
  function ParseEscape(s: string): (r: Option<(char, nat)>)
    ensures r.Some? ==> 2 <= r.value.1 <= |s|
  {
    if |s| < 2 || s[0] != '\\' then None
    else if s[1] == '"' then Some(('"', 2))
    else if s[1] == '\\' then Some(('\\', 2))
    else if s[1] == '/' then Some(('/', 2))
    else if s[1] == 'b' then Some((0x08 as char, 2))
    else if s[1] == 'f' then Some((0x0C as char, 2))
    else if s[1] == 'n' then Some(('\n', 2))
    else if s[1] == 'r' then Some(('\r', 2))
    else if s[1] == 't' then Some(('\t', 2))
    else if s[1] == 'u' then
      match ParseUnicodeEscape(s[2..])
      case None => None
      case Some((c, n)) => Some((c, n + 2))
    else None
  }

  /** Reads the characters of a string literal up to and including its closing
      quote. Returns the decoded text and what follows the quote. */
  function ParseChars(s: string): (r: Option<(string, string)>)
    ensures r.Some? ==> |r.value.1| < |s|
    decreases |s|
  {
    if s == [] then None
    else if s[0] == '"' then Some(([], s[1..]))
    else if s[0] == '\\' then
      match ParseEscape(s)
      case None => None
      case Some((c, n)) =>
        match ParseChars(s[n..])
        case None => None
        case Some((t, rest)) => Some(([c] + t, rest))
    else if (s[0] as int) < 0x20 then None
    else
      match ParseChars(s[1..])
      case None => None
      case Some((t, rest)) => Some(([s[0]] + t, rest))
  }

  /** Reads a JSON string literal from the front of `s`. */
  function ParseString(s: string): (r: Option<(string, string)>)
    ensures r.Some? ==> |r.value.1| < |s|
  {
    if s != [] && s[0] == '"' then ParseChars(s[1..]) else None
  }

  lemma ParseEscapeShort(c: char, rest: string)
    requires c == '\\' || c == '"' || c as int == 0x08 || c as int == 0x0C || c == '\n' || c == '\r' || c == '\t'
    ensures ParseEscape(EscapeChar(c) + rest) == Some((c, 2))
  {
    var s := EscapeChar(c) + rest;
    assert s[..2] == EscapeChar(c);
  }

  /** A `\u` escape reads as its hexadecimal part does. */
  lemma ParseEscapeUnicode(x: string, c: char, n: nat)
    requires ParseUnicodeEscape(x) == Some((c, n))
    ensures ParseEscape("\\u" + x) == Some((c, n + 2))
  {
    var s := "\\u" + x;
    assert s[0] == '\\' && s[1] == 'u' && s[2..] == x;
  }

  lemma ParseUnicodeBasic(v: int, rest: string)
    requires 0 <= v < 0xD800 || 0xE000 <= v < 0x10000
    ensures ParseUnicodeEscape(Hex4(v) + rest) == Some((v as char, 4))
  {
    ParseHex4Hex4(v, rest);
  }

  lemma ParseSurrogatePair(hi: int, lo: int, rest: string)
    requires 0xD800 <= hi < 0xDC00 && 0xDC00 <= lo < 0xE000
    ensures ParseUnicodeEscape(Hex4(hi) + "\\u" + Hex4(lo) + rest)
         == Some(((0x10000 + (hi - 0xD800) * 1024 + (lo - 0xDC00)) as char, 10))
  {
    var s := Hex4(hi) + "\\u" + Hex4(lo) + rest;
    assert s == Hex4(hi) + ("\\u" + Hex4(lo) + rest);
    ParseHex4Hex4(hi, "\\u" + Hex4(lo) + rest);
    assert s[4] == '\\' && s[5] == 'u';
    assert s[6..] == Hex4(lo) + rest;
    ParseHex4Hex4(lo, rest);
  }

  lemma ParseEscapeBasic(c: char, rest: string)
    requires !IsPrintable(c) && c as int < 0x10000
    requires c as int != 0x08 && c as int != 0x0C && c != '\n' && c != '\r' && c != '\t'
    ensures ParseEscape(EscapeChar(c) + rest) == Some((c, 6))
  {
    assert EscapeChar(c) + rest == "\\u" + (Hex4(c as int) + rest);
    ParseUnicodeBasic(c as int, rest);
    ParseEscapeUnicode(Hex4(c as int) + rest, c, 4);
  }

  lemma EscapeCharAstral(c: char)
    requires c as int >= 0x10000
    ensures EscapeChar(c) == SurrogateEscape(c as int)
  {
  }

  lemma SurrogateEscapeSplit(n: int, rest: string)
    requires 0x10000 <= n < 0x110000
    ensures SurrogateEscape(n) + rest
         == "\\u" + (Hex4(HighSurrogate(n)) + "\\u" + Hex4(LowSurrogate(n)) + rest)
  {
  }

  lemma ParseSurrogateEscape(n: int, rest: string)
    requires 0x10000 <= n < 0x110000
    ensures ParseEscape(SurrogateEscape(n) + rest) == Some((n as char, 12))
  {
    var hi, lo := HighSurrogate(n), LowSurrogate(n);
    var x := Hex4(hi) + "\\u" + Hex4(lo) + rest;
    SurrogateEscapeSplit(n, rest);
    ParseSurrogatePair(hi, lo, rest);
    assert 0x10000 + (hi - 0xD800) * 1024 + (lo - 0xDC00) == n;
    ParseEscapeUnicode(x, n as char, 10);
  }

  lemma ParseEscapeAstral(c: char, rest: string)
    requires c as int >= 0x10000
    ensures ParseEscape(EscapeChar(c) + rest) == Some((c, 12))
  {
    EscapeCharAstral(c);
    ParseSurrogateEscape(c as int, rest);
  }

  lemma ParseEscapeChar(c: char, rest: string)
    requires |EscapeChar(c)| > 1
    ensures ParseEscape(EscapeChar(c) + rest) == Some((c, |EscapeChar(c)|))
  {
    if c == '\\' || c == '"' || c as int == 0x08 || c as int == 0x0C || c == '\n' || c == '\r' || c == '\t' {
      ParseEscapeShort(c, rest);
    } else if c as int < 0x10000 {
      ParseEscapeBasic(c, rest);
    } else {
      ParseEscapeAstral(c, rest);
    }
  }

  /** One escaped character in front of `tail` reads back as that character
      in front of whatever `tail` reads back as. */
  lemma ParseCharsCons(c: char, tail: string)
    ensures ParseChars(EscapeChar(c) + tail)
         == match ParseChars(tail)
            case None => None
            case Some((u, rest)) => Some(([c] + u, rest))
  {
    var e := EscapeChar(c);
    var t := e + tail;
    if |e| == 1 {
      assert t[0] == c && t[1..] == tail;
    } else {
      ParseEscapeChar(c, tail);
      assert t[0] == '\\' && t[|e|..] == tail;
    }
  }

  /** Reading back an escaped body followed by the closing quote gives the
      original text and what follows the quote. */
  lemma {:induction false} ParseCharsEscapeBody(s: string, rest: string)
    ensures ParseChars(EscapeBody(s) + "\"" + rest) == Some((s, rest))
  {
    if s == [] {
      assert EscapeBody(s) + "\"" + rest == "\"" + rest;
    } else {
      var tail := EscapeBody(s[1..]) + "\"" + rest;
      assert EscapeBody(s) + "\"" + rest == EscapeChar(s[0]) + tail;
      ParseCharsEscapeBody(s[1..], rest);
      ParseCharsCons(s[0], tail);
      assert [s[0]] + s[1..] == s;
    }
  }

  /** Round trip for string literals. */
  lemma ParseQuote(s: string, rest: string)
    ensures ParseString(Quote(s) + rest) == Some((s, rest))
  {
    assert (Quote(s) + rest)[1..] == EscapeBody(s) + "\"" + rest;
    ParseCharsEscapeBody(s, rest);
  }

  lemma QuoteInjective(s: string, t: string)
    requires Quote(s) == Quote(t)
    ensures s == t
  {
    ParseQuote(s, []);
    ParseQuote(t, []);
    assert Quote(s) + [] == Quote(s) && Quote(t) + [] == Quote(t);
  }

  // ---------------------------------------------------------------------------
  // Flat objects

  /** The values a block holds: Python `int` and `str`. */
  datatype Value = Int(i: int) | Str(s: string)

  /** A key and its value; an object is a list of them in insertion order. */
  type Member = (string, Value)

  /** Python's `<` on `str`: lexicographic by code point. */
  predicate KeyLess(a: string, b: string) {
    if a == [] then b != []
    else if b == [] then false
    else if a[0] != b[0] then a[0] < b[0]
    else KeyLess(a[1..], b[1..])
  }

  lemma {:induction false} KeyLessAsymmetric(a: string, b: string)
    requires KeyLess(a, b)
    ensures !KeyLess(b, a)
  {
    if a != [] && b != [] && a[0] == b[0] {
      KeyLessAsymmetric(a[1..], b[1..]);
    }
  }

  /** No key is smaller than the one before it. */
  predicate SortedByKey(ms: seq<Member>) {
    forall k | 0 <= k < |ms| - 1 :: !KeyLess(ms[k + 1].0, ms[k].0)
  }

  /** Places `m` just before the first member with a larger key. */
  function Insert(m: Member, sorted: seq<Member>): seq<Member> {
    if sorted == [] then [m]
    else if KeyLess(m.0, sorted[0].0) then [m] + sorted
    else [sorted[0]] + Insert(m, sorted[1..])
  }

  /** `sorted(d.items())` for a dictionary with distinct keys: a stable sort
      by key. */
  function SortByKey(ms: seq<Member>): seq<Member> {
    if ms == [] then [] else Insert(ms[|ms| - 1], SortByKey(ms[..|ms| - 1]))
  }

  lemma InsertBefore(m: Member, sorted: seq<Member>)
    requires sorted != [] && KeyLess(m.0, sorted[0].0)
    ensures Insert(m, sorted) == [m] + sorted
  {
  }

  lemma InsertAfter(m: Member, sorted: seq<Member>)
    requires sorted != [] && !KeyLess(m.0, sorted[0].0)
    ensures Insert(m, sorted) == [sorted[0]] + Insert(m, sorted[1..])
  {
  }

  lemma SortByKeyStep(ms: seq<Member>, init: seq<Member>, last: Member)
    requires ms == init + [last]
    ensures SortByKey(ms) == Insert(last, SortByKey(init))
  {
    assert ms[..|ms| - 1] == init;
  }

  lemma {:induction false} InsertCorrect(m: Member, sorted: seq<Member>)
    requires SortedByKey(sorted)
    ensures SortedByKey(Insert(m, sorted))
    ensures multiset(Insert(m, sorted)) == multiset(sorted) + multiset{m}
    ensures Insert(m, sorted)[0] == m || (sorted != [] && Insert(m, sorted)[0] == sorted[0])
  {
    if sorted == [] {
    } else if KeyLess(m.0, sorted[0].0) {
      KeyLessAsymmetric(m.0, sorted[0].0);
    } else {
      var tail := sorted[1..];
      assert SortedByKey(tail) by {
        forall k | 0 <= k < |tail| - 1 ensures !KeyLess(tail[k + 1].0, tail[k].0) {
          assert tail[k] == sorted[k + 1] && tail[k + 1] == sorted[k + 2];
        }
      }
      InsertCorrect(m, tail);
      assert sorted == [sorted[0]] + tail;
    }
  }

  /** The sort yields the same members, ordered by key. */
  lemma {:induction false} SortByKeyCorrect(ms: seq<Member>)
    ensures SortedByKey(SortByKey(ms))
    ensures multiset(SortByKey(ms)) == multiset(ms)
  {
    if ms != [] {
      var init, last := ms[..|ms| - 1], ms[|ms| - 1];
      assert ms == init + [last];
      SortByKeyStep(ms, init, last);
      SortByKeyCorrect(init);
      InsertCorrect(last, SortByKey(init));
      assert multiset(ms) == multiset(init) + multiset{last};
    }
  }

  function RenderValue(v: Value): string {
    match v
    case Int(i) => Decimal.Show(i)
    case Str(s) => Quote(s)
  }

  function RenderMember(m: Member): string {
    Quote(m.0) + ": " + RenderValue(m.1)
  }

  /** The members joined by the default item separator ", ". */
  function RenderMembers(ms: seq<Member>): string {
    if ms == [] then ""
    else if |ms| == 1 then RenderMember(ms[0])
    else RenderMember(ms[0]) + ", " + RenderMembers(ms[1..])
  }

  lemma RenderMembersUnfold(ms: seq<Member>)
    requires |ms| >= 2
    ensures RenderMembers(ms) == RenderMember(ms[0]) + ", " + RenderMembers(ms[1..])
  {
  }

  /** Five members, written out. */
  lemma RenderFive(m1: Member, m2: Member, m3: Member, m4: Member, m5: Member)
    ensures RenderMembers([m1, m2, m3, m4, m5])
         == RenderMember(m1) + ", " + (RenderMember(m2) + ", " + (RenderMember(m3) + ", "
            + (RenderMember(m4) + ", " + RenderMember(m5))))
  {
    var ms := [m1, m2, m3, m4, m5];
    RenderMembersUnfold(ms);
    RenderMembersUnfold(ms[1..]);
    RenderMembersUnfold(ms[2..]);
    RenderMembersUnfold(ms[3..]);
    assert ms[4..] == [m5];
  }

  /** `json.dumps(obj, sort_keys=True)` for a flat object. */
  function Dumps(obj: seq<Member>): string {
    "{" + RenderMembers(SortByKey(obj)) + "}"
  }

  /** Reads `lit` from the front of `s`; returns what follows it. */
  function Expect(lit: string, s: string): (r: Option<string>)
    ensures r.Some? ==> |r.value| == |s| - |lit|
  {
    if |lit| <= |s| && s[..|lit|] == lit then Some(s[|lit|..]) else None
  }

  lemma ExpectPrefix(lit: string, rest: string)
    ensures Expect(lit, lit + rest) == Some(rest)
  {
    assert (lit + rest)[..|lit|] == lit && (lit + rest)[|lit|..] == rest;
  }

  /** Reads a string or an integer from the front of `s`. */
  function ParseValue(s: string): (r: Option<(Value, string)>)
    ensures r.Some? ==> |r.value.1| < |s|
  {
    if s != [] && s[0] == '"' then
      match ParseString(s)
      case None => None
      case Some((t, rest)) => Some((Str(t), rest))
    else
      match Decimal.ParseInt(s)
      case None => None
      case Some((i, rest)) => Some((Int(i), rest))
  }

  /** Reads one `"key": value` member from the front of `s`. */
  function ParseMember(s: string): (r: Option<(Member, string)>)
    ensures r.Some? ==> |r.value.1| < |s|
  {
    match ParseString(s)
    case None => None
    case Some((k, r1)) =>
      match Expect(": ", r1)
      case None => None
      case Some(r2) =>
        match ParseValue(r2)
        case None => None
        case Some((v, r3)) => Some(((k, v), r3))
  }

  /** Reads members separated by ", " up to and including the closing brace. */
  function ParseMembers(s: string): (r: Option<(seq<Member>, string)>)
    ensures r.Some? ==> |r.value.1| < |s|
    decreases |s|
  {
    match ParseMember(s)
    case None => None
    case Some((m, r1)) =>
      if |r1| >= 2 && r1[..2] == ", " then
        match ParseMembers(r1[2..])
        case None => None
        case Some((ms, r2)) => Some(([m] + ms, r2))
      else if r1 != [] && r1[0] == '}' then Some(([m], r1[1..]))
      else None
  }

  /** Reads a flat JSON object from the front of `s`; returns its members in
      the order written and what follows the closing brace. */
  function ParseObject(s: string): Option<(seq<Member>, string)> {
    if s == [] || s[0] != '{' then None
    else if |s| >= 2 && s[1] == '}' then Some(([], s[2..]))
    else ParseMembers(s[1..])
  }

  lemma ParseValueRender(v: Value, rest: string)
    requires !Decimal.StartsWithDigit(rest)
    ensures ParseValue(RenderValue(v) + rest) == Some((v, rest))
  {
    match v
    case Str(t) =>
      ParseQuote(t, rest);
      assert (Quote(t) + rest)[0] == '"';
    case Int(i) =>
      Decimal.ParseShow(i, rest);
      assert (Decimal.Show(i) + rest)[0] == Decimal.Show(i)[0];
  }

  lemma ParseMemberRender(m: Member, after: string)
    requires !Decimal.StartsWithDigit(after)
    ensures ParseMember(RenderMember(m) + after) == Some((m, after))
  {
    var tail := ": " + (RenderValue(m.1) + after);
    assert RenderMember(m) + after == Quote(m.0) + tail;
    ParseQuote(m.0, tail);
    ExpectPrefix(": ", RenderValue(m.1) + after);
    ParseValueRender(m.1, after);
  }

  lemma ParseMembersLast(m: Member, rest: string)
    ensures ParseMembers(RenderMember(m) + ("}" + rest)) == Some(([m], rest))
  {
    var after := "}" + rest;
    ParseMemberRender(m, after);
    assert !(|after| >= 2 && after[..2] == ", ") by {
      if |after| >= 2 {
        assert after[..2][0] == '}';
      }
    }
    assert after[0] == '}' && after[1..] == rest;
  }

  lemma ParseMembersNext(m: Member, more: string, ms: seq<Member>, rest: string)
    requires ParseMembers(more) == Some((ms, rest))
    ensures ParseMembers(RenderMember(m) + (", " + more)) == Some(([m] + ms, rest))
  {
    var after := ", " + more;
    ParseMemberRender(m, after);
    assert after[..2] == ", " && after[2..] == more;
  }

  lemma SeparatorAssoc(a: string, c: string, after: string)
    ensures a + ", " + c + after == a + (", " + (c + after))
  {
  }

  lemma RenderMembersSplit(ms: seq<Member>, after: string)
    requires |ms| >= 2
    ensures RenderMembers(ms) + after == RenderMember(ms[0]) + (", " + (RenderMembers(ms[1..]) + after))
  {
    RenderMembersUnfold(ms);
    SeparatorAssoc(RenderMember(ms[0]), RenderMembers(ms[1..]), after);
  }

  /** Round trip for the members of an object. */
  lemma {:induction false} ParseMembersRender(ms: seq<Member>, rest: string)
    requires ms != []
    ensures ParseMembers(RenderMembers(ms) + ("}" + rest)) == Some((ms, rest))
  {
    if |ms| == 1 {
      assert RenderMembers(ms) == RenderMember(ms[0]);
      ParseMembersLast(ms[0], rest);
      assert [ms[0]] == ms;
    } else {
      RenderMembersSplit(ms, "}" + rest);
      ParseMembersRender(ms[1..], rest);
      ParseMembersNext(ms[0], RenderMembers(ms[1..]) + ("}" + rest), ms[1..], rest);
      assert [ms[0]] + ms[1..] == ms;
    }
  }

  /** Round trip for `json.dumps(obj, sort_keys=True)`: reading the text back
      gives the members sorted by key. */
  lemma ParseDumps(obj: seq<Member>)
    ensures ParseObject(Dumps(obj)) == Some((SortByKey(obj), []))
  {
    var sorted := SortByKey(obj);
    var text := Dumps(obj);
    if sorted == [] {
      assert text == "{}";
      assert |text| == 2 && text[0] == '{' && text[1] == '}' && text[2..] == [];
    } else {
      var body := RenderMembers(sorted);
      assert text == "{" + (body + ("}" + []));
      assert text[1..] == body + ("}" + []);
      assert body[0] == '"' by {
        assert body == RenderMember(sorted[0]) || body == RenderMember(sorted[0]) + ", " + RenderMembers(sorted[1..]);
        assert RenderMember(sorted[0])[0] == '"';
      }
      assert text[1] == '"';
      ParseMembersRender(sorted, []);
    }
  }

  /** Objects with the same text have the same members in sorted order. */
  lemma DumpsInjective(a: seq<Member>, b: seq<Member>)
    requires Dumps(a) == Dumps(b)
    ensures SortByKey(a) == SortByKey(b)
  {
    ParseDumps(a);
    ParseDumps(b);
  }

  lemma PrintableAppend(a: string, b: string)
    requires AllPrintable(a) && AllPrintable(b)
    ensures AllPrintable(a + b)
  {
    forall k | 0 <= k < |a + b| ensures IsPrintable((a + b)[k]) {
      if k >= |a| {
        assert (a + b)[k] == b[k - |a|];
      }
    }
  }

  lemma Hex4Printable(v: int)
    requires 0 <= v < 0x10000
    ensures AllPrintable(Hex4(v))
  {
  }

  lemma UnicodeEscapePrintable(v: int)
    requires 0 <= v < 0x10000
    ensures AllPrintable("\\u" + Hex4(v))
  {
    Hex4Printable(v);
    PrintableAppend("\\u", Hex4(v));
  }

  lemma TwoPrintable(a: char, b: char)
    requires IsPrintable(a) && IsPrintable(b)
    ensures AllPrintable([a, b])
  {
  }

  predicate HasShortEscape(c: char) {
    c == '\\' || c == '"' || c as int == 0x08 || c as int == 0x0C || c == '\n' || c == '\r' || c == '\t'
  }

  lemma ShortEscapePrintable(c: char)
    requires HasShortEscape(c)
    ensures AllPrintable(EscapeChar(c))
  {
    var r := EscapeChar(c);
    assert |r| == 2 && r[0] == '\\';
    assert r[1] in "\\\"bfnrt";
    TwoPrintable(r[0], r[1]);
    assert r == [r[0], r[1]];
  }

  lemma JoinAssoc(a: string, b: string, c: string, d: string)
    ensures a + b + c + d == (a + b) + (c + d)
  {
  }

  lemma SurrogateEscapePrintable(n: int)
    requires 0x10000 <= n < 0x110000
    ensures AllPrintable(SurrogateEscape(n))
  {
    var h1, h2 := Hex4(HighSurrogate(n)), Hex4(LowSurrogate(n));
    JoinAssoc("\\u", h1, "\\u", h2);
    UnicodeEscapePrintable(HighSurrogate(n));
    UnicodeEscapePrintable(LowSurrogate(n));
    PrintableAppend("\\u" + h1, "\\u" + h2);
  }

  /** Every escape is printable ASCII: this is what `ensure_ascii` promises. */
  lemma EscapeCharPrintable(c: char)
    ensures AllPrintable(EscapeChar(c))
  {
    if HasShortEscape(c) {
      ShortEscapePrintable(c);
    } else if IsPrintable(c) {
      assert EscapeChar(c) == [c];
    } else if c as int < 0x10000 {
      assert EscapeChar(c) == "\\u" + Hex4(c as int);
      UnicodeEscapePrintable(c as int);
    } else {
      EscapeCharAstral(c);
      SurrogateEscapePrintable(c as int);
    }
  }

  lemma {:induction false} EscapeBodyPrintable(s: string)
    ensures AllPrintable(EscapeBody(s))
  {
    if s != [] {
      EscapeCharPrintable(s[0]);
      EscapeBodyPrintable(s[1..]);
      PrintableAppend(EscapeChar(s[0]), EscapeBody(s[1..]));
    }
  }

  /** A JSON string literal written with `ensure_ascii` holds printable ASCII
      only, whatever the string. */
  lemma QuotePrintable(s: string)
    ensures AllPrintable(Quote(s))
  {
    EscapeBodyPrintable(s);
    PrintableAppend("\"", EscapeBody(s));
    PrintableAppend("\"" + EscapeBody(s), "\"");
  }

  lemma ShowPrintable(n: int)
    ensures AllPrintable(Decimal.Show(n))
  {
    var s := Decimal.Show(n);
    forall k | 0 <= k < |s| ensures IsPrintable(s[k]) {
      if k > 0 {
        assert s[k] == s[1..][k - 1];
      }
    }
  }

  lemma RenderMemberPrintable(m: Member)
    ensures AllPrintable(RenderMember(m))
  {
    QuotePrintable(m.0);
    match m.1 {
      case Str(t) => QuotePrintable(t);
      case Int(i) => ShowPrintable(i);
    }
    PrintableAppend(Quote(m.0), ": ");
    PrintableAppend(Quote(m.0) + ": ", RenderValue(m.1));
  }

  lemma {:induction false} RenderMembersPrintable(ms: seq<Member>)
    ensures AllPrintable(RenderMembers(ms))
  {
    if |ms| == 1 {
      RenderMemberPrintable(ms[0]);
    } else if |ms| >= 2 {
      RenderMemberPrintable(ms[0]);
      RenderMembersPrintable(ms[1..]);
      PrintableAppend(RenderMember(ms[0]), ", ");
      PrintableAppend(RenderMember(ms[0]) + ", ", RenderMembers(ms[1..]));
    }
  }

  /** The whole text of `json.dumps` is printable ASCII. */
  lemma DumpsPrintable(obj: seq<Member>)
    ensures AllPrintable(Dumps(obj))
  {
    RenderMembersPrintable(SortByKey(obj));
    PrintableAppend("{", RenderMembers(SortByKey(obj)));
    PrintableAppend("{" + RenderMembers(SortByKey(obj)), "}");
  }
}
