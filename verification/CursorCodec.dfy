/** The opaque cursor: JSON of the instant and the id, in unpadded base64url
    (section 5 of RFC 4648). */
module CursorCodec {
  import opened Prelude
  import opened Numerals
  import opened IsoDate

  /** `createdAt` is the time value of a Date, in milliseconds. */
  datatype Cursor = Cursor(createdAt: int, id: string)

  // ---------- base64url ----------

  type Byte = b: int | 0 <= b < 256

  function SextetChar(v: int): char
    requires 0 <= v < 64
  {
    if v < 26 then 'A' + v as char
    else if v < 52 then 'a' + (v - 26) as char
    else if v < 62 then '0' + (v - 52) as char
    else if v == 62 then '-'
    else '_'
  }

  function Sextet(c: char): (v: Option<int>)
    ensures v.Some? ==> 0 <= v.value < 64
  {
    if 'A' <= c <= 'Z' then Some(c as int - 'A' as int)
    else if 'a' <= c <= 'z' then Some(c as int - 'a' as int + 26)
    else if '0' <= c <= '9' then Some(c as int - '0' as int + 52)
    else if c == '-' then Some(62)
    else if c == '_' then Some(63)
    else None
  }

  lemma SextetRoundTrip(v: int)
    requires 0 <= v < 64
    ensures Sextet(SextetChar(v)) == Some(v)
  {
  }

  function ToBase64Url(b: seq<Byte>): string {
    if |b| == 0 then ""
    else if |b| == 1 then Head(b[0], 0)
    else if |b| == 2 then Head(b[0], b[1]) + [SextetChar(b[1] % 16 * 4)]
    else Group(b[0], b[1], b[2]) + ToBase64Url(b[3..])
  }

  function Head(a: Byte, b: Byte): (s: string)
    ensures |s| == 2
  {
    [SextetChar(a / 4), SextetChar(a % 4 * 16 + b / 16)]
  }

  function Group(a: Byte, b: Byte, c: Byte): string {
    Head(a, b) + [SextetChar(b % 16 * 4 + c / 64), SextetChar(c % 64)]
  }

  /** The bytes of one group of two, three or four characters. */
  function FromGroup(s: string): Option<seq<Byte>>
    requires |s| <= 4
  {
    if |s| < 2 then None else
      var v, w := Sextet(s[0]), Sextet(s[1]);
      if v.None? || w.None? then None
      else if |s| == 2 then Some([v.value * 4 + w.value / 16])
      else
        var x := Sextet(s[2]);
        if x.None? then None
        else if |s| == 3 then Some([v.value * 4 + w.value / 16, w.value % 16 * 16 + x.value / 4])
        else
          var y := Sextet(s[3]);
          if y.None? then None
          else Some([v.value * 4 + w.value / 16, w.value % 16 * 16 + x.value / 4, x.value % 4 * 64 + y.value])
  }

  function FromBase64Url(s: string): Option<seq<Byte>> {
    if |s| == 0 then Some([])
    else if |s| < 4 then FromGroup(s)
    else
      var first, rest := FromGroup(s[..4]), FromBase64Url(s[4..]);
      if first.None? || rest.None? then None else Some(first.value + rest.value)
  }

  lemma Bits(a: Byte, b: Byte, c: Byte)
    ensures a / 4 < 64 && a % 4 * 16 + b / 16 < 64 && b % 16 * 4 + c / 64 < 64 && c % 64 < 64
    ensures a / 4 * 4 + (a % 4 * 16 + b / 16) / 16 == a
    ensures (a % 4 * 16 + b / 16) % 16 * 16 + (b % 16 * 4 + c / 64) / 4 == b
    ensures (b % 16 * 4 + c / 64) % 4 * 64 + c % 64 == c
  {
  }

  lemma HeadRoundTrip(a: Byte, b: Byte)
    ensures Sextet(Head(a, b)[0]) == Some(a / 4)
    ensures Sextet(Head(a, b)[1]) == Some(a % 4 * 16 + b / 16)
  {
    SextetRoundTrip(a / 4);
    SextetRoundTrip(a % 4 * 16 + b / 16);
  }

  lemma GroupRoundTrip(a: Byte, b: Byte, c: Byte)
    ensures FromGroup(Group(a, b, c)) == Some([a, b, c])
  {
    Bits(a, b, c);
    HeadRoundTrip(a, b);
    SextetRoundTrip(b % 16 * 4 + c / 64);
    SextetRoundTrip(c % 64);
  }

  lemma DecodeGroup(group: string, g: seq<Byte>, rest: string, r: seq<Byte>)
    requires |group| == 4 && FromGroup(group) == Some(g) && FromBase64Url(rest) == Some(r)
    ensures FromBase64Url(group + rest) == Some(g + r)
  {
    assert (group + rest)[..4] == group && (group + rest)[4..] == rest;
  }

  lemma OneByte(a: Byte)
    ensures FromGroup(Head(a, 0)) == Some([a])
  {
    Bits(a, 0, 0);
    HeadRoundTrip(a, 0);
  }

  lemma TwoBytes(a: Byte, b: Byte)
    ensures FromGroup(Head(a, b) + [SextetChar(b % 16 * 4)]) == Some([a, b])
  {
    Bits(a, b, 0);
    HeadRoundTrip(a, b);
    SextetRoundTrip(b % 16 * 4);
  }

  lemma {:induction false} Base64RoundTrip(b: seq<Byte>)
    ensures FromBase64Url(ToBase64Url(b)) == Some(b)
  {
    if |b| > 2 {
      var group, rest := [b[0], b[1], b[2]], b[3..];
      GroupRoundTrip(b[0], b[1], b[2]);
      Base64RoundTrip(rest);
      DecodeGroup(Group(b[0], b[1], b[2]), group, ToBase64Url(rest), rest);
      assert b == group + rest;
    } else if |b| == 2 {
      TwoBytes(b[0], b[1]);
      assert b == [b[0], b[1]];
    } else if |b| == 1 {
      OneByte(b[0]);
      assert b == [b[0]];
    }
  }

  const UPPER := "ABCDEFGHIJKLMNOPQRSTUVWXYZ"
  const OTHERS := "0123456789-_"
  const LOWER := "abcdefghijklmnopqrstuvwxyz"

  /** The URL and filename safe alphabet, RFC 4648 table 2. */
  const ALPHABET := UPPER + LOWER + OTHERS

  lemma UpperTable(v: int)
    requires 0 <= v < 26
    ensures UPPER[v] == 'A' + v as char
  {
  }

  lemma LowerTable(v: int)
    requires 0 <= v < 26
    ensures LOWER[v] == 'a' + v as char
  {
  }

  lemma OtherTable(v: int)
    requires 52 <= v < 64
    ensures OTHERS[v - 52] == SextetChar(v)
  {
  }

  lemma ThreeParts(a: string, b: string, c: string, v: nat)
    requires v < |a| + |b| + |c|
    ensures (a + b + c)[v] == if v < |a| then a[v] else if v < |a| + |b| then b[v - |a|] else c[v - |a| - |b|]
  {
  }

  lemma AlphabetTable(v: int)
    requires 0 <= v < 64
    ensures |ALPHABET| == 64 && SextetChar(v) == ALPHABET[v] && Sextet(ALPHABET[v]) == Some(v)
  {
    ThreeParts(UPPER, LOWER, OTHERS, v);
    SextetRoundTrip(v);
    if v < 26 {
      UpperTable(v);
    } else if v < 52 {
      LowerTable(v - 26);
    } else {
      OtherTable(v);
    }
  }

  lemma FourSextets(n: int, p: int, q: int, r: int, u: int)
    requires 0 <= p < 64 && 0 <= q < 64 && 0 <= r < 64 && 0 <= u < 64
    requires n == p * 0x4_0000 + q * 0x1000 + r * 64 + u
    ensures n / 0x4_0000 == p && n / 0x1000 % 64 == q && n / 64 % 64 == r && n % 64 == u
  {
    assert n / 0x1000 == p * 64 + q;
    assert n / 64 == p * 0x1000 + q * 64 + r;
  }

  /** Three bytes in a row, as a number. */
  function Bits24(a: Byte, b: Byte, c: Byte): (n: int)
    ensures 0 <= n < 0x100_0000
  {
    a as int * 0x1_0000 + b as int * 0x100 + c
  }

  lemma SextetSum(a: Byte, b: Byte, c: Byte)
    ensures
      Bits24(a, b, c) ==
      a / 4 * 0x4_0000 + (a % 4 * 16 + b / 16) * 0x1000 + (b % 16 * 4 + c / 64) * 64 + c % 64
  {
    assert a == a / 4 * 4 + a % 4 && b == b / 16 * 16 + b % 16 && c == c / 64 * 64 + c % 64;
  }

  lemma GroupBits(a: Byte, b: Byte, c: Byte)
    ensures
      var n := Bits24(a, b, c);
      && n / 0x4_0000 == a / 4 && n / 0x1000 % 64 == a % 4 * 16 + b / 16
      && n / 64 % 64 == b % 16 * 4 + c / 64 && n % 64 == c % 64
  {
    SextetSum(a, b, c);
    FourSextets(Bits24(a, b, c), a / 4, a % 4 * 16 + b / 16, b % 16 * 4 + c / 64, c % 64);
  }

  /** The four characters of the 24 bits `n`, from the left. */
  function Quartet(n: int): (s: string)
    requires 0 <= n < 0x100_0000
    ensures |s| == 4
  {
    [ALPHABET[n / 0x4_0000], ALPHABET[n / 0x1000 % 64], ALPHABET[n / 64 % 64], ALPHABET[n % 64]]
  }

  lemma GroupIsQuartet(a: Byte, b: Byte, c: Byte)
    ensures Group(a, b, c) == Quartet(Bits24(a, b, c))
  {
    Bits(a, b, c);
    GroupBits(a, b, c);
    AlphabetTable(a / 4);
    AlphabetTable(a % 4 * 16 + b / 16);
    AlphabetTable(b % 16 * 4 + c / 64);
    AlphabetTable(c % 64);
  }

  lemma GroupStarts(a: Byte, b: Byte)
    ensures Group(a, b, 0)[..3] == Head(a, b) + [SextetChar(b % 16 * 4)]
    ensures Group(a, b, 0)[..2] == Head(a, b)
  {
    hide SextetChar, Head;
    assert b % 16 * 4 + 0 / 64 == b % 16 * 4;
  }

  lemma Tails(a: Byte, b: Byte)
    ensures Head(a, b) + [SextetChar(b % 16 * 4)] == Quartet(Bits24(a, b, 0))[..3]
    ensures Head(a, b) == Quartet(Bits24(a, b, 0))[..2]
  {
    hide Quartet, SextetChar, Head, Group, Bits24;
    GroupIsQuartet(a, b, 0);
    GroupStarts(a, b);
  }

  function ByteAt(b: seq<Byte>, i: nat): Byte {
    if i < |b| then b[i] else 0
  }

  /** The 24 bits of the i-th three bytes, with zeros after the last one. */
  function BitsAt(b: seq<Byte>, i: nat): (n: int)
    ensures 0 <= n < 0x100_0000
  {
    Bits24(ByteAt(b, 3 * i), ByteAt(b, 3 * i + 1), ByteAt(b, 3 * i + 2))
  }

  lemma FirstBits(b: seq<Byte>)
    requires |b| > 0
    ensures BitsAt(b, 0) == Bits24(b[0], if |b| > 1 then b[1] else 0, if |b| > 2 then b[2] else 0)
  {
  }

  lemma FirstQuartet(b: seq<Byte>)
    requires |b| > 0
    ensures
      var s := ToBase64Url(b);
      if |b| >= 3 then s == Quartet(BitsAt(b, 0)) + ToBase64Url(b[3..])
      else s == Quartet(BitsAt(b, 0))[..|b| + 1]
  {
    hide Quartet, SextetChar, Head, Group, BitsAt, Bits24;
    FirstBits(b);
    if |b| >= 3 {
      GroupIsQuartet(b[0], b[1], b[2]);
    } else {
      Tails(b[0], if |b| > 1 then b[1] else 0);
    }
  }

  lemma NextBits(b: seq<Byte>, i: nat)
    requires |b| >= 3
    ensures BitsAt(b[3..], i) == BitsAt(b, i + 1)
  {
    assert forall j: nat :: ByteAt(b[3..], j) == ByteAt(b, j + 3);
  }

  /** The text of any bytes, character by character: the i-th three bytes are the i-th
      four characters, a last one or two bytes are two or three, and there is no padding. */
  lemma {:induction false} Base64Layout(b: seq<Byte>, i: nat)
    requires 3 * i < |b|
    ensures
      var s, left := ToBase64Url(b), |b| - 3 * i;
      && |s| == (4 * |b| + 2) / 3
      && 4 * i <= |s|
      && (if left >= 3 then 4 * i + 4 <= |s| && s[4 * i..4 * i + 4] == Quartet(BitsAt(b, i))
          else s[4 * i..] == Quartet(BitsAt(b, i))[..left + 1])
  {
    hide Quartet, BitsAt, ToBase64Url;
    FirstQuartet(b);
    Base64Length(b);
    if i > 0 {
      var s, rest := ToBase64Url(b), ToBase64Url(b[3..]);
      Base64Layout(b[3..], i - 1);
      NextBits(b, i - 1);
      assert s[4..] == rest;
      if |b| - 3 * i >= 3 {
        assert s[4 * i..4 * i + 4] == rest[4 * i - 4..4 * i];
      } else {
        assert s[4 * i..] == rest[4 * i - 4..];
      }
    }
  }

  lemma {:induction false} Base64Length(b: seq<Byte>)
    ensures |ToBase64Url(b)| == (4 * |b| + 2) / 3
  {
    if |b| > 0 {
      FirstQuartet(b);
      if |b| >= 3 {
        Base64Length(b[3..]);
      }
    }
  }

  // ---------- bytes of ASCII text ----------

  predicate IsAscii(s: string) {
    forall i :: 0 <= i < |s| ==> s[i] as int < 128
  }

  lemma AsciiConcat(a: string, b: string)
    requires IsAscii(a) && IsAscii(b)
    ensures IsAscii(a + b)
  {
  }

  function Utf8(s: string): (b: seq<Byte>)
    requires IsAscii(s)
  {
    seq(|s|, i requires 0 <= i < |s| => s[i] as int)
  }

  function FromUtf8(b: seq<Byte>): Option<string> {
    if exists i :: 0 <= i < |b| && b[i] >= 128 then None
    else Some(seq(|b|, i requires 0 <= i < |b| => b[i] as char))
  }

  lemma Utf8RoundTrip(s: string)
    requires IsAscii(s)
    ensures FromUtf8(Utf8(s)) == Some(s)
  {
    var b := Utf8(s);
    assert seq(|b|, i requires 0 <= i < |b| => b[i] as char) == s;
  }

  // ---------- JSON (RFC 8259): an object whose members are strings ----------

  function Quoted(s: string): (q: string)
    ensures IsPlain(s) ==> IsAscii(q)
  {
    ['"'] + s + ['"']
  }

  function UpToQuote(s: string): (r: Option<(string, string)>)
    ensures r.Some? ==> |r.value.1| < |s|
  {
    if s == "" || s[0] < ' ' || s[0] == '\\' then None
    else if s[0] == '"' then Some(("", s[1..]))
    else
      match UpToQuote(s[1..])
      case None => None
      case Some((text, rest)) => Some(([s[0]] + text, rest))
  }

  function ReadString(s: string): (r: Option<(string, string)>)
    ensures r.Some? ==> |r.value.1| < |s|
  {
    if s == "" || s[0] != '"' then None else UpToQuote(s[1..])
  }

  lemma {:induction false} UpToQuoteStops(text: string, rest: string)
    requires IsPlain(text)
    ensures UpToQuote(text + ['"'] + rest) == Some((text, rest))
  {
    var s := text + ['"'] + rest;
    if text == "" {
      assert s[1..] == rest;
    } else {
      UpToQuoteStops(text[1..], rest);
      assert s[1..] == text[1..] + ['"'] + rest;
      assert s[0] == text[0] && IsPlainChar(text[0]);
      assert text == [text[0]] + text[1..];
    }
  }

  lemma StringRoundTrip(text: string, rest: string)
    requires IsPlain(text)
    ensures ReadString(Quoted(text) + rest) == Some((text, rest))
  {
    UpToQuoteStops(text, rest);
    assert (Quoted(text) + rest)[1..] == text + ['"'] + rest;
  }

  function Member(name: string, value: string): (m: string)
    ensures IsPlain(name) && IsPlain(value) ==> IsAscii(m)
  {
    Quoted(name) + ([':'] + Quoted(value))
  }

  function ReadMembers(s: string, members: map<string, string>): Option<map<string, string>>
    decreases |s|
  {
    match ReadString(s)
    case None => None
    case Some((name, rest)) =>
      if rest == "" || rest[0] != ':' then None else
        match ReadString(rest[1..])
        case None => None
        case Some((value, rest)) =>
          var members := members[name := value];
          if rest == "}" then Some(members)
          else if rest != "" && rest[0] == ',' then ReadMembers(rest[1..], members)
          else None
  }

  /** JSON.parse on an object of plain strings. */
  function ReadObject(s: string): Option<map<string, string>> {
    if s == "" || s[0] != '{' then None
    else if s == "{}" then Some(map[])
    else ReadMembers(s[1..], map[])
  }

  lemma MemberRoundTrip(name: string, value: string, rest: string, members: map<string, string>)
    requires IsPlain(name) && IsPlain(value) && rest != ""
    ensures
      ReadMembers(Member(name, value) + rest, members) ==
      var members := members[name := value];
      if rest == "}" then Some(members) else if rest[0] == ',' then ReadMembers(rest[1..], members) else None
  {
    var tail := [':'] + Quoted(value) + rest;
    assert Member(name, value) + rest == Quoted(name) + tail;
    StringRoundTrip(name, tail);
    assert tail[1..] == Quoted(value) + rest;
    StringRoundTrip(value, rest);
  }

  function Payload(cursor: Cursor): string
    requires -MAX_TIME <= cursor.createdAt <= MAX_TIME
  {
    "{" + (Member("createdAt", DateText(cursor.createdAt)) + ("," + (Member("id", cursor.id) + "}")))
  }

  lemma PayloadRoundTrip(cursor: Cursor)
    requires -MAX_TIME <= cursor.createdAt <= MAX_TIME && IsPlain(cursor.id)
    ensures ReadObject(Payload(cursor)) ==
            Some(map["createdAt" := DateText(cursor.createdAt), "id" := cursor.id])
  {
    var date := DateText(cursor.createdAt);
    var second := Member("id", cursor.id) + "}";
    var first := Member("createdAt", date) + ("," + second);
    assert Payload(cursor)[1..] == first;
    MemberRoundTrip("createdAt", date, "," + second, map[]);
    assert ("," + second)[1..] == second;
    MemberRoundTrip("id", cursor.id, "}", map["createdAt" := date]);
  }

  // ---------- encodeCursor, decodeCursor ----------

  predicate Encodable(cursor: Cursor) {
    -MAX_TIME <= cursor.createdAt <= MAX_TIME && IsPlain(cursor.id)
  }

  lemma PayloadIsAscii(cursor: Cursor)
    requires Encodable(cursor)
    ensures IsAscii(Payload(cursor)) && |Payload(cursor)| > 0
  {
    var second := Member("id", cursor.id);
    var first := Member("createdAt", DateText(cursor.createdAt));
    hide DateText, IsAscii, IsPlain, Quoted;
    AsciiConcat(second, "}");
    AsciiConcat(",", second + "}");
    AsciiConcat(first, "," + (second + "}"));
    AsciiConcat("{", first + ("," + (second + "}")));
  }

  function EncodeCursor(cursor: Cursor): string
    requires Encodable(cursor)
  {
    PayloadIsAscii(cursor);
    ToBase64Url(Utf8(Payload(cursor)))
  }

  function ParseCursor(text: string): (cursor: Option<Cursor>)
    ensures cursor.Some? ==> -MAX_TIME <= cursor.value.createdAt <= MAX_TIME
  {
    match ReadObject(text)
    case None => None
    case Some(members) =>
      if "createdAt" !in members || "id" !in members then None else
        match ReadDate(members["createdAt"])
        case None => None
        case Some(t) => Some(Cursor(t, members["id"]))
  }

  function DecodeCursor(raw: Option<string>): (cursor: Option<Cursor>)
    ensures cursor.Some? ==> -MAX_TIME <= cursor.value.createdAt <= MAX_TIME
  {
    if raw.None? || raw.value == "" then None else
      match FromBase64Url(raw.value)
      case None => None
      case Some(bytes) =>
        match FromUtf8(bytes)
        case None => None
        case Some(text) => ParseCursor(text)
  }

  lemma ParsePayload(cursor: Cursor)
    requires Encodable(cursor)
    ensures ParseCursor(Payload(cursor)) == Some(cursor)
  {
    hide ReadObject, Payload, DateText, ReadDate, IsPlain;
    PayloadRoundTrip(cursor);
    DateRoundTrip(cursor.createdAt);
    assert "createdAt" != "id";
  }

  /** The text that is encoded, byte for byte. */
  lemma EncodedText(cursor: Cursor) returns (bytes: seq<Byte>)
    requires Encodable(cursor)
    ensures
      var text := "{\"createdAt\":\"" + DateText(cursor.createdAt) + "\",\"id\":\"" + cursor.id + "\"}";
      && EncodeCursor(cursor) == ToBase64Url(bytes)
      && |bytes| == |text| && forall i :: 0 <= i < |text| ==> bytes[i] == text[i] as int
  {
    hide DateText, ToBase64Url;
    var text := "{\"createdAt\":\"" + DateText(cursor.createdAt) + "\",\"id\":\"" + cursor.id + "\"}";
    PayloadIsAscii(cursor);
    bytes := Utf8(Payload(cursor));
    assert Payload(cursor) == text;
  }

  /** A cursor survives its trip through the client, whatever the millisecond. */
  lemma CursorRoundTrip(cursor: Cursor)
    requires Encodable(cursor)
    ensures EncodeCursor(cursor) != ""
    ensures DecodeCursor(Some(EncodeCursor(cursor))) == Some(cursor)
  {
    PayloadIsAscii(cursor);
    Base64RoundTrip(Utf8(Payload(cursor)));
    Utf8RoundTrip(Payload(cursor));
    ParsePayload(cursor);
  }

  // ---------- ids ----------

  const UUID_COUNT := 0x1_0000_0000_0000_0000_0000_0000_0000_0000

  type Id = n: nat | n < UUID_COUNT

  lemma UuidDigits()
    ensures Pow(Hex, 32) == UUID_COUNT
  {
    assert Pow(Hex, 4) == 0x1_0000;
    PowAdds(4, 4);
    PowAdds(8, 8);
    PowAdds(16, 16);
  }

  lemma {:induction false} PowAdds(m: nat, n: nat)
    ensures Pow(Hex, m + n) == Pow(Hex, m) * Pow(Hex, n)
  {
    if m > 0 {
      PowAdds(m - 1, n);
      assert Pow(Hex, m + n) == 16 * Pow(Hex, m - 1 + n);
    }
  }

  function IdText(id: Id): (s: string)
    ensures IsPlain(s)
  {
    Hyphenated(Write(id, Hex, 32))
  }

  function Hyphenated(h: string): (s: string)
    requires |h| == 32 && IsPlain(h)
    ensures IsPlain(s)
  {
    h[..8] + "-" + h[8..12] + "-" + h[12..16] + "-" + h[16..20] + "-" + h[20..]
  }

  /** The uuid column's reading of a text in canonical form. */
  function ReadId(s: string): Option<Id> {
    if |s| != 36 || s[8] != '-' || s[13] != '-' || s[18] != '-' || s[23] != '-' then None
    else
      match Read(s[..8] + s[9..13] + s[14..18] + s[19..23] + s[24..], Hex)
      case None => None
      case Some(n) => if n < UUID_COUNT then Some(n) else None
  }

  lemma HyphensRemoved(h: string)
    requires |h| == 32 && IsPlain(h)
    ensures
      var s := Hyphenated(h);
      && |s| == 36 && s[8] == s[13] == s[18] == s[23] == '-'
      && s[..8] + s[9..13] + s[14..18] + s[19..23] + s[24..] == h
  {
    var s := Hyphenated(h);
    assert s[..8] == h[..8];
    assert s[9..13] == h[8..12];
    assert s[14..18] == h[12..16];
    assert s[19..23] == h[16..20];
    assert s[24..] == h[20..];
    assert h == h[..8] + h[8..12] + h[12..16] + h[16..20] + h[20..];
  }

  lemma IdRoundTrip(id: Id)
    ensures ReadId(IdText(id)) == Some(id)
  {
    UuidDigits();
    HyphensRemoved(Write(id, Hex, 32));
    ReadWrite(id, Hex, 32);
  }

  /** Where the i-th of 32 characters stands between the hyphens. */
  function Place(i: nat): nat {
    if i < 8 then i else if i < 12 then i + 1 else if i < 16 then i + 2 else if i < 20 then i + 3 else i + 4
  }

  /** The uuid's text: 32 lower-case hexadecimal digits, the last one counting ones, and
      hyphens after the 8th, 12th, 16th and 20th. */
  lemma IdLayout(id: Id, i: nat)
    requires i < 32
    ensures
      var s := IdText(id);
      && |s| == 36 && s[8] == s[13] == s[18] == s[23] == '-'
      && s[Place(31 - i)] == DIGITS[Shifted(id, Hex, i) % 16]
  {
    var h := Write(id, Hex, 32);
    DigitFromTheRight(id, Hex, 32, i);
    HyphensRemoved(h);
    hide Write, Shifted;
    PlaceOfDigit(h, 31 - i);
  }

  lemma PlaceOfDigit(h: string, i: nat)
    requires |h| == 32 && IsPlain(h) && i < 32
    ensures |Hyphenated(h)| == 36 && Hyphenated(h)[Place(i)] == h[i]
  {
  }
}
