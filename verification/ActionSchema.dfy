/** The signed action: validation, the canonical JSON encoding, and its left inverse.

    A text field is a sequence of Unicode scalar values; the encoding is a sequence of bytes. */
module ActionSchema {
  import opened Hashing
  import opened Wrappers

  type int64 = x: int | -0x8000_0000_0000_0000 <= x < 0x8000_0000_0000_0000

  const SCHEMA_VERSION: int := 1
  const NONCE_HEX_LEN: nat := 32
  const MAX_SKEW_MILLIS: int := 30_000
  const NONCE_WINDOW_MS: int := 600_000
  const SIGNATURE_SIZE: nat := 64
  const PUBLIC_KEY_SIZE: nat := 32

  datatype Action = Action(schemaVersion: int, agentId: string, actionType: string, target: string,
                           timestampMs: int64, nonce: string)

  datatype ActionError = ErrSchemaVersion | ErrEmptyField | ErrNonceShape

  // Text

  /** The UTF-8 encoding of one character. */
  function Utf8Char(ch: char): (b: Bytes)
    ensures |b| > 0
  {
    var c := ch as int;
    if c < 0x80 then [c as byte]
    else if c < 0x800 then [(0xC0 + c / 64) as byte, (0x80 + c % 64) as byte]
    else if c < 0x10000 then [(0xE0 + c / 4096) as byte, (0x80 + c / 64 % 64) as byte, (0x80 + c % 64) as byte]
    else [(0xF0 + c / 262144) as byte, (0x80 + c / 4096 % 64) as byte, (0x80 + c / 64 % 64) as byte,
          (0x80 + c % 64) as byte]
  }

  function Utf8(s: string): Bytes {
    if s == "" then [] else Utf8Char(s[0]) + Utf8(s[1..])
  }

  predicate IsHexDigit(ch: char) {
    '0' <= ch <= '9' || 'a' <= ch <= 'f' || 'A' <= ch <= 'F'
  }

  /** The structural checks, in the order of the source; lengths count bytes. */
  function Validate(a: Action): Option<ActionError> {
    if a.schemaVersion != SCHEMA_VERSION then Some(ErrSchemaVersion)
    else if a.agentId == "" || a.actionType == "" || a.target == "" then Some(ErrEmptyField)
    else if |Utf8(a.nonce)| != NONCE_HEX_LEN then Some(ErrNonceShape)
    else if exists i :: 0 <= i < |a.nonce| && !IsHexDigit(a.nonce[i]) then Some(ErrNonceShape)
    else if exists i :: 0 <= i < |a.nonce| && 'A' <= a.nonce[i] <= 'F' then Some(ErrNonceShape)
    else None
  }

  lemma {:induction false} Utf8Ascii(s: string)
    requires forall i :: 0 <= i < |s| ==> s[i] as int < 0x80
    ensures |Utf8(s)| == |s|
  {
    if s != "" {
      Utf8Ascii(s[1..]);
    }
  }

  /** An action is accepted exactly when its version is supported, no field is empty and the nonce
      is 32 lowercase hexadecimal characters. */
  lemma {:induction false} ValidateExact(a: Action)
    ensures Validate(a).None? <==>
            && a.schemaVersion == 1
            && a.agentId != "" && a.actionType != "" && a.target != ""
            && |a.nonce| == 32
            && forall i :: 0 <= i < |a.nonce| ==> '0' <= a.nonce[i] <= '9' || 'a' <= a.nonce[i] <= 'f'
  {
    if forall i :: 0 <= i < |a.nonce| ==> a.nonce[i] as int < 0x80 {
      Utf8Ascii(a.nonce);
    }
  }

  const QUOTE: byte := 0x22
  const BACKSLASH: byte := 0x5C
  const BRACE: byte := 0x7D
  const MINUS: byte := 0x2D

  function HexDigit(n: int): byte
    requires 0 <= n < 16
  {
    if n < 10 then (0x30 + n) as byte else (0x57 + n) as byte
  }

  /** A character inside a JSON string: short escapes, \u escapes for the other control characters
      and the two line separators, and UTF-8 for the rest. */
  function JsonChar(ch: char): (b: Bytes)
    ensures |b| > 0 && b[0] != QUOTE
  {
    var c := ch as int;
    if c == 0x22 || c == 0x5C then [BACKSLASH, c as byte]
    else if c == 8 then [BACKSLASH, 0x62]
    else if c == 9 then [BACKSLASH, 0x74]
    else if c == 10 then [BACKSLASH, 0x6E]
    else if c == 12 then [BACKSLASH, 0x66]
    else if c == 13 then [BACKSLASH, 0x72]
    else if c < 0x20 then [BACKSLASH, 0x75, 0x30, 0x30, HexDigit(c / 16), HexDigit(c % 16)]
    else if c == 0x2028 || c == 0x2029 then [BACKSLASH, 0x75, 0x32, 0x30, 0x32, HexDigit(c % 16)]
    else Utf8Char(ch)
  }

  /** The minimal escaping of the schema document: quote and backslash, and the control characters
      below U+0020 as \u escapes. */
  function MinimalJsonChar(ch: char): Bytes {
    var c := ch as int;
    if c == 0x22 || c == 0x5C then [BACKSLASH, c as byte]
    else if c < 0x20 then [BACKSLASH, 0x75, 0x30, 0x30, HexDigit(c / 16), HexDigit(c % 16)]
    else Utf8Char(ch)
  }

  /** The encoder departs from it on exactly seven characters: five control characters with short
      escapes, and the two line separators. */
  lemma {:induction false} EscapesDiffer(ch: char)
    ensures JsonChar(ch) != MinimalJsonChar(ch) <==>
            var c := ch as int; c == 8 || c == 9 || c == 10 || c == 12 || c == 13 || c == 0x2028 || c == 0x2029
  {
    if ch as int == 0x2028 || ch as int == 0x2029 {
      assert JsonChar(ch)[0] != MinimalJsonChar(ch)[0];
    } else if JsonChar(ch) != MinimalJsonChar(ch) {
      assert |JsonChar(ch)| == 2;
    }
  }

  function JsonText(s: string): Bytes {
    if s == "" then [] else JsonChar(s[0]) + JsonText(s[1..])
  }

  /** Decimal digits of a natural number. */
  function Digits(n: nat): (b: Bytes)
    ensures |b| > 0 && b[0] != MINUS
  {
    if n < 10 then [(0x30 + n) as byte] else Digits(n / 10) + [(0x30 + n % 10) as byte]
  }

  function JsonInt(n: int): Bytes {
    if n < 0 then [MINUS] + Digits(-n) else Digits(n)
  }

  // The six keys in sorted order, with the punctuation around them; the schema version is fixed.
  const KEY_ACTION_TYPE := "{\"action_type\":\""
  const KEY_AGENT_ID := ",\"agent_id\":\""
  const KEY_NONCE := ",\"nonce\":\""
  const KEY_TARGET := ",\"schema_version\":1,\"target\":\""
  const KEY_TIMESTAMP := ",\"timestamp\":"

  /** The bytes of an ASCII literal. */
  function Ascii(s: string): (b: Bytes)
    ensures |b| == |s|
  {
    seq(|s|, i requires 0 <= i < |s| => if s[i] as int < 0x80 then s[i] as int as byte else 0x3F)
  }

  function TextKeys(): seq<string> {
    [KEY_ACTION_TYPE, KEY_AGENT_ID, KEY_NONCE, KEY_TARGET]
  }

  function Texts(a: Action): seq<string> {
    [a.actionType, a.agentId, a.nonce, a.target]
  }

  /** Each key followed by its text and a closing quote, in order, and then the rest. */
  function Fields(keys: seq<string>, texts: seq<string>, rest: Bytes): Bytes
    requires |keys| == |texts|
  {
    if keys == [] then rest
    else Ascii(keys[0]) + (JsonText(texts[0]) + ([QUOTE] + Fields(keys[1..], texts[1..], rest)))
  }

  function EncodeOpen(a: Action): Bytes {
    Fields(TextKeys(), Texts(a), Ascii(KEY_TIMESTAMP) + JsonInt(a.timestampMs))
  }

  function Encode(a: Action): Bytes {
    EncodeOpen(a) + [BRACE]
  }

  function Canonical(a: Action): Result<Bytes, ActionError> {
    match Validate(a)
    case Some(e) => Failure(e)
    case None => Success(Encode(a))
  }

  /** The leaf payload: the canonical bytes followed by the signature. */
  function Payload(a: Action, signature: Bytes): Bytes {
    Encode(a) + signature
  }

  // The left inverse

  function HexValue(b: byte): Option<int> {
    if 0x30 <= b <= 0x39 then Some(b as int - 0x30)
    else if 0x61 <= b <= 0x66 then Some(b as int - 0x57)
    else None
  }

  function ToChar(n: int): Option<char> {
    if 0 <= n < 0xD800 || 0xE000 <= n < 0x110000 then Some(n as char) else None
  }

  datatype Parsed<T> = Parsed(value: T, rest: Bytes)

  function ReadAs(n: int, rest: Bytes): Option<Parsed<char>> {
    match ToChar(n)
    case None => None
    case Some(ch) => Some(Parsed(ch, rest))
  }

  function ReadEscape(b: Bytes): (r: Option<Parsed<char>>)
    requires |b| >= 2
    ensures r.Some? ==> |r.value.rest| < |b|
  {
    var e, rest := b[1], b[2..];
    if e == 0x22 || e == 0x5C then ReadAs(e as int, rest)
    else if e == 0x62 then ReadAs(8, rest)
    else if e == 0x74 then ReadAs(9, rest)
    else if e == 0x6E then ReadAs(10, rest)
    else if e == 0x66 then ReadAs(12, rest)
    else if e == 0x72 then ReadAs(13, rest)
    else if e == 0x75 && |b| >= 6 then
      match (HexValue(b[2]), HexValue(b[3]), HexValue(b[4]), HexValue(b[5]))
      case (Some(p), Some(q), Some(s), Some(t)) => ReadAs(((p * 16 + q) * 16 + s) * 16 + t, b[6..])
      case _ => None
    else None
  }

  function ReadUtf8(b: Bytes): (r: Option<Parsed<char>>)
    requires |b| >= 1
    ensures r.Some? ==> |r.value.rest| < |b|
  {
    var c := b[0] as int;
    if c < 0x80 then ReadAs(c, b[1..])
    else if c < 0xE0 then
      if |b| < 2 then None else ReadAs((c - 0xC0) * 64 + (b[1] as int - 0x80), b[2..])
    else if c < 0xF0 then
      if |b| < 3 then None
      else ReadAs((c - 0xE0) * 4096 + (b[1] as int - 0x80) * 64 + (b[2] as int - 0x80), b[3..])
    else
      if |b| < 4 then None
      else
        var high := (c - 0xF0) * 262144 + (b[1] as int - 0x80) * 4096;
        ReadAs(high + (b[2] as int - 0x80) * 64 + (b[3] as int - 0x80), b[4..])
  }

  function ReadChar(b: Bytes): (r: Option<Parsed<char>>)
    requires |b| >= 1
    ensures r.Some? ==> |r.value.rest| < |b|
  {
    if b[0] == BACKSLASH then
      if |b| < 2 then None else ReadEscape(b)
    else ReadUtf8(b)
  }

  /** Read characters up to the closing quote. */
  function ReadText(b: Bytes): Option<Parsed<string>>
    decreases |b|
  {
    if b == [] then None
    else if b[0] == QUOTE then Some(Parsed("", b[1..]))
    else
      match ReadChar(b)
      case None => None
      case Some(first) =>
        match ReadText(first.rest)
        case None => None
        case Some(more) => Some(Parsed([first.value] + more.value, more.rest))
  }

  function Skip(prefix: Bytes, b: Bytes): Option<Bytes> {
    if prefix <= b then Some(b[|prefix|..]) else None
  }

  /** The texts of the keys, in order, and the bytes after them. */
  function ReadFields(keys: seq<string>, b: Bytes): Option<Parsed<seq<string>>>
    decreases |keys|
  {
    if keys == [] then Some(Parsed([], b))
    else
      match Skip(Ascii(keys[0]), b)
      case None => None
      case Some(quoted) =>
        match ReadText(quoted)
        case None => None
        case Some(text) =>
          match ReadFields(keys[1..], text.rest)
          case None => None
          case Some(more) => Some(Parsed([text.value] + more.value, more.rest))
  }

  function ReadDigits(b: Bytes): int {
    if b == [] then 0 else 10 * ReadDigits(b[..|b| - 1]) + (b[|b| - 1] as int - 0x30)
  }

  function ReadInt(b: Bytes): int {
    if b != [] && b[0] == MINUS then -ReadDigits(b[1..]) else ReadDigits(b)
  }

  /** Decode the canonical bytes without their closing brace. */
  function ReadAction(b: Bytes): Option<Action> {
    match ReadFields(TextKeys(), b)
    case None => None
    case Some(texts) =>
      match Skip(Ascii(KEY_TIMESTAMP), texts.rest)
      case None => None
      case Some(number) =>
        var v, n := texts.value, ReadInt(number);
        if |v| == 4 && -0x8000_0000_0000_0000 <= n < 0x8000_0000_0000_0000 then
          Some(Action(SCHEMA_VERSION, v[1], v[0], v[3], n, v[2]))
        else None
  }

  /** Decode a leaf payload: the last 64 bytes are the signature, and the byte before them closes
      the object. */
  function Decode(payload: Bytes): Option<(Action, Bytes)> {
    if |payload| < SIGNATURE_SIZE + 1 then None
    else
      var end := |payload| - SIGNATURE_SIZE;
      if payload[end - 1] != BRACE then None
      else
        match ReadAction(payload[..end - 1])
        case None => None
        case Some(a) => Some((a, payload[end..]))
  }

  /** Base-64 digits put together again. */
  lemma {:induction false} Base64(c: nat)
    ensures c == c / 64 * 64 + c % 64
    ensures c == c / 4096 * 4096 + c / 64 % 64 * 64 + c % 64
    ensures c == c / 262144 * 262144 + c / 4096 % 64 * 4096 + c / 64 % 64 * 64 + c % 64
  {
    assert c / 4096 == c / 64 / 64;
    assert c / 262144 == c / 4096 / 64;
  }

  lemma {:induction false} ReadUtf8Char(ch: char, rest: Bytes)
    ensures ReadUtf8(Utf8Char(ch) + rest) == Some(Parsed(ch, rest))
  {
    var b := Utf8Char(ch) + rest;
    assert b[|Utf8Char(ch)|..] == rest;
    Base64(ch as int);
  }

  lemma {:induction false} HexRoundTrip(n: int)
    requires 0 <= n < 16
    ensures HexValue(HexDigit(n)) == Some(n)
  {
  }

  lemma {:induction false} ReadJsonChar(ch: char, rest: Bytes)
    ensures ReadChar(JsonChar(ch) + rest) == Some(Parsed(ch, rest))
  {
    var c, b := ch as int, JsonChar(ch) + rest;
    assert b[|JsonChar(ch)|..] == rest;
    if JsonChar(ch) == Utf8Char(ch) {
      ReadUtf8Char(ch, rest);
    } else {
      HexRoundTrip(c / 16 % 16);
      HexRoundTrip(c % 16);
    }
  }

  lemma {:induction false} Reassociate(a: Bytes, b: Bytes, c: Bytes)
    ensures (a + b) + c == a + (b + c)
  {
  }

  lemma {:induction false} ReadTextStep(ch: char, more: string, tail: Bytes, rest: Bytes)
    requires ReadText(tail) == Some(Parsed(more, rest))
    ensures ReadText(JsonChar(ch) + tail) == Some(Parsed([ch] + more, rest))
  {
    ReadJsonChar(ch, tail);
    assert (JsonChar(ch) + tail)[0] == JsonChar(ch)[0];
  }

  lemma {:induction false} ReadJsonText(s: string, rest: Bytes)
    ensures ReadText(JsonText(s) + ([QUOTE] + rest)) == Some(Parsed(s, rest))
  {
    var close := [QUOTE] + rest;
    if s == "" {
      assert [] + close == close && close[1..] == rest;
    } else {
      ReadJsonText(s[1..], rest);
      ReadTextStep(s[0], s[1..], JsonText(s[1..]) + close, rest);
      Reassociate(JsonChar(s[0]), JsonText(s[1..]), close);
      assert [s[0]] + s[1..] == s;
    }
  }

  lemma {:induction false} SkipBack(prefix: Bytes, rest: Bytes)
    ensures Skip(prefix, prefix + rest) == Some(rest)
  {
  }

  lemma {:induction false} ReadFieldsBack(keys: seq<string>, texts: seq<string>, rest: Bytes)
    requires |keys| == |texts|
    ensures ReadFields(keys, Fields(keys, texts, rest)) == Some(Parsed(texts, rest))
    decreases |keys|
  {
    if keys != [] {
      var more := Fields(keys[1..], texts[1..], rest);
      var quoted := JsonText(texts[0]) + ([QUOTE] + more);
      SkipBack(Ascii(keys[0]), quoted);
      ReadJsonText(texts[0], more);
      ReadFieldsBack(keys[1..], texts[1..], rest);
      assert [texts[0]] + texts[1..] == texts;
    }
  }

  lemma {:induction false} ReadDigitsBack(n: nat)
    ensures ReadDigits(Digits(n)) == n
  {
    if n >= 10 {
      ReadDigitsBack(n / 10);
      assert (Digits(n / 10) + [(0x30 + n % 10) as byte])[..|Digits(n / 10)|] == Digits(n / 10);
    } else {
      assert Digits(n)[..0] == [];
    }
  }

  lemma {:induction false} ReadIntBack(n: int)
    ensures ReadInt(JsonInt(n)) == n
  {
    if n < 0 {
      ReadDigitsBack(-n);
      assert JsonInt(n)[1..] == Digits(-n);
    } else {
      ReadDigitsBack(n);
    }
  }

  lemma {:induction false} ReadActionBack(a: Action)
    requires a.schemaVersion == SCHEMA_VERSION
    ensures ReadAction(EncodeOpen(a)) == Some(a)
  {
    ReadFieldsBack(TextKeys(), Texts(a), Ascii(KEY_TIMESTAMP) + JsonInt(a.timestampMs));
    SkipBack(Ascii(KEY_TIMESTAMP), JsonInt(a.timestampMs));
    ReadIntBack(a.timestampMs);
  }

  lemma {:induction false} DecodeParts(body: Bytes, a: Action, signature: Bytes)
    requires ReadAction(body) == Some(a) && |signature| == SIGNATURE_SIZE
    ensures Decode(body + [BRACE] + signature) == Some((a, signature))
  {
    var payload := body + [BRACE] + signature;
    var end := |payload| - SIGNATURE_SIZE;
    assert payload[..end - 1] == body && payload[end - 1] == BRACE && payload[end..] == signature;
  }

  /** Leaf payloads are uniquely decodable: decoding gives back the action and the signature. */
  lemma {:induction false} PayloadRoundTrip(a: Action, signature: Bytes)
    requires Validate(a).None? && |signature| == SIGNATURE_SIZE
    ensures Decode(Payload(a, signature)) == Some((a, signature))
  {
    ReadActionBack(a);
    DecodeParts(EncodeOpen(a), a, signature);
  }

  /** A payload whose object is not closed by 0x7D is not decoded, and a signature has 64 bytes. */
  lemma {:induction false} DecodeRefuses(payload: Bytes)
    ensures Decode(payload).Some? ==>
              |payload| >= 65 && payload[|payload| - 65] == 0x7D && Decode(payload).value.1 == payload[|payload| - 64..]
  {
  }

  /** The canonical bytes are an object: they open with 0x7B and close with 0x7D. */
  lemma {:induction false} EncodeBraces(a: Action)
    ensures var b := Encode(a); |b| >= 2 && b[0] == 0x7B && b[|b| - 1] == 0x7D
  {
    FieldsOpen(TextKeys(), Texts(a), Ascii(KEY_TIMESTAMP) + JsonInt(a.timestampMs));
  }

  lemma {:induction false} FieldsOpen(keys: seq<string>, texts: seq<string>, rest: Bytes)
    requires |keys| == |texts| > 0 && keys[0] != "" && keys[0][0] == '{'
    ensures |Fields(keys, texts, rest)| >= 1 && Fields(keys, texts, rest)[0] == 0x7B
  {
    assert Ascii(keys[0])[0] == 0x7B;
  }

  // Characters, byte by byte

  /** UTF-8 as RFC 3629 defines it: the length and the lead byte by the size of the code point, and six
      bits in each continuation byte. */
  lemma {:induction false} Utf8Form(ch: char)
    ensures var c, b := ch as int, Utf8Char(ch);
            && |b| == (if c < 0x80 then 1 else if c < 0x800 then 2 else if c < 0x10000 then 3 else 4)
            && (forall i :: 0 < i < |b| ==> 0x80 <= b[i] < 0xC0)
            && (|b| == 1 ==> b[0] as int == c)
            && (|b| == 2 ==> 0xC0 <= b[0] < 0xE0 && c == (b[0] as int - 0xC0) * 64 + (b[1] as int - 0x80))
            && (|b| == 3 ==> 0xE0 <= b[0] < 0xF0)
            && (|b| == 4 ==> 0xF0 <= b[0] < 0xF8)
            && (|b| == 3 ==> c == ((b[0] as int - 0xE0) * 64 + (b[1] as int - 0x80)) * 64 + (b[2] as int - 0x80))
            && (|b| == 4 ==>
                  var high := ((b[0] as int - 0xF0) * 64 + (b[1] as int - 0x80)) * 64 + (b[2] as int - 0x80);
                  c == high * 64 + (b[3] as int - 0x80))
  {
    Base64(ch as int);
  }

  /** The escapes as text. */
  lemma {:induction false} EscapeTable()
    ensures JsonChar('\"') == Ascii("\\\"") && JsonChar('\\') == Ascii("\\\\")
    ensures JsonChar(8 as char) == Ascii("\\b") && JsonChar(9 as char) == Ascii("\\t")
    ensures JsonChar(10 as char) == Ascii("\\n") && JsonChar(12 as char) == Ascii("\\f")
    ensures JsonChar(13 as char) == Ascii("\\r")
    ensures JsonChar(0 as char) == Ascii("\\u0000") && JsonChar(0x1F as char) == Ascii("\\u001f")
    ensures JsonChar(0x2028 as char) == Ascii("\\u2028") && JsonChar(0x2029 as char) == Ascii("\\u2029")
  {
  }

  /** The other control characters, with two lowercase hexadecimal digits. */
  lemma {:induction false} ControlEscapes(ch: char)
    requires var c := ch as int; c < 0x20 && c != 8 && c != 9 && c != 10 && c != 12 && c != 13
    ensures var c, digits := ch as int, "0123456789abcdef";
            JsonChar(ch) == Ascii("\\u00") + Ascii([digits[c / 16], digits[c % 16]])
  {
    HexTable(ch as int / 16);
    HexTable(ch as int % 16);
  }

  lemma {:induction false} HexTable(n: int)
    requires 0 <= n < 16
    ensures [HexDigit(n)] == Ascii(["0123456789abcdef"[n]])
  {
  }

  /** Text without quotes, backslashes and control characters, all ASCII, is written as it is. */
  lemma {:induction false} PlainText(s: string)
    requires forall i :: 0 <= i < |s| ==> 0x20 <= s[i] as int < 0x80 && s[i] != '\"' && s[i] != '\\'
    ensures JsonText(s) == Ascii(s)
  {
    if s != "" {
      PlainText(s[1..]);
      assert Ascii(s) == [s[0] as int as byte] + Ascii(s[1..]);
    }
  }

  /** Integers are written in decimal, without leading zeros. */
  lemma {:induction false} DigitsDecimal(n: nat)
    ensures forall i :: 0 <= i < |Digits(n)| ==> 0x30 <= Digits(n)[i] <= 0x39
    ensures Digits(n)[0] == 0x30 <==> n == 0
    ensures n < 10 <==> |Digits(n)| == 1
  {
    if n >= 10 {
      DigitsDecimal(n / 10);
    }
  }
}
