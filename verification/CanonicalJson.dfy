/** The canonical encoding as the source computes it: the fields go into a map, a JSON encoder
    writes the map with its keys sorted and a newline at the end, and the newline is cut off. */
module CanonicalJson {
  import opened Hashing
  import opened Wrappers
  import opened ActionSchema

  const OPEN: byte := 0x7B
  const COMMA: byte := 0x2C
  const COLON: byte := 0x3A
  const NEWLINE: byte := 0x0A

  datatype JsonValue = Text(text: string) | Number(number: int)

  function ValueBytes(v: JsonValue): Bytes {
    match v
    case Text(s) => [QUOTE] + JsonText(s) + [QUOTE]
    case Number(n) => JsonInt(n)
  }

  /** One member of an object, and the bytes after it; keys are identifiers that need no escape. */
  function Member(key: string, v: JsonValue, rest: Bytes): Bytes {
    [QUOTE] + (Ascii(key) + ([QUOTE, COLON] + (ValueBytes(v) + rest)))
  }

  /** The members after the first, each with a comma before it, and the bytes after them. */
  function More(keys: seq<string>, m: map<string, JsonValue>, rest: Bytes): Bytes
    requires forall k :: k in keys ==> k in m
  {
    if keys == [] then rest
    else [COMMA] + Member(keys[0], m[keys[0]], More(keys[1..], m, rest))
  }

  /** A whole object, with the newline of the encoder. */
  function Object(keys: seq<string>, m: map<string, JsonValue>): Bytes
    requires forall k :: k in keys ==> k in m
  {
    [OPEN] + (if keys == [] then [BRACE, NEWLINE]
              else Member(keys[0], m[keys[0]], More(keys[1..], m, [BRACE, NEWLINE])))
  }

  // Sorting the keys

  /** Ascending by code point: at the first difference the smaller character comes first, and a
      proper prefix comes before the longer string. */
  predicate Below(s: string, t: string) {
    t != "" && (s == "" || s[0] < t[0] || (s[0] == t[0] && Below(s[1..], t[1..])))
  }

  lemma {:induction false} BelowTransitive(s: string, t: string, u: string)
    requires Below(s, t) && Below(t, u)
    ensures Below(s, u)
  {
    if s != "" && s[0] == t[0] == u[0] {
      BelowTransitive(s[1..], t[1..], u[1..]);
    }
  }

  /** Exactly one of three holds: one string is below the other, or they are equal. */
  lemma {:induction false} BelowTotal(s: string, t: string)
    ensures Below(s, t) ==> s != t && !Below(t, s)
    ensures Below(s, t) || Below(t, s) || s == t
  {
    if s != "" && t != "" && s[0] == t[0] {
      BelowTotal(s[1..], t[1..]);
      assert s == [s[0]] + s[1..] && t == [t[0]] + t[1..];
    }
  }

  ghost predicate Ascending(keys: seq<string>) {
    forall i, j :: 0 <= i < j < |keys| ==> Below(keys[i], keys[j])
  }

  /** The keys of a map in ascending order. */
  ghost predicate SortedKeys(keys: seq<string>, m: map<string, JsonValue>) {
    Ascending(keys) && forall k :: k in keys <==> k in m
  }

  lemma {:induction false} SomeKey(keys: seq<string>)
    requires keys != []
    ensures exists k :: k in keys
  {
    assert keys[0] in keys;
  }

  /** A map has one ascending list of keys. */
  lemma {:induction false} SortedKeysUnique(a: seq<string>, b: seq<string>)
    requires Ascending(a) && Ascending(b) && forall k :: k in a <==> k in b
    ensures a == b
    decreases |a|
  {
    if b != [] {
      SomeKey(b);
    }
    if a != [] {
      var x := a[|a| - 1];
      assert x in b;
      var y := b[|b| - 1];
      assert y in a;
      BelowTotal(x, y);
      assert x == y;
      var a', b' := a[..|a| - 1], b[..|b| - 1];
      assert a == a' + [x] && b == b' + [x];
      LastOnlyOnce(a', x);
      LastOnlyOnce(b', x);
      forall k
        ensures k in a' <==> k in b'
      {
        assert k in a <==> k in a' || k == x;
        assert k in b <==> k in b' || k == x;
      }
      SortedKeysUnique(a', b');
    }
  }

  lemma {:induction false} LastOnlyOnce(keys: seq<string>, last: string)
    requires Ascending(keys + [last])
    ensures Ascending(keys) && last !in keys
  {
    var all := keys + [last];
    forall i | 0 <= i < |keys|
      ensures keys[i] != last
    {
      assert Below(all[i], all[|keys|]);
      BelowTotal(keys[i], last);
    }
    assert forall i :: 0 <= i < |keys| ==> keys[i] == all[i];
  }

  /** The least of some keys. */
  method Least(keys: set<string>) returns (least: string)
    requires keys != {}
    ensures least in keys
    ensures forall k :: k in keys && k != least ==> Below(least, k)
  {
    least :| least in keys;
    var rest := keys - {least};
    while rest != {}
      invariant least in keys && rest <= keys
      invariant forall k :: k in keys && k !in rest && k != least ==> Below(least, k)
      decreases rest
    {
      var k :| k in rest;
      BelowTotal(k, least);
      if Below(k, least) {
        forall other | other in keys && other !in rest && other != least
          ensures Below(k, other)
        {
          BelowTransitive(k, least, other);
        }
        least := k;
      }
      rest := rest - {k};
    }
  }

  method SortKeys(m: map<string, JsonValue>) returns (keys: seq<string>)
    ensures SortedKeys(keys, m)
  {
    keys := [];
    var rest := m.Keys;
    while rest != {}
      invariant rest <= m.Keys && forall k :: k in keys <==> k in m && k !in rest
      invariant Ascending(keys)
      invariant forall k, t :: k in keys && t in rest ==> Below(k, t)
      decreases rest
    {
      var least := Least(rest);
      keys := keys + [least];
      rest := rest - {least};
    }
  }

  // The encoder

  lemma {:induction false} AppendMember(buf: Bytes, key: string, v: JsonValue, rest: Bytes)
    ensures buf + Member(key, v, rest) == buf + [QUOTE] + Ascii(key) + [QUOTE, COLON] + ValueBytes(v) + rest
  {
  }

  /** The encoder: the object over the keys in ascending order. */
  method EncodeMap(m: map<string, JsonValue>) returns (buf: Bytes)
    ensures forall keys :: SortedKeys(keys, m) ==> buf == Object(keys, m)
  {
    var keys := SortKeys(m);
    buf := EncodeMembers(m, keys);
    forall other | SortedKeys(other, m)
      ensures buf == Object(other, m)
    {
      SortedKeysUnique(keys, other);
    }
  }

  method EncodeMembers(m: map<string, JsonValue>, keys: seq<string>) returns (buf: Bytes)
    requires forall k :: k in keys ==> k in m
    ensures buf == Object(keys, m)
  {
    buf := [OPEN];
    ghost var end: Bytes := [BRACE, NEWLINE];
    for i := 0 to |keys|
      invariant i == 0 ==> buf == [OPEN]
      invariant i > 0 ==> buf + More(keys[i..], m, end) == Object(keys, m)
    {
      ghost var rest := More(keys[i..][1..], m, end);
      assert keys[i..][1..] == keys[i + 1..];
      if i > 0 {
        Reassociate(buf, [COMMA], Member(keys[i], m[keys[i]], rest));
        buf := buf + [COMMA];
      }
      AppendMember(buf, keys[i], m[keys[i]], rest);
      buf := buf + [QUOTE] + Ascii(keys[i]) + [QUOTE, COLON] + ValueBytes(m[keys[i]]);
    }
    assert keys[|keys|..] == [];
    buf := buf + [BRACE, NEWLINE];
  }

  /** The fields of an action by their JSON names. */
  function FieldMap(a: Action): map<string, JsonValue> {
    map["schema_version" := Number(a.schemaVersion),
        "agent_id" := Text(a.agentId),
        "action_type" := Text(a.actionType),
        "target" := Text(a.target),
        "timestamp" := Number(a.timestampMs),
        "nonce" := Text(a.nonce)]
  }

  const FIELD_NAMES: seq<string> := ["action_type", "agent_id", "nonce", "schema_version", "target", "timestamp"]

  lemma {:induction false} FieldNamesSorted(a: Action)
    ensures SortedKeys(FIELD_NAMES, FieldMap(a))
  {
    var k := FIELD_NAMES;
    assert Below(k[0][1..], k[1][1..]);
    assert Below(k[0], k[1]) && Below(k[1], k[2]) && Below(k[2], k[3]) && Below(k[3], k[4]);
    assert Below(k[4][1..], k[5][1..]);
    assert Below(k[4], k[5]);
    AscendingSteps(k);
  }

  lemma {:induction false} AscendingSteps(keys: seq<string>)
    requires forall i :: 0 < i < |keys| ==> Below(keys[i - 1], keys[i])
    ensures Ascending(keys)
  {
    if keys != [] {
      var n := |keys| - 1;
      AscendingSteps(keys[..n]);
      forall i | 0 <= i < n
        ensures Below(keys[i], keys[n])
      {
        assert Below(keys[n - 1], keys[n]);
        if i < n - 1 {
          assert Below(keys[..n][i], keys[..n][n - 1]);
          BelowTransitive(keys[i], keys[n - 1], keys[n]);
        }
      }
      assert forall i, j :: 0 <= i < j < n ==> Below(keys[..n][i], keys[..n][j]);
    }
  }

  // Encoder and closed form agree

  lemma {:induction false} AsciiJoin(s: string, t: string, rest: Bytes)
    ensures Ascii(s + t) + rest == Ascii(s) + (Ascii(t) + rest)
  {
  }

  /** The constant that opens a member is its name between punctuation. */
  lemma {:induction false} OpenMember(name: string, key: string, rest: Bytes)
    requires key == "\"" + (name + "\":")
    ensures Ascii(key) + rest == [QUOTE] + (Ascii(name) + ([QUOTE, COLON] + rest))
  {
  }

  lemma {:induction false} TextMember(name: string, key: string, text: string, rest: Bytes)
    requires key == "\"" + (name + "\":") + "\""
    ensures Ascii(key) + (JsonText(text) + ([QUOTE] + rest)) == Member(name, Text(text), rest)
  {
    var value := JsonText(text);
    AsciiJoin("\"" + (name + "\":"), "\"", value + ([QUOTE] + rest));
    OpenMember(name, "\"" + (name + "\":"), Ascii("\"") + (value + ([QUOTE] + rest)));
    assert Ascii("\"") == [QUOTE];
    Reassociate([QUOTE] + value, [QUOTE], rest);
    Reassociate([QUOTE], value, [QUOTE] + rest);
  }

  lemma {:induction false} NumberMember(name: string, key: string, n: int, rest: Bytes)
    requires key == "\"" + (name + "\":")
    ensures Ascii(key) + (JsonInt(n) + rest) == Member(name, Number(n), rest)
  {
  }

  lemma {:induction false} FieldsThen(keys: seq<string>, texts: seq<string>, rest: Bytes, more: Bytes)
    requires |keys| == |texts|
    ensures Fields(keys, texts, rest) + more == Fields(keys, texts, rest + more)
    decreases |keys|
  {
    if keys != [] {
      var key, text, tail := Ascii(keys[0]), JsonText(texts[0]), Fields(keys[1..], texts[1..], rest);
      FieldsThen(keys[1..], texts[1..], rest, more);
      Reassociate(key, text + ([QUOTE] + tail), more);
      Reassociate(text, [QUOTE] + tail, more);
      Reassociate([QUOTE], tail, more);
    }
  }

  function TextField(key: string, text: string, rest: Bytes): Bytes {
    Ascii(key) + (JsonText(text) + ([QUOTE] + rest))
  }

  lemma {:induction false} FourFields(keys: seq<string>, texts: seq<string>, rest: Bytes)
    requires |keys| == |texts| == 4
    ensures Fields(keys, texts, rest)
         == TextField(keys[0], texts[0],
                      TextField(keys[1], texts[1], TextField(keys[2], texts[2], TextField(keys[3], texts[3], rest))))
  {
    FieldsStep(keys, texts, rest, 0);
    FieldsStep(keys, texts, rest, 1);
    FieldsStep(keys, texts, rest, 2);
    FieldsStep(keys, texts, rest, 3);
    assert keys[0..] == keys && texts[0..] == texts && keys[4..] == [];
  }

  lemma {:induction false} FieldsStep(keys: seq<string>, texts: seq<string>, rest: Bytes, i: nat)
    requires i < |keys| == |texts|
    ensures Fields(keys[i..], texts[i..], rest)
        == TextField(keys[i], texts[i], Fields(keys[i + 1..], texts[i + 1..], rest))
  {
  }

  lemma {:induction false} MoreStep(keys: seq<string>, m: map<string, JsonValue>, rest: Bytes, i: nat)
    requires i < |keys| && forall k :: k in keys ==> k in m
    ensures More(keys[i..], m, rest) == [COMMA] + Member(keys[i], m[keys[i]], More(keys[i + 1..], m, rest))
  {
  }

  /** A text member after a comma, or after the opening brace. */
  lemma {:induction false} PunctuatedText(head: string, headByte: byte, name: string, key: string, text: string,
                                          rest: Bytes)
    requires Ascii(head) == [headByte] && key == head + ("\"" + (name + "\":") + "\"")
    ensures TextField(key, text, rest) == [headByte] + Member(name, Text(text), rest)
  {
    AsciiJoin(head, "\"" + (name + "\":") + "\"", JsonText(text) + ([QUOTE] + rest));
    TextMember(name, "\"" + (name + "\":") + "\"", text, rest);
  }

  /** The constant of the target also holds the member of the schema version. */
  lemma {:induction false} VersionAndText(name: string, name': string, key: string, text: string, rest: Bytes)
    requires key == "," + ("\"" + (name + "\":")) + "1" + ("," + ("\"" + (name' + "\":") + "\""))
    ensures TextField(key, text, rest) == [COMMA] + Member(name, Number(1), [COMMA] + Member(name', Text(text), rest))
  {
    var open, next := "\"" + (name + "\":"), "," + ("\"" + (name' + "\":") + "\"");
    var tail := JsonText(text) + ([QUOTE] + rest);
    assert Ascii(",") == [COMMA] && Ascii("1") == JsonInt(1);
    AsciiJoin("," + open + "1", next, tail);
    AsciiJoin("," + open, "1", Ascii(next) + tail);
    AsciiJoin(",", open, Ascii("1") + (Ascii(next) + tail));
    PunctuatedText(",", COMMA, name', next, text, rest);
    NumberMember(name, open, 1, [COMMA] + Member(name', Text(text), rest));
  }

  lemma {:induction false} TextKeyConstants()
    ensures KEY_ACTION_TYPE == "{" + ("\"" + ("action_type" + "\":") + "\"")
    ensures KEY_AGENT_ID == "," + ("\"" + ("agent_id" + "\":") + "\"")
    ensures KEY_NONCE == "," + ("\"" + ("nonce" + "\":") + "\"")
  {
  }

  lemma {:induction false} OtherKeyConstants()
    ensures KEY_TARGET == "," + ("\"" + ("schema_version" + "\":")) + "1" + ("," + ("\"" + ("target" + "\":") + "\""))
    ensures KEY_TIMESTAMP == "," + ("\"" + ("timestamp" + "\":"))
  {
  }

  /** The last two fields. */
  lemma {:induction false} TimestampTail(n: int)
    ensures Ascii(KEY_TIMESTAMP) + JsonInt(n) + [BRACE, NEWLINE]
        == [COMMA] + Member("timestamp", Number(n), [BRACE, NEWLINE])
  {
    OtherKeyConstants();
    assert Ascii(",") == [COMMA];
    Reassociate(Ascii(KEY_TIMESTAMP), JsonInt(n), [BRACE, NEWLINE]);
    AsciiJoin(",", "\"" + ("timestamp" + "\":"), JsonInt(n) + [BRACE, NEWLINE]);
    NumberMember("timestamp", "\"" + ("timestamp" + "\":"), n, [BRACE, NEWLINE]);
  }

  /** The object of an action with its members written out. */
  function Written(a: Action): Bytes {
    [OPEN] + Member("action_type", Text(a.actionType),
    [COMMA] + Member("agent_id", Text(a.agentId),
    [COMMA] + Member("nonce", Text(a.nonce),
    [COMMA] + Member("schema_version", Number(1),
    [COMMA] + Member("target", Text(a.target),
    [COMMA] + Member("timestamp", Number(a.timestampMs), [BRACE, NEWLINE]))))))
  }

  lemma {:induction false} EncodeWritten(a: Action)
    ensures Encode(a) + [NEWLINE] == Written(a)
  {
    var end: Bytes := [BRACE, NEWLINE];
    var number := Ascii(KEY_TIMESTAMP) + JsonInt(a.timestampMs);
    Reassociate(EncodeOpen(a), [BRACE], [NEWLINE]);
    assert [BRACE] + [NEWLINE] == end;
    FieldsThen(TextKeys(), Texts(a), number, end);
    FourFields(TextKeys(), Texts(a), number + end);
    FieldsWritten(a, number + end);
  }

  lemma {:induction false} FieldsWritten(a: Action, n4: Bytes)
    requires n4 == Ascii(KEY_TIMESTAMP) + JsonInt(a.timestampMs) + [BRACE, NEWLINE]
    ensures TextField(KEY_ACTION_TYPE, a.actionType, TextField(KEY_AGENT_ID, a.agentId,
              TextField(KEY_NONCE, a.nonce, TextField(KEY_TARGET, a.target, n4)))) == Written(a)
  {
    TimestampTail(a.timestampMs);
    OtherKeyConstants();
    VersionAndText("schema_version", "target", KEY_TARGET, a.target, n4);
    var n3 := TextField(KEY_TARGET, a.target, n4);
    TextKeyConstants();
    assert Ascii("{") == [OPEN] && Ascii(",") == [COMMA];
    PunctuatedText(",", COMMA, "nonce", KEY_NONCE, a.nonce, n3);
    var n2 := TextField(KEY_NONCE, a.nonce, n3);
    PunctuatedText(",", COMMA, "agent_id", KEY_AGENT_ID, a.agentId, n2);
    var n1 := TextField(KEY_AGENT_ID, a.agentId, n2);
    PunctuatedText("{", OPEN, "action_type", KEY_ACTION_TYPE, a.actionType, n1);
  }

  lemma {:induction false} SixMembers(f: seq<string>, m: map<string, JsonValue>)
    requires |f| == 6 && forall k :: k in f ==> k in m
    ensures Object(f, m) ==
            [OPEN] + Member(f[0], m[f[0]],
            [COMMA] + Member(f[1], m[f[1]],
            [COMMA] + Member(f[2], m[f[2]],
            [COMMA] + Member(f[3], m[f[3]],
            [COMMA] + Member(f[4], m[f[4]],
            [COMMA] + Member(f[5], m[f[5]], [BRACE, NEWLINE]))))))
  {
    var end: Bytes := [BRACE, NEWLINE];
    assert f[6..] == [];
    MoreStep(f, m, end, 5);
    MoreStep(f, m, end, 4);
    MoreStep(f, m, end, 3);
    MoreStep(f, m, end, 2);
    MoreStep(f, m, end, 1);
  }

  lemma {:induction false} FieldValues(a: Action, m: map<string, JsonValue>)
    requires m == FieldMap(a)
    ensures "action_type" in m && m["action_type"] == Text(a.actionType)
    ensures "agent_id" in m && m["agent_id"] == Text(a.agentId)
    ensures "nonce" in m && m["nonce"] == Text(a.nonce)
    ensures "schema_version" in m && m["schema_version"] == Number(a.schemaVersion)
    ensures "target" in m && m["target"] == Text(a.target)
    ensures "timestamp" in m && m["timestamp"] == Number(a.timestampMs)
  {
  }

  lemma {:induction false} ObjectWritten(a: Action, f: seq<string>, m: map<string, JsonValue>)
    requires a.schemaVersion == SCHEMA_VERSION && f == FIELD_NAMES && m == FieldMap(a)
    requires forall k :: k in f ==> k in m
    ensures Object(f, m) == Written(a)
  {
    FieldValues(a, m);
    SixMembers(f, m);
  }

  /** The object over the sorted field names is the canonical encoding and a newline. */
  lemma {:induction false} ObjectIsEncoding(a: Action, f: seq<string>, m: map<string, JsonValue>)
    requires a.schemaVersion == SCHEMA_VERSION && f == FIELD_NAMES && m == FieldMap(a)
    ensures SortedKeys(f, m) && Object(f, m) == Encode(a) + [NEWLINE]
  {
    FieldNamesSorted(a);
    ObjectWritten(a, f, m);
    EncodeWritten(a);
  }

  /** The canonical bytes of an action, or the error of its validation. */
  method CanonicalBytes(a: Action) returns (r: Result<Bytes, ActionError>)
    ensures r == Canonical(a)
  {
    var invalid := Validate(a);
    if invalid.Some? {
      return Failure(invalid.value);
    }
    var names, m := FIELD_NAMES, FieldMap(a);
    ObjectIsEncoding(a, names, m);
    var out := EncodeMap(m);
    if |out| > 0 && out[|out| - 1] == NEWLINE {
      out := out[..|out| - 1];
    }
    return Success(out);
  }

  // The reference vector

  /** The action of the reference vector in the schema document. */
  const REFERENCE: Action :=
    Action(1, "agent-001", "ping", "peer-002", 1_700_000_000_000, "0123456789abcdef0123456789abcdef")

  /** Text that is written as it is. */
  predicate Plain(text: string) {
    forall i :: 0 <= i < |text| ==> 0x20 <= text[i] as int < 0x80 && text[i] != '\"' && text[i] != '\\'
  }

  lemma {:induction false} ReferenceText(key: string, text: string, whole: string, rest: Bytes)
    requires Plain(text)
    requires whole == key + (text + "\"")
    ensures TextField(key, text, rest) == Ascii(whole) + rest
  {
    PlainText(text);
    AsciiJoin(key, text + "\"", rest);
    AsciiJoin(text, "\"", rest);
    assert Ascii("\"") == [QUOTE];
  }

  lemma {:induction false} ReferenceNumber()
    ensures JsonInt(1_700_000_000_000) == Ascii("1700000000000")
  {
    var d1, d2, d3 := Digits(1), Digits(17), Digits(170);
    assert d2 == [0x31, 0x37] && d3 == [0x31, 0x37, 0x30];
    assert Digits(1_700) == [0x31, 0x37, 0x30, 0x30];
    TenTimes(1_700);
    TenTimes(17_000);
    TenTimes(170_000);
    TenTimes(1_700_000);
    TenTimes(17_000_000);
    TenTimes(170_000_000);
    TenTimes(1_700_000_000);
    TenTimes(17_000_000_000);
    TenTimes(170_000_000_000);
  }

  lemma {:induction false} TenTimes(n: nat)
    requires n > 0
    ensures Digits(10 * n) == Digits(n) + [0x30]
  {
    assert 10 * n / 10 == n && 10 * n % 10 == 0;
  }

  // The documented string, member by member.
  const REFERENCE_ACTION_TYPE: string := "{\"action_type\":\"" + ("ping" + "\"")
  const REFERENCE_AGENT_ID: string := ",\"agent_id\":\"" + ("agent-001" + "\"")
  const REFERENCE_NONCE: string := ",\"nonce\":\"" + ("0123456789abcdef0123456789abcdef" + "\"")
  const REFERENCE_TARGET: string := ",\"schema_version\":1,\"target\":\"" + ("peer-002" + "\"")
  const REFERENCE_TIMESTAMP: string := ",\"timestamp\":" + ("1700000000000" + "}")

  lemma {:induction false} TailText(key: string, digits: string, whole: string, number: Bytes)
    requires whole == key + (digits + "}") && Ascii(digits) == number
    ensures Ascii(key) + number + [0x7D] == Ascii(whole)
  {
    AsciiJoin(key, digits + "}", []);
    AsciiJoin(digits, "}", []);
    assert Ascii("}") == [0x7D];
  }

  lemma {:induction false} ReferenceTail(number: Bytes, n: int)
    requires n == 1_700_000_000_000 && number == JsonInt(n)
    ensures Ascii(KEY_TIMESTAMP) + number + [0x7D] == Ascii(REFERENCE_TIMESTAMP)
  {
    ReferenceNumber();
    TailText(KEY_TIMESTAMP, "1700000000000", REFERENCE_TIMESTAMP, number);
  }

  lemma {:induction false} ReferencePlain()
    ensures Plain("ping") && Plain("agent-001") && Plain("0123456789abcdef0123456789abcdef") && Plain("peer-002")
  {
  }

  /** Four plain text fields are the text of their members. */
  lemma {:induction false} PlainFields(keys: seq<string>, texts: seq<string>, members: seq<string>, rest: Bytes)
    requires |keys| == |texts| == |members|
    requires forall i :: 0 <= i < |keys| ==> Plain(texts[i]) && members[i] == keys[i] + (texts[i] + "\"")
    ensures Fields(keys, texts, rest) == Ascii(Joined(members)) + rest
    decreases |keys|
  {
    if keys == [] {
      assert Ascii("") + rest == rest;
    } else {
      PlainFields(keys[1..], texts[1..], members[1..], rest);
      ReferenceText(keys[0], texts[0], members[0], Fields(keys[1..], texts[1..], rest));
      AsciiJoin(members[0], Joined(members[1..]), rest);
    }
  }

  function Joined(parts: seq<string>): string {
    if parts == [] then "" else parts[0] + Joined(parts[1..])
  }

  function ReferenceParts(): seq<string> {
    [REFERENCE_ACTION_TYPE, REFERENCE_AGENT_ID, REFERENCE_NONCE, REFERENCE_TARGET]
  }

  lemma {:induction false} ReferencePartsFit(a: Action, keys: seq<string>, texts: seq<string>, parts: seq<string>)
    requires a == REFERENCE && keys == TextKeys() && texts == Texts(a) && parts == ReferenceParts()
    ensures |keys| == |texts| == |parts| == 4
    ensures forall i :: 0 <= i < 4 ==> Plain(texts[i]) && parts[i] == keys[i] + (texts[i] + "\"")
  {
    ReferencePlain();
  }

  lemma {:induction false} JoinedStep(parts: seq<string>, i: nat)
    requires i < |parts|
    ensures Joined(parts[i..]) == parts[i] + Joined(parts[i + 1..])
  {
    assert parts[i..][1..] == parts[i + 1..];
  }

  /** The string of the schema document, one member a line. */
  const REFERENCE_STRING: string :=
    REFERENCE_ACTION_TYPE
    + REFERENCE_AGENT_ID
    + REFERENCE_NONCE
    + REFERENCE_TARGET
    + REFERENCE_TIMESTAMP

  lemma {:induction false} JoinedReference(parts: seq<string>)
    requires |parts| == 4
    ensures Joined(parts) == parts[0] + parts[1] + parts[2] + parts[3]
  {
    assert parts[0..] == parts && parts[4..] == [];
    JoinedStep(parts, 0);
    JoinedStep(parts, 1);
    JoinedStep(parts, 2);
    JoinedStep(parts, 3);
    assert parts[3] + "" == parts[3];
  }

  lemma {:induction false} ReferenceEncoded(a: Action, parts: seq<string>)
    requires a == REFERENCE && parts == ReferenceParts()
    ensures Encode(a) == Ascii(Joined(parts) + REFERENCE_TIMESTAMP)
  {
    var keys, texts := TextKeys(), Texts(a);
    var number := Ascii(KEY_TIMESTAMP) + JsonInt(a.timestampMs);
    ReferencePartsFit(a, keys, texts, parts);
    FieldsThen(keys, texts, number, [BRACE]);
    PlainFields(keys, texts, parts, number + [BRACE]);
    ReferenceTail(JsonInt(a.timestampMs), a.timestampMs);
    AsciiJoin(Joined(parts), REFERENCE_TIMESTAMP, []);
    assert Ascii(Joined(parts) + REFERENCE_TIMESTAMP) + [] == Ascii(Joined(parts) + REFERENCE_TIMESTAMP);
    assert Ascii(REFERENCE_TIMESTAMP) + [] == Ascii(REFERENCE_TIMESTAMP);
  }

  lemma {:induction false} ReferenceJoined(parts: seq<string>)
    requires parts == ReferenceParts()
    ensures Joined(parts) + REFERENCE_TIMESTAMP == REFERENCE_STRING
  {
    JoinedReference(parts);
  }

  lemma {:induction false} ReferenceShape(a: Action, nonce: string)
    requires a == REFERENCE && nonce == a.nonce
    ensures a.agentId != "" && a.actionType != "" && a.target != "" && a.schemaVersion == 1
    ensures |nonce| == 32 && forall i :: 0 <= i < 32 ==> '0' <= nonce[i] <= '9' || 'a' <= nonce[i] <= 'f'
  {
  }

  /** The canonical bytes of the reference action are the documented string, all of it. */
  lemma {:induction false} ReferenceVector(a: Action)
    requires a == REFERENCE
    ensures Encode(a) == Ascii(REFERENCE_STRING)
  {
    var parts := ReferenceParts();
    ReferenceEncoded(a, parts);
    ReferenceJoined(parts);
  }

  lemma {:induction false} ReferenceValid(a: Action)
    requires a == REFERENCE
    ensures Canonical(a) == Success(Encode(a))
  {
    ReferenceShape(a, a.nonce);
    ValidateExact(a);
  }
}
