/** The Zarr codec descriptors of itl2/io/zarrcodecs.h: codec names and their
    string forms, the codec kind each name has, the configuration of the
    `bytes` codec (Zarr v3 `codecs/bytes/v1.0`, key `endian`, "little" or
    "big", default "little") and of the `transpose` codec
    (`codecs/transpose/v1.0`, stored as given), the JSON form of a codec and
    equality on it. */
module ZarrCodecs {
  import opened Outcomes

  /** `ZarrCodecType`; `NoCodecType` is the enumerator `None`. */
  datatype CodecType = NoCodecType | ArrayArrayCodec | ArrayBytesCodec | BytesBytesCodec

  /** `ZarrCodecName`; `NoCodecName` is the enumerator `None`. */
  datatype CodecName = NoCodecName | Bytes | Transpose

  /** A JSON value; numbers are reduced to integers. Object members are
      listed in the order a JSON object iterates them. The library keeps an
      object as a map sorted by key, so the values it can hold are the
      `Canonical` ones. */
  datatype Json =
    | JNull
    | JBool(b: bool)
    | JNumber(n: int)
    | JString(s: string)
    | JArray(items: seq<Json>)
    | JObject(members: seq<(string, Json)>)

  /** Lexicographic order on strings, character by character. */
  predicate KeyLess(a: string, b: string)
  {
    if |a| == 0 then |b| > 0
    else if |b| == 0 then false
    else if a[0] != b[0] then a[0] < b[0]
    else KeyLess(a[1..], b[1..])
  }

  /** No key is below itself, and no two keys are below each other. */
  lemma {:induction false} KeyLessStrict(a: string, b: string)
    ensures !KeyLess(a, a)
    ensures KeyLess(a, b) ==> !KeyLess(b, a)
  {
    if |a| > 0 && |b| > 0 && a[0] == b[0] {
      KeyLessStrict(a[1..], b[1..]);
    }
    if |a| > 0 {
      KeyLessStrict(a[1..], a[1..]);
    }
  }

  predicate KeysAscending(members: seq<(string, Json)>)
  {
    forall i, j :: 0 <= i < j < |members| ==> KeyLess(members[i].0, members[j].0)
  }

  /** A value a JSON object of the library can be: every object's keys
      strictly ascend, so each key appears once, at every depth. */
  predicate Canonical(j: Json)
  {
    match j
    case JArray(items) => forall i :: 0 <= i < |items| ==> Canonical(items[i])
    case JObject(members) =>
      KeysAscending(members) && forall i :: 0 <= i < |members| ==> Canonical(members[i].1)
    case _ => true
  }

  /** Two objects with ascending keys are equal as member lists exactly when
      they hold the same members, which is how the library compares objects:
      the member order carries no information. */
  lemma {:induction false} AscendingMembersEqualByContent(a: seq<(string, Json)>, b: seq<(string, Json)>)
    requires KeysAscending(a) && KeysAscending(b)
    ensures a == b <==> forall m :: m in a <==> m in b
  {
    if forall m :: m in a <==> m in b {
      assert |a| > 0 <==> |b| > 0 by {
        if |a| > 0 { assert a[0] in b; }
        if |b| > 0 { assert b[0] in a; }
      }
    }
    if (forall m :: m in a <==> m in b) && |a| > 0 && |b| > 0 {
      assert b[0] in a && a[0] in b;
      var i :| 0 <= i < |a| && a[i] == b[0];
      var j :| 0 <= j < |b| && b[j] == a[0];
      if i > 0 {
        if j > 0 {
          assert KeyLess(b[0].0, b[j].0) && KeyLess(a[0].0, a[i].0);
          KeyLessStrict(a[0].0, b[0].0);
          assert false;
        }
        KeyLessStrict(a[0].0, a[0].0);
        assert false;
      }
      forall m | m in a[1..]
        ensures m in b[1..]
      {
        var k :| 1 <= k < |a| && a[k] == m;
        assert KeyLess(a[0].0, m.0);
        KeyLessStrict(m.0, m.0);
        assert m != b[0];
        assert m in a && m in b;
        var l :| 0 <= l < |b| && b[l] == m;
        assert b[1..][l - 1] == m;
      }
      forall m | m in b[1..]
        ensures m in a[1..]
      {
        var k :| 1 <= k < |b| && b[k] == m;
        assert KeyLess(b[0].0, m.0);
        KeyLessStrict(m.0, m.0);
        assert m != a[0];
        assert m in b && m in a;
        var l :| 0 <= l < |a| && a[l] == m;
        assert a[1..][l - 1] == m;
      }
      AscendingMembersEqualByContent(a[1..], b[1..]);
      assert a == [a[0]] + a[1..] && b == [b[0]] + b[1..];
    }
  }

  /** The exceptions the descriptor layer raises. The last two are raised by
      the JSON library: reading a non-string as a string, and asking an
      iterator over a non-object for its key. */
  datatype ZarrError =
    | InvalidNameEnum
    | InvalidCodecName(lowered: string)
    | InvalidCodec
    | InvalidEndian(endian: string)
    | InvalidKey(key: string)
    | EndianNotAString
    | ConfigNotAnObject

  // ---------------------------------------------------------------------
  // Codec names

  /** `toLower` on one character: ASCII upper-case letters only. */
  function LowerChar(c: char): char
  {
    if 'A' <= c <= 'Z' then (c as int + 32) as char else c
  }

  function Lower(s: string): string
  {
    seq(|s|, i requires 0 <= i < |s| => LowerChar(s[i]))
  }

  predicate NoUpperCase(s: string)
  {
    forall i :: 0 <= i < |s| ==> !('A' <= s[i] <= 'Z')
  }

  /** Lower-casing leaves no upper-case letter, so it is idempotent. */
  lemma LowerIdempotent(s: string)
    ensures NoUpperCase(Lower(s))
    ensures Lower(Lower(s)) == Lower(s)
  {
  }

  lemma LowerKeepsLowerCase(s: string)
    requires NoUpperCase(s)
    ensures Lower(s) == s
  {
  }

  /** `toString(ZarrCodecName)`. */
  function NameToString(n: CodecName): Result<string, ZarrError>
  {
    match n
    case Bytes => Ok("bytes")
    case Transpose => Ok("transpose")
    case NoCodecName => Err(InvalidNameEnum)
  }

  /** `fromString<ZarrCodecName>`: lower-case the input, then match. */
  function ParseCodecName(s: string): (r: Result<CodecName, ZarrError>)
    ensures r.Ok? ==> r.value != NoCodecName && NameToString(r.value) == Ok(Lower(s))
    ensures r.Err? ==> r.error == InvalidCodecName(Lower(s))
  {
    var str := Lower(s);
    if str == "bytes" then Ok(Bytes)
    else if str == "transpose" then Ok(Transpose)
    else Err(InvalidCodecName(str))
  }

  /** `toString` is defined exactly on the real codec names, and parsing
      its output gives the name back. */
  lemma NameRoundTrip(n: CodecName)
    ensures NameToString(n).Ok? <==> n != NoCodecName
    ensures n != NoCodecName ==> ParseCodecName(NameToString(n).value) == Ok(n)
  {
    LowerKeepsLowerCase("bytes");
    LowerKeepsLowerCase("transpose");
  }

  /** A string parses to a name exactly when it is that name's string form up
      to letter case. */
  lemma ParseCodecNameExactly(s: string, n: CodecName)
    requires n != NoCodecName
    ensures ParseCodecName(s) == Ok(n) <==> Lower(s) == NameToString(n).value
  {
  }

  /** Name parsing ignores letter case. */
  lemma ParseCodecNameIgnoresCase(s: string)
    ensures ParseCodecName(Lower(s)) == ParseCodecName(s)
  {
    LowerIdempotent(s);
  }

  // ---------------------------------------------------------------------
  // Configurations

  predicate IsEndian(v: Json)
  {
    v == JString("little") || v == JString("big")
  }

  /** The configuration a `bytes` codec stores: `{"endian": e}`. */
  function EndianConfig(e: string): Json
  {
    JObject([("endian", JString(e))])
  }

  /** A member the `bytes` configuration loop accepts. */
  predicate GoodBytesMember(m: (string, Json))
  {
    m.0 == "endian" && IsEndian(m.1)
  }

  /** The exception the loop raises at a member it does not accept. */
  function BytesMemberError(m: (string, Json)): ZarrError
  {
    if m.0 != "endian" then InvalidKey(m.0)
    else if !m.1.JString? then EndianNotAString
    else InvalidEndian(m.1.s)
  }

  /** Index of the first member the loop does not accept, or the length. */
  function FirstBadMember(members: seq<(string, Json)>): (i: nat)
    ensures i <= |members|
    ensures forall k :: 0 <= k < i ==> GoodBytesMember(members[k])
    ensures i < |members| ==> !GoodBytesMember(members[i])
  {
    if |members| == 0 || !GoodBytesMember(members[0]) then 0
    else 1 + FirstBadMember(members[1..])
  }

  /** The loop of `readBytesCodecConfig` over the members of an object,
      carrying the endianness read so far. */
  function ScanBytesMembers(members: seq<(string, Json)>, endian: string): (r: Result<string, ZarrError>)
    ensures r.Ok? <==> FirstBadMember(members) == |members|
    ensures r.Err? ==> r.error == BytesMemberError(members[FirstBadMember(members)])
    ensures r.Ok? ==> r.value == if |members| == 0 then endian else members[|members| - 1].1.s
  {
    if |members| == 0 then Ok(endian)
    else
      var (key, value) := members[0];
      if key == "endian" then
        if !value.JString? then Err(EndianNotAString)
        else if value.s != "little" && value.s != "big" then Err(InvalidEndian(value.s))
        else ScanBytesMembers(members[1..], value.s)
      else Err(InvalidKey(key))
  }

  /** The configurations `readBytesCodecConfig` accepts: no members at all
      (null or an empty array) or an object all of whose members are
      `"endian"` with value exactly "little" or "big". */
  predicate BytesConfigAccepted(config: Json)
  {
    || config.JNull?
    || config == JArray([])
    || (config.JObject? && forall k :: 0 <= k < |config.members| ==> GoodBytesMember(config.members[k]))
  }

  /** The endianness an accepted configuration declares. */
  function DeclaredEndian(config: Json): string
  {
    if config.JObject? && |config.members| > 0 && config.members[|config.members| - 1].1.JString?
    then config.members[|config.members| - 1].1.s
    else "little"
  }

  /** `readBytesCodecConfig`: iterate over the configuration; any key other
      than `endian`, or an endian other than exactly "little" or "big",
      raises; the stored configuration is `{"endian": e}`, e defaulting to
      "little". Iterating a non-object yields its elements, and asking one
      of them for its key raises. */
  function ReadBytesConfig(config: Json): (r: Result<Json, ZarrError>)
    ensures r.Ok? <==> BytesConfigAccepted(config)
    ensures r.Ok? ==> r.value == EndianConfig(DeclaredEndian(config)) && IsEndian(JString(DeclaredEndian(config)))
    ensures r.Err? && config.JObject? ==>
      r.error == BytesMemberError(config.members[FirstBadMember(config.members)])
    ensures r.Err? && !config.JObject? ==> r.error == ConfigNotAnObject
  {
    match config
    case JNull => Ok(EndianConfig("little"))
    case JObject(members) =>
      var endian :- ScanBytesMembers(members, "little");
      Ok(EndianConfig(endian))
    case JArray(items) =>
      if |items| == 0 then Ok(EndianConfig("little")) else Err(ConfigNotAnObject)
    case _ => Err(ConfigNotAnObject)
  }

  /** The default configuration is `{"endian": "little"}`, and a configuration
      the bytes codec stored is read back unchanged. */
  lemma ReadBytesConfigDefaultAndIdempotent(config: Json)
    ensures ReadBytesConfig(JNull) == Ok(EndianConfig("little"))
    ensures ReadBytesConfig(config).Ok? ==>
      ReadBytesConfig(ReadBytesConfig(config).value) == ReadBytesConfig(config)
  {
  }

  /** Endianness is matched case-sensitively, unlike codec names. */
  lemma EndianIsCaseSensitive()
    ensures ReadBytesConfig(EndianConfig("Little")) == Err(InvalidEndian("Little"))
    ensures ReadBytesConfig(EndianConfig("big")) == Ok(EndianConfig("big"))
    ensures ParseCodecName("BYTES") == Ok(Bytes)
  {
    assert Lower("BYTES") == "bytes";
  }

  // ---------------------------------------------------------------------
  // Codecs

  /** `ZarrCodec`: its kind, name and stored configuration. */
  datatype ZarrCodec = ZarrCodec(kind: CodecType, name: CodecName, configuration: Json)

  /** The `ZarrCodec(name)` constructor: the kind of the name, and the
      configuration read from an empty (null) JSON value. */
  function NewCodec(name: CodecName): (r: Result<ZarrCodec, ZarrError>)
    ensures r.Ok? <==> name != NoCodecName
    ensures r.Ok? ==> r.value.name == name
    ensures name == Bytes ==> r == Ok(ZarrCodec(ArrayBytesCodec, Bytes, EndianConfig("little")))
    ensures name == Transpose ==> r == Ok(ZarrCodec(ArrayArrayCodec, Transpose, JNull))
    ensures name == NoCodecName ==> r == Err(InvalidCodec)
    ensures r.Ok? ==> Canonical(r.value.configuration)
  {
    match name
    case Bytes =>
      Ok(ZarrCodec(ArrayBytesCodec, Bytes, ReadBytesConfig(JNull).value))
    case Transpose => Ok(ZarrCodec(ArrayArrayCodec, Transpose, JNull))
    case NoCodecName => Err(InvalidCodec)
  }

  /** `readConfig`: replace the configuration by reading `config` the way the
      codec's name prescribes; the transpose configuration is stored as given.
      `config` is a JSON value of the library, hence canonical, and so is
      what the codec stores. */
  function ReadConfig(codec: ZarrCodec, config: Json): (r: Result<ZarrCodec, ZarrError>)
    requires Canonical(config)
    ensures r.Ok? ==> Canonical(r.value.configuration)
    ensures r.Ok? ==> r.value.kind == codec.kind && r.value.name == codec.name
    ensures codec.name == NoCodecName ==> r == Err(InvalidCodec)
    ensures codec.name == Transpose ==> r.Ok? && r.value.configuration == config
    ensures codec.name == Bytes ==> (r.Ok? <==> BytesConfigAccepted(config))
    ensures codec.name == Bytes && r.Ok? ==> r.value.configuration == EndianConfig(DeclaredEndian(config))
  {
    match codec.name
    case Bytes =>
      var configuration :- ReadBytesConfig(config);
      Ok(codec.(configuration := configuration))
    case Transpose => Ok(codec.(configuration := config))
    case NoCodecName => Err(InvalidCodec)
  }

  /** Re-reading a codec's own configuration changes nothing, and a freshly
      constructed codec already holds the configuration it would read. */
  lemma ReadConfigIdempotent(codec: ZarrCodec, config: Json, name: CodecName)
    requires Canonical(config)
    ensures ReadConfig(codec, config).Ok? ==>
      ReadConfig(ReadConfig(codec, config).value, ReadConfig(codec, config).value.configuration)
        == ReadConfig(codec, config)
    ensures NewCodec(name).Ok? ==>
      ReadConfig(NewCodec(name).value, NewCodec(name).value.configuration) == NewCodec(name)
  {
  }

  /** The value stored under `key` in an object's members. */
  function Lookup(members: seq<(string, Json)>, key: string): Option<Json>
  {
    if |members| == 0 then None
    else if members[0].0 == key then Some(members[0].1)
    else Lookup(members[1..], key)
  }

  /** `toJSON`: `{"configuration": ..., "name": toString(name)}`. */
  function ToJson(codec: ZarrCodec): (r: Result<Json, ZarrError>)
    ensures r.Ok? <==> codec.name != NoCodecName
    ensures r.Ok? ==> r.value.JObject? && |r.value.members| == 2
    ensures r.Ok? ==> Lookup(r.value.members, "name") == Some(JString(NameToString(codec.name).value))
    ensures r.Ok? ==> Lookup(r.value.members, "configuration") == Some(codec.configuration)
  {
    var name :- NameToString(codec.name);
    Ok(JObject([("configuration", codec.configuration), ("name", JString(name))]))
  }

  /** `operator==`: compare the JSON forms; the codec kind takes no part. */
  function Equal(a: ZarrCodec, b: ZarrCodec): (r: Result<bool, ZarrError>)
    ensures r.Ok? <==> a.name != NoCodecName && b.name != NoCodecName
    ensures r == Ok(true) <==>
      a.name != NoCodecName && a.name == b.name && a.configuration == b.configuration
  {
    var ja :- ToJson(a);
    var jb :- ToJson(b);
    Ok(ja == jb)
  }

  /** For object configurations the library can hold, codec equality
      compares names and the members of the configurations, whatever order
      they are listed in, as the library's key-sorted objects compare. */
  lemma EqualComparesConfigurationMembers(a: ZarrCodec, b: ZarrCodec)
    requires a.configuration.JObject? && Canonical(a.configuration)
    requires b.configuration.JObject? && Canonical(b.configuration)
    ensures Equal(a, b) == Ok(true) <==>
      && a.name != NoCodecName && a.name == b.name
      && forall m :: m in a.configuration.members <==> m in b.configuration.members
  {
    AscendingMembersEqualByContent(a.configuration.members, b.configuration.members);
  }

  /** On codecs with a real name, equality is an equivalence. */
  lemma EqualIsEquivalence(a: ZarrCodec, b: ZarrCodec, c: ZarrCodec)
    requires a.name != NoCodecName
    ensures Equal(a, a) == Ok(true)
    ensures Equal(a, b) == Equal(b, a)
    ensures Equal(a, b) == Ok(true) && Equal(b, c) == Ok(true) ==> Equal(a, c) == Ok(true)
  {
  }

  /** `toString(ZarrCodec)`: the string of its name. */
  function CodecToString(codec: ZarrCodec): Result<string, ZarrError>
  {
    NameToString(codec.name)
  }

  /** `fromString<ZarrCodec>`: lower-case, parse the name, construct. */
  function ParseCodec(s: string): (r: Result<ZarrCodec, ZarrError>)
    ensures r.Ok? <==> Lower(s) == "bytes" || Lower(s) == "transpose"
    ensures r.Err? ==> r.error == InvalidCodecName(Lower(s))
    ensures r.Ok? ==> CodecToString(r.value) == Ok(Lower(s))
  {
    var str := Lower(s);
    var name :- ParseCodecName(str);
    LowerIdempotent(s);
    NewCodec(name)
  }

  /** A parsed codec equals the codec constructed from the parsed name, and a
      constructed codec is recovered from its string. */
  lemma ParseCodecRoundTrip(s: string, name: CodecName)
    requires name != NoCodecName
    ensures ParseCodec(s).Ok? ==>
      ParseCodecName(s).Ok? && Equal(ParseCodec(s).value, NewCodec(ParseCodecName(s).value).value) == Ok(true)
    ensures ParseCodec(CodecToString(NewCodec(name).value).value) == NewCodec(name)
  {
    LowerIdempotent(s);
    NameRoundTrip(name);
  }
}
