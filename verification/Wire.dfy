/**
 * Frames as bytes (src/main.rs, `Frame::encode`, `decode`, `encode_wire`, `decode_v3` and the
 * two dispatchers). The keyed hash and the cipher are parameters: the hash gives 16 bytes, and
 * decryption undoes encryption under the same key and nonce.
 */
module Wire {
  import opened Bytes
  import opened Frames

  const MAGIC: seq<byte> := [0x53, 0x46, 0x45, 0x43] // "SFEC"
  const TAG: nat := 16
  const HEADER: nat := 36
  const HEADER_V2: nat := 44
  const V3_SELECTOR: nat := 8
  const V3_SELECTOR_PREFIX: nat := 4
  const V3_NONCE: nat := 24
  const V3_INNER_HEADER: nat := 31

  datatype WireError =
    | Short | BadVersion | BadAuth | BadProtocol | BadLength | BadEnvelope | UnknownSelector | LegacyRemoved

  datatype Suite = Suite(
    tag: (seq<byte>, seq<byte>) -> seq<byte>,
    seal: (seq<byte>, seq<byte>, seq<byte>) -> seq<byte>,
    open: (seq<byte>, seq<byte>, seq<byte>) -> Option<seq<byte>>,
    selector: nat -> seq<byte>)

  ghost predicate Works(s: Suite) {
    && (forall k, m :: |s.tag(k, m)| == TAG)
    && (forall k, n, m :: |s.seal(k, n, m)| == |m| + TAG && s.open(k, n, s.seal(k, n, m)) == Some(m))
    && (forall id :: |s.selector(id)| == V3_SELECTOR_PREFIX)
  }

  lemma SuiteExists() returns (s: Suite)
    ensures Works(s)
  {
    s := Suite((k, m) => Zeros(TAG), (k, n, m: seq<byte>) => m + Zeros(TAG),
               (k, n, c: seq<byte>) => if |c| >= TAG then Some(c[..|c| - TAG]) else None,
                id => Zeros(V3_SELECTOR_PREFIX));
    forall k: seq<byte>, n: seq<byte>, m: seq<byte> ensures s.open(k, n, s.seal(k, n, m)) == Some(m) {
      assert (m + Zeros(TAG))[..|m|] == m;
    }
  }

  /** The fields fit their places on the wire. */
  ghost predicate Fits(f: Frame) {
    && f.kind < 256 && f.keyId < U64_LIMIT && f.session < U64_LIMIT && f.sequence < U64_LIMIT && f.group < U64_LIMIT
    && f.index < U16_LIMIT && f.data < 256 && f.parity < 256 && |f.payload| < U16_LIMIT
  }

  // ----- The fields every version carries -----

  function Fields(f: Frame): (s: seq<byte>)
    ensures |s| == 30
  {
    BE(f.session, 8) + BE(f.sequence, 8) + BE(f.group, 8) + BE(f.index, 2) + [f.data % 256] + [f.parity % 256]
    + BE(|f.payload|, 2)
  }

  function ReadFields(s: seq<byte>, version: nat, keyId: nat, kind: nat, payload: seq<byte>): Frame
    requires |s| == 30
  {
    Frame(version, keyId, kind, Val(s[0..8]), Val(s[8..16]), Val(s[16..24]), Val(s[24..26]), s[26], s[27], payload)
  }

  lemma FieldsReadBack(f: Frame)
    requires Fits(f)
    ensures ReadFields(Fields(f), f.version, f.keyId, f.kind, f.payload) == f
    ensures Val(Fields(f)[28..30]) == |f.payload|
  {
    var s := Fields(f);
    assert s[0..8] == BE(f.session, 8) && s[8..16] == BE(f.sequence, 8) && s[16..24] == BE(f.group, 8);
    assert s[24..26] == BE(f.index, 2) && s[28..30] == BE(|f.payload|, 2);
    ValBE64(f.session);
    ValBE64(f.sequence);
    ValBE64(f.group);
    ValBE16(f.index);
    ValBE16(|f.payload|);
  }

  // ----- Versions 1 and 2 -----

  function Prefix(f: Frame): (s: seq<byte>)
    ensures |s| == if f.version == 2 then 14 else 6
  {
    MAGIC + [f.version % 256] + [f.kind % 256] + (if f.version == 2 then BE(f.keyId, 8) else [])
  }

  function EncodeLegacy(suite: Suite, f: Frame, key: seq<byte>): seq<byte> {
    var body := Prefix(f) + Fields(f) + f.payload;
    body + suite.tag(key, body)
  }

  function DecodeLegacy(suite: Suite, buf: seq<byte>, key: seq<byte>): Result<Frame, WireError> {
    if |buf| < 6 + TAG then Err(Short)
    else if buf[4] != 1 && buf[4] != 2 then Err(BadVersion)
    else
      var v2 := buf[4] == 2;
      var header, offset := if v2 then HEADER_V2 else HEADER, if v2 then 14 else 6;
      if |buf| < header + TAG then Err(Short)
      else
        var n := |buf| - TAG;
        if suite.tag(key, buf[..n]) != buf[n..] then Err(BadAuth)
        else if buf[..4] != MAGIC then Err(BadProtocol)
        else
          var len := Val(buf[offset + 28..offset + 30]);
          if header + len + TAG != |buf| then Err(BadLength)
          else
            Ok(ReadFields(buf[offset..offset + 30], buf[4], if v2 then Val(buf[6..14]) else 0, buf[5],
                          buf[header..header + len]))
  }

  /** A V1 frame without a key id, or any V2 frame, survives the wire. */
  lemma LegacyRoundTrip(suite: Suite, f: Frame, key: seq<byte>)
    requires Works(suite) && Fits(f) && (f.version == 2 || (f.version == 1 && f.keyId == 0))
    ensures DecodeLegacy(suite, EncodeLegacy(suite, f, key), key) == Ok(f)
  {
    var body := Prefix(f) + Fields(f) + f.payload;
    var buf := EncodeLegacy(suite, f, key);
    var offset := |Prefix(f)|;
    assert buf[..|body|] == body && buf[|body|..] == suite.tag(key, body);
    assert buf[..4] == MAGIC && buf[4] == f.version && buf[5] == f.kind;
    assert f.version == 2 ==> buf[6..14] == BE(f.keyId, 8);
    ValBE64(f.keyId);
    var fields := buf[offset..offset + 30];
    assert fields == Fields(f);
    assert buf[offset + 28..offset + 30] == fields[28..30];
    assert buf[offset + 30..offset + 30 + |f.payload|] == f.payload;
    FieldsReadBack(f);
  }

  // ----- Version 3 -----

  function Inner(f: Frame): seq<byte> {
    [f.kind % 256] + Fields(f) + f.payload
  }

  /** `nonce` and `suffix` are the random bytes drawn for the frame. */
  function EncodeV3(suite: Suite, f: Frame, key: seq<byte>, nonce: seq<byte>, suffix: seq<byte>): seq<byte> {
    suite.selector(f.keyId) + suffix + nonce + suite.seal(key, nonce, Inner(f))
  }

  function DecodeV3(suite: Suite, buf: seq<byte>, keyId: nat, key: seq<byte>): Result<Frame, WireError> {
    if |buf| < V3_SELECTOR + V3_NONCE + V3_INNER_HEADER + TAG || buf[..V3_SELECTOR_PREFIX] != suite.selector(keyId)
    then Err(BadEnvelope)
    else
      match suite.open(key, buf[V3_SELECTOR..V3_SELECTOR + V3_NONCE], buf[V3_SELECTOR + V3_NONCE..])
      case None => Err(BadAuth)
      case Some(inner) =>
        if |inner| < V3_INNER_HEADER then Err(Short)
        else if V3_INNER_HEADER + Val(inner[29..31]) != |inner| then Err(BadLength)
        else Ok(ReadFields(inner[1..31], 3, keyId, inner[0], inner[V3_INNER_HEADER..]))
  }

  lemma V3RoundTrip(suite: Suite, f: Frame, key: seq<byte>, nonce: seq<byte>, suffix: seq<byte>)
    requires Works(suite) && Fits(f) && f.version == 3
    requires |nonce| == V3_NONCE && |suffix| == V3_SELECTOR - V3_SELECTOR_PREFIX
    ensures DecodeV3(suite, EncodeV3(suite, f, key, nonce, suffix), f.keyId, key) == Ok(f)
    ensures EncodeV3(suite, f, key, nonce, suffix)[..V3_SELECTOR_PREFIX] == suite.selector(f.keyId)
    ensures |EncodeV3(suite, f, key, nonce, suffix)| == |f.payload| + 79
  {
    var buf, inner := EncodeV3(suite, f, key, nonce, suffix), Inner(f);
    assert buf[..V3_SELECTOR_PREFIX] == suite.selector(f.keyId);
    assert buf[V3_SELECTOR..V3_SELECTOR + V3_NONCE] == nonce;
    assert buf[V3_SELECTOR + V3_NONCE..] == suite.seal(key, nonce, inner);
    assert inner[1..31] == Fields(f);
    assert inner[29..31] == inner[1..31][28..30];
    assert inner[V3_INNER_HEADER..] == f.payload;
    FieldsReadBack(f);
  }

  // ----- Dispatch -----

  function DecodeClient(suite: Suite, buf: seq<byte>, keyId: nat, key: seq<byte>): Result<Frame, WireError> {
    if MAGIC <= buf then DecodeLegacy(suite, buf, key) else DecodeV3(suite, buf, keyId, key)
  }

  function DecodeServer(suite: Suite, buf: seq<byte>, selectors: map<seq<byte>, (nat, seq<byte>)>)
    : Result<(Frame, seq<byte>), WireError>
  {
    if MAGIC <= buf then Err(LegacyRemoved)
    else if |buf| < V3_SELECTOR then Err(Short)
    else if buf[..V3_SELECTOR_PREFIX] !in selectors then Err(UnknownSelector)
    else
      var (keyId, key) := selectors[buf[..V3_SELECTOR_PREFIX]];
      match DecodeV3(suite, buf, keyId, key)
      case Ok(f) => Ok((f, key))
      case Err(e) => Err(e)
  }

  /**
   * A device's V3 frames reach the server exactly when the device's selector does not happen
   * to spell the legacy magic number; every frame the server accepts is a V3 frame.
   */
  lemma ServerReadsDevice(suite: Suite, f: Frame, key: seq<byte>, nonce: seq<byte>, suffix: seq<byte>,
                          selectors: map<seq<byte>, (nat, seq<byte>)>)
    requires Works(suite) && Fits(f) && f.version == 3
    requires |nonce| == V3_NONCE && |suffix| == V3_SELECTOR - V3_SELECTOR_PREFIX
    requires suite.selector(f.keyId) in selectors && selectors[suite.selector(f.keyId)] == (f.keyId, key)
    ensures
      var buf := EncodeV3(suite, f, key, nonce, suffix);
      DecodeServer(suite, buf, selectors) ==
      (if suite.selector(f.keyId) == MAGIC then Err(LegacyRemoved) else Ok((f, key)))
  {
    V3RoundTrip(suite, f, key, nonce, suffix);
    var buf := EncodeV3(suite, f, key, nonce, suffix);
    assert MAGIC <= buf <==> buf[..4] == MAGIC;
  }

  lemma ServerAcceptsOnlyV3(suite: Suite, buf: seq<byte>, selectors: map<seq<byte>, (nat, seq<byte>)>)
    requires DecodeServer(suite, buf, selectors).Ok?
    ensures DecodeServer(suite, buf, selectors).value.0.version == 3
    ensures |buf| >= 4 && buf[..4] in selectors
    ensures DecodeServer(suite, buf, selectors).value.0.keyId == selectors[buf[..4]].0
  {
  }

  /** The same on the client. */
  lemma ClientReadsServer(suite: Suite, f: Frame, key: seq<byte>, nonce: seq<byte>, suffix: seq<byte>)
    requires Works(suite) && Fits(f) && f.version == 3
    requires |nonce| == V3_NONCE && |suffix| == V3_SELECTOR - V3_SELECTOR_PREFIX
    requires suite.selector(f.keyId) != MAGIC
    ensures DecodeClient(suite, EncodeV3(suite, f, key, nonce, suffix), f.keyId, key) == Ok(f)
  {
    V3RoundTrip(suite, f, key, nonce, suffix);
    var buf := EncodeV3(suite, f, key, nonce, suffix);
    assert MAGIC <= buf <==> buf[..4] == MAGIC;
  }
}
