/** The on-disk record of the Cold tier: a 53-byte header (magic, flag, four
    little-endian lengths, SHA-256), then key, class and LZ4 payload.

    LZ4, SHA-256, JSON and UTF-8 are parameters, gathered in `Codec`; the
    theorems that need a law of theirs ask for `Lawful`. */
module ColdRecord {
  import opened Prelude

  const MAGIC: Bytes := [0x4A, 0x4D, 0x43, 0x31]  // "JMC1"
  const FLAG_VALUE: byte := 1
  const FLAG_TOMBSTONE: byte := 2
  const HEADER_LEN: nat := 53
  const MAX_FIELD_BYTES: nat := 16 * 1024 * 1024
  const MAX_PAYLOAD_BYTES: nat := 1024 * 1024 * 1024

  type Digest = b: Bytes | |b| == 32 witness seq(32, _ => 0)

  const ZERO_DIGEST: Digest := seq(32, _ => 0)

  type Utf8 = Bytes -> bool

  datatype Entry<V> = Entry(class_: Bytes, value: V)

  datatype ColdError =
    | FieldTooLarge
    | NotSerializable
    | QuotaExceeded(used: nat, needed: nat, limit: nat)
    | ClassMismatch
    | BadHeader
    | PointsToTombstone
    | Truncated
    | BadUtf8
    | WrongKey
    | BadPayload
    | BadChecksum
    | BadJson
    | Io

  /** The external codecs. `decompress` gets the announced raw length. */
  datatype Codec<!V> = Codec(
    utf8: Utf8,
    compress: Bytes -> Bytes,
    decompress: (Bytes, nat) -> Option<Bytes>,
    digest: Bytes -> Digest,
    toJson: V -> Option<Bytes>,
    fromJson: Bytes -> Option<V>,
    classDir: Bytes -> Bytes)

  /** What the libraries promise: LZ4 and JSON are invertible. */
  ghost predicate Lawful<V(!new)>(c: Codec<V>)
  {
    && (forall raw :: c.decompress(c.compress(raw), |raw|) == Some(raw))
    && (forall v :: c.toJson(v).Some? ==> c.fromJson(c.toJson(v).value) == Some(v))
  }

  datatype Header = Header(
    flag: byte, keyLen: nat, classLen: nat, rawLen: nat, payloadLen: nat, checksum: Digest)

  // ---------------------------------------------------------------- integers

  function U32Le(n: nat): (b: Bytes)
    ensures |b| == 4
  {
    [(n % 0x100) as byte,
     (n / 0x100 % 0x100) as byte,
     (n / 0x1_0000 % 0x100) as byte,
     (n / 0x100_0000 % 0x100) as byte]
  }

  function FromU32Le(b: Bytes): nat
    requires |b| == 4
  {
    b[0] as nat + 0x100 * b[1] as nat + 0x1_0000 * b[2] as nat + 0x100_0000 * b[3] as nat
  }

  lemma U32RoundTrip(n: nat)
    requires n < 0x1_0000_0000
    ensures FromU32Le(U32Le(n)) == n
  {
    var q1 := n / 0x100;
    var q2 := q1 / 0x100;
    assert q2 == n / 0x1_0000;
    assert q2 / 0x100 == n / 0x100_0000;
  }

  // ------------------------------------------------------------------ header

  predicate LenOk(value: nat, maximum: nat)
  {
    value <= maximum && value <= 0xFFFF_FFFF
  }

  function WriteHeader(h: Header): (b: Bytes)
    ensures |b| == HEADER_LEN
  {
    MAGIC + [h.flag] + U32Le(h.keyLen) + U32Le(h.classLen) + U32Le(h.rawLen) + U32Le(h.payloadLen)
    + h.checksum
  }

  predicate ValidHeader(h: Header)
  {
    && LenOk(h.keyLen, MAX_FIELD_BYTES)
    && LenOk(h.classLen, MAX_FIELD_BYTES)
    && LenOk(h.rawLen, MAX_PAYLOAD_BYTES)
    && LenOk(h.payloadLen, MAX_PAYLOAD_BYTES)
  }

  function ParseHeader(b: Bytes): Option<Header>
  {
    if |b| < HEADER_LEN || b[..4] != MAGIC then None else
    var h := Header(b[4], FromU32Le(b[5..9]), FromU32Le(b[9..13]), FromU32Le(b[13..17]),
                    FromU32Le(b[17..21]), b[21..53]);
    if ValidHeader(h) then Some(h) else None
  }

  /** Whatever follows a written header, parsing gives the header back. */
  lemma HeaderRoundTrip(h: Header, rest: Bytes)
    requires ValidHeader(h)
    ensures ParseHeader(WriteHeader(h) + rest) == Some(h)
  {
    var b := WriteHeader(h) + rest;
    U32RoundTrip(h.keyLen);
    U32RoundTrip(h.classLen);
    U32RoundTrip(h.rawLen);
    U32RoundTrip(h.payloadLen);
    assert b[..4] == MAGIC;
    assert b[4] == h.flag;
    assert b[5..9] == U32Le(h.keyLen);
    assert b[9..13] == U32Le(h.classLen);
    assert b[13..17] == U32Le(h.rawLen);
    assert b[17..21] == U32Le(h.payloadLen);
    assert b[21..53] == h.checksum;
  }

  lemma SubSlice(a: Bytes, n: nat, i: nat, j: nat)
    requires i <= j <= n <= |a|
    ensures a[..n][i..j] == a[i..j]
  {
  }

  lemma HeaderReadsPrefix(a: Bytes)
    requires |a| >= HEADER_LEN
    ensures ParseHeader(a) == ParseHeader(a[..HEADER_LEN])
  {
    SubSlice(a, HEADER_LEN, 0, 4);
    SubSlice(a, HEADER_LEN, 5, 9);
    SubSlice(a, HEADER_LEN, 9, 13);
    SubSlice(a, HEADER_LEN, 13, 17);
    SubSlice(a, HEADER_LEN, 17, 21);
    SubSlice(a, HEADER_LEN, 21, 53);
  }

  // ----------------------------------------------------------------- records

  function TotalLen(h: Header): nat
  {
    HEADER_LEN + h.keyLen + h.classLen + h.payloadLen
  }

  /** Length of the structurally valid record at the start of `b`, if any. */
  function RecordLen(u: Utf8, b: Bytes): (r: Option<nat>)
    ensures r.Some? ==> HEADER_LEN <= r.value <= |b|
  {
    if |b| < HEADER_LEN then None else
    match ParseHeader(b[..HEADER_LEN])
    case None => None
    case Some(h) =>
      if h.flag != FLAG_VALUE && h.flag != FLAG_TOMBSTONE then None else
      var keyEnd := HEADER_LEN + h.keyLen;
      var classEnd := keyEnd + h.classLen;
      var total := classEnd + h.payloadLen;
      if total > |b| then None
      else if !u(b[HEADER_LEN..keyEnd]) then None
      else if !u(b[keyEnd..classEnd]) then None
      else Some(total)
  }

  function HeaderOf(u: Utf8, b: Bytes): (h: Header)
    requires RecordLen(u, b).Some?
    ensures RecordLen(u, b) == Some(TotalLen(h))
  {
    ParseHeader(b[..HEADER_LEN]).value
  }

  function KeyOf(u: Utf8, b: Bytes): Bytes
    requires RecordLen(u, b).Some?
  {
    b[HEADER_LEN..HEADER_LEN + HeaderOf(u, b).keyLen]
  }

  function ClassOf(u: Utf8, b: Bytes): Bytes
    requires RecordLen(u, b).Some?
  {
    var h := HeaderOf(u, b);
    b[HEADER_LEN + h.keyLen..HEADER_LEN + h.keyLen + h.classLen]
  }

  /** `r` is one complete record and nothing else. */
  predicate IsRecord(u: Utf8, r: Bytes)
  {
    RecordLen(u, r) == Some(|r|)
  }

  /** Two inputs with the same first record bytes hold the same record: bytes
      after a record never change how it is read. */
  lemma RecordIsLocal(u: Utf8, a: Bytes, b: Bytes)
    requires RecordLen(u, a).Some?
    requires RecordLen(u, a).value <= |b| && b[..RecordLen(u, a).value] == a[..RecordLen(u, a).value]
    ensures RecordLen(u, b) == RecordLen(u, a)
    ensures HeaderOf(u, b) == HeaderOf(u, a)
    ensures KeyOf(u, b) == KeyOf(u, a) && ClassOf(u, b) == ClassOf(u, a)
  {
    var n := RecordLen(u, a).value;
    SubSlice(a, n, 0, HEADER_LEN);
    SubSlice(b, n, 0, HEADER_LEN);
    var h := HeaderOf(u, a);
    var keyEnd := HEADER_LEN + h.keyLen;
    var classEnd := keyEnd + h.classLen;
    SubSlice(a, n, HEADER_LEN, keyEnd);
    SubSlice(b, n, HEADER_LEN, keyEnd);
    SubSlice(a, n, keyEnd, classEnd);
    SubSlice(b, n, keyEnd, classEnd);
  }

  /** The first record of `a`, cut out, is a record. */
  lemma FirstRecord(u: Utf8, a: Bytes)
    requires RecordLen(u, a).Some?
    ensures IsRecord(u, a[..RecordLen(u, a).value])
  {
    var n := RecordLen(u, a).value;
    RecordIsLocal(u, a, a[..n]);
  }

  /** A record followed by anything is still read as that record. */
  lemma RecordThen(u: Utf8, r: Bytes, t: Bytes)
    requires IsRecord(u, r)
    ensures RecordLen(u, r + t) == Some(|r|)
    ensures HeaderOf(u, r + t) == HeaderOf(u, r)
    ensures KeyOf(u, r + t) == KeyOf(u, r) && ClassOf(u, r + t) == ClassOf(u, r)
  {
    assert (r + t)[..|r|] == r == r[..|r|];
    RecordIsLocal(u, r, r + t);
  }

  /** No strict prefix of a record is a record. */
  lemma StrictPrefixIsNoRecord(u: Utf8, r: Bytes, n: nat)
    requires IsRecord(u, r) && n < |r|
    ensures RecordLen(u, r[..n]).None?
  {
    if n >= HEADER_LEN {
      assert r[..n][..HEADER_LEN] == r[..HEADER_LEN];
    }
  }

  function EncodeRecord(flag: byte, key: Bytes, class_: Bytes, rawLen: nat, payload: Bytes, checksum: Digest): Bytes
  {
    WriteHeader(Header(flag, |key|, |class_|, rawLen, |payload|, checksum)) + key + class_ + payload
  }

  /** Where the fields of an encoded record are. */
  lemma EncodedSlices(flag: byte, key: Bytes, class_: Bytes, rawLen: nat, payload: Bytes, checksum: Digest)
    requires ValidHeader(Header(flag, |key|, |class_|, rawLen, |payload|, checksum))
    ensures var h := Header(flag, |key|, |class_|, rawLen, |payload|, checksum);
      var r := EncodeRecord(flag, key, class_, rawLen, payload, checksum);
      var keyEnd := HEADER_LEN + |key|;
      var classEnd := keyEnd + |class_|;
      && |r| == classEnd + |payload|
      && ParseHeader(r) == Some(h) && ParseHeader(r[..HEADER_LEN]) == Some(h)
      && r[HEADER_LEN..keyEnd] == key && r[keyEnd..classEnd] == class_ && r[classEnd..|r|] == payload
  {
    var h := Header(flag, |key|, |class_|, rawLen, |payload|, checksum);
    var r := EncodeRecord(flag, key, class_, rawLen, payload, checksum);
    assert r == WriteHeader(h) + (key + class_ + payload);
    HeaderRoundTrip(h, key + class_ + payload);
    HeaderReadsPrefix(r);
  }

  /** An encoded record is structurally valid, and its fields read back. */
  lemma EncodeIsRecord(u: Utf8, flag: byte, key: Bytes, class_: Bytes, rawLen: nat, payload: Bytes, checksum: Digest)
    requires flag == FLAG_VALUE || flag == FLAG_TOMBSTONE
    requires u(key) && u(class_)
    requires ValidHeader(Header(flag, |key|, |class_|, rawLen, |payload|, checksum))
    ensures var r := EncodeRecord(flag, key, class_, rawLen, payload, checksum);
      && IsRecord(u, r)
      && HeaderOf(u, r) == Header(flag, |key|, |class_|, rawLen, |payload|, checksum)
      && KeyOf(u, r) == key && ClassOf(u, r) == class_
  {
    EncodedSlices(flag, key, class_, rawLen, payload, checksum);
  }

  /** Reading one indexed record (`decode_value_record`). */
  function DecodeValueRecord<V>(c: Codec<V>, b: Bytes, expectedKey: Bytes): Result<Entry<V>, ColdError>
  {
    match ParseHeader(b)
    case None => Err(BadHeader)
    case Some(h) =>
      if h.flag != FLAG_VALUE then Err(PointsToTombstone) else
      var classStart := HEADER_LEN + h.keyLen;
      var payloadStart := classStart + h.classLen;
      var payloadEnd := payloadStart + h.payloadLen;
      if payloadEnd > |b| then Err(Truncated)
      else if !c.utf8(b[HEADER_LEN..classStart]) then Err(BadUtf8)
      else if b[HEADER_LEN..classStart] != expectedKey then Err(WrongKey)
      else if !c.utf8(b[classStart..payloadStart]) then Err(BadUtf8)
      else match c.decompress(b[payloadStart..payloadEnd], h.rawLen)
        case None => Err(BadPayload)
        case Some(raw) =>
          if c.digest(raw) != h.checksum then Err(BadChecksum)
          else match c.fromJson(raw)
            case None => Err(BadJson)
            case Some(value) => Ok(Entry(b[classStart..payloadStart], value))
  }

  /** The bytes `append_record` writes for a value or, with `None`, a tombstone. */
  function BuildRecord<V>(c: Codec<V>, key: Bytes, class_: Bytes, value: Option<V>): Result<Bytes, ColdError>
  {
    if !LenOk(|key|, MAX_FIELD_BYTES) || !LenOk(|class_|, MAX_FIELD_BYTES) then Err(FieldTooLarge) else
    match value
    case None => Ok(EncodeRecord(FLAG_TOMBSTONE, key, class_, 0, [], ZERO_DIGEST))
    case Some(v) =>
      match c.toJson(v)
      case None => Err(NotSerializable)
      case Some(raw) =>
        if !LenOk(|raw|, MAX_PAYLOAD_BYTES) then Err(FieldTooLarge) else
        var payload := c.compress(raw);
        if !LenOk(|payload|, MAX_PAYLOAD_BYTES) then Err(FieldTooLarge) else
        Ok(EncodeRecord(FLAG_VALUE, key, class_, |raw|, payload, c.digest(raw)))
  }

  /** Decoding an encoded value record finds its key, class, payload and digest. */
  lemma DecodeEncoded<V>(c: Codec<V>, key: Bytes, class_: Bytes, rawLen: nat, payload: Bytes, checksum: Digest)
    requires c.utf8(key) && c.utf8(class_)
    requires ValidHeader(Header(FLAG_VALUE, |key|, |class_|, rawLen, |payload|, checksum))
    ensures DecodeValueRecord(c, EncodeRecord(FLAG_VALUE, key, class_, rawLen, payload, checksum), key) ==
      match c.decompress(payload, rawLen)
      case None => Err(BadPayload)
      case Some(raw) =>
        if c.digest(raw) != checksum then Err(BadChecksum)
        else match c.fromJson(raw)
          case None => Err(BadJson)
          case Some(value) => Ok(Entry(class_, value))
  {
    EncodedSlices(FLAG_VALUE, key, class_, rawLen, payload, checksum);
  }

  /** What `append_record` writes is one valid record of that key and class. */
  lemma BuiltRecordIsRecord<V>(c: Codec<V>, key: Bytes, class_: Bytes, value: Option<V>)
    requires c.utf8(key) && c.utf8(class_)
    requires BuildRecord(c, key, class_, value).Ok?
    ensures var r := BuildRecord(c, key, class_, value).value;
      && IsRecord(c.utf8, r)
      && KeyOf(c.utf8, r) == key && ClassOf(c.utf8, r) == class_
      && HeaderOf(c.utf8, r).flag == (if value.Some? then FLAG_VALUE else FLAG_TOMBSTONE)
  {
    match value {
      case None =>
        EncodeIsRecord(c.utf8, FLAG_TOMBSTONE, key, class_, 0, [], ZERO_DIGEST);
      case Some(v) =>
        var raw := c.toJson(v).value;
        EncodeIsRecord(c.utf8, FLAG_VALUE, key, class_, |raw|, c.compress(raw), c.digest(raw));
    }
  }

  /** Round trip: decoding a written value record returns the stored entry. */
  lemma BuiltRecordRoundTrip<V(!new)>(c: Codec<V>, key: Bytes, class_: Bytes, value: V)
    requires Lawful(c) && c.utf8(key) && c.utf8(class_)
    requires BuildRecord(c, key, class_, Some(value)).Ok?
    ensures DecodeValueRecord(c, BuildRecord(c, key, class_, Some(value)).value, key) == Ok(Entry(class_, value))
  {
    var raw := c.toJson(value).value;
    var payload := c.compress(raw);
    DecodeEncoded(c, key, class_, |raw|, payload, c.digest(raw));
    assert c.decompress(payload, |raw|) == Some(raw);
  }
}
