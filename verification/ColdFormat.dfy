/** The record format byte by byte: where each field is, which byte strings are
    records, which records decode, and which values can be written. */
module ColdFormat {
  import opened Prelude
  import opened ColdRecord

  /** A 32-bit number, least significant byte first. */
  ghost predicate IsNumber(b: Bytes, i: nat, n: nat)
    requires i + 4 <= |b|
  {
    n == b[i] as nat + 256 * b[i + 1] as nat + 65536 * b[i + 2] as nat + 16777216 * b[i + 3] as nat
  }

  /** Every byte of a header. */
  lemma HeaderLayout(h: Header)
    requires ValidHeader(h)
    ensures var b := WriteHeader(h);
      && |b| == 53
      && b[..4] == [0x4A, 0x4D, 0x43, 0x31] && b[4] == h.flag
      && IsNumber(b, 5, h.keyLen) && IsNumber(b, 9, h.classLen)
      && IsNumber(b, 13, h.rawLen) && IsNumber(b, 17, h.payloadLen)
      && b[21..] == h.checksum
  {
    var b := WriteHeader(h);
    U32RoundTrip(h.keyLen);
    U32RoundTrip(h.classLen);
    U32RoundTrip(h.rawLen);
    U32RoundTrip(h.payloadLen);
    assert b[5..9] == U32Le(h.keyLen);
    assert b[9..13] == U32Le(h.classLen);
    assert b[13..17] == U32Le(h.rawLen);
    assert b[17..21] == U32Le(h.payloadLen);
  }

  lemma FieldLimits(h: Header)
    ensures ValidHeader(h) <==>
      h.keyLen <= 16777216 && h.classLen <= 16777216 && h.rawLen <= 1073741824 && h.payloadLen <= 1073741824
  {
  }

  /** Four bytes are the little-endian digits of the number they stand for. */
  lemma BytesOfNumber(b: Bytes)
    requires |b| == 4
    ensures U32Le(FromU32Le(b)) == b
  {
    var n := FromU32Le(b);
    var q1 := b[1] as nat + 0x100 * b[2] as nat + 0x1_0000 * b[3] as nat;
    var q2 := b[2] as nat + 0x100 * b[3] as nat;
    assert n == b[0] as nat + 0x100 * q1 && q1 == b[1] as nat + 0x100 * q2;
    assert n / 0x100 == q1 && n % 0x100 == b[0] as nat;
    assert q1 / 0x100 == q2 && q1 % 0x100 == b[1] as nat;
    assert n / 0x1_0000 == q2 && n / 0x100_0000 == b[3] as nat;
  }

  /** A header that parses was written by the writer. */
  lemma ParsedIsWritten(b: Bytes)
    requires ParseHeader(b).Some?
    ensures ValidHeader(ParseHeader(b).value)
    ensures b[..53] == WriteHeader(ParseHeader(b).value)
  {
    BytesOfNumber(b[5..9]);
    BytesOfNumber(b[9..13]);
    BytesOfNumber(b[13..17]);
    BytesOfNumber(b[17..21]);
    var h := ParseHeader(b).value;
    hide U32Le, FromU32Le;
    assert b[..53] == b[..4] + [b[4]] + b[5..9] + b[9..13] + b[13..17] + b[17..21] + b[21..53];
  }

  ghost function PayloadOf(u: Utf8, b: Bytes): Bytes
    requires RecordLen(u, b).Some?
  {
    b[RecordLen(u, b).value - HeaderOf(u, b).payloadLen..RecordLen(u, b).value]
  }

  /** The byte strings that start with a record are exactly those that start with the
      encoding of one: a flag of 1 or 2, a key and a class in UTF-8, fields in their
      limits. What `RecordLen` finds is the whole of it. */
  lemma RecordIsEncoded(u: Utf8, b: Bytes)
    requires RecordLen(u, b).Some?
    ensures var h, n := HeaderOf(u, b), RecordLen(u, b).value;
      && (h.flag == 1 || h.flag == 2) && u(KeyOf(u, b)) && u(ClassOf(u, b)) && ValidHeader(h)
      && |KeyOf(u, b)| == h.keyLen && |ClassOf(u, b)| == h.classLen && |PayloadOf(u, b)| == h.payloadLen
      && b[..n] == EncodeRecord(h.flag, KeyOf(u, b), ClassOf(u, b), h.rawLen, PayloadOf(u, b), h.checksum)
  {
    var n := RecordLen(u, b).value;
    var h := HeaderOf(u, b);
    ParsedIsWritten(b[..53]);
    assert b[..53][..53] == b[..53];
    hide ParseHeader, WriteHeader, ValidHeader;
    var k, c := 53 + h.keyLen, 53 + h.keyLen + h.classLen;
    assert b[..n] == b[..53] + b[53..k] + b[k..c] + b[c..n];
  }

  lemma EncodedIsRecord(u: Utf8, flag: byte, key: Bytes, class_: Bytes, rawLen: nat, payload: Bytes, checksum: Digest,
                        rest: Bytes)
    requires flag == 1 || flag == 2
    requires u(key) && u(class_)
    requires |key| <= 16777216 && |class_| <= 16777216 && rawLen <= 1073741824 && |payload| <= 1073741824
    ensures var r := EncodeRecord(flag, key, class_, rawLen, payload, checksum);
      && |r| == 53 + |key| + |class_| + |payload|
      && RecordLen(u, r + rest) == Some(|r|)
  {
    EncodeIsRecord(u, flag, key, class_, rawLen, payload, checksum);
    EncodedSlices(flag, key, class_, rawLen, payload, checksum);
    var r := EncodeRecord(flag, key, class_, rawLen, payload, checksum);
    hide EncodeRecord, RecordLen, HeaderOf, KeyOf, ClassOf;
    RecordThen(u, r, rest);
  }

  /** What reading one record accepts: exactly a value record of the expected key whose
      payload decompresses to bytes with the recorded digest that are JSON. */
  lemma DecodesIff<V>(c: Codec<V>, b: Bytes, key: Bytes, e: Entry<V>)
    ensures DecodeValueRecord(c, b, key) == Ok(e) <==>
      && RecordLen(c.utf8, b).Some?
      && HeaderOf(c.utf8, b).flag == 1
      && KeyOf(c.utf8, b) == key && ClassOf(c.utf8, b) == e.class_
      && var raw := c.decompress(PayloadOf(c.utf8, b), HeaderOf(c.utf8, b).rawLen);
        && raw.Some? && c.digest(raw.value) == HeaderOf(c.utf8, b).checksum
        && c.fromJson(raw.value) == Some(e.value)
  {
    if |b| >= 53 {
      HeaderReadsPrefix(b);
    }
    hide ValidHeader, FromU32Le;
  }

  /** What can be written: field and payload lengths within their limits, and a value
      that serialises; and how many bytes it takes. */
  lemma BuildsIff<V>(c: Codec<V>, key: Bytes, class_: Bytes, value: Option<V>)
    ensures BuildRecord(c, key, class_, value).Ok? <==>
      && |key| <= 16777216 && |class_| <= 16777216
      && (value.Some? ==>
           && c.toJson(value.value).Some?
           && |c.toJson(value.value).value| <= 1073741824
           && |c.compress(c.toJson(value.value).value)| <= 1073741824)
    ensures BuildRecord(c, key, class_, value).Ok? ==>
      |BuildRecord(c, key, class_, value).value| == RecordBytes(c, key, class_, value)
    ensures BuildRecord(c, key, class_, value) == Err(NotSerializable) <==>
      |key| <= 16777216 && |class_| <= 16777216 && value.Some? && c.toJson(value.value).None?
    ensures BuildRecord(c, key, class_, value).Err? ==>
      BuildRecord(c, key, class_, value).error in {NotSerializable, FieldTooLarge}
  {
  }

  /** Header, key, class and compressed payload. */
  ghost function RecordBytes<V>(c: Codec<V>, key: Bytes, class_: Bytes, value: Option<V>): nat
  {
    53 + |key| + |class_|
    + if value.Some? && c.toJson(value.value).Some? then |c.compress(c.toJson(value.value).value)| else 0
  }
}
