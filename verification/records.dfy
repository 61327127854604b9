/**
 * The record entity (`Record`, `RecordFactory.createRecord`, `RecordImpl`)
 * and the field layout `RecordImpl.writeObject` / `readObject` give it in a
 * byte stream: three length-prefixed strings, then an 8-byte `long`.
 */
module Records {
  import opened Wrappers
  import opened JavaText

  /** An immutable record: the four getters of the `Record` interface. */
  datatype Record = Record(primaryKey: string, name: string, description: string, updatedTimestamp: Long)

  const PrimaryKeyError: string := "Primary key cannot be empty or null"

  /**
   * `RecordFactory.createRecord`: refuses a missing (`None`, Java's null) or
   * blank primary key, and otherwise keeps the four values exactly as given.
   */
  function CreateRecord(primaryKey: Option<string>, name: string, description: string, updatedTimestamp: Long)
    : (r: Result<Record, string>)
    ensures r.Failure? <==> primaryKey.None? || IsBlank(primaryKey.value)
    ensures r.Failure? ==> r.error == PrimaryKeyError
    ensures r.Success? ==>
              && r.value.primaryKey == primaryKey.value
              && r.value.name == name
              && r.value.description == description
              && r.value.updatedTimestamp == updatedTimestamp
  {
    if primaryKey.None? || IsBlank(primaryKey.value) then Failure(PrimaryKeyError)
    else Success(Record(primaryKey.value, name, description, updatedTimestamp))
  }

  /** `RecordImpl.toString`. */
  function ToString(r: Record): (s: string)
    ensures var key := "{primaryKey:" + r.primaryKey + ", name:";
            var name := |key| + |r.name|;
            var desc := name + |", description:"| + |r.description|;
            var time := desc + |", updatedTimestamp:"|;
            && |s| == time + |LongToString(r.updatedTimestamp)| + 1
            && s[..|key|] == key
            && s[|key|..name] == r.name
            && s[name..name + |", description:"|] == ", description:"
            && s[name + |", description:"|..desc] == r.description
            && s[desc..time] == ", updatedTimestamp:"
            && s[time..|s| - 1] == LongToString(r.updatedTimestamp)
            && s[|s| - 1] == '}'
  {
    "{primaryKey:" + r.primaryKey + ", name:" + r.name + ", description:" + r.description
      + ", updatedTimestamp:" + LongToString(r.updatedTimestamp) + "}"
  }

  /** The timestamp printed by `toString`, just before the closing brace, reads back as the timestamp. */
  lemma ToStringTimestamp(r: Record)
    ensures var s := ToString(r);
            var t := |LongToString(r.updatedTimestamp)|;
            |s| > t && ParseLong(s[|s| - 1 - t..|s| - 1]) == Some(r.updatedTimestamp)
  {
    ParseLongToString(r.updatedTimestamp);
  }

  // ---------------------------------------------------------------------------
  // Bytes and big-endian numbers
  // ---------------------------------------------------------------------------

  newtype byte = x: int | 0 <= x < 256

  function Pow256(n: nat): (p: nat)
    ensures p > 0
  {
    if n == 0 then 1 else 256 * Pow256(n - 1)
  }

  /** The unsigned value of big-endian bytes. */
  function FromBigEndian(bs: seq<byte>): (n: nat)
    ensures n < Pow256(|bs|)
  {
    if bs == [] then 0 else 256 * FromBigEndian(bs[..|bs| - 1]) + bs[|bs| - 1] as int
  }

  /** `n` written as `width` big-endian bytes; reading them back gives `n`. */
  function ToBigEndian(n: nat, width: nat): (bs: seq<byte>)
    requires n < Pow256(width)
    ensures |bs| == width
    ensures FromBigEndian(bs) == n
  {
    if width == 0 then []
    else
      var bs := ToBigEndian(n / 256, width - 1) + [(n % 256) as byte];
      assert bs[..|bs| - 1] == ToBigEndian(n / 256, width - 1);
      bs
  }

  /** Big-endian bytes are the only `width`-byte rendering of their value. */
  lemma {:induction false} ToBigEndianOfFrom(bs: seq<byte>)
    ensures ToBigEndian(FromBigEndian(bs), |bs|) == bs
  {
    if bs != [] {
      var init := bs[..|bs| - 1];
      var n := FromBigEndian(bs);
      ToBigEndianOfFrom(init);
      assert n / 256 == FromBigEndian(init);
      assert n % 256 == bs[|bs| - 1] as int;
      assert init + [bs[|bs| - 1]] == bs;
    }
  }

  // ---------------------------------------------------------------------------
  // Strings: writeUTF / readUTF
  // ---------------------------------------------------------------------------

  /** The largest payload the 2-byte length prefix of `writeUTF` can announce. */
  const MaxUtfLength: nat := 0xFFFF

  predicate IsScalarValue(n: int) {
    0 <= n < 0xD800 || 0xE000 <= n < 0x11_0000
  }

  /** A char's code point as three big-endian bytes. */
  function CharBytes(c: char): (bs: seq<byte>)
    ensures |bs| == 3
  {
    assert Pow256(3) == 0x100_0000;
    ToBigEndian(c as int, 3)
  }

  /** The payload bytes of a string. */
  function StringBytes(s: string): (bs: seq<byte>)
    ensures |bs| == 3 * |s|
  {
    if s == [] then [] else CharBytes(s[0]) + StringBytes(s[1..])
  }

  /** Decodes a payload three bytes per char; `None` when a triple is no Unicode scalar value. */
  function DecodeChars(bs: seq<byte>): Option<string>
    requires |bs| % 3 == 0
  {
    if bs == [] then Some([])
    else
      var n := FromBigEndian(bs[..3]);
      if !IsScalarValue(n) then None
      else match DecodeChars(bs[3..])
        case None => None
        case Some(rest) => Some([n as char] + rest)
  }

  lemma {:induction false} DecodeCharsOfStringBytes(s: string)
    ensures DecodeChars(StringBytes(s)) == Some(s)
  {
    if s != [] {
      var bs := StringBytes(s);
      DecodeCharsOfStringBytes(s[1..]);
      assert bs[..3] == CharBytes(s[0]);
      assert bs[3..] == StringBytes(s[1..]);
      assert [s[0]] + s[1..] == s;
    }
  }

  lemma {:induction false} StringBytesOfDecodeChars(bs: seq<byte>)
    requires |bs| % 3 == 0 && DecodeChars(bs).Some?
    ensures StringBytes(DecodeChars(bs).value) == bs
  {
    if bs != [] {
      var s := DecodeChars(bs).value;
      StringBytesOfDecodeChars(bs[3..]);
      assert s[1..] == DecodeChars(bs[3..]).value;
      ToBigEndianOfFrom(bs[..3]);
      assert CharBytes(s[0]) == bs[..3];
      assert bs[..3] + bs[3..] == bs;
    }
  }

  /** `writeUTF` refuses (throws) a string whose payload does not fit the 16-bit prefix. */
  predicate Encodable(s: string) {
    3 * |s| <= MaxUtfLength
  }

  /** `writeUTF`: a 2-byte big-endian byte count, then the payload. */
  function EncodeUtf(s: string): (bs: seq<byte>)
    requires Encodable(s)
    ensures |bs| == 2 + 3 * |s|
  {
    assert Pow256(2) == 0x1_0000;
    ToBigEndian(|StringBytes(s)|, 2) + StringBytes(s)
  }

  /** Why reading a value from the stream failed (both are `IOException`s in Java). */
  datatype DecodeError = EndOfData | MalformedString

  /** `readUTF` on the bytes still to be read: the string and what follows it. */
  function DecodeUtf(bs: seq<byte>): (r: Result<(string, seq<byte>), DecodeError>)
    ensures r.Success? ==> |r.value.1| < |bs| && r.value.1 == bs[|bs| - |r.value.1|..]
  {
    if |bs| < 2 then Failure(EndOfData)
    else
      var len := FromBigEndian(bs[..2]);
      if |bs| - 2 < len then Failure(EndOfData)
      else if len % 3 != 0 then Failure(MalformedString)
      else match DecodeChars(bs[2..2 + len])
        case None => Failure(MalformedString)
        case Some(s) => Success((s, bs[2 + len..]))
  }

  lemma DecodeUtfOfEncode(s: string, rest: seq<byte>)
    requires Encodable(s)
    ensures DecodeUtf(EncodeUtf(s) + rest) == Success((s, rest))
  {
    var bs := EncodeUtf(s) + rest;
    var payload := StringBytes(s);
    assert bs[..2] == ToBigEndian(|payload|, 2);
    assert bs[2..2 + |payload|] == payload;
    assert bs[2 + |payload|..] == rest;
    DecodeCharsOfStringBytes(s);
  }

  lemma DecodeUtfCanonical(bs: seq<byte>)
    requires DecodeUtf(bs).Success?
    ensures Encodable(DecodeUtf(bs).value.0)
    ensures bs == EncodeUtf(DecodeUtf(bs).value.0) + DecodeUtf(bs).value.1
  {
    var len := DecodeUtfParts(bs);
    var s := DecodeUtf(bs).value.0;
    StringBytesOfDecodeChars(bs[2..2 + len]);
    ToBigEndianOfFrom(bs[..2]);
    assert EncodeUtf(s) == bs[..2] + bs[2..2 + len];
    SplitAfterLength(bs, len);
  }

  /** What a successful `readUTF` has read: the length, then that many payload bytes that decode. */
  lemma DecodeUtfParts(bs: seq<byte>) returns (len: nat)
    requires DecodeUtf(bs).Success?
    ensures len == FromBigEndian(bs[..2]) && len < 0x1_0000 && 2 + len <= |bs| && len % 3 == 0
    ensures DecodeChars(bs[2..2 + len]) == Some(DecodeUtf(bs).value.0)
    ensures DecodeUtf(bs).value.1 == bs[2 + len..]
  {
    len := FromBigEndian(bs[..2]);
    assert Pow256(2) == 0x1_0000;
  }

  /** The bytes are the 2-byte length, the payload and what follows. */
  lemma SplitAfterLength(bs: seq<byte>, len: nat)
    requires 2 + len <= |bs|
    ensures bs == bs[..2] + bs[2..2 + len] + bs[2 + len..]
  {
  }

  // ---------------------------------------------------------------------------
  // Longs: writeLong / readLong
  // ---------------------------------------------------------------------------

  const TwoTo64: nat := 0x1_0000_0000_0000_0000

  lemma Pow256Of8()
    ensures Pow256(8) == TwoTo64
  {
  }

  /** `writeLong`: eight big-endian bytes of two's complement. */
  function EncodeLong(v: Long): (bs: seq<byte>)
    ensures |bs| == 8
  {
    Pow256Of8();
    ToBigEndian(if v < 0 then v + TwoTo64 else v, 8)
  }

  /** `readLong` on the bytes still to be read. */
  function DecodeLong(bs: seq<byte>): (r: Result<(Long, seq<byte>), DecodeError>)
    ensures r.Success? ==> |bs| >= 8 && r.value.1 == bs[8..]
  {
    if |bs| < 8 then Failure(EndOfData)
    else
      var u := FromBigEndian(bs[..8]);
      Pow256Of8();
      Success((if u > MaxLong then u - TwoTo64 else u, bs[8..]))
  }

  lemma DecodeLongOfEncode(v: Long, rest: seq<byte>)
    ensures DecodeLong(EncodeLong(v) + rest) == Success((v, rest))
  {
    var bs := EncodeLong(v) + rest;
    assert bs[..8] == EncodeLong(v);
    assert bs[8..] == rest;
  }

  lemma DecodeLongCanonical(bs: seq<byte>)
    requires DecodeLong(bs).Success?
    ensures bs == EncodeLong(DecodeLong(bs).value.0) + bs[8..]
  {
    ToBigEndianOfFrom(bs[..8]);
    Pow256Of8();
    assert bs == bs[..8] + bs[8..];
  }

  // ---------------------------------------------------------------------------
  // Records: writeObject / readObject field layout
  // ---------------------------------------------------------------------------

  predicate EncodableRecord(r: Record) {
    Encodable(r.primaryKey) && Encodable(r.name) && Encodable(r.description)
  }

  /** The bytes `RecordImpl.writeObject` produces: key, name, description, timestamp. */
  function EncodeRecord(r: Record): (bs: seq<byte>)
    requires EncodableRecord(r)
    ensures |bs| == 14 + 3 * (|r.primaryKey| + |r.name| + |r.description|)
  {
    EncodeUtf(r.primaryKey) + EncodeUtf(r.name) + EncodeUtf(r.description) + EncodeLong(r.updatedTimestamp)
  }

  /** What `RecordImpl.readObject` reads: the record and the bytes after it. */
  function DecodeRecord(bs: seq<byte>): (r: Result<(Record, seq<byte>), DecodeError>)
    ensures r.Success? ==> |r.value.1| < |bs|
  {
    match DecodeUtf(bs)
    case Failure(e) => Failure(e)
    case Success((primaryKey, bs1)) =>
      match DecodeUtf(bs1)
      case Failure(e) => Failure(e)
      case Success((name, bs2)) =>
        match DecodeUtf(bs2)
        case Failure(e) => Failure(e)
        case Success((description, bs3)) =>
          match DecodeLong(bs3)
          case Failure(e) => Failure(e)
          case Success((timestamp, rest)) => Success((Record(primaryKey, name, description, timestamp), rest))
  }

  /** Reading back what was written yields the same record, whatever follows it. */
  lemma DecodeEncodeRecord(r: Record, rest: seq<byte>)
    requires EncodableRecord(r)
    ensures DecodeRecord(EncodeRecord(r) + rest) == Success((r, rest))
  {
    var e1, e2, e3 := EncodeUtf(r.primaryKey), EncodeUtf(r.name), EncodeUtf(r.description);
    var e4 := EncodeLong(r.updatedTimestamp);
    assert EncodeRecord(r) == e1 + e2 + e3 + e4;
    SeqAssoc4(e1, e2, e3, e4, rest);
    DecodeUtfOfEncode(r.primaryKey, e2 + (e3 + (e4 + rest)));
    DecodeUtfOfEncode(r.name, e3 + (e4 + rest));
    DecodeUtfOfEncode(r.description, e4 + rest);
    DecodeLongOfEncode(r.updatedTimestamp, rest);
  }

  /** Whatever decodes as a record is exactly that record's encoding, followed by the rest. */
  lemma DecodeRecordCanonical(bs: seq<byte>)
    requires DecodeRecord(bs).Success?
    ensures EncodableRecord(DecodeRecord(bs).value.0)
    ensures bs == EncodeRecord(DecodeRecord(bs).value.0) + DecodeRecord(bs).value.1
  {
    var (k, bs1) := DecodeUtf(bs).value;
    var (n, bs2) := DecodeUtf(bs1).value;
    var (d, bs3) := DecodeUtf(bs2).value;
    var (t, rest) := DecodeLong(bs3).value;
    assert DecodeRecord(bs) == Success((Record(k, n, d, t), rest));
    DecodeUtfCanonical(bs);
    assert bs == EncodeUtf(k) + bs1;
    DecodeUtfCanonical(bs1);
    assert bs1 == EncodeUtf(n) + bs2;
    DecodeUtfCanonical(bs2);
    assert bs2 == EncodeUtf(d) + bs3;
    DecodeLongCanonical(bs3);
    assert bs3 == EncodeLong(t) + rest;
    SeqAssoc4(EncodeUtf(k), EncodeUtf(n), EncodeUtf(d), EncodeLong(t), rest);
  }

  /** Regrouping a concatenation of five byte sequences. */
  lemma SeqAssoc4(a: seq<byte>, b: seq<byte>, c: seq<byte>, d: seq<byte>, e: seq<byte>)
    ensures a + (b + (c + (d + e))) == a + b + c + d + e
  {}

  /** Regrouping a concatenation of five byte sequences. */
  lemma Regroup(a: seq<byte>, b: seq<byte>, c: seq<byte>, d: seq<byte>, e: seq<byte>)
    ensures a + b + c + d + e == a + (b + c + d + e)
  {}

  /** An encoded record followed by anything determines both the record and what follows. */
  lemma EncodingDeterministic(r1: Record, t1: seq<byte>, r2: Record, t2: seq<byte>)
    requires EncodableRecord(r1) && EncodableRecord(r2)
    requires EncodeRecord(r1) + t1 == EncodeRecord(r2) + t2
    ensures r1 == r2 && t1 == t2
  {
    DecodeEncodeRecord(r1, t1);
    DecodeEncodeRecord(r2, t2);
  }

  /** A record encoding has no proper prefix that decodes as a record. */
  lemma NoProperPrefixDecodes(bs: seq<byte>, k: nat)
    requires DecodeRecord(bs).Success? && DecodeRecord(bs).value.1 == []
    requires k < |bs|
    ensures DecodeRecord(bs[..k]).Failure?
  {
    var cut := bs[..k];
    if DecodeRecord(cut).Success? {
      var (r', rest) := DecodeRecord(cut).value;
      var r0 := DecodeRecord(bs).value.0;
      DecodeRecordCanonical(cut);
      DecodeRecordCanonical(bs);
      ConcatAt(bs, k, EncodeRecord(r'), rest);
      EncodingDeterministic(r0, [], r', rest + bs[k..]);
    }
  }

  /** Splitting `bs` at `k` where its first `k` bytes are `a + b`. */
  lemma ConcatAt(bs: seq<byte>, k: nat, a: seq<byte>, b: seq<byte>)
    requires k <= |bs| && bs[..k] == a + b
    ensures bs == a + (b + bs[k..])
  {
    assert bs == bs[..k] + bs[k..];
  }

  /** Bytes that stop before all four fields are complete never decode as a record. */
  lemma TruncatedRecordFails(r: Record, k: nat)
    requires EncodableRecord(r) && k < |EncodeRecord(r)|
    ensures DecodeRecord(EncodeRecord(r)[..k]).Failure?
  {
    DecodeEncodeRecord(r, []);
    assert EncodeRecord(r) + [] == EncodeRecord(r);
    NoProperPrefixDecodes(EncodeRecord(r), k);
  }

  // ---------------------------------------------------------------------------
  // The streams as objects
  // ---------------------------------------------------------------------------

  /** The bytes handed to an `ObjectOutputStream` so far. */
  class ObjectOutput {
    var written: seq<byte>

    constructor ()
      ensures written == []
    {
      written := [];
    }

    /** `writeUTF`; `false` stands for `UTFDataFormatException`, thrown before anything is written. */
    method WriteUtf(s: string) returns (ok: bool)
      modifies this
      ensures ok == Encodable(s)
      ensures written == if ok then old(written) + EncodeUtf(s) else old(written)
    {
      ok := Encodable(s);
      if ok {
        written := written + EncodeUtf(s);
      }
    }

    /** `writeLong`. */
    method WriteLong(v: Long)
      modifies this
      ensures written == old(written) + EncodeLong(v)
    {
      written := written + EncodeLong(v);
    }
  }

  /** An `ObjectInputStream` over fixed bytes and its read position. */
  class ObjectInput {
    const data: seq<byte>
    var pos: nat

    ghost predicate Valid()
      reads this
    {
      pos <= |data|
    }

    /** The bytes not yet read. */
    function Remaining(): seq<byte>
      reads this
      requires Valid()
    {
      data[pos..]
    }

    constructor (bytes: seq<byte>)
      ensures Valid() && data == bytes && Remaining() == bytes
    {
      data := bytes;
      pos := 0;
    }

    /** `readUTF`; after a failure the stream is abandoned, so its position is left unspecified. */
    method ReadUtf() returns (r: Result<string, DecodeError>)
      requires Valid()
      modifies this
      ensures Valid()
      ensures match DecodeUtf(old(Remaining()))
                case Success((s, rest)) => r == Success(s) && Remaining() == rest
                case Failure(e) => r == Failure(e)
    {
      match DecodeUtf(data[pos..])
      case Success((s, rest)) =>
        pos := |data| - |rest|;
        r := Success(s);
      case Failure(e) =>
        r := Failure(e);
    }

    /** `readLong`. */
    method ReadLong() returns (r: Result<Long, DecodeError>)
      requires Valid()
      modifies this
      ensures Valid()
      ensures match DecodeLong(old(Remaining()))
                case Success((v, rest)) => r == Success(v) && Remaining() == rest
                case Failure(e) => r == Failure(e)
    {
      match DecodeLong(data[pos..])
      case Success((v, rest)) =>
        pos := pos + 8;
        r := Success(v);
      case Failure(e) =>
        r := Failure(e);
    }
  }

  /**
   * The bytes `RecordImpl.writeObject` gets out for a record: the whole
   * encoding, or the fields before the first string too long to write.
   */
  function ObjectBytes(r: Record): seq<byte> {
    if !Encodable(r.primaryKey) then []
    else if !Encodable(r.name) then EncodeUtf(r.primaryKey)
    else if !Encodable(r.description) then EncodeUtf(r.primaryKey) + EncodeUtf(r.name)
    else EncodeRecord(r)
  }

  /** `RecordImpl.writeObject`: the four fields in order; stops at a string too long to write. */
  method WriteRecord(out: ObjectOutput, r: Record) returns (ok: bool)
    modifies out
    ensures ok == EncodableRecord(r)
    ensures ok ==> out.written == old(out.written) + EncodeRecord(r)
    ensures !ok ==> old(out.written) <= out.written
    ensures out.written == old(out.written) + ObjectBytes(r)
  {
    ghost var before := out.written;
    ok := out.WriteUtf(r.primaryKey);
    if ok {
      ok := out.WriteUtf(r.name);
      if ok {
        ok := out.WriteUtf(r.description);
        if ok {
          out.WriteLong(r.updatedTimestamp);
          Regroup(before, EncodeUtf(r.primaryKey), EncodeUtf(r.name), EncodeUtf(r.description), EncodeLong(r.updatedTimestamp));
          assert out.written == before + ObjectBytes(r);
        } else {
          assert out.written == before + (EncodeUtf(r.primaryKey) + EncodeUtf(r.name));
          assert out.written == before + ObjectBytes(r);
        }
      } else {
        assert out.written == before + ObjectBytes(r);
      }
    } else {
      assert out.written == before + [];
      assert out.written == before + ObjectBytes(r);
    }
    ObjectBytesOutcome(before, out.written, r);
  }

  /** What is written is the record's encoding when every string fits, and otherwise extends what was there. */
  lemma ObjectBytesOutcome(before: seq<byte>, after: seq<byte>, r: Record)
    requires after == before + ObjectBytes(r)
    ensures EncodableRecord(r) ==> after == before + EncodeRecord(r)
    ensures before <= after
  {
  }

  /** `RecordImpl.readObject`: reads the four fields in order and fails with the first field that cannot be read. */
  method ReadRecord(input: ObjectInput) returns (r: Result<Record, DecodeError>)
    requires input.Valid()
    modifies input
    ensures input.Valid()
    ensures match DecodeRecord(old(input.Remaining()))
              case Success((record, rest)) => r == Success(record) && input.Remaining() == rest
              case Failure(e) => r == Failure(e)
  {
    var primaryKey := input.ReadUtf();
    if primaryKey.Failure? { return Failure(primaryKey.error); }
    var name := input.ReadUtf();
    if name.Failure? { return Failure(name.error); }
    var description := input.ReadUtf();
    if description.Failure? { return Failure(description.error); }
    var timestamp := input.ReadLong();
    if timestamp.Failure? { return Failure(timestamp.error); }
    r := Success(Record(primaryKey.value, name.value, description.value, timestamp.value));
  }
}
