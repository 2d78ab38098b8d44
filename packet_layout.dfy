/**
 * What the data packet and the universe discovery packet share: the
 * failures of the buffer constructors, the sparse payload, the 64-byte
 * source-name field and the 38-byte root layer.
 */
module PacketLayout {
  import opened Bytes
  import opened Constants

  /** The fixed protocol fields a buffer constructor checks with `assert`. */
  datatype Check =
    | RootVector
    | AcnPid
    | Preamble
    | Postamble
    | FrameVector
    | DmpVector
    | DmpType
    | FirstAddress
    | AddressIncrement
    | StartCode
    | DiscoveryVector

  /**
   * Why building a packet from a buffer (or reading its list) failed:
   * an `AssertionError` on a protocol field, or the `RangeError` that a
   * `readUInt*` at an offset past the end of the buffer throws.
   */
  datatype ParseError =
    | Corrupt(check: Check)
    | OutOfRange(offset: nat)

  /** A sparse mapping from a 1-based key to a value. */
  type Payload = map<int, int>

  /**
   * The private payload or list of a packet: the raw slice of the buffer it
   * was parsed from, or the mapping it was built from.
   */
  datatype PayloadData = Raw(bytes: seq<Byte>) | Sparse(values: Payload)

  /** Length of the source-name field on the wire. */
  const NAME_FIELD_LENGTH: nat := 64

  /**
   * `Buffer.from(sourceName.padEnd(64, '\0'))`: the name padded with NUL
   * to 64 bytes; `padEnd` never shortens, so a longer name is kept whole.
   */
  function NameField(name: seq<Byte>): (r: seq<Byte>)
    ensures |r| == if |name| < NAME_FIELD_LENGTH then NAME_FIELD_LENGTH else |name|
    ensures r[..|name|] == name
    ensures forall i :: |name| <= i < |r| ==> r[i] == 0
  {
    if |name| < NAME_FIELD_LENGTH then name + Zeros(NAME_FIELD_LENGTH - |name|) else name
  }

  /** `options.sourceName || 'sACN nodejs'`: an unset or empty name is replaced. */
  function NameOrDefault(name: Option<seq<Byte>>): (r: seq<Byte>)
    ensures r != []
    ensures name.Some? && name.value != [] ==> r == name.value
    ensures !(name.Some? && name.value != []) ==> r == DEFAULT_SOURCE_NAME
  {
    if name.Some? && name.value != [] then name.value else DEFAULT_SOURCE_NAME
  }

  /**
   * `buf.toString('ascii', 44, 107).replace(/\x00/g, '')`: the ASCII
   * decoder clears the high bit of every byte, and every NUL is dropped.
   */
  function AsciiName(region: seq<Byte>): (r: seq<Byte>)
    ensures |r| <= |region|
    ensures forall i :: 0 <= i < |r| ==> 0 < r[i] < 128
  {
    if region == [] then []
    else
      var c := region[0] % 128;
      (if c == 0 then [] else [c]) + AsciiName(region[1..])
  }

  /** A name the ASCII decoder gives back unchanged. */
  predicate IsAsciiName(name: seq<Byte>)
  {
    forall i :: 0 <= i < |name| ==> 0 < name[i] < 128
  }

  /**
   * A 64-byte source-name field as the serializers write it: 7-bit ASCII,
   * NUL-padded, with at least the last byte NUL.
   */
  predicate IsNameField(f: seq<Byte>)
  {
    && |f| == NAME_FIELD_LENGTH
    && f[NAME_FIELD_LENGTH - 1] == 0
    && (forall i :: 0 <= i < |f| ==> f[i] < 128)
    && (forall i, j :: 0 <= i < j < |f| && f[i] == 0 ==> f[j] == 0)
  }

  lemma {:induction false} AsciiNameOfAscii(name: seq<Byte>)
    requires IsAsciiName(name)
    ensures AsciiName(name) == name
  {
    if name != [] {
      AsciiNameOfAscii(name[1..]);
      assert name == [name[0]] + name[1..];
    }
  }

  lemma {:induction false} AsciiNameOfZeros(n: nat)
    ensures AsciiName(Zeros(n)) == []
  {
    if n > 0 {
      assert Zeros(n)[1..] == Zeros(n - 1);
      AsciiNameOfZeros(n - 1);
    }
  }

  lemma {:induction false} AsciiNameAppend(a: seq<Byte>, b: seq<Byte>)
    ensures AsciiName(a + b) == AsciiName(a) + AsciiName(b)
  {
    if a != [] {
      assert (a + b)[1..] == a[1..] + b;
      AsciiNameAppend(a[1..], b);
    } else {
      assert a + b == b;
    }
  }

  /**
   * The parsed name of a serialized ASCII name of at most 63 bytes is that
   * name: the decoder reads bytes 44..106 (63 bytes) and drops the padding.
   */
  lemma NameFieldRoundTrip(name: seq<Byte>)
    requires |name| < NAME_FIELD_LENGTH && IsAsciiName(name)
    ensures AsciiName(NameField(name)[..NAME_FIELD_LENGTH - 1]) == name
  {
    var pad := NAME_FIELD_LENGTH - 1 - |name|;
    assert NameField(name)[..NAME_FIELD_LENGTH - 1] == name + Zeros(pad);
    AsciiNameAppend(name, Zeros(pad));
    AsciiNameOfAscii(name);
    AsciiNameOfZeros(pad);
  }

  lemma {:induction false} AsciiNameOfPadded(f: seq<Byte>)
    requires forall i :: 0 <= i < |f| ==> f[i] < 128
    requires forall i, j :: 0 <= i < j < |f| && f[i] == 0 ==> f[j] == 0
    ensures AsciiName(f) + Zeros(|f| - |AsciiName(f)|) == f
  {
    if f != [] {
      var rest := f[1..];
      assert AsciiName(f) == (if f[0] == 0 then [] else [f[0]]) + AsciiName(rest);
      if f[0] == 0 {
        assert rest == Zeros(|rest|) by {
          assert forall j :: 0 <= j < |rest| ==> rest[j] == f[j + 1];
        }
        AsciiNameOfZeros(|rest|);
        assert f == Zeros(|f|);
      } else {
        AsciiNameOfPadded(rest);
        assert f == [f[0]] + rest;
      }
    }
  }

  /**
   * Serializing the name parsed from a well-formed name field writes that
   * field back byte for byte.
   */
  lemma NameFieldOfParsed(f: seq<Byte>)
    requires IsNameField(f)
    ensures NameField(AsciiName(f[..NAME_FIELD_LENGTH - 1])) == f
  {
    var g := f[..NAME_FIELD_LENGTH - 1];
    AsciiNameOfPadded(g);
    var name := AsciiName(g);
    assert f == g + [0];
    assert NameField(name) == name + Zeros(|g| - |name|) + [0];
  }

  /**
   * Root layer, bytes 0..37 of both packets: preamble size, postamble size,
   * ACN packet identifier, flags/length, root vector and CID.
   */
  function RootLayer(rootFl: nat, rootVector: U32, cid: Cid): (r: seq<Byte>)
    ensures |r| == 38
  {
    Bit(16, PREAMBLE_SIZE) + Bit(16, POSTAMBLE_SIZE) + ACN_PID
      + Bit(16, rootFl) + Bit(32, rootVector) + cid
  }

  /** Each root-layer field sits at its fixed offset. */
  lemma RootLayerFields(rootFl: nat, rootVector: U32, cid: Cid)
    ensures var r := RootLayer(rootFl, rootVector, cid);
      && r[0..2] == Bit(16, PREAMBLE_SIZE)
      && r[2..4] == Bit(16, POSTAMBLE_SIZE)
      && r[4..16] == ACN_PID
      && r[16..18] == Bit(16, rootFl)
      && r[18..22] == Bit(32, rootVector)
      && r[22..38] == cid
  {
  }

  /** The root-layer field that check c compares, against the given root vector. */
  predicate RootCheckHolds(buf: seq<Byte>, c: Check, rootVector: U32)
  {
    match c
    case RootVector => |buf| >= 22 && Field(buf, 18, 4) == rootVector
    case AcnPid => |buf| >= 16 && buf[4..16] == ACN_PID
    case Preamble => |buf| >= 2 && Field(buf, 0, 2) == PREAMBLE_SIZE
    case Postamble => |buf| >= 4 && Field(buf, 2, 2) == POSTAMBLE_SIZE
    case _ => true
  }

  /** The root-layer checks both buffer constructors make. */
  predicate RootLayerHolds(buf: seq<Byte>, rootVector: U32)
  {
    && RootCheckHolds(buf, RootVector, rootVector)
    && RootCheckHolds(buf, AcnPid, rootVector)
    && RootCheckHolds(buf, Preamble, rootVector)
    && RootCheckHolds(buf, Postamble, rootVector)
  }

  /**
   * The first failure of the root-layer checks, in the order both buffer
   * constructors make them: the root vector (a 32-bit read at offset 18),
   * the ACN packet identifier, the preamble size, the postamble size.
   */
  function RootLayerError(buf: seq<Byte>, rootVector: U32): (e: Option<ParseError>)
    ensures e.None? <==> RootLayerHolds(buf, rootVector)
    ensures e.Some? && e.value.OutOfRange? ==> |buf| < 22 && e.value.offset == 18
    ensures e.Some? && e.value.Corrupt? ==>
      e.value.check in {RootVector, AcnPid, Preamble, Postamble}
      && !RootCheckHolds(buf, e.value.check, rootVector)
    ensures |buf| < 22 ==> e == Some(OutOfRange(18))
    ensures e == Some(Corrupt(AcnPid)) ==> RootCheckHolds(buf, RootVector, rootVector)
    ensures e == Some(Corrupt(Preamble)) ==>
      RootCheckHolds(buf, RootVector, rootVector) && RootCheckHolds(buf, AcnPid, rootVector)
    ensures e == Some(Corrupt(Postamble)) ==>
      && RootCheckHolds(buf, RootVector, rootVector) && RootCheckHolds(buf, AcnPid, rootVector)
      && RootCheckHolds(buf, Preamble, rootVector)
  {
    if |buf| < 22 then Some(OutOfRange(18))
    else if Field(buf, 18, 4) != rootVector then Some(Corrupt(RootVector))
    else if buf[4..16] != ACN_PID then Some(Corrupt(AcnPid))
    else if Field(buf, 0, 2) != PREAMBLE_SIZE then Some(Corrupt(Preamble))
    else if Field(buf, 2, 2) != POSTAMBLE_SIZE then Some(Corrupt(Postamble))
    else None
  }

  /** A root layer that passes the checks is rebuilt from its parsed fields. */
  lemma RootLayerOfParsed(buf: seq<Byte>, rootVector: U32)
    requires |buf| >= 38 && RootLayerHolds(buf, rootVector)
    ensures RootLayer(Field(buf, 16, 2), rootVector, buf[22..38]) == buf[..38]
  {
    FieldOfRead(buf, 0, 2);
    FieldOfRead(buf, 2, 2);
    FieldOfRead(buf, 16, 2);
    FieldOfRead(buf, 18, 4);
    AppendSlice(buf, 0, 2, 4, Bit(16, PREAMBLE_SIZE), Bit(16, POSTAMBLE_SIZE));
    var a := Bit(16, PREAMBLE_SIZE) + Bit(16, POSTAMBLE_SIZE);
    AppendSlice(buf, 0, 4, 16, a, ACN_PID);
    var b := a + ACN_PID;
    AppendSlice(buf, 0, 16, 18, b, Bit(16, Field(buf, 16, 2)));
    var c := b + Bit(16, Field(buf, 16, 2));
    AppendSlice(buf, 0, 18, 22, c, Bit(32, rootVector));
    var d := c + Bit(32, rootVector);
    AppendSlice(buf, 0, 22, 38, d, buf[22..38]);
  }

  /** A buffer that begins with a root layer passes the root-layer checks. */
  lemma ParsedOfRootLayer(buf: seq<Byte>, rootFl: nat, rootVector: U32, cid: Cid)
    requires |buf| >= 38 && buf[..38] == RootLayer(rootFl, rootVector, cid)
    ensures RootLayerHolds(buf, rootVector)
    ensures Field(buf, 16, 2) == rootFl % 0x1_0000
    ensures buf[22..38] == cid
  {
    RootLayerFields(rootFl, rootVector, cid);
    assert buf[0..2] == buf[..38][0..2];
    assert buf[2..4] == buf[..38][2..4];
    assert buf[4..16] == buf[..38][4..16];
    assert buf[16..18] == buf[..38][16..18];
    assert buf[18..22] == buf[..38][18..22];
    assert buf[22..38] == buf[..38][22..38];
    ReadBigEndianFits(2, PREAMBLE_SIZE);
    ReadBigEndianFits(2, POSTAMBLE_SIZE);
    ReadBigEndian(2, rootFl);
    ReadBigEndianFits(4, rootVector);
  }
}
