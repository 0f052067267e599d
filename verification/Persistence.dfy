/**
 * Module metadata records: the fields, the checksum field behind them and six reserved bytes.
 * The checksum is taken over all but the last four bytes of the record, which takes in the
 * checksum field itself.
 */
module Persistence {
  import opened Bytes
  import opened Crc16

  /** GCOS_MODULE_META_MAGIC as stored. */
  const MAGIC: seq<byte> := [0x54, 0x45, 0x4D, 0x47]

  const RESERVED: seq<byte> := [0, 0, 0, 0, 0, 0]

  /** `fields` is everything between the magic number and the checksum. */
  datatype Meta = Meta(magic: seq<byte>, fields: seq<byte>, checksum: bv16, reserved: seq<byte>)

  predicate Laid(m: Meta) {
    |m.magic| == 4 && |m.reserved| == 6
  }

  function ChecksumBytes(c: bv16): seq<byte> {
    [(c & 0xFF) as byte, (c >> 8) as byte]
  }

  function Serialize(m: Meta): seq<byte> {
    m.magic + m.fields + ChecksumBytes(m.checksum) + m.reserved
  }

  /** The bytes the checksum is taken over: sizeof minus the size of a u16 minus 2. */
  function Covered(m: Meta): seq<byte>
    requires Laid(m)
  {
    Serialize(m)[..|Serialize(m)| - 4]
  }

  /** The record made for a module: zeroed, filled, then sealed. */
  function Prepare(fields: seq<byte>): (m: Meta)
    ensures Laid(m) && m.magic == MAGIC && m.fields == fields
  {
    var blank := Meta(MAGIC, fields, 0, RESERVED);
    blank.(checksum := Crc(Covered(blank)))
  }

  predicate Validate(m: Meta)
    requires Laid(m)
  {
    m.magic == MAGIC && m.checksum == Crc(Covered(m))
  }

  method PrepareMetadata(fields: seq<byte>) returns (m: Meta)
    ensures m == Prepare(fields)
  {
    m := Meta(MAGIC, fields, 0, RESERVED);
    var crc := Calculate(Covered(m));
    m := m.(checksum := crc);
  }

  method ValidateMetadata(m: Meta) returns (ok: bool)
    requires Laid(m)
    ensures ok == Validate(m)
  {
    if m.magic != MAGIC {
      return false;
    }
    var expected := Calculate(Covered(m));
    return m.checksum == expected;
  }

  lemma CoveredIs(m: Meta)
    requires Laid(m)
    ensures Covered(m) == m.magic + m.fields + ChecksumBytes(m.checksum) + m.reserved[..2]
  {
  }

  lemma ChecksumBytesZero(c: bv16)
    ensures ChecksumBytes(c) == ChecksumBytes(0) <==> c == 0
  {
    if ChecksumBytes(c) == ChecksumBytes(0) {
      assert ChecksumBytes(c)[0] == ChecksumBytes(0)[0] && ChecksumBytes(c)[1] == ChecksumBytes(0)[1];
    }
  }

  /** A record fresh from Prepare passes Validate exactly when its checksum came out as zero. */
  lemma FreshRecordPassesIffZero(fields: seq<byte>)
    ensures Validate(Prepare(fields)) <==> Prepare(fields).checksum == 0
  {
    hide Crc;
    hide ChecksumBytes;
    var m := Prepare(fields);
    var blank := m.(checksum := 0);
    CoveredIs(m);
    CoveredIs(blank);
    ChecksumBytesZero(m.checksum);
    hide Covered;
    if m.checksum != 0 {
      assert |ChecksumBytes(m.checksum)| == 2 == |ChecksumBytes(0)| by {
        ChecksumSize(m.checksum);
        ChecksumSize(0);
      }
      TwoByteChangeDetected(MAGIC + fields, ChecksumBytes(m.checksum), ChecksumBytes(0), RESERVED[..2]);
    }
  }

  /** Of two records that differ in one or two neighbouring field bytes at most one passes when fresh. */
  lemma AtMostOneFreshPasses(p: seq<byte>, x: seq<byte>, y: seq<byte>, q: seq<byte>)
    requires |x| == |y| <= 2 && x != y
    ensures !(Validate(Prepare(p + x + q)) && Validate(Prepare(p + y + q)))
  {
    hide Crc;
    FreshRecordPassesIffZero(p + x + q);
    FreshRecordPassesIffZero(p + y + q);
    var tail := ChecksumBytes(0) + RESERVED[..2];
    BlankCovered(p + x + q);
    BlankCovered(p + y + q);
    hide Covered;
    hide Validate;
    hide ChecksumBytes;
    assert MAGIC + (p + x + q) + tail == (MAGIC + p) + x + (q + tail);
    assert MAGIC + (p + y + q) + tail == (MAGIC + p) + y + (q + tail);
    TwoByteChangeDetected(MAGIC + p, x, y, q + tail);
  }

  lemma BlankCovered(fields: seq<byte>)
    ensures Prepare(fields).checksum == Crc(MAGIC + fields + (ChecksumBytes(0) + RESERVED[..2]))
  {
    hide Crc;
    hide ChecksumBytes;
    var blank := Meta(MAGIC, fields, 0, RESERVED);
    CoveredIs(blank);
    hide Covered;
    assert MAGIC + fields + ChecksumBytes(0) + RESERVED[..2] == MAGIC + fields + (ChecksumBytes(0) + RESERVED[..2]);
  }

  lemma ChecksumSize(c: bv16)
    ensures |ChecksumBytes(c)| == 2
  {
  }

  // ----- with a range that stops before the checksum -----

  /** Validation over the fields that precede the checksum, as the record layout describes it. */
  predicate ValidatePreceding(m: Meta) {
    m.magic == MAGIC && m.checksum == Crc(m.magic + m.fields)
  }

  function PreparePreceding(fields: seq<byte>): Meta {
    Meta(MAGIC, fields, Crc(MAGIC + fields), RESERVED)
  }

  /**
   * Over that range every fresh record is valid, and no record that agrees with it but for one or
   * two neighbouring field bytes, or but for the checksum, is.
   */
  lemma PrecedingRangeWorks(fields: seq<byte>, p: seq<byte>, x: seq<byte>, y: seq<byte>, q: seq<byte>, c: bv16)
    requires fields == p + x + q && |x| == |y| <= 2 && x != y
    ensures var m := PreparePreceding(fields);
            ValidatePreceding(m)
            && !ValidatePreceding(m.(fields := p + y + q))
            && (ValidatePreceding(m.(checksum := c)) <==> c == m.checksum)
  {
    hide Crc;
    assert MAGIC + fields == (MAGIC + p) + x + q;
    assert MAGIC + (p + y + q) == (MAGIC + p) + y + q;
    TwoByteChangeDetected(MAGIC + p, x, y, q);
  }

  /**
   * A record whose last field byte and first checksum byte are both changed is accepted over that range exactly when
   * the field byte differs by 0x89 and the checksum byte, the low one, by 0xA1.
   */
  lemma StraddlingChangeIff(p: seq<byte>, x: byte, y: byte, d: bv16)
    requires x != y && d & 0xFF00 == 0
    ensures var m := PreparePreceding(p + [x]);
            ValidatePreceding(m.(fields := p + [y], checksum := Mix(m.checksum, d))) <==> y == x ^ 0x89 && d == 0xA1
  {
    hide Crc;
    hide Mix;
    assert MAGIC + (p + [x]) == MAGIC + p + [x] && MAGIC + (p + [y]) == MAGIC + p + [y];
    StraddleIff(MAGIC + p, x, y, d);
  }
}
