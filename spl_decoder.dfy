/** The level reading (request 4): a two-byte reply carrying the sound level and the
    modes the meter is in, and the running `peak` that every reading updates. */
module SplDecoder {
  import opened Bits
  import opened Tables

  /** One reading, in the order `readSPL` returns it. The level is in tenths of a
      decibel: 300 stands for 30.0 dB. */
  datatype Sample = Sample(tenths: int, range: string, weight: string, speed: string)

  /** The meter's floor and ceiling, 30.0 dB and 132.3 dB, in tenths. */
  const MinTenths := 300
  const MaxTenths := 1323

  /** The masks and shifts applied to the second reply byte read the bit fields they name. */
  lemma LevelMasks(hi: nat)
    ensures BitAnd(hi, 3) == Field(hi, 0, 2)
    ensures Shr(BitAnd(hi, 28), 2) == Field(hi, 2, 3)
    ensures Shr(BitAnd(hi, 32), 5) == Field(hi, 5, 1)
    ensures Shr(BitAnd(hi, 64), 6) == Field(hi, 6, 1)
  {
    assert BitAnd(hi, 3) == Field(hi, 0, 2) by {
      AndLowMask(hi, 2);
      DivModUnique(hi, 1, hi, 0);
    }
    MaskShift(hi, 2, 3);
    MaskShift(hi, 5, 1);
    MaskShift(hi, 6, 1);
  }

  /** The level carried by a reply, in tenths of a dB: the ten-bit raw value made of the
      first byte and bits 0-1 of the second, over the 30.0 dB floor
      (`raw * 0.1 + 30` dB). */
  function Level(lo: byte, hi: byte): (tenths: int)
    ensures tenths == MinTenths + lo + 256 * Field(hi, 0, 2)
    ensures MinTenths <= tenths <= MaxTenths
  {
    LevelMasks(hi);
    lo + BitAnd(hi, 3) * 256 + 300
  }

  /** The level depends on the first byte and bits 0-1 of the second, and on nothing else
      in them: two replies give the same level exactly when those ten bits agree. */
  lemma LevelDeterminedByRaw(lo: byte, hi: byte, lo': byte, hi': byte)
    ensures Level(lo, hi) == Level(lo', hi') <==> lo == lo' && Field(hi, 0, 2) == Field(hi', 0, 2)
  {
  }

  /** Every level from 30.0 dB to 132.3 dB in steps of 0.1 dB is some reply's level. */
  lemma LevelCoversRange(tenths: int)
    requires MinTenths <= tenths <= MaxTenths
    ensures Level((tenths - MinTenths) % 256, (tenths - MinTenths) / 256) == tenths
  {
    var raw := tenths - MinTenths;
    var hi := raw / 256;
    assert hi < 4;
    assert Field(hi, 0, 2) == hi by {
      SmallPowers();
      DivModUnique(hi, 1, hi, 0);
      DivModUnique(hi, 4, 0, hi);
    }
  }

  /** `readSPL`'s decoding of the reply, without the effect on `peak`: range is bits 2-4
      of the second byte, weighting bit 5 and speed bit 6; a reply shorter than two
      bytes, or range code 7, faults. */
  function DecodeSpl(reply: seq<byte>): (r: Result<Sample>)
    ensures r.Ok? <==> |reply| >= 2 && Field(reply[1], 2, 3) != 7
    ensures r.Err? ==> r.fault == IndexError
    ensures r.Ok? ==> r.value == Sample(Level(reply[0], reply[1]), Ranges[Field(reply[1], 2, 3)],
                                        Weights[Field(reply[1], 5, 1)], Speeds[Field(reply[1], 6, 1)])
  {
    if |reply| < 2 then Err(IndexError)
    else
      var hi := reply[1];
      LevelMasks(hi);
      var rangeN := Shr(BitAnd(hi, 28), 2);
      var weightN := Shr(BitAnd(hi, 32), 5);
      var speedN := Shr(BitAnd(hi, 64), 6);
      var tenths := Level(reply[0], hi);
      if rangeN >= |Ranges| then Err(IndexError)
      else Ok(Sample(tenths, Ranges[rangeN], Weights[weightN], Speeds[speedN]))
  }

  /** Bits 0-6 of a byte hold the same level, range, weighting and speed fields as the byte. */
  lemma LowSevenFields(hi: byte)
    ensures Field(hi, 0, 7) < 128
    ensures Field(Field(hi, 0, 7), 0, 2) == Field(hi, 0, 2) && Field(Field(hi, 0, 7), 2, 3) == Field(hi, 2, 3)
    ensures Field(Field(hi, 0, 7), 5, 1) == Field(hi, 5, 1) && Field(Field(hi, 0, 7), 6, 1) == Field(hi, 6, 1)
  {
    SmallPowers();
    var c := hi % 128;
    DivModUnique(hi, 1, hi, 0);
    DivModUnique(c, 1, c, 0);
    assert c % 4 == hi % 4 by { DivModUnique(hi, 4, 32 * (hi / 128) + c / 4, c % 4); }
    assert c / 4 % 8 == hi / 4 % 8 by { DivModUnique(hi, 4, 32 * (hi / 128) + c / 4, c % 4); }
    assert c / 32 % 2 == hi / 32 % 2 by { DivModUnique(hi, 32, 4 * (hi / 128) + c / 32, c % 32); }
    assert c / 64 % 2 == hi / 64 % 2 by { DivModUnique(hi, 64, 2 * (hi / 128) + c / 64, c % 64); }
  }

  /** Bit 7 of the second byte (a bit that toggles about once a second) and any bytes
      past the second do not affect the reading. */
  lemma DecodeSplIgnoresBit7(reply: seq<byte>)
    requires |reply| >= 2
    ensures DecodeSpl(reply) == DecodeSpl([reply[0], Field(reply[1], 0, 7)])
  {
    LowSevenFields(reply[1]);
    SameFieldsSameSample(reply, [reply[0], Field(reply[1], 0, 7)]);
  }

  /** Two replies whose first bytes and whose level, range, weighting and speed fields agree
      decode alike. */
  lemma SameFieldsSameSample(a: seq<byte>, b: seq<byte>)
    requires |a| >= 2 && |b| >= 2 && a[0] == b[0]
    requires Field(a[1], 0, 2) == Field(b[1], 0, 2) && Field(a[1], 2, 3) == Field(b[1], 2, 3)
    requires Field(a[1], 5, 1) == Field(b[1], 5, 1) && Field(a[1], 6, 1) == Field(b[1], 6, 1)
    ensures DecodeSpl(a) == DecodeSpl(b)
  {
    var ra, rb := DecodeSpl(a), DecodeSpl(b);
    assert Level(a[0], a[1]) == Level(b[0], b[1]);
    if ra.Ok? {
      assert rb.Ok? && ra.value == rb.value;
    }
  }

  function Max(a: int, b: int): int
  {
    if b > a then b else a
  }

  /** `peak` after one reply: raised to the reply's level when it holds one. */
  function PeakStep(peak: int, reply: seq<byte>): int
  {
    if |reply| >= 2 then Max(peak, Level(reply[0], reply[1])) else peak
  }

  /** The module-level state of the reader: `peak`, the loudest level read so far, in
      tenths of a dB. */
  class Meter {
    var peak: int

    constructor ()
      ensures peak == 0
    {
      peak := 0;
    }

    /** `readSPL`: decode a reply and raise `peak` to its level. The level is computed,
        and `peak` raised, before the range code is looked up, so a reply with range
        code 7 still raises `peak` before it faults; a reply too short to hold a level
        leaves `peak` alone. */
    method ReadSpl(reply: seq<byte>) returns (r: Result<Sample>)
      modifies this
      ensures r == DecodeSpl(reply)
      ensures peak == PeakStep(old(peak), reply)
      ensures peak >= old(peak)
    {
      if |reply| < 2 {
        return Err(IndexError);
      }
      var hi := reply[1];
      LevelMasks(hi);
      var rangeN := Shr(BitAnd(hi, 28), 2);
      var weightN := Shr(BitAnd(hi, 32), 5);
      var speedN := Shr(BitAnd(hi, 64), 6);
      var tenths := reply[0] + BitAnd(hi, 3) * 256 + 300;
      if tenths > peak {
        peak := tenths;
      }
      if rangeN >= |Ranges| {
        return Err(IndexError);
      }
      r := Ok(Sample(tenths, Ranges[rangeN], Weights[weightN], Speeds[speedN]));
    }
  }
}
