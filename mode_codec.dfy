/** The mode word exchanged with the meter (requests 2 and 3): which range,
    weighting, response speed and max-hold mode are active. */
module ModeCodec {
  import opened Bits
  import opened Tables

  /** The meter's configuration by name, in the order `readMode` returns it. */
  datatype Mode = Mode(range: string, weight: string, speed: string, maxMode: string)

  /** The configuration the program applies at start-up: `setMode`'s default arguments. */
  const DefaultMode := Mode("30-80", "C", "slow", "instant")

  /** The masks and shifts of the mode word read the bit fields they name. */
  lemma ModeMasks(b: nat)
    ensures BitAnd(b, 7) == Field(b, 0, 3)
    ensures Shr(BitAnd(b, 8), 3) == Field(b, 3, 1)
    ensures Shr(BitAnd(b, 16), 4) == Field(b, 4, 1)
    ensures Shr(BitAnd(b, 32), 5) == Field(b, 5, 1)
  {
    MaskShift(b, 0, 3);
    MaskShift(b, 3, 1);
    MaskShift(b, 4, 1);
    MaskShift(b, 5, 1);
  }

  /** `readMode`: decode the reply to request 2. Range is bits 0-2 of the first byte,
      weighting bit 3, speed bit 4, max-hold bit 5; range code 7 has no name and
      faults, as does an empty reply. */
  function ReadMode(reply: seq<byte>): (r: Result<Mode>)
    ensures r.Ok? <==> |reply| >= 1 && Field(reply[0], 0, 3) != 7
    ensures r.Err? ==> r.fault == IndexError
    ensures r.Ok? ==> r.value == Mode(Ranges[Field(reply[0], 0, 3)], Weights[Field(reply[0], 3, 1)],
                                      Speeds[Field(reply[0], 4, 1)], MaxModes[Field(reply[0], 5, 1)])
  {
    if |reply| == 0 then Err(IndexError)
    else
      var b := reply[0];
      ModeMasks(b);
      var rangeN := BitAnd(b, 7);
      var weightN := Shr(BitAnd(b, 8), 3);
      var speedN := Shr(BitAnd(b, 16), 4);
      var maxModeN := Shr(BitAnd(b, 32), 5);
      if rangeN >= |Ranges| then Err(IndexError)
      else Ok(Mode(Ranges[rangeN], Weights[weightN], Speeds[speedN], MaxModes[maxModeN]))
  }

  /** One `| (n & 1) << k` step of `setMode`'s packing, onto a word below bit k. */
  lemma OrBit(x: nat, n: nat, k: nat)
    requires x < Pow2(k) && n < 2
    ensures BitOr(x, Shl(BitAnd(n, 1), k)) == x + n * Pow2(k)
  {
    assert BitAnd(n, 1) == n by {
      AndLowMask(n, 1);
    }
    OrDisjoint(x, n, k);
  }

  /** The packing expression of `setMode`, for field values that fit their masks,
      lays the fields side by side. */
  lemma PackFields(a: nat, w: nat, s: nat, m: nat)
    requires a < 4 && w < 2 && s < 2 && m < 2
    ensures BitOr(BitOr(BitOr(BitAnd(a, 3), Shl(BitAnd(w, 1), 3)), Shl(BitAnd(s, 1), 4)), Shl(BitAnd(m, 1), 5))
            == a + 8 * w + 16 * s + 32 * m
  {
    SmallPowers();
    var x0 := BitAnd(a, 3);
    assert x0 == a by {
      AndLowMask(a, 2);
    }
    var x1 := BitOr(x0, Shl(BitAnd(w, 1), 3));
    OrBit(x0, w, 3);
    var x2 := BitOr(x1, Shl(BitAnd(s, 1), 4));
    OrBit(x1, s, 4);
    OrBit(x2, m, 5);
  }

  /** Where each field of a packed word lies. */
  lemma PackedFieldsAt(a: nat, w: nat, s: nat, m: nat)
    requires a < 4 && w < 2 && s < 2 && m < 2
    ensures var v := a + 8 * w + 16 * s + 32 * m;
      v < 64 && Field(v, 0, 2) == a && Field(v, 0, 3) == a && Field(v, 2, 1) == 0 &&
      Field(v, 3, 1) == w && Field(v, 4, 1) == s && Field(v, 5, 1) == m
  {
  }

  /** `setMode`: the `wvalue` word sent with request 3. Each name is looked up with
      `list.index`, range among the four settable ranges only, in the order range,
      speed, weight, max-hold; the first one missing raises ValueError. */
  function SetMode(range: string := "30-80", speed: string := "slow", weight: string := "C",
                   maxMode: string := "instant"): (r: Result<nat>)
    ensures r.Ok? <==> range in SettableRanges && speed in Speeds && weight in Weights && maxMode in MaxModes
    ensures r.Err? ==> r.fault == ValueError(if range !in SettableRanges then range
                                             else if speed !in Speeds then speed
                                             else if weight !in Weights then weight
                                             else maxMode)
    ensures r.Ok? ==> r.value < 64 && Field(r.value, 2, 1) == 0
    ensures r.Ok? ==> SettableRanges[Field(r.value, 0, 2)] == range && Weights[Field(r.value, 3, 1)] == weight &&
                      Speeds[Field(r.value, 4, 1)] == speed && MaxModes[Field(r.value, 5, 1)] == maxMode
  {
    var rangeN :- IndexOf(Ranges[0..4], range);
    var speedN :- IndexOf(Speeds, speed);
    var weightN :- IndexOf(Weights, weight);
    var maxModeN :- IndexOf(MaxModes, maxMode);
    PackFields(rangeN, weightN, speedN, maxModeN);
    PackedFieldsAt(rangeN, weightN, speedN, maxModeN);
    Ok(BitOr(BitOr(BitOr(BitAnd(rangeN, 3), Shl(BitAnd(weightN, 1), 3)), Shl(BitAnd(speedN, 1), 4)),
             Shl(BitAnd(maxModeN, 1), 5)))
  }

  /** Each field of the word is the `index` of its argument in its table. */
  lemma SetModeFieldsAreIndexes(range: string, speed: string, weight: string, maxMode: string)
    requires SetMode(range, speed, weight, maxMode).Ok?
    ensures var v := SetMode(range, speed, weight, maxMode).value;
      IndexOf(SettableRanges, range) == Ok(Field(v, 0, 2)) && IndexOf(Speeds, speed) == Ok(Field(v, 4, 1)) &&
      IndexOf(Weights, weight) == Ok(Field(v, 3, 1)) && IndexOf(MaxModes, maxMode) == Ok(Field(v, 5, 1))
  {
    var v := SetMode(range, speed, weight, maxMode).value;
    SmallPowers();
    TablesDistinct();
    IndexOfDistinct(SettableRanges, Field(v, 0, 2));
    IndexOfDistinct(Speeds, Field(v, 4, 1));
    IndexOfDistinct(Weights, Field(v, 3, 1));
    IndexOfDistinct(MaxModes, Field(v, 5, 1));
  }

  /** Bits 0-5 of a byte are its range code, weighting, speed and max-hold bits side by side. */
  lemma LowSixBits(b: byte)
    ensures Field(b, 0, 6) == Field(b, 0, 3) + 8 * Field(b, 3, 1) + 16 * Field(b, 4, 1) + 32 * Field(b, 5, 1)
  {
    SmallPowers();
    assert b % 64 == b % 32 + 32 * ((b / 32) % 2);
    assert b % 32 == b % 16 + 16 * ((b / 16) % 2);
    assert b % 16 == b % 8 + 8 * ((b / 8) % 2);
  }

  /** With bit 2 clear, the 3-bit range code equals the 2-bit one. */
  lemma RangeCodeWithBit2Clear(v: byte)
    requires Field(v, 2, 1) == 0
    ensures Field(v, 0, 3) == Field(v, 0, 2)
  {
    SmallPowers();
    assert v % 8 == v % 4 + 4 * ((v / 4) % 2);
  }

  /** Round trip: reading back a word that `setMode` produced gives the names it was given. */
  lemma SetModeRoundTrip(range: string, speed: string, weight: string, maxMode: string)
    requires SetMode(range, speed, weight, maxMode).Ok?
    ensures var w := SetMode(range, speed, weight, maxMode).value;
      ReadMode([w]) == Ok(Mode(range, weight, speed, maxMode))
  {
    var w := SetMode(range, speed, weight, maxMode).value;
    RangeCodeWithBit2Clear(w);
    var r := ReadMode([w]);
    assert r.Ok?;
    assert r.value.range == range;
  }

  lemma WordBelow64(v: byte)
    requires v < 64
    ensures Field(v, 0, 6) == v
  {
    SmallPowers();
  }

  /** A word below 64 with bit 2 clear whose fields agree with bits 0-5 of `b` is those bits. */
  lemma SameFieldsSameWord(b: byte, v: byte)
    requires v < 64 && Field(v, 2, 1) == 0 && Field(v, 0, 2) == Field(b, 0, 3)
    requires Field(v, 3, 1) == Field(b, 3, 1) && Field(v, 4, 1) == Field(b, 4, 1) && Field(v, 5, 1) == Field(b, 5, 1)
    ensures v == Field(b, 0, 6)
  {
    RangeCodeWithBit2Clear(v);
    LowSixBits(v);
    LowSixBits(b);
    WordBelow64(v);
  }

  /** The other direction: re-encoding the names decoded from a mode byte gives back
      bits 0-5 of that byte when its range is settable, and ValueError otherwise. */
  lemma ReadModeReencode(b: byte)
    requires ReadMode([b]).Ok?
    ensures var m := ReadMode([b]).value;
      SetMode(m.range, m.speed, m.weight, m.maxMode) ==
        if Field(b, 0, 3) < 4 then Ok(Field(b, 0, 6)) else Err(ValueError(m.range))
  {
    TablesDistinct();
    var m := ReadMode([b]).value;
    var r := SetMode(m.range, m.speed, m.weight, m.maxMode);
    if Field(b, 0, 3) < 4 {
      assert m.range in SettableRanges by {
        assert m.range == SettableRanges[Field(b, 0, 3)];
      }
      var v: byte := r.value;
      SetModeFieldsAreIndexes(m.range, m.speed, m.weight, m.maxMode);
      IndexOfDistinct(SettableRanges, Field(b, 0, 3));
      IndexOfDistinct(Weights, Field(b, 3, 1));
      IndexOfDistinct(Speeds, Field(b, 4, 1));
      IndexOfDistinct(MaxModes, Field(b, 5, 1));
      SameFieldsSameWord(b, v);
    } else {
      assert m.range == Ranges[Field(b, 0, 3)];
      assert m.range !in SettableRanges;
    }
  }

  /** Bits 0-5 of a byte hold the same range, weighting, speed and max-hold fields as the byte. */
  lemma LowSixFields(b: byte)
    ensures Field(b, 0, 6) < 64
    ensures Field(Field(b, 0, 6), 0, 3) == Field(b, 0, 3) && Field(Field(b, 0, 6), 3, 1) == Field(b, 3, 1)
    ensures Field(Field(b, 0, 6), 4, 1) == Field(b, 4, 1) && Field(Field(b, 0, 6), 5, 1) == Field(b, 5, 1)
  {
    SmallPowers();
    var c := b % 64;
    assert c % 8 == b % 8 by { DivModUnique(b, 8, 8 * (b / 64) + c / 8, c % 8); }
    assert c / 8 % 2 == b / 8 % 2 by { DivModUnique(b, 8, 8 * (b / 64) + c / 8, c % 8); }
    assert c / 16 % 2 == b / 16 % 2 by { DivModUnique(b, 16, 4 * (b / 64) + c / 16, c % 16); }
    assert c / 32 % 2 == b / 32 % 2 by { DivModUnique(b, 32, 2 * (b / 64) + c / 32, c % 32); }
  }

  /** Bits 6 and 7 of the mode byte, and any further reply bytes, do not affect the decoding. */
  lemma ReadModeIgnoresHighBits(reply: seq<byte>)
    requires |reply| >= 1
    ensures ReadMode(reply) == ReadMode([Field(reply[0], 0, 6)])
  {
    LowSixFields(reply[0]);
  }

  /** Start-up configuration: the default arguments encode to 24 (C weighting, slow),
      which reads back as the default names. */
  lemma DefaultModeWord()
    ensures SetMode() == Ok(24)
    ensures ReadMode([24]) == Ok(DefaultMode)
  {
    assert Field(24, 0, 3) == 0;
  }
}
