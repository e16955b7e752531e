/**
 * The CRC-8 of the wattmeter protocol: polynomial 0x85, initial value 0,
 * most-significant bit first, no reflection and no final XOR.
 *
 * `Crc8` follows the source's shape: a recursive per-byte helper `Crc1`
 * folded over the payload from the left, starting at 0, as `reduce` does.
 * `ReferenceCrc` is the textbook formulation (for each byte, XOR it into an
 * 8-bit accumulator, then make eight masked shift/XOR steps) and is proved
 * equal to it.  The computation runs in an 8-bit register; bytes go in and
 * the checksum comes out as the ints 0..255 that Python uses.
 */
module Checksum {
  import opened Common

  /** The 8-bit checksum register. */
  type Register = bv8

  const Polynomial: Register := 0x85

  /** The default value of `crc1`'s `times` parameter. */
  const FirstRound: nat := 0

  /** The number of shift steps per input byte. */
  const BitsPerByte: nat := 8

  /**
   * One byte's worth of bit diffusion, as the source's recursive `crc1`
   * with its round counter `times`.  The source computes on Python ints and
   * masks only the branch that XORs the polynomial; `ElseBranchFits` shows
   * that the unmasked shift of the other branch never leaves eight bits, so
   * 8-bit arithmetic computes the same values.
   */
  function Crc1(crc: Register, times: nat): Register
    decreases 8 - times
  {
    if times >= 8 then crc
    else if crc & 0x80 != 0 then Crc1(((crc << 1) ^ Polynomial) & 0xff, times + 1)
    else Crc1(crc << 1, times + 1)
  }

  /**
   * An int below 0x100 with bit 7 clear still fits in a byte once shifted
   * left.  No proof uses this lemma; it justifies modelling `crc1`'s
   * register as a byte although the else branch does not mask.
   */
  lemma ElseBranchFits(crc: bv16)
    requires crc < 0x100 && crc & 0x80 == 0
    ensures crc << 1 < 0x100
    ensures (crc << 1) as Register == (crc as Register) << 1
  {
  }

  /** `reduce(lambda x, y: crc1(y & 0xff ^ x), payload, acc)`: a fold from the left. */
  function Reduce(acc: Register, payload: seq<byte>): Register
    decreases payload
  {
    if payload == [] then acc
    else Reduce(Crc1(((payload[0] as Register) & 0xff) ^ acc, FirstRound), payload[1..])
  }

  /** `crc8`: the fold started at 0x00, read back as an int. */
  function Crc8(payload: seq<byte>): byte
  {
    Reduce(0, payload) as byte
  }

  // ---------------------------------------------------------------------
  // Reference formulation

  /** The polynomial when bit 7 is set, otherwise nothing. */
  function Feedback(c: Register): Register
  {
    if c & 0x80 != 0 then 0x85 else 0
  }

  /** One masked step: double (shift left, dropping bit 7), and XOR the polynomial when bit 7 was set. */
  function Shift(c: Register): Register
  {
    (c + c) ^ Feedback(c)
  }

  /** `n` consecutive steps. */
  function Shifts(c: Register, n: nat): Register
    decreases n
  {
    if n == 0 then c else Shifts(Shift(c), n - 1)
  }

  /** For each input byte in turn: XOR it into the accumulator, then eight steps. */
  function ReferenceCrc(acc: Register, s: seq<byte>): Register
    decreases s
  {
    if s == [] then acc else ReferenceCrc(Shifts(acc ^ (s[0] as Register), BitsPerByte), s[1..])
  }

  // ---------------------------------------------------------------------
  // Equivalence of the two formulations

  lemma ShiftLeftIsDouble(c: Register)
    ensures c << 1 == c + c
  {
  }

  /** The rounds of `crc1` from round `times` on are the remaining steps. */
  lemma {:induction false} Crc1IsShifts(c: Register, times: nat)
    requires times <= BitsPerByte
    ensures Crc1(c, times) == Shifts(c, BitsPerByte - times)
    decreases BitsPerByte - times
  {
    if times < BitsPerByte {
      ShiftLeftIsDouble(c);
      Crc1IsShifts(Shift(c), times + 1);
    }
  }

  /** One round of the fold is one reference step. */
  lemma FoldStep(acc: Register, b: byte)
    ensures Crc1(((b as Register) & 0xff) ^ acc, FirstRound) == Shifts(acc ^ (b as Register), BitsPerByte)
  {
    var x := b as Register;
    assert (x & 0xff) ^ acc == acc ^ x;
    Crc1IsShifts(acc ^ x, FirstRound);
  }

  /** The source's fold equals the reference from any starting accumulator. */
  lemma {:induction false} ReduceIsReference(acc: Register, s: seq<byte>)
    ensures Reduce(acc, s) == ReferenceCrc(acc, s)
    decreases s
  {
    if s != [] {
      FoldStep(acc, s[0]);
      ReduceIsReference(Shifts(acc ^ (s[0] as Register), BitsPerByte), s[1..]);
    }
  }

  /** The source's CRC equals the shift/XOR reference started at 0. */
  lemma Crc8IsReference(s: seq<byte>)
    ensures Crc8(s) == ReferenceCrc(0, s) as byte
  {
    ReduceIsReference(0, s);
  }

  /**
   * A byte survives the trip through the register.  The solver settles the
   * conversion reliably only once `b` is confined to a range of 16 values.
   */
  lemma ByteAsRegister(b: byte)
    ensures (b as Register) as int == b
  {
    if b < 128 {
      if b < 64 {
        if b < 32 {
          if b < 16 {
          } else {
          }
        } else {
          if b < 48 {
          } else {
          }
        }
      } else {
        if b < 96 {
          if b < 80 {
          } else {
          }
        } else {
          if b < 112 {
          } else {
          }
        }
      }
    } else {
      if b < 192 {
        if b < 160 {
          if b < 144 {
          } else {
          }
        } else {
          if b < 176 {
          } else {
          }
        }
      } else {
        if b < 224 {
          if b < 208 {
          } else {
          }
        } else {
          if b < 240 {
          } else {
          }
        }
      }
    }
  }

  /** A register value survives the trip through an int. */
  lemma RegisterAsByte(r: Register)
    ensures (r as int) as Register == r
  {
  }

  lemma {:induction false} ReferenceCrcSnoc(acc: Register, s: seq<byte>, b: byte)
    ensures ReferenceCrc(acc, s + [b]) == Shifts(ReferenceCrc(acc, s) ^ (b as Register), BitsPerByte)
    decreases s
  {
    if s == [] {
      assert [b][1..] == [];
    } else {
      assert (s + [b])[1..] == s[1..] + [b];
      ReferenceCrcSnoc(Shifts(acc ^ (s[0] as Register), BitsPerByte), s[1..], b);
    }
  }

  /** Appending one byte to the payload costs one XOR and eight steps. */
  lemma Crc8Snoc(p: seq<byte>, b: byte)
    ensures Reduce(0, p + [b]) == Shifts(Reduce(0, p) ^ (b as Register), BitsPerByte)
  {
    ReduceIsReference(0, p + [b]);
    ReduceIsReference(0, p);
    ReferenceCrcSnoc(0, p, b);
  }

  // ---------------------------------------------------------------------
  // Properties of the checksum

  /** `reduce` starts from 0x00, so the empty payload has checksum 0. */
  lemma Crc8OfEmpty()
    ensures Crc8([]) == 0
  {
  }

  /** Eight steps from 0x08: four plain doublings, then four with feedback. */
  lemma ShiftsOfMeasurementRequest()
    ensures Shifts(0x08, BitsPerByte) == 0xB3
  {
    var c0: Register := 0x08;
    var c4: Register := 0x80;
    var c8: Register := 0xB3;
    assert Shifts(c0, 8) == Shifts(c4, 4) by {
      assert Shift(0x08) == 0x10 && Shift(0x10) == 0x20 && Shift(0x20) == 0x40 && Shift(0x40) == 0x80;
    }
    assert Shifts(c4, 4) == c8 by {
      assert Shift(0x80) == 0x85 && Shift(0x85) == 0x8F && Shift(0x8F) == 0x9B && Shift(0x9B) == 0xB3;
    }
  }

  /** The checksum of one byte is eight steps from that byte. */
  lemma Crc8OfSingleByte(b: byte)
    ensures Crc8([b]) == Shifts(b as Register, BitsPerByte) as int
  {
    Crc8Snoc([], b);
    assert [] + [b] == [b];
  }

  /** A fixed vector: the payload of the measurement request. */
  lemma Crc8OfMeasurementRequest()
    ensures Crc8([0x08]) == 0xB3
  {
    Crc8OfSingleByte(0x08);
    ShiftsOfMeasurementRequest();
  }

  /** `n` steps map only zero to zero (the polynomial's constant term is 1). */
  lemma {:induction false} ShiftsZeroIff(c: Register, n: nat)
    ensures Shifts(c, n) == 0 <==> c == 0
    decreases n
  {
    if n > 0 {
      assert Shift(c) == 0 <==> c == 0;
      ShiftsZeroIff(Shift(c), n - 1);
    }
  }

  /** The register after `p + [t]` is zero exactly when `t` is the register value after `p`. */
  lemma RegisterTrailer(p: seq<byte>, t: byte)
    ensures Reduce(0, p + [t]) == 0 <==> t as Register == Reduce(0, p)
  {
    Crc8Snoc(p, t);
    ShiftsZeroIff(Reduce(0, p) ^ (t as Register), BitsPerByte);
  }

  /**
   * The self-check: with no final XOR, appending the checksum makes the
   * checksum of the extended sequence zero.
   */
  lemma SelfCheck(p: seq<byte>)
    ensures Crc8(p + [Crc8(p)]) == 0
  {
    RegisterTrailer(p, Crc8(p));
    RegisterAsByte(Reduce(0, p));
  }

  /** The trailer that makes the checksum vanish is unique: it is `Crc8(p)`. */
  lemma TrailerIsUnique(p: seq<byte>, t: byte)
    ensures Crc8(p + [t]) == 0 <==> t == Crc8(p)
  {
    RegisterTrailer(p, t);
    ByteAsRegister(t);
  }
}
