/** The date key of the game store (db/db.go): a `Date` is encoded into six
    bytes and prefixed with "game:". Go's fixed-width integers are written
    out: the year is an `int32`, the day an `int8`, and `byte(x)` keeps the
    low eight bits of `x`. */
module Db {

  newtype Int32 = x: int | -0x8000_0000 <= x < 0x8000_0000

  newtype Int8 = x: int | -0x80 <= x < 0x80

  type Byte = b: int | 0 <= b < 0x100

  /** `Date`; `Month` is Go's `time.Month`, an `int`. */
  datatype Date = Date(year: Int32, month: int, day: Int8)

  /** An `int32` result: the low 32 bits of `x`, read as two's complement. */
  function Wrap32(x: int): (w: Int32)
    ensures (w as int - x) % 0x1_0000_0000 == 0
  {
    ((x + 0x8000_0000) % 0x1_0000_0000 - 0x8000_0000) as Int32
  }

  /** `x << k` on an `int32`: the bits shifted past bit 31 are lost. */
  function ShiftLeft(x: Int32, k: nat): Int32 {
    Wrap32(x as int * Pow2(k))
  }

  function Pow2(k: nat): (p: nat)
    ensures p >= 1
  {
    if k == 0 then 1 else 2 * Pow2(k - 1)
  }

  /** `byte(x & 0xFF)`, and `byte(x)` of any integer: its low eight bits.
      On two's complement these are `x` modulo 256. */
  function LowByte(x: int): (b: Byte)
    ensures (x - b) % 0x100 == 0
  {
    x % 0x100
  }

  /** `asBytes`: the year bytes are shifted left, not right, before the
      mask, so the first three are always zero and only the year modulo 256
      survives. */
  function AsBytes(d: Date): (b: seq<Byte>)
    ensures b == [0, 0, 0, d.year as int % 0x100, d.month % 0x100, d.day as int % 0x100]
  {
    ShiftedOutByte(d.year, 24);
    ShiftedOutByte(d.year, 16);
    ShiftedOutByte(d.year, 8);
    [ LowByte(ShiftLeft(d.year, 24) as int),
      LowByte(ShiftLeft(d.year, 16) as int),
      LowByte(ShiftLeft(d.year, 8) as int),
      LowByte(d.year as int),
      LowByte(d.month),
      LowByte(d.day as int) ]
  }

  /** The low byte of a value shifted left by eight or more bits is zero. */
  lemma ShiftedOutByte(x: Int32, k: nat)
    requires k >= 8
    ensures LowByte(ShiftLeft(x, k) as int) == 0
  {
    var m := x as int * Pow2(k - 8);
    var y := x as int * Pow2(k);
    assert y == m * 0x100 by {
      Pow2Split(k);
      Associate(x as int, Pow2(k - 8), 0x100);
    }
    var w := ShiftLeft(x, k) as int;
    var q := (w - y) / 0x1_0000_0000;
    assert w == (q * 0x100_0000 + m) * 0x100;
  }

  lemma Associate(a: int, b: int, c: int)
    ensures a * (b * c) == (a * b) * c
  {
  }

  lemma {:induction false} Pow2Split(k: nat)
    requires k >= 8
    ensures Pow2(k) == Pow2(k - 8) * 0x100
    decreases k
  {
    if k > 8 {
      Pow2Split(k - 1);
    } else {
      assert Pow2(8) == 0x100;
    }
  }

  /** The bytes of "game:". */
  const GamePrefix: seq<Byte> := [0x67, 0x61, 0x6D, 0x65, 0x3A]

  /** `gameKey`: "game:" followed by the date's six bytes. */
  function GameKey(d: Date): (key: seq<Byte>)
    ensures |key| == 11 && key[..5] == GamePrefix
    ensures key[5..9] == [0, 0, 0, d.year as int % 0x100]
    ensures key[9] == d.month % 0x100 && key[10] == d.day as int % 0x100
  {
    GamePrefix + AsBytes(d)
  }

  /** Two dates share a key exactly when their years agree modulo 256, their
      months agree modulo 256 and their days are equal. */
  lemma SameKey(d1: Date, d2: Date)
    ensures GameKey(d1) == GameKey(d2) <==>
      d1.year as int % 0x100 == d2.year as int % 0x100 &&
      d1.month % 0x100 == d2.month % 0x100 && d1.day == d2.day
  {
    var k1, k2 := GameKey(d1), GameKey(d2);
    if k1 == k2 {
      assert k1[8] == k2[8] && k1[9] == k2[9] && k1[10] == k2[10];
      DayByteDeterminesDay(d1.day, d2.day);
    }
    if d1.year as int % 0x100 == d2.year as int % 0x100 &&
      d1.month % 0x100 == d2.month % 0x100 && d1.day == d2.day {
      assert AsBytes(d1) == AsBytes(d2);
    }
  }

  lemma DayByteDeterminesDay(a: Int8, b: Int8)
    requires a as int % 0x100 == b as int % 0x100
    ensures a == b
  {
  }

  /** For calendar months the key tells dates apart up to the year modulo
      256: 2022-03-01 and 2278-03-01 share a key. */
  lemma CalendarDatesShareKeys(d1: Date, d2: Date)
    requires 1 <= d1.month <= 12 && 1 <= d2.month <= 12
    ensures GameKey(d1) == GameKey(d2) <==>
      d1.year as int % 0x100 == d2.year as int % 0x100 && d1.month == d2.month && d1.day == d2.day
  {
    assert d1.month % 0x100 == d1.month && d2.month % 0x100 == d2.month;
    SameKey(d1, d2);
  }

  /** Dates 256 years apart collide. */
  lemma YearsApartCollide(d: Date)
    requires d.year as int + 0x100 < 0x8000_0000
    ensures GameKey(d) == GameKey(d.(year := d.year + 0x100))
  {
    var y := d.year as int;
    assert (y + 0x100) % 0x100 == y % 0x100;
    SameKey(d, d.(year := d.year + 0x100));
  }
}
