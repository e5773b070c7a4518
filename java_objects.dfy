/** The parts of the Java platform the entities' hashCode methods rely on: 32-bit int
    arithmetic, String.hashCode over UTF-16 code units, Long.hashCode, LocalDate.hashCode
    and Objects.hash. A null reference hashes to 0. */
module JavaObjects {
  import opened Wrappers
  import opened Dates

  const TWO_32: int := 0x1_0000_0000

  /** Narrowing to Java's int: two's-complement wrap-around to 32 bits. */
  function Int32(x: int): (r: int)
    ensures -0x8000_0000 <= r < 0x8000_0000
    ensures (x - r) % TWO_32 == 0
  {
    var m := x % TWO_32;
    if m >= 0x8000_0000 then m - TWO_32 else m
  }

  /** The low 32 bits of x, as Java's bit operators on int see them. */
  function Bits32(x: int): bv32 {
    (x % TWO_32) as bv32
  }

  /** The UTF-16 code units of one character: one unit, or a surrogate pair above U+FFFF. */
  function Utf16(c: char): (units: seq<int>)
    ensures 1 <= |units| <= 2
  {
    var v := c as int;
    if v < 0x1_0000 then [v]
    else [0xD800 + (v - 0x1_0000) / 0x400, 0xDC00 + (v - 0x1_0000) % 0x400]
  }

  function Utf16Units(s: string): seq<int> {
    if |s| == 0 then [] else Utf16Units(s[..|s| - 1]) + Utf16(s[|s| - 1])
  }

  /** result = 31 * result + x over xs, from left to right, in int arithmetic. */
  function Fold31(start: int, xs: seq<int>): (r: int)
    ensures |xs| == 0 ==> r == start
    ensures |xs| > 0 ==> -0x8000_0000 <= r < 0x8000_0000
  {
    if |xs| == 0 then start else Int32(31 * Fold31(start, xs[..|xs| - 1]) + xs[|xs| - 1])
  }

  /** String.hashCode: an int, 0 for the empty string, and the code unit itself for a
      one-character string of the Basic Multilingual Plane. */
  function StringHash(s: string): (h: int)
    ensures -0x8000_0000 <= h < 0x8000_0000
    ensures |s| == 0 ==> h == 0
    ensures |s| == 1 && (s[0] as int) < 0x1_0000 ==> h == s[0] as int
  {
    OneCharUnits(s);
    Fold31(0, Utf16Units(s))
  }

  /** A one-character string of the Basic Multilingual Plane is one code unit, and the
      fold over one unit from 0 is that unit. */
  lemma OneCharUnits(s: string)
    ensures |s| == 1 && (s[0] as int) < 0x1_0000 ==> Fold31(0, Utf16Units(s)) == s[0] as int
  {
    if |s| == 1 && (s[0] as int) < 0x1_0000 {
      assert s[..0] == [];
      assert Utf16Units(s[..0]) == [];
      var units := Utf16Units(s);
      assert units == [s[0] as int];
      assert units[..0] == [];
    }
  }

  /** Long.hashCode: the two halves of the 64-bit value combined with exclusive or. */
  function LongHash(v: int): (h: int)
    ensures -0x8000_0000 <= h < 0x8000_0000
  {
    var bits := v % (TWO_32 * TWO_32);
    Int32((Bits32(bits % TWO_32) ^ Bits32(bits / TWO_32)) as int)
  }

  /** LocalDate.hashCode. */
  function DateHash(d: LocalDate): (h: int)
    ensures -0x8000_0000 <= h < 0x8000_0000
  {
    var y := Bits32(d.year);
    Int32(((y & 0xFFFF_F800) ^ ((y << 11) + ((d.month as bv32) << 6) + (d.day as bv32))) as int)
  }

  function OptStringHash(o: Option<string>): int {
    if o.None? then 0 else StringHash(o.value)
  }

  function OptLongHash(o: Option<int>): int {
    if o.None? then 0 else LongHash(o.value)
  }

  function OptDateHash(o: Option<LocalDate>): int {
    if o.None? then 0 else DateHash(o.value)
  }

  /** Objects.hash(values...): Arrays.hashCode, which starts from 1. */
  function ObjectsHash(hashes: seq<int>): (h: int)
    ensures |hashes| == 0 ==> h == 1
    ensures |hashes| == 1 ==> h == Int32(31 + hashes[0])
    ensures |hashes| > 0 ==> -0x8000_0000 <= h < 0x8000_0000
  {
    Fold31(1, hashes)
  }
}
