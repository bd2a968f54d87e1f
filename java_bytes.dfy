/** Java's fixed-width integers as the block and table code uses them: signed
    `byte` and `short`, the narrowing casts `(byte)`, `(short)` and `(int)`,
    the mask `& 0xff`, and the big-endian two- and four-byte fields that are
    written with shifts and casts and read back with masks and shifts. */
module JavaBytes {

  /** A Java `byte`: signed, two's complement. */
  type Byte = b: int | -128 <= b < 128

  /** A Java `short`. */
  type Short = s: int | -0x8000 <= s < 0x8000

  type Bytes = seq<Byte>

  /** The widths of the length and offset fields. */
  const SIZEOF_U16 := 2
  const SIZEOF_U32 := 4

  /** The exceptions the core throws, as values. */
  datatype Error = IllegalArgument | IndexOutOfBounds

  datatype Result<T> = Ok(value: T) | Err(error: Error)

  datatype Option<T> = None | Some(value: T)

  /** The narrowing cast `(byte) x`: the byte congruent to `x` modulo 2^8. */
  function ToByte(x: int): Byte {
    var m := x % 0x100;
    if m < 0x80 then m else m - 0x100
  }

  /** The narrowing cast `(short) x`: the short congruent to `x` modulo 2^16. */
  function ToShort(x: int): Short {
    var m := x % 0x1_0000;
    if m < 0x8000 then m else m - 0x1_0000
  }

  /** A value of 32-bit `int` arithmetic: the int congruent to `x` modulo 2^32. */
  function ToInt(x: int): (r: int)
    ensures -0x8000_0000 <= r < 0x8000_0000
  {
    var m := x % 0x1_0000_0000;
    if m < 0x8000_0000 then m else m - 0x1_0000_0000
  }

  /** `b & 0xff`: the byte read as an unsigned value; casting back gives `b`. */
  function Unsigned(b: Byte): (u: nat)
    ensures u < 0x100
  {
    if b < 0 then b + 0x100 else b
  }

  /** `(byte) (n >> 8), (byte) n`: the low 16 bits of `n`, high byte first. */
  function U16Be(n: int): (r: Bytes)
    ensures |r| == 2 && ReadU16(r, 0) == n % 0x1_0000
  {
    var q := n / 0x100;
    assert n == q * 0x100 + n % 0x100;
    assert q == (q / 0x100) * 0x100 + q % 0x100;
    assert n == (q / 0x100) * 0x1_0000 + (q % 0x100) * 0x100 + n % 0x100;
    [ToByte(q), ToByte(n)]
  }

  /** `((s[i] & 0xff) << 8) | (s[i + 1] & 0xff)`. */
  function ReadU16(s: Bytes, i: int): (n: nat)
    requires 0 <= i <= |s| - 2
    ensures n < 0x1_0000
  {
    Unsigned(s[i]) * 0x100 + Unsigned(s[i + 1])
  }

  /** `(byte) ((n >> 24) & 0xff)` through `(byte) (n & 0xff)`: the low 32 bits
      of `n`, most significant byte first. */
  function U32Be(n: int): (r: Bytes)
    ensures |r| == 4
    ensures ReadU32(r, 0) == ToInt(n)
  {
    var r := [ToByte(n / 0x100_0000), ToByte(n / 0x1_0000), ToByte(n / 0x100), ToByte(n)];
    ShiftIsDivision(n);
    U32Digits(n, r);
    r
  }

  lemma U32Digits(n: int, r: Bytes)
    requires r == [ToByte(n / 0x100 / 0x100 / 0x100), ToByte(n / 0x100 / 0x100), ToByte(n / 0x100), ToByte(n)]
    ensures ReadU32(r, 0) == ToInt(n)
  {
    var q1 := n / 0x100;
    var q2 := q1 / 0x100;
    var q3 := q2 / 0x100;
    UnsignedToByte(q3);
    UnsignedToByte(q2);
    UnsignedToByte(q1);
    UnsignedToByte(n);
    var sum := (q3 % 0x100) * 0x100_0000 + (q2 % 0x100) * 0x1_0000 + (q1 % 0x100) * 0x100 + n % 0x100;
    assert n == q1 * 0x100 + n % 0x100;
    assert q1 == q2 * 0x100 + q1 % 0x100;
    assert q2 == q3 * 0x100 + q2 % 0x100;
    assert q3 == (q3 / 0x100) * 0x100 + q3 % 0x100;
    assert n == (q3 / 0x100) * 0x1_0000_0000 + sum;
    ToIntCongruent(sum, q3 / 0x100);
    SignedWord(sum);
  }

  lemma UnsignedToByte(x: int)
    ensures Unsigned(ToByte(x)) == x % 0x100
  {
  }

  lemma ToIntCongruent(x: int, k: int)
    ensures ToInt(x + k * 0x1_0000_0000) == ToInt(x)
  {
    assert (x + k * 0x1_0000_0000) % 0x1_0000_0000 == x % 0x1_0000_0000;
  }

  /** Java's `n >> 24` and `n >> 16` agree with repeated shifts by 8. */
  lemma ShiftIsDivision(n: int)
    ensures n / 0x100 / 0x100 == n / 0x1_0000
    ensures n / 0x100 / 0x100 / 0x100 == n / 0x100_0000
  {
    var q1 := n / 0x100;
    var q2 := q1 / 0x100;
    var q3 := q2 / 0x100;
    assert n == q2 * 0x1_0000 + (q1 % 0x100) * 0x100 + n % 0x100;
    assert n == q3 * 0x100_0000 + (q2 % 0x100) * 0x1_0000 + (q1 % 0x100) * 0x100 + n % 0x100;
  }

  /** `o1 | o2 | o3 | o4` with `o1 = (s[i] & 0xff) << 24` and so on, evaluated in
      32-bit `int`: a first byte of 0x80 or more gives a negative offset. */
  function ReadU32(s: Bytes, i: int): (n: int)
    requires 0 <= i <= |s| - 4
    ensures -0x8000_0000 <= n < 0x8000_0000
  {
    var u := Unsigned(s[i]) * 0x100_0000 + Unsigned(s[i + 1]) * 0x1_0000
             + Unsigned(s[i + 2]) * 0x100 + Unsigned(s[i + 3]);
    if u < 0x8000_0000 then u else u - 0x1_0000_0000
  }

  /** On an unsigned 32-bit value, `(int)` only moves the top half below zero. */
  lemma SignedWord(u: int)
    requires 0 <= u < 0x1_0000_0000
    ensures ToInt(u) == if u < 0x8000_0000 then u else u - 0x1_0000_0000
  {
    assert u % 0x1_0000_0000 == u;
  }

  /** Reading a field inside a run `t` found at `i` of `s`. */
  lemma ReadU16Within(s: Bytes, i: int, t: Bytes, j: int)
    requires 0 <= i && i + |t| <= |s| && s[i..i + |t|] == t && 0 <= j <= |t| - 2
    ensures ReadU16(s, i + j) == ReadU16(t, j)
  {
    assert s[i + j] == t[j] && s[i + j + 1] == t[j + 1];
  }

  lemma ReadU32Within(s: Bytes, i: int, t: Bytes, j: int)
    requires 0 <= i && i + |t| <= |s| && s[i..i + |t|] == t && 0 <= j <= |t| - 4
    ensures ReadU32(s, i + j) == ReadU32(t, j)
  {
    assert s[i + j] == t[j] && s[i + j + 1] == t[j + 1];
    assert s[i + j + 2] == t[j + 2] && s[i + j + 3] == t[j + 3];
  }

  /** Reading a field depends only on the bytes it spans. */
  lemma ReadU16Slice(s: Bytes, i: int, t: Bytes)
    requires 0 <= i <= |s| - 2 && s[i..i + 2] == t
    ensures ReadU16(s, i) == ReadU16(t, 0)
  {
    assert s[i] == t[0] && s[i + 1] == t[1];
  }

  lemma ReadU32Slice(s: Bytes, i: int, t: Bytes)
    requires 0 <= i <= |s| - 4 && s[i..i + 4] == t
    ensures ReadU32(s, i) == ReadU32(t, 0)
  {
    assert s[i] == t[0] && s[i + 1] == t[1] && s[i + 2] == t[2] && s[i + 3] == t[3];
  }

  /** The casts keep exactly the low bits: each result is congruent to its
      argument modulo 2^8, 2^16 and 2^32. */
  lemma ByteCastCongruent(x: int)
    ensures (x - ToByte(x)) % 0x100 == 0
  {
  }

  lemma ShortCastCongruent(x: int)
    ensures (x - ToShort(x)) % 0x1_0000 == 0
  {
  }

  lemma IntCastCongruent(x: int)
    ensures (x - ToInt(x)) % 0x1_0000_0000 == 0
  {
  }

  /** `(byte) (x & 0xff)` is `(byte) x`: masking before the cast changes
      nothing, so `U16Be` and `U32Be` model the masked writes too. */
  lemma MaskBeforeCast(x: int)
    ensures ToByte(x % 0x100) == ToByte(x)
  {
  }

  lemma UnsignedInverse(b: Byte)
    ensures (Unsigned(b) - b) % 0x100 == 0 && ToByte(Unsigned(b)) == b
  {
  }

  /** A short written as two bytes and read back through `(short)` is unchanged. */
  lemma ShortRoundTrip(s: Short)
    ensures ToShort(ReadU16(U16Be(s), 0)) == s
  {
    var u := ReadU16(U16Be(s), 0);
    if s >= 0 {
      assert u == s;
    } else {
      assert u == s + 0x1_0000;
    }
  }

  /** An offset in `int` range written as four bytes reads back unchanged. */
  lemma IntRoundTrip(n: int)
    requires -0x8000_0000 <= n < 0x8000_0000
    ensures ReadU32(U32Be(n), 0) == n
  {
    if n >= 0 {
      assert n % 0x1_0000_0000 == n;
    } else {
      assert n % 0x1_0000_0000 == n + 0x1_0000_0000;
    }
  }
}
