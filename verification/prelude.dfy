/**
 Basic vocabulary shared by every module of the invite codec model:
 bytes, IPv4 addresses, ports, the .NET exceptions the codec raises, and
 a failure-compatible Result type that carries them.
 */
module Prelude {

  /** An unsigned 8-bit value (.NET `byte`). */
  type Byte = x: int | 0 <= x < 0x100

  /** An unsigned 16-bit value (.NET `ushort`), used for ports. */
  type Port = x: int | 0 <= x < 0x1_0000

  /** A signed 32-bit value (.NET `int`). */
  type Int32 = x: int | -0x8000_0000 <= x < 0x8000_0000

  /** An IPv4 address as its four network-order bytes (`IPAddress.GetAddressBytes`). */
  type Ip = s: seq<Byte> | |s| == 4 witness [0, 0, 0, 0]

  /** The (address, port) pair every invite format carries. */
  datatype Endpoint = Endpoint(ip: Ip, port: Port)

  datatype Option<+T> = None | Some(value: T)

  /** The exceptions the codec throws, named after their .NET types. */
  datatype Exn =
    | ArgumentException
    | ArgumentOutOfRangeException
    | IndexOutOfRangeException
    | KeyNotFoundListId(id: int)
    | KeyNotFoundWord(word: string)
    | FormatException
    | OverflowException
    | InvalidDataException
    | InvalidOperationException
    | DivideByZeroException
    | GeneralException
  {
    /** `ArgumentOutOfRangeException` derives from `ArgumentException`. */
    predicate IsArgument() {
      ArgumentException? || ArgumentOutOfRangeException?
    }

    predicate IsKeyNotFound() {
      KeyNotFoundListId? || KeyNotFoundWord?
    }
  }

  /** The value of an operation that either returns or throws. */
  datatype Result<+T> = Ok(value: T) | Err(error: Exn) {
    predicate IsFailure() {
      Err?
    }

    function PropagateFailure<U>(): Result<U>
      requires Err?
    {
      Err(error)
    }

    function Extract(): T
      requires Ok?
    {
      value
    }
  }

  function Pow2(n: nat): (r: nat)
    ensures r >= 1
  {
    if n == 0 then 1 else 2 * Pow2(n - 1)
  }

  lemma {:induction false} Pow2Add(a: nat, b: nat)
    ensures Pow2(a + b) == Pow2(a) * Pow2(b)
  {
    if a > 0 {
      Pow2Add(a - 1, b);
    }
  }

  lemma {:induction false} Pow2Monotone(a: nat, b: nat)
    requires a <= b
    ensures Pow2(a) <= Pow2(b)
  {
    if a < b {
      Pow2Monotone(a, b - 1);
    }
  }

  /** The powers of two the codec's widths use. */
  lemma Pow2Constants()
    ensures Pow2(3) == 8 && Pow2(4) == 16 && Pow2(5) == 32 && Pow2(8) == 0x100 && Pow2(9) == 0x200
    ensures Pow2(13) == 0x2000 && Pow2(16) == 0x1_0000 && Pow2(31) == 0x8000_0000
    ensures Pow2(32) == 0x1_0000_0000 && Pow2(48) == 0x1_0000_0000_0000
  {
    assert Pow2(2) == 4;
    assert Pow2(4) == 16 by { Pow2Add(2, 2); }
    assert Pow2(8) == 0x100 by { Pow2Add(4, 4); }
    assert Pow2(16) == 0x1_0000 by { Pow2Add(8, 8); }
    assert Pow2(13) == 0x2000 by { Pow2Add(8, 5); }
    assert Pow2(32) == 0x1_0000_0000 by { Pow2Add(16, 16); }
    assert Pow2(48) == 0x1_0000_0000_0000 by { Pow2Add(32, 16); }
  }

  /** The two's-complement bit pattern of a 32-bit value, as an unsigned number. */
  function Unsigned32(v: int): (u: nat)
    ensures u < 0x1_0000_0000
    ensures 0 <= v < 0x1_0000_0000 ==> u == v
  {
    v % 0x1_0000_0000
  }

  /** Reinterprets a 32-bit pattern as a signed `int`, as .NET does when bit 31 is set. */
  function Signed32(u: nat): Int32
    requires u < 0x1_0000_0000
  {
    if u < 0x8000_0000 then u else u - 0x1_0000_0000
  }

  /** Unchecked 32-bit `int` arithmetic: keeps the low 32 bits, read in two's complement. */
  function Wrap32(v: int): (r: Int32)
    ensures -0x8000_0000 <= v < 0x8000_0000 ==> r == v
    ensures (r - v) % 0x1_0000_0000 == 0
  {
    Signed32(Unsigned32(v))
  }

  /**
   C# integer division `a / b`: the quotient is rounded toward zero, so the
   remainder `a - q * b` takes the sign of the dividend (Dafny's `/` is
   Euclidean instead).
   */
  function DivTrunc(a: int, b: int): (q: int)
    requires b != 0
    ensures a >= 0 ==> 0 <= a - q * b < (if b < 0 then -b else b)
    ensures a < 0 ==> -(if b < 0 then -b else b) < a - q * b <= 0
  {
    var m := if a < 0 then -a else a;
    var n := if b < 0 then -b else b;
    if (a < 0) == (b < 0) then m / n else -(m / n)
  }

  /**
   The .NET expression `1 << n` on `int`: the shift count is taken modulo 32
   and a shift into bit 31 yields a negative number.
   */
  function ShiftOne(n: int): (r: Int32)
    ensures 0 <= n < 31 ==> r == Pow2(n)
    ensures n % 32 == 31 ==> r < 0
  {
    var k := n % 32;
    Pow2BelowBit31(k);
    Signed32(Pow2(k))
  }

  /** Shifting 1 left by fewer than 31 places stays below bit 31; by 31 places it is bit 31. */
  lemma Pow2BelowBit31(k: nat)
    requires k < 32
    ensures k < 31 ==> Pow2(k) < 0x8000_0000
    ensures k == 31 ==> Pow2(k) == 0x8000_0000
  {
    Pow2Constants();
    if k < 31 {
      Pow2Monotone(k, 30);
      assert Pow2(31) == 2 * Pow2(30);
    }
  }
}
