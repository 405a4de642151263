/** Fixed-width words, their little-endian bytes, and the result types the whole model shares. */
module Words {

  type byte = n: int | 0 <= n < 0x100
  type u16 = n: int | 0 <= n < 0x1_0000
  type u32 = n: int | 0 <= n < 0x1_0000_0000

  datatype Option<+T> = None | Some(value: T)
  datatype Result<+T, +E> = Ok(value: T) | Err(error: E)

  /** A list whose front is already known, followed by a computation of the rest. */
  function After<T>(front: seq<T>, rest: Option<seq<T>>): Option<seq<T>> {
    match rest
    case None => None
    case Some(values) => Some(front + values)
  }

  lemma AfterAfter<T>(a: seq<T>, b: seq<T>, rest: Option<seq<T>>)
    ensures After([], rest) == rest
    ensures After(a, After(b, rest)) == After(a + b, rest)
  {
    if rest.Some? {
      assert [] + rest.value == rest.value;
      assert a + (b + rest.value) == a + b + rest.value;
    }
  }

  function AfterOk<T, E>(front: seq<T>, rest: Result<seq<T>, E>): Result<seq<T>, E> {
    match rest
    case Err(e) => Err(e)
    case Ok(values) => Ok(front + values)
  }

  lemma AfterOkAfterOk<T, E>(a: seq<T>, b: seq<T>, rest: Result<seq<T>, E>)
    ensures AfterOk([], rest) == rest
    ensures AfterOk(a, AfterOk(b, rest)) == AfterOk(a + b, rest)
  {
    if rest.Ok? {
      assert [] + rest.value == rest.value;
      assert a + (b + rest.value) == a + b + rest.value;
    }
  }

  lemma AfterOkCancels<T, E>(front: seq<T>, a: Result<seq<T>, E>, b: Result<seq<T>, E>)
    ensures AfterOk(front, a) == AfterOk(front, b) <==> a == b
  {
    if a.Ok? && b.Ok? {
      assert a.value == (front + a.value)[|front|..];
      assert b.value == (front + b.value)[|front|..];
    }
  }

  function Bytes16(n: u16): (b: seq<byte>)
    ensures |b| == 2
  {
    [n % 0x100, n / 0x100]
  }

  function Word16(b: seq<byte>): u16
    requires |b| >= 2
  {
    var low: byte, high: byte := b[0], b[1];
    low + 0x100 * high
  }

  function Bytes32(n: u32): (b: seq<byte>)
    ensures |b| == 4
  {
    Bytes16(n % 0x1_0000) + Bytes16(n / 0x1_0000)
  }

  function Word32(b: seq<byte>): u32
    requires |b| >= 4
  {
    var low: u16, high: u16 := Word16(b), Word16(b[2..]);
    low + 0x1_0000 * high
  }

  lemma Word16OfBytes(n: u16)
    ensures Word16(Bytes16(n)) == n
  {}

  lemma Word32OfBytes(n: u32)
    ensures Word32(Bytes32(n)) == n
  {
    assert Bytes32(n)[2..] == Bytes16(n / 0x1_0000);
  }

  /** The least significant byte comes first. */
  lemma LittleEndian(a: byte, b: byte, c: byte, d: byte)
    ensures Word16([a, b]) == a + 0x100 * b
    ensures Word32([a, b, c, d]) == a + 0x100 * b + 0x1_0000 * c + 0x100_0000 * d
    ensures Bytes16(a + 0x100 * b) == [a, b]
    ensures Bytes32(a + 0x100 * b + 0x1_0000 * c + 0x100_0000 * d) == [a, b, c, d]
  {
    var low: u16, high: u16 := a + 0x100 * b, c + 0x100 * d;
    assert [a, b, c, d][2..] == [c, d];
    var word: u32 := low + 0x1_0000 * high;
    assert word % 0x1_0000 == low && word / 0x1_0000 == high;
    assert word == a + 0x100 * b + 0x1_0000 * c + 0x100_0000 * d;
  }

  /** A two's-complement reading of the same four bytes. */
  function Signed32(n: u32): int {
    if n < 0x8000_0000 then n else n - 0x1_0000_0000
  }

  function SaturatingSub(x: nat, y: nat): nat {
    if x >= y then x - y else 0
  }

  function Zeros(n: nat): (b: seq<byte>)
    ensures |b| == n
  {
    seq(n, i => 0)
  }

  /** Rounding up to the four-byte alignment of netlink headers and attributes. */
  function AlignTo4(length: nat): (r: nat)
    ensures length <= r < length + 4
    ensures r % 4 == 0
  {
    if length % 4 == 0 then length else length + 4 - length % 4
  }

  lemma AlignedSum(x: nat, y: nat)
    requires x % 4 == 0 && y % 4 == 0
    ensures (x + y) % 4 == 0
  {}

  lemma AlignTo4RoundsUp(length: nat)
    ensures AlignTo4(length) == length + 3 - (length + 3) % 4
  {}

  lemma AlignTo4Shifts(base: nat, length: nat)
    requires base % 4 == 0
    ensures AlignTo4(base + length) == base + AlignTo4(length)
  {}

  lemma SignedNegative(code: nat)
    requires 0 < code <= 0x8000_0000
    ensures Signed32(0x1_0000_0000 - code) == 0 - code
  {}
}
