/**
 * Byte-level vocabulary of the MRT decoder: bytes, the effect of `memcpy` on a
 * destination field, host-integer interpretation of copied bytes, 32-bit
 * wrap-around, and the length-tracked cursor `(buffer, bufLen)` that every
 * read goes through.
 */
module Wire {

  newtype byte = x: int | 0 <= x < 256

  datatype Option<T> = None | Some(value: T)

  const TWO_TO_32: int := 0x1_0000_0000
  const TWO_TO_31: int := 0x8000_0000

  /** `n` zero bytes: the model's value for storage the source never initialises. */
  function Zeros(n: nat): (z: seq<byte>)
    ensures |z| == n
    ensures forall i :: 0 <= i < n ==> z[i] == 0
  {
    seq(n, _ => 0)
  }

  /**
   * The content of a destination field after `memcpy(dst, src, |src|)`: the
   * first |src| bytes are replaced, the rest of the field keeps its content.
   */
  function Overwrite(dst: seq<byte>, src: seq<byte>): (r: seq<byte>)
    ensures |r| == if |src| <= |dst| then |dst| else |src|
  {
    if |src| <= |dst| then src + dst[|src|..] else src
  }

  /** Unsigned value of bytes in network (most significant first) order. */
  function BigEndian(b: seq<byte>): nat
  {
    if b == [] then 0 else BigEndian(b[..|b| - 1]) * 256 + b[|b| - 1] as nat
  }

  /** Unsigned value of bytes in least-significant-first order. */
  function LittleEndian(b: seq<byte>): nat
  {
    if b == [] then 0 else b[0] as nat + 256 * LittleEndian(b[1..])
  }

  function Reverse(b: seq<byte>): (r: seq<byte>)
    ensures |r| == |b|
  {
    if b == [] then [] else Reverse(b[1..]) + [b[0]]
  }

  /**
   * The integer a field holds once its bytes have been `memcpy`d into a host
   * integer without byte swapping: the value depends on the host byte order.
   */
  function HostValue(b: seq<byte>, littleEndianHost: bool): nat
  {
    if littleEndianHost then LittleEndian(b) else BigEndian(b)
  }

  lemma {:induction false} LittleEndianIsReversedBigEndian(b: seq<byte>)
    ensures LittleEndian(b) == BigEndian(Reverse(b))
  {
    if b != [] {
      LittleEndianIsReversedBigEndian(b[1..]);
      var r := Reverse(b[1..]) + [b[0]];
      assert r[..|r| - 1] == Reverse(b[1..]);
    }
  }

  /**
   * Two's-complement reinterpretation of an integer as a 32-bit signed `int`
   * (the conversion of a `uint32_t` to `int`, and `int` arithmetic that wraps).
   */
  function Wrap32(x: int): (r: int)
    ensures -TWO_TO_31 <= r < TWO_TO_31
    ensures (x - r) % TWO_TO_32 == 0
    ensures -TWO_TO_31 <= x < TWO_TO_31 ==> r == x
  {
    var m := x % TWO_TO_32;
    if m >= TWO_TO_31 then m - TWO_TO_32 else m
  }

  /** The value of a `uint16_t` returned through a (signed) `char`: the low 8 bits. */
  function CharOf(v: nat): (r: int)
    ensures -128 <= r < 128
    ensures (v - r) % 256 == 0
  {
    var m := v % 256;
    if m >= 128 then m - 256 else m
  }

  /** True when `b & mask` is non-zero. */
  predicate HasBits(b: byte, mask: bv8)
  {
    (b as bv8) & mask != 0
  }

  /**
   * The pointer/length pair `buffer`/`bufLen` over the memory `mem`: the
   * bytes still to be read are mem[buffer..buffer + bufLen].
   */
  datatype Cursor = Cursor(mem: seq<byte>, buffer: nat, bufLen: nat)
  {
    /** The caller's length never exceeds the memory behind the pointer. */
    predicate Valid()
    {
      buffer + bufLen <= |mem|
    }

    /** The bytes a callee would be handed: mem[buffer..buffer + bufLen]. */
    function Remaining(): seq<byte>
      requires Valid()
    {
      mem[buffer..buffer + bufLen]
    }
  }

  /**
   * `next` is `c` after some reads: same memory, the pointer moved forward,
   * and pointer plus remaining length unchanged.
   */
  predicate Advanced(c: Cursor, next: Cursor)
  {
    next.Valid() && next.mem == c.mem && c.buffer <= next.buffer
    && next.buffer + next.bufLen == c.buffer + c.bufLen
  }

  /**
   * The outcome of one field read at a call site: `extractFromBuffer(dst, n)`
   * followed by the caller's `!= n` test. `Took` carries the field's new
   * content and the advanced cursor; `Short` is the branch that throws.
   */
  datatype Step = Took(field: seq<byte>, next: Cursor) | Short

  function Take(c: Cursor, n: nat, dst: seq<byte>): (s: Step)
    requires c.Valid()
    ensures s.Took? ==> Advanced(c, s.next)
    ensures s.Took? && n <= |dst| ==> |s.field| == |dst|
  {
    if n <= c.bufLen then
      Took(Overwrite(dst, c.mem[c.buffer..c.buffer + n]), Cursor(c.mem, c.buffer + n, c.bufLen - n))
    else if c.bufLen == 0 then
      Took(dst, c)
    else
      Short
  }
}
