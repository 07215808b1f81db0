/** Bytes, big-endian integers and the failure type shared by the DNS codecs.

    The codecs of dns-server.py raise Python exceptions on bad input:
    `struct.error` and `OverflowError` when a value does not fit its field,
    `IndexError` and `struct.error` when the buffer is too short, and
    `UnicodeDecodeError` for label bytes that are not text. Here each of
    those is an explicit `Err` value.
 */
module Wire {

  /** One octet of a DNS message. */
  type Byte = b: int | 0 <= b < 0x100

  /** Why an encode or a decode did not produce a value. */
  datatype Error =
    | ValueTooLarge  // a value does not fit the bytes the wire format gives it
    | ShortBuffer    // the buffer ends before the field being read
    | NotAscii       // a label byte is not 7-bit text

  datatype Result<T> = Ok(value: T) | Err(error: Error) {
    predicate IsFailure() {
      Err?
    }

    function PropagateFailure<U>(): Result<U>
      requires Err?
    {
      Err(error)
    }

    function Extract(): T
      requires Ok?
    {
      value
    }
  }

  /** 256 to the power n: the number of values an n-byte field can hold. */
  function Pow256(n: nat): (p: nat)
    ensures p >= 1
  {
    if n == 0 then 1 else 0x100 * Pow256(n - 1)
  }

  /** 2 to the power k: `1 << k` in Python. */
  function Pow2(k: nat): (p: nat)
    ensures p >= 1
  {
    if k == 0 then 1 else 2 * Pow2(k - 1)
  }

  /** Python's `a | b` on non-negative integers, built bit by bit from the least significant. */
  function BitOr(a: nat, b: nat): (r: nat)
    ensures a <= r && b <= r && r <= a + b
  {
    if a == 0 then b
    else if b == 0 then a
    else 2 * BitOr(a / 2, b / 2) + (if a % 2 == 1 || b % 2 == 1 then 1 else 0)
  }

  /** Or-ing a value shifted left by k with a value below 2^k is addition: no bit is shared. */
  lemma {:induction false} BitOrDisjoint(a: nat, b: nat, k: nat, m: nat)
    requires m == Pow2(k) && b < m
    ensures BitOr(a * m, b) == a * m + b
  {
    if k > 0 && a * m != 0 && b != 0 {
      var h := a * Pow2(k - 1);
      assert a * m == 2 * h;
      assert b / 2 < Pow2(k - 1);
      BitOrDisjoint(a, b / 2, k - 1, Pow2(k - 1));
    }
  }

  /** Or-ing two values that fit in `k` bits gives a value that fits in `k` bits. */
  lemma {:induction false} BitOrBelow(a: nat, b: nat, k: nat)
    requires a < Pow2(k) && b < Pow2(k)
    ensures BitOr(a, b) < Pow2(k)
  {
    if a != 0 && b != 0 {
      assert k > 0;
      assert a / 2 < Pow2(k - 1) && b / 2 < Pow2(k - 1);
      BitOrBelow(a / 2, b / 2, k - 1);
    }
  }

  /** The n-byte big-endian form of x (its low n bytes when x is too large). */
  function BigEndian(x: nat, n: nat): (r: seq<Byte>)
    ensures |r| == n
  {
    if n == 0 then [] else BigEndian(x / 0x100, n - 1) + [x % 0x100]
  }

  /** The unsigned integer a big-endian byte string denotes. */
  function FromBigEndian(s: seq<Byte>): (v: nat)
    ensures v < Pow256(|s|)
  {
    if s == [] then 0
    else
      var high := FromBigEndian(s[..|s| - 1]);
      assert high * 0x100 <= (Pow256(|s| - 1) - 1) * 0x100;
      high * 0x100 + s[|s| - 1]
  }

  /** Python's `x.to_bytes(n, 'big')`: fails with OverflowError when x needs more than n bytes. */
  function ToBytes(x: nat, n: nat): (r: Result<seq<Byte>>)
    ensures r.Ok? <==> x < Pow256(n)
    ensures r.Ok? ==> |r.value| == n && FromBigEndian(r.value) == x
  {
    if x < Pow256(n) then
      BigEndianRoundTrip(x, n);
      Ok(BigEndian(x, n))
    else
      Err(ValueTooLarge)
  }

  /** Reading back the big-endian form of a value that fits gives the value. */
  lemma {:induction false} BigEndianRoundTrip(x: nat, n: nat)
    requires x < Pow256(n)
    ensures FromBigEndian(BigEndian(x, n)) == x
  {
    if n > 0 {
      var high := BigEndian(x / 0x100, n - 1);
      var s := high + [x % 0x100];
      assert s == BigEndian(x, n);
      assert x / 0x100 < Pow256(n - 1);
      BigEndianRoundTrip(x / 0x100, n - 1);
      assert s[..|s| - 1] == high;
      assert FromBigEndian(s) == FromBigEndian(high) * 0x100 + x % 0x100;
    }
  }

  /** Writing back the value of a byte string, at the same width, gives the byte string. */
  lemma {:induction false} FromBigEndianRoundTrip(s: seq<Byte>)
    ensures BigEndian(FromBigEndian(s), |s|) == s
  {
    if s != [] {
      var init, last := s[..|s| - 1], s[|s| - 1];
      FromBigEndianRoundTrip(init);
      var v := FromBigEndian(s);
      assert v == FromBigEndian(init) * 0x100 + last;
      assert v / 0x100 == FromBigEndian(init) && v % 0x100 == last;
      assert s == init + [last];
    }
  }

  /** Writing back the value read from a byte string, at its own width, never overflows and gives the byte string. */
  lemma ToBytesOfRead(s: seq<Byte>)
    ensures ToBytes(FromBigEndian(s), |s|) == Ok(s)
  {
    FromBigEndianRoundTrip(s);
  }
}
