/** Bytes and the numbers they stand for, least significant byte first: the native layout that the
    buffer copies, that byte_order.hpp converts and that io_util_macos.hpp packs. */
module Bytes {
  import opened Arithmetic

  newtype byte = x: int | 0 <= x < 256

  function Power(w: nat): (r: nat)
    ensures r > 0
  {
    if w == 0 then 1 else 256 * Power(w - 1)
  }

  /** The number whose little-endian bytes are `b`. */
  function Value(b: seq<byte>): nat {
    if b == [] then 0 else b[0] as nat + 256 * Value(b[1..])
  }

  /** The low `w` bytes of `n`, least significant first. */
  function Digits(n: nat, w: nat): (b: seq<byte>)
    ensures |b| == w
  {
    if w == 0 then [] else [(n % 256) as byte] + Digits(n / 256, w - 1)
  }

  /** A fixed-width word holds exactly the numbers below its power of 256. */
  lemma {:induction false} ValueBound(b: seq<byte>)
    ensures Value(b) < Power(|b|)
  {
    if b != [] {
      ValueBound(b[1..]);
    }
  }

  lemma {:induction false} DigitsOfValue(b: seq<byte>)
    ensures Digits(Value(b), |b|) == b
  {
    if b != [] {
      DigitsOfValue(b[1..]);
      assert Value(b) / 256 == Value(b[1..]);
    }
  }

  lemma {:induction false} ValueOfDigits(n: nat, w: nat)
    ensures Value(Digits(n, w)) == n % Power(w)
  {
    if w > 0 {
      var tail := Digits(n / 256, w - 1);
      ValueOfDigits(n / 256, w - 1);
      assert Digits(n, w)[1..] == tail;
      ModStep(n, Power(w - 1));
    }
  }

  lemma SmallValue(n: nat, w: nat)
    requires n < Power(w)
    ensures Value(Digits(n, w)) == n
  {
    ValueOfDigits(n, w);
    DivModUnique(n, Power(w), 0, n);
  }

  /** One more byte at the significant end. */
  lemma {:induction false} ValueAppend(b: seq<byte>, x: byte)
    ensures Value(b + [x]) == Value(b) + x as nat * Power(|b|)
  {
    if b != [] {
      assert (b + [x])[1..] == b[1..] + [x];
      ValueAppend(b[1..], x);
      var p := Power(|b| - 1);
      assert x as nat * (256 * p) == 256 * (x as nat * p);
    } else {
      assert [x][1..] == [] && b + [x] == [x];
    }
  }

  /** The next byte is the remainder of the number shifted down. */
  lemma {:induction false} DigitsAppend(n: nat, w: nat)
    ensures Digits(n, w + 1) == Digits(n, w) + [(n / Power(w) % 256) as byte]
  {
    if w > 0 {
      DigitsAppend(n / 256, w - 1);
      DivideTwice(n, Power(w - 1));
      assert Digits(n, w + 1) == [(n % 256) as byte] + Digits(n / 256, w);
    }
  }

  /** Byte number k counts for 256 to the k-th: the first byte is the least significant. */
  lemma {:induction false} ByteOfValue(b: seq<byte>, k: nat)
    requires k < |b|
    ensures b[k] as int == Value(b) / Power(k) % 256
    ensures Power(0) == 1 && Power(k + 1) == 256 * Power(k)
    decreases k
  {
    if k > 0 {
      ByteOfValue(b[1..], k - 1);
      DivideTwice(Value(b), Power(k - 1));
      assert Value(b) / 256 == Value(b[1..]);
    }
  }

  lemma DivideTwice(n: nat, p: nat)
    requires p > 0
    ensures n / 256 / p == n / (256 * p)
  {
    var q := n / 256 / p;
    var r := n % 256 + 256 * (n / 256 % p);
    assert n == 256 * (q * p + n / 256 % p) + n % 256;
    assert n == q * (256 * p) + r;
    DivUnique(n, 256 * p, q, r);
  }

  lemma ModStep(n: nat, p: nat)
    requires p > 0
    ensures n % (256 * p) == n % 256 + 256 * ((n / 256) % p)
  {
    var q, r := n / 256, n % 256;
    var a, c := q / p, q % p;
    assert n == 256 * (a * p + c) + r;
    assert n == a * (256 * p) + (256 * c + r);
    assert 0 <= 256 * c + r < 256 * p;
    DivModUnique(n, 256 * p, a, 256 * c + r);
  }

  /** A signed word in two's complement. */
  function SignedDigits(n: int, w: nat): seq<byte>
    requires 0 <= n + n + Power(w) && n + n < Power(w)
  {
    Digits(Unsigned(n, w), w)
  }

  function Unsigned(n: int, w: nat): (u: nat)
    requires 0 <= n + n + Power(w) && n + n < Power(w)
    ensures u < Power(w)
  {
    if n < 0 then n + Power(w) else n
  }

  function SignedValue(b: seq<byte>): int {
    if Value(b) + Value(b) < Power(|b|) then Value(b) else Value(b) - Power(|b|)
  }

  lemma SignedRoundTrip(n: int, w: nat)
    requires 0 <= n + n + Power(w) && n + n < Power(w)
    ensures SignedValue(SignedDigits(n, w)) == n
  {
    var u := Unsigned(n, w);
    ValueOfDigits(u, w);
    DivModUnique(u, Power(w), 0, u);
  }
}
