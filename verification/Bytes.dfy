/** Bytes, and integers stored in the little-endian order of the machine. */
module Bytes {
  import M = MachineIntegers

  type byte = b: int | 0 <= b < 256

  function Power256(n: nat): (p: nat)
    ensures p > 0
  {
    if n == 0 then 1 else 256 * Power256(n - 1)
  }

  /** The lowest `n` bytes of `v`, least significant first. */
  function Little(v: nat, n: nat): (s: seq<byte>)
    ensures |s| == n
  {
    if n == 0 then [] else [v % 256] + Little(v / 256, n - 1)
  }

  function FromLittle(s: seq<byte>): nat {
    if s == [] then 0 else s[0] + 256 * FromLittle(s[1..])
  }

  lemma QuotientBelow(v: nat, p: nat)
    requires v < 256 * p
    ensures v / 256 < p
  {
  }

  lemma {:induction false} LittleRoundTrip(v: nat, n: nat)
    requires v < Power256(n)
    ensures FromLittle(Little(v, n)) == v
  {
    if n > 0 {
      QuotientBelow(v, Power256(n - 1));
      LittleRoundTrip(v / 256, n - 1);
      assert Little(v, n)[1..] == Little(v / 256, n - 1);
    }
  }

  lemma QuotientTwice(v: nat, p: nat)
    requires p > 0
    ensures v / 256 / p == v / (256 * p)
  {
    var a, b := v / 256 / p, v / (256 * p);
    var low, high := v % 256, v / 256 % p;
    assert v == 256 * (v / 256) + low && v / 256 == p * a + high;
    assert v == (256 * p) * a + (256 * high + low) by { assert 256 * (p * a) == (256 * p) * a; }
    assert 256 * high + low < 256 * p;
    M.ModUnique(v, 256 * p, a, 256 * high + low);
  }

  /** The byte at each place is the digit of that weight. */
  lemma {:induction false} LittleAt(v: nat, n: nat, k: nat)
    requires k < n
    ensures Little(v, n)[k] == v / Power256(k) % 256
  {
    if k > 0 {
      LittleAt(v / 256, n - 1, k - 1);
      QuotientTwice(v, Power256(k - 1));
    }
  }

  lemma LittleWords()
    ensures Power256(4) == 0x1_0000_0000 && Power256(8) == 0x1_0000_0000_0000_0000
  {
    assert Power256(2) == 0x1_0000;
    assert Power256(6) == 0x1_0000_0000_0000;
  }

  // ---- Writing into an image ----

  /** The image after copying `code` over the bytes from `at` on. */
  function Store(image: seq<byte>, at: nat, code: seq<byte>): (r: seq<byte>)
    requires at + |code| <= |image|
    ensures |r| == |image|
  {
    image[..at] + code + image[at + |code|..]
  }

  lemma StoreAt(image: seq<byte>, at: nat, code: seq<byte>, p: nat)
    requires at + |code| <= |image| && p < |image|
    ensures Store(image, at, code)[p] == if at <= p < at + |code| then code[p - at] else image[p]
  {
  }

  lemma StoredThere(image: seq<byte>, at: nat, code: seq<byte>)
    requires at + |code| <= |image|
    ensures Store(image, at, code)[at..at + |code|] == code
  {
  }

  lemma StoredElsewhere(image: seq<byte>, at: nat, code: seq<byte>, lo: nat, hi: nat)
    requires at + |code| <= |image| && lo <= hi <= |image|
    requires hi <= at || at + |code| <= lo
    ensures Store(image, at, code)[lo..hi] == image[lo..hi]
  {
  }

  /** Copies `code` into the array, byte by byte. */
  method Copy(image: array<byte>, at: nat, code: seq<byte>)
    requires at + |code| <= image.Length
    modifies image
    ensures image[..] == Store(old(image[..]), at, code)
  {
    var i := 0;
    while i < |code|
      invariant 0 <= i <= |code|
      invariant image[..] == Store(old(image[..]), at, code[..i])
    {
      image[at + i] := code[i];
      i := i + 1;
    }
    assert code[..|code|] == code;
  }
}
