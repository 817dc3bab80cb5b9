/** The Internet checksum as the code computes it, and the checksum that RFC 1071 defines. */
module Checksum {
  import opened Bytes

  /** The byte order of the host that runs the code. */
  datatype Order = Little | Big

  type uint16 = x: int | 0 <= x < 0x1_0000

  /** The 16-bit word a host reads from two bytes. */
  function Word(order: Order, first: byte, second: byte): (w: uint16) {
    if order == Little then first + 256 * second else 256 * first + second
  }

  /** The two bytes a host writes for a 16-bit word. */
  function Stored(order: Order, w: uint16): (r: bytes)
    ensures |r| == 2 && Word(order, r[0], r[1]) == w
  {
    if order == Little then [w % 256, w / 256] else [w / 256, w % 256]
  }

  /** The sum of all words without any overflow; an odd last byte counts as it is. */
  function Total(order: Order, b: bytes): nat {
    if |b| == 0 then 0
    else if |b| == 1 then b[0]
    else Word(order, b[0], b[1]) + Total(order, b[2..])
  }

  /** The one's complement value of a sum: its residue, where only the empty sum stays zero. */
  function OnesSum(s: nat): (r: nat)
    ensures r <= 0xFFFF
  {
    if s == 0 then 0 else 1 + (s - 1) % 0xFFFF
  }

  /** Adds the carries back in. */
  function FoldOnce(s: nat): nat { s % 0x1_0000 + s / 0x1_0000 }

  /** Two rounds are enough for every 32-bit sum. */
  lemma TwoRoundsAreEnough(s: nat)
    requires s < 0x1_0000_0000
    ensures FoldOnce(FoldOnce(s)) < 0x1_0000
  {
    assert FoldOnce(s) <= 131070;
  }

  lemma FoldKeepsSum(s: nat)
    requires s >= 0x1_0000
    ensures OnesSum(FoldOnce(s)) == OnesSum(s) && 0 < FoldOnce(s) < s
  {
    var q := s / 0x1_0000;
    assert FoldOnce(s) == s - 0xFFFF * q;
    ModShift(s - 1, -q);
  }

  lemma ModShift(a: int, k: int)
    ensures (a + 0xFFFF * k) % 0xFFFF == a % 0xFFFF
  {
  }

  /** The folding loop. */
  method FoldCarries(total: nat) returns (sum: uint16, ghost rounds: nat)
    requires total < 0x1_0000_0000
    ensures sum == OnesSum(total) && rounds <= 2
  {
    var s := total;
    rounds := 0;
    TwoRoundsAreEnough(total);
    while s / 0x1_0000 != 0
      invariant OnesSum(s) == OnesSum(total) && rounds <= 2
      invariant s == if rounds == 0 then total else if rounds == 1 then FoldOnce(total) else FoldOnce(FoldOnce(total))
      decreases s
    {
      FoldKeepsSum(s);
      s := s % 0x1_0000 + s / 0x1_0000;
      rounds := rounds + 1;
    }
    sum := s;
  }

  /** The value that the code computes. */
  function Sum16(order: Order, b: bytes): uint16 {
    0xFFFF - OnesSum(Total(order, b) % 0x1_0000_0000)
  }

  lemma TotalStep(order: Order, b: bytes, i: nat)
    requires i + 2 <= |b|
    ensures Total(order, b[i..]) == Word(order, b[i], b[i + 1]) + Total(order, b[i + 2..])
  {
    hide Word;
    assert b[i..][2..] == b[i + 2..];
  }

  lemma TotalEnd(order: Order, b: bytes, i: nat)
    requires i <= |b| <= i + 1
    ensures Total(order, b[i..]) == if i < |b| then b[i] else 0
  {
  }

  /** The checksum of the first `size` bytes, accumulated in 32 bits that may wrap around. */
  method ComputeChecksum(order: Order, buf: bytes, size: nat) returns (r: uint16)
    requires 1 <= size <= |buf| && size < 0x1_0000_0000
    ensures r == Sum16(order, buf[..size])
  {
    hide Word, Total, OnesSum;
    var sum: nat, i: nat := 0, 0;
    ghost var b, added: nat := buf[..size], 0;
    while i < size - 1
      invariant i <= size && i % 2 == 0
      invariant sum == added % 0x1_0000_0000 && added + Total(order, b[i..]) == Total(order, b)
    {
      var word16 := Word(order, buf[i], buf[i + 1]);
      TotalStep(order, b, i);
      WrapTwice(added, word16);
      sum := (sum + word16) % 0x1_0000_0000;
      added := added + word16;
      i := i + 2;
    }
    TotalEnd(order, b, i);
    if size % 2 == 1 {
      var word16 := buf[i];
      WrapTwice(added, word16);
      sum := (sum + word16) % 0x1_0000_0000;
      added := added + word16;
    }
    assert added == Total(order, b);
    var folded, rounds := FoldCarries(sum);
    r := 0xFFFF - folded;
  }

  lemma WrapTwice(a: nat, c: nat)
    ensures (a % 0x1_0000_0000 + c) % 0x1_0000_0000 == (a + c) % 0x1_0000_0000
  {
  }

  // ----- The checksum of RFC 1071 -----

  /** One's complement addition: the carry goes around the end (section 1 of RFC 1071). */
  function EndAround(a: uint16, b: uint16): uint16 {
    if a + b > 0xFFFF then a + b - 0xFFFF else a + b
  }

  /** The one's complement sum of the words in network order, an odd last byte padded with a zero byte. */
  function ReferenceSum(b: bytes): uint16 {
    if |b| == 0 then 0
    else if |b| == 1 then 256 * b[0]
    else EndAround(Word(Big, b[0], b[1]), ReferenceSum(b[2..]))
  }

  function Reference(b: bytes): uint16 { 0xFFFF - ReferenceSum(b) }

  /** The same sum without end-around carry. */
  function Network(b: bytes): nat {
    if |b| == 0 then 0
    else if |b| == 1 then 256 * b[0]
    else Word(Big, b[0], b[1]) + Network(b[2..])
  }

  lemma Unique(t: nat, u: nat, m: int)
    requires 1 <= u <= 0xFFFF && t > 0 && t == u + 0xFFFF * m
    ensures OnesSum(t) == u
  {
    ModShift(u - 1, m);
  }

  lemma Represented(t: nat) returns (m: int)
    requires t > 0
    ensures 1 <= OnesSum(t) && t == OnesSum(t) + 0xFFFF * m
  {
    m := (t - 1) / 0xFFFF;
  }

  lemma EndAroundIsOnesSum(x: nat, y: nat)
    ensures EndAround(OnesSum(x), OnesSum(y)) == OnesSum(x + y)
  {
    if x > 0 && y > 0 {
      var m := Represented(x);
      var n := Represented(y);
      var a, b := OnesSum(x), OnesSum(y);
      hide OnesSum;
      Unique(x + y, EndAround(a, b), m + n + if a + b > 0xFFFF then 1 else 0);
    }
  }

  lemma WordIsOnesSum(w: uint16)
    ensures OnesSum(w) == w
  {
  }

  lemma {:induction false} ReferenceIsOnesSum(b: bytes)
    ensures ReferenceSum(b) == OnesSum(Network(b))
  {
    hide OnesSum, Word, EndAround;
    if |b| <= 1 {
      WordIsOnesSum(ReferenceSum(b));
    } else {
      var w := Word(Big, b[0], b[1]);
      ReferenceIsOnesSum(b[2..]);
      WordIsOnesSum(w);
      EndAroundIsOnesSum(w, Network(b[2..]));
    }
  }

  // ----- Byte order does not matter -----

  function Swap(w: uint16): uint16 { 256 * (w % 256) + w / 256 }

  /** The sum of the bytes at even places. */
  function Firsts(b: bytes): nat {
    if |b| == 0 then 0
    else if |b| == 1 then b[0]
    else Firsts(b[2..]) + b[0]
  }

  lemma {:induction false} SwappedTotal(b: bytes)
    ensures 256 * Network(b) == Total(Little, b) + 0xFFFF * Firsts(b)
    ensures Network(b) == 0 <==> Total(Little, b) == 0
  {
    if |b| >= 2 { SwappedTotal(b[2..]); }
  }

  lemma SwapIsShift(r: uint16)
    ensures 256 * r == Swap(r) + 0xFFFF * (r / 256)
    ensures r > 0 ==> Swap(r) > 0
  {
  }

  /** A swapped word written in one byte order is the word written in the other. */
  lemma SwapStored(r: uint16, v: uint16, w: uint16)
    requires v == 0xFFFF - r && w == 0xFFFF - Swap(r)
    ensures Stored(Big, v) == Stored(Little, w)
  {
    var low, high := r % 256, r / 256;
    assert r == 256 * high + low;
    Split(255 - low, 255 - high);
    Split(255 - high, 255 - low);
  }

  lemma Split(high: nat, low: nat)
    requires low < 256
    ensures (256 * high + low) % 256 == low && (256 * high + low) / 256 == high
  {
  }

  lemma SwapOnes(n: nat, t: nat, h: int)
    requires 256 * n == t + 0xFFFF * h && (n == 0 <==> t == 0)
    ensures OnesSum(t) == Swap(OnesSum(n))
  {
    if n > 0 {
      var m := Represented(n);
      var r := OnesSum(n);
      SwapIsShift(r);
      hide OnesSum, Swap;
      Unique(t, Swap(r), r / 256 + 256 * m - h);
    }
  }

  /** Sums that lost a carry out of the 32 bits fold to something else. */
  lemma LostCarry(t: nat)
    requires t < 0x8000 * 0x1_0000_0000
    ensures OnesSum(t % 0x1_0000_0000) == OnesSum(t) <==> t < 0x1_0000_0000
  {
    var q, w := t / 0x1_0000_0000, t % 0x1_0000_0000;
    assert t == w + 0x1_0000_0000 * q;
    if q > 0 && w > 0 {
      var m := Represented(w);
      var n := Represented(t);
      NotMultiple(q, n - m - 0x1_0001 * q);
    }
  }

  lemma NotMultiple(q: nat, z: int)
    requires 0 < q < 0xFFFF
    ensures q != 0xFFFF * z
  {
  }

  lemma {:induction false} TotalBound(order: Order, b: bytes)
    ensures 2 * Total(order, b) <= 0xFFFF * |b|
  {
    if |b| >= 2 { TotalBound(order, b[2..]); }
  }

  /**
   * On a little-endian host the two bytes put into memory are those that the network-order algorithm puts there,
   * for every even or odd length, exactly when the 32-bit accumulator does not overflow (section 2(B) of RFC 1071).
   */
  lemma StoredInNetworkOrder(b: bytes)
    requires |b| < 0x1_0000_0000
    ensures Stored(Little, Sum16(Little, b)) == Stored(Big, Reference(b)) <==> Total(Little, b) < 0x1_0000_0000
  {
    hide *;
    var w: uint16 := 0xFFFF - Swap(ReferenceSum(b));
    assert Stored(Big, Reference(b)) == Stored(Little, w) by {
      SwappedOnes(b);
      SwapStored(ReferenceSum(b), Reference(b), w);
    }
    assert w == 0xFFFF - OnesSum(Total(Little, b)) by { SwappedOnes(b); }
    FoldedRight(Little, b);
    StoredRight(Sum16(Little, b), w, Stored(Big, Reference(b)), Total(Little, b) < 0x1_0000_0000);
  }

  lemma StoredRight(v: uint16, w: uint16, x: bytes, right: bool)
    requires x == Stored(Little, w) && (v == w <==> right)
    ensures Stored(Little, v) == x <==> right
  {
    hide Stored;
    StoredOnce(Little, v, w);
  }

  /** The 32-bit accumulator gives the one's complement sum exactly when it does not overflow. */
  lemma FoldedRight(order: Order, b: bytes)
    requires |b| < 0x1_0000_0000
    ensures Sum16(order, b) == 0xFFFF - OnesSum(Total(order, b)) <==> Total(order, b) < 0x1_0000_0000
  {
    hide OnesSum, Total;
    TotalBound(order, b);
    LostCarry(Total(order, b));
  }

  lemma SwappedOnes(b: bytes)
    ensures OnesSum(Total(Little, b)) == Swap(ReferenceSum(b)) && Reference(b) == 0xFFFF - ReferenceSum(b)
  {
    hide OnesSum, Swap, Total, Network, Firsts, ReferenceSum;
    ReferenceIsOnesSum(b);
    SwappedTotal(b);
    SwapOnes(Network(b), Total(Little, b), Firsts(b));
  }

  lemma StoredOnce(order: Order, v: uint16, w: uint16)
    ensures Stored(order, v) == Stored(order, w) <==> v == w
  {
    if Stored(order, v) == Stored(order, w) {
      assert v == Word(order, Stored(order, v)[0], Stored(order, v)[1]);
    }
  }

  /** The accumulator cannot overflow for up to 131074 bytes, and for no other length is that so. */
  lemma NoOverflowBound(order: Order, size: nat)
    ensures (forall b: bytes | |b| == size :: Total(order, b) < 0x1_0000_0000) <==> size <= 131074
  {
    forall b: bytes | |b| == size && size <= 131074 ensures Total(order, b) < 0x1_0000_0000 {
      TotalBound(order, b);
    }
    if size > 131074 {
      AllOnes(order, size);
      assert |Ones(size)| == size;
    }
  }

  function Ones(size: nat): (b: bytes)
    ensures |b| == size
  {
    seq(size, _ => 255)
  }

  lemma {:induction false} AllOnes(order: Order, size: nat)
    ensures Total(order, Ones(size)) == 0xFFFF * (size / 2) + if size % 2 == 1 then 255 else 0
  {
    if size >= 2 {
      assert Ones(size)[2..] == Ones(size - 2);
      AllOnes(order, size - 2);
    }
  }

  /**
   * On a big-endian host an odd last byte lands in the wrong half of its word: short of overflow, the bytes put into
   * memory are the right ones exactly for even lengths and for a zero last byte.
   */
  lemma StoredOnBigEndianHost(b: bytes)
    requires Total(Big, b) < 0x1_0000_0000
    ensures Stored(Big, Sum16(Big, b)) == Stored(Big, Reference(b)) <==> |b| % 2 == 0 || b[|b| - 1] == 0
  {
    hide Stored, OnesSum, Network, Total;
    ReferenceIsOnesSum(b);
    PaddedTail(b);
    StoredOnce(Big, Sum16(Big, b), Reference(b));
    if |b| % 2 == 1 {
      TailDiffers(Total(Big, b), b[|b| - 1]);
    }
  }

  lemma {:induction false} PaddedTail(b: bytes)
    ensures Network(b) == Total(Big, b) + if |b| % 2 == 1 then 255 * (b[|b| - 1] as nat) else 0
    ensures |b| % 2 == 1 ==> Total(Big, b) >= b[|b| - 1]
  {
    hide Word;
    if |b| >= 2 { PaddedTail(b[2..]); }
  }

  lemma TailDiffers(t: nat, last: byte)
    requires t >= last
    ensures OnesSum(t + 255 * last) == OnesSum(t) <==> last == 0
  {
    if last > 0 {
      var m := Represented(t);
      var n := Represented(t + 255 * last);
      NotMultiple(255 * last, n - m);
    }
  }

  // ----- Storing the checksum makes the buffer verify -----

  /** The buffer with a 16-bit word stored at index `k`. */
  function Store(order: Order, b: bytes, k: nat, w: uint16): (r: bytes)
    requires k + 2 <= |b|
    ensures |r| == |b|
  {
    b[..k] + Stored(order, w) + b[k + 2..]
  }

  lemma {:induction false} StoreAdds(order: Order, b: bytes, k: nat, w: uint16)
    requires k % 2 == 0 && k + 2 <= |b| && b[k] == 0 && b[k + 1] == 0
    ensures Total(order, Store(order, b, k, w)) == Total(order, b) + w
  {
    hide Stored;
    var r := Store(order, b, k, w);
    if k == 0 {
      assert r[2..] == b[2..];
      assert r[0] == Stored(order, w)[0] && r[1] == Stored(order, w)[1];
    } else {
      assert r[0] == b[0] && r[1] == b[1];
      assert r[2..] == Store(order, b[2..], k - 2, w);
      StoreAdds(order, b[2..], k - 2, w);
    }
  }

  /** The complement of a 32-bit sum brings it to all ones, and never past the 32 bits. */
  lemma Complement(t: nat)
    requires t < 0x1_0000_0000
    ensures t + 0xFFFF - OnesSum(t) < 0x1_0000_0000
    ensures OnesSum(t + 0xFFFF - OnesSum(t)) == 0xFFFF
  {
    if t > 0 {
      var m := Represented(t);
      var u := t + 0xFFFF - OnesSum(t);
      assert u == 0xFFFF * (m + 1);
      assert m + 1 <= 0x1_0001;
      Unique(u, 0xFFFF, m);
    }
  }

  /**
   * Storing the checksum into an aligned zeroed field makes the checksum of the whole buffer zero, whatever its
   * length, even if the accumulator overflows.
   */
  lemma StoredChecksumVerifies(order: Order, b: bytes, k: nat)
    requires k % 2 == 0 && k + 2 <= |b| && b[k] == 0 && b[k + 1] == 0
    ensures Sum16(order, Store(order, b, k, Sum16(order, b))) == 0
  {
    hide OnesSum, Total, Store, Stored;
    var t, c := Total(order, b), Sum16(order, b);
    StoreAdds(order, b, k, c);
    Complement(t % 0x1_0000_0000);
    WrapTwice(t, c);
  }

  /** Short of overflow the stored word is the only one that verifies, but for the second zero of one's complement. */
  lemma OnlyTheChecksumVerifies(order: Order, b: bytes, k: nat, w: uint16)
    requires k % 2 == 0 && k + 2 <= |b| && b[k] == 0 && b[k + 1] == 0
    requires Total(order, b) + 0xFFFF < 0x1_0000_0000
    ensures Sum16(order, Store(order, b, k, w)) == 0 <==>
              w == Sum16(order, b) || (Sum16(order, b) == 0 && w == 0xFFFF)
  {
    hide Total, Store, Stored, OnesSum;
    var t := Total(order, b);
    StoreAdds(order, b, k, w);
    AllOnesWhen(t, w);
  }

  lemma AllOnesWhen(t: nat, w: uint16)
    ensures OnesSum(t + w) == 0xFFFF <==> w == 0xFFFF - OnesSum(t) || (OnesSum(t) == 0xFFFF && w == 0xFFFF)
  {
    if t > 0 {
      var m := Represented(t);
      var n := Represented(t + w);
      var r := OnesSum(t);
      hide OnesSum;
      if w == 0xFFFF - r { Unique(t + w, 0xFFFF, m); }
      else if w < 0xFFFF - r { Unique(t + w, r + w, m); }
      else { Unique(t + w, r + w - 0xFFFF, m + 1); }
    } else {
      WordIsOnesSum(w);
    }
  }
}
