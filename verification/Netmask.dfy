/** Dotted netmasks as prefix lengths (section 3.1 of RFC 4632): the shell's shifting loop
    (Linux/scripts/nm-set_ip.sh) and Python's bit count (Linux/scripts/netplan-cfg.py). */
module Netmask {

  type Octet = d: int | 0 <= d < 256

  function Pow2(n: nat): nat {
    if n == 0 then 1 else 2 * Pow2(n - 1)
  }

  /** The number a list of bits stands for, the most significant bit first. */
  function Val(bs: seq<bool>): nat {
    if bs == [] then 0 else (if bs[0] then Pow2(|bs| - 1) else 0) + Val(bs[1..])
  }

  /** The `k` bits of a number, the most significant bit first. */
  function Bits(d: nat, k: nat): (bs: seq<bool>)
    ensures |bs| == k
  {
    if k == 0 then [] else Bits(d / 2, k - 1) + [d % 2 == 1]
  }

  function Ones(bs: seq<bool>): nat {
    if bs == [] then 0 else (if bs[0] then 1 else 0) + Ones(bs[1..])
  }

  predicate AllOnes(bs: seq<bool>) {
    bs == [] || (bs[0] && AllOnes(bs[1..]))
  }

  predicate AllZeros(bs: seq<bool>) {
    bs == [] || (!bs[0] && AllZeros(bs[1..]))
  }

  /** Ones followed by zeros. */
  predicate IsPrefixMask(bs: seq<bool>) {
    bs == [] || (if bs[0] then IsPrefixMask(bs[1..]) else AllZeros(bs))
  }

  lemma {:induction false} AllZerosMeans(bs: seq<bool>)
    ensures AllZeros(bs) <==> forall i :: 0 <= i < |bs| ==> !bs[i]
  {
    if bs != [] {
      AllZerosMeans(bs[1..]);
      assert forall i :: 0 < i < |bs| ==> bs[i] == bs[1..][i - 1];
    }
  }

  /** In other words, no zero comes before a one. */
  lemma {:induction false} PrefixMaskMeans(bs: seq<bool>)
    ensures IsPrefixMask(bs) <==> forall i, j :: 0 <= i < j < |bs| && bs[j] ==> bs[i]
  {
    if bs != [] {
      var rest := bs[1..];
      PrefixMaskMeans(rest);
      AllZerosMeans(bs);
      assert forall i :: 0 < i < |bs| ==> bs[i] == rest[i - 1];
      assert forall i :: 0 <= i < |rest| ==> rest[i] == bs[i + 1];
    }
  }

  /** The bits of all octets one after the other. */
  function MaskBits(octets: seq<Octet>): seq<bool> {
    if octets == [] then [] else Bits(octets[0], 8) + MaskBits(octets[1..])
  }

  // ---- Python -------------------------------------------------------------

  /** `bin(x).count('1')` */
  function PopCount(d: nat): nat {
    if d == 0 then 0 else d % 2 + PopCount(d / 2)
  }

  /** `netmask_to_cidr` */
  function NetmaskToCidr(octets: seq<Octet>): int {
    if octets == [] then 0 else PopCount(octets[0]) + NetmaskToCidr(octets[1..])
  }

  lemma {:induction false} OnesAppend(a: seq<bool>, b: seq<bool>)
    ensures Ones(a + b) == Ones(a) + Ones(b)
  {
    if a == [] {
      assert a + b == b;
    } else {
      OnesAppend(a[1..], b);
      assert (a + b)[1..] == a[1..] + b;
    }
  }

  lemma {:induction false} PopCountBits(d: nat, k: nat)
    requires d < Pow2(k)
    ensures PopCount(d) == Ones(Bits(d, k))
  {
    if k > 0 {
      PopCountBits(d / 2, k - 1);
      OnesAppend(Bits(d / 2, k - 1), [d % 2 == 1]);
      assert [d % 2 == 1][1..] == [];
    }
  }

  lemma Pow2Eight()
    ensures Pow2(8) == 256 && Pow2(7) == 128
  {
    assert Pow2(4) == 16;
  }

  /** Python counts the ones of the mask, for octet lists of any length. */
  lemma {:induction false} NetmaskToCidrOnes(octets: seq<Octet>)
    ensures NetmaskToCidr(octets) == Ones(MaskBits(octets))
  {
    if octets != [] {
      Pow2Eight();
      PopCountBits(octets[0], 8);
      OnesAppend(Bits(octets[0], 8), MaskBits(octets[1..]));
      NetmaskToCidrOnes(octets[1..]);
    }
  }

  // ---- one section in the shell -------------------------------------------

  lemma {:induction false} ValBound(bs: seq<bool>)
    ensures Val(bs) < Pow2(|bs|)
    ensures Val(bs) == 0 <==> AllZeros(bs)
  {
    if bs != [] {
      ValBound(bs[1..]);
      assert Pow2(|bs| - 1) > 0;
    }
  }

  lemma {:induction false} ValAppend(bs: seq<bool>, b: bool)
    ensures Val(bs + [b]) == 2 * Val(bs) + if b then 1 else 0
  {
    if bs == [] {
      assert bs + [b] == [b] && [b][1..] == [];
    } else {
      ValAppend(bs[1..], b);
      assert (bs + [b])[1..] == bs[1..] + [b];
    }
  }

  lemma {:induction false} ValOfBits(d: nat, k: nat)
    requires d < Pow2(k)
    ensures Val(Bits(d, k)) == d
  {
    if k > 0 {
      ValOfBits(d / 2, k - 1);
      ValAppend(Bits(d / 2, k - 1), d % 2 == 1);
    }
  }

  lemma Scaled(scale: nat, p: nat, v: nat)
    requires scale * (2 * p) == 256 && v < p
    ensures scale * p == 128 && scale * v < 128
    ensures scale * (p + v) == 128 + scale * v
    ensures (2 * scale) * p == 256 && (2 * scale) * v == 2 * (scale * v)
  {
    assert scale * (2 * p) == 2 * (scale * p);
    assert scale * (p + v) == scale * p + scale * v;
    assert scale * p == scale * v + scale * (p - v);
    assert scale * (p - v) >= 1 * scale;
  }

  /** The top bit of a number shifted left into eight bits. */
  lemma TopBit(bs: seq<bool>, scale: nat)
    requires bs != [] && scale * Pow2(|bs|) == 256
    ensures var v := scale * Val(bs);
      && (v >= 128 <==> bs[0]) && v < 256
      && (bs[0] ==> 2 * v - 256 == (2 * scale) * Val(bs[1..]))
    ensures (2 * scale) * Pow2(|bs| - 1) == 256
  {
    ValBound(bs[1..]);
    Scaled(scale, Pow2(|bs| - 1), Val(bs[1..]));
  }

  /** `mask_section2digit`: the leading ones are shifted out until nothing is left; -1 when a zero
      comes before a one. */
  method MaskSection2Digit(section: Octet) returns (digit: int)
    ensures var bs := Bits(section, 8);
      digit == if IsPrefixMask(bs) then Ones(bs) else -1
  {
    var dec: int := section;
    digit := 0;
    ghost var bs, scale := Bits(section, 8), 1;
    Pow2Eight();
    ValOfBits(section, 8);
    while dec != 0
      invariant digit + |bs| == 8 && scale * Pow2(|bs|) == 256 && dec == scale * Val(bs)
      invariant IsPrefixMask(Bits(section, 8)) <==> IsPrefixMask(bs)
      invariant Ones(Bits(section, 8)) == digit + Ones(bs)
      decreases |bs|
    {
      SomeOne(bs, scale);
      TopBit(bs, scale);
      if dec < 128 {
        return -1;
      }
      dec := dec * 2 % 256;
      digit := digit + 1;
      bs, scale := bs[1..], 2 * scale;
    }
    NoOne(bs, scale);
  }

  /** Something is left to shift out: a one, so the list is a mask only if it starts with one. */
  lemma SomeOne(bs: seq<bool>, scale: nat)
    requires scale * Val(bs) != 0
    ensures bs != [] && (IsPrefixMask(bs) ==> bs[0])
  {
    ValBound(bs);
  }

  lemma NoOne(bs: seq<bool>, scale: nat)
    requires scale * Pow2(|bs|) == 256 && scale * Val(bs) == 0
    ensures IsPrefixMask(bs) && Ones(bs) == 0
  {
    ValBound(bs);
    AllZerosMask(bs);
  }

  lemma {:induction false} AllZerosMask(bs: seq<bool>)
    requires AllZeros(bs)
    ensures IsPrefixMask(bs) && Ones(bs) == 0
  {
    if bs != [] {
      AllZerosMask(bs[1..]);
    }
  }

  // ---- a whole mask in the shell ------------------------------------------

  lemma {:induction false} OnesBound(bs: seq<bool>)
    ensures Ones(bs) <= |bs|
    ensures Ones(bs) == |bs| <==> AllOnes(bs)
    ensures Ones(bs) == 0 <==> AllZeros(bs)
  {
    if bs != [] {
      OnesBound(bs[1..]);
    }
  }

  lemma {:induction false} PrefixMaskAppend(a: seq<bool>, b: seq<bool>)
    ensures IsPrefixMask(a + b) <==> IsPrefixMask(a) && if AllOnes(a) then IsPrefixMask(b) else AllZeros(b)
  {
    if a == [] {
      assert a + b == b;
    } else {
      assert (a + b)[1..] == a[1..] + b;
      PrefixMaskAppend(a[1..], b);
      AllZerosAppend(a, b);
    }
  }

  lemma {:induction false} MaskBitsAppend(a: seq<Octet>, b: seq<Octet>)
    ensures MaskBits(a + b) == MaskBits(a) + MaskBits(b)
  {
    if a == [] {
      assert a + b == b;
    } else {
      MaskBitsAppend(a[1..], b);
      assert (a + b)[1..] == a[1..] + b;
    }
  }

  lemma MaskBitsOne(d: Octet)
    ensures MaskBits([d]) == Bits(d, 8)
  {
    assert [d][1..] == [] && Bits(d, 8) + [] == Bits(d, 8);
  }

  /** A mask of ones followed by zeros begins with one. */
  lemma MaskBitsPrefix(a: seq<Octet>, b: seq<Octet>)
    requires IsPrefixMask(MaskBits(a + b))
    ensures IsPrefixMask(MaskBits(a))
  {
    MaskBitsAppend(a, b);
    PrefixMaskAppend(MaskBits(a), MaskBits(b));
  }

  lemma TakeNext<T>(s: seq<T>, i: nat)
    requires i < |s|
    ensures s[..i + 1] == s[..i] + [s[i]] && s == s[..i + 1] + s[i + 1..]
  {
  }

  lemma MaskBitsNext(octets: seq<Octet>, i: nat)
    requires i < |octets|
    ensures MaskBits(octets[..i + 1]) == MaskBits(octets[..i]) + Bits(octets[i], 8)
    ensures IsPrefixMask(MaskBits(octets)) ==> IsPrefixMask(MaskBits(octets[..i + 1]))
  {
    hide MaskBits, IsPrefixMask;
    TakeNext(octets, i);
    MaskBitsAppend(octets[..i], [octets[i]]);
    MaskBitsOne(octets[i]);
    if IsPrefixMask(MaskBits(octets)) {
      MaskBitsPrefix(octets[..i + 1], octets[i + 1..]);
    }
  }

  /** `mask2cidr`: what it prints and its status. It accepts exactly the masks of ones followed by
      zeros, over octet lists of any length, and prints Python's count; a list of other than four
      octets gets a -1 in front. */
  method Mask2Cidr(octets: seq<Octet>) returns (out: seq<int>, status: int)
    ensures if IsPrefixMask(MaskBits(octets)) then
        status == 0 && out == if |octets| == 4 then [NetmaskToCidr(octets)] else [-1, NetmaskToCidr(octets)]
      else status == 1 && out == [-1]
  {
    var cidr, count, end := 0, 0, 0;
    while count < |octets|
      invariant count <= |octets|
      invariant IsPrefixMask(MaskBits(octets[..count])) && cidr == Ones(MaskBits(octets[..count]))
      invariant end == if AllOnes(MaskBits(octets[..count])) then 0 else 1
    {
      var digit := MaskSection2Digit(octets[count]);
      ghost var sofar, bs := MaskBits(octets[..count]), Bits(octets[count], 8);
      OnesBound(bs);
      MaskBitsNext(octets, count);
      PrefixMaskAppend(sofar, bs);
      OnesAppend(sofar, bs);
      AllOnesAppend(sofar, bs);
      if end != 0 && digit != 0 {
        return [-1], 1;
      } else if digit < 0 {
        return [-1], 1;
      } else if digit != 8 {
        end := 1;
      }
      cidr := cidr + digit;
      count := count + 1;
    }
    assert octets[..count] == octets;
    NetmaskToCidrOnes(octets);
    out, status := if count != 4 then [-1, cidr] else [cidr], 0;
  }

  lemma {:induction false} AllOnesAppend(a: seq<bool>, b: seq<bool>)
    ensures AllOnes(a + b) <==> AllOnes(a) && AllOnes(b)
  {
    if a == [] {
      assert a + b == b;
    } else {
      assert (a + b)[1..] == a[1..] + b;
      AllOnesAppend(a[1..], b);
    }
  }

  lemma {:induction false} AllZerosAppend(a: seq<bool>, b: seq<bool>)
    ensures AllZeros(a + b) <==> AllZeros(a) && AllZeros(b)
  {
    if a == [] {
      assert a + b == b;
    } else {
      assert (a + b)[1..] == a[1..] + b;
      AllZerosAppend(a[1..], b);
    }
  }
}
