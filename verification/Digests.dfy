/** What digests are fed: a tag and then each part behind its length, as an
    unsigned 64-bit number in big-endian order. */
module Digests {
  import opened Bytes

  // ----- Lengths

  function BigEndian(n: nat, width: nat): (s: Bytes)
    ensures |s| == width
  {
    if width == 0 then [] else BigEndian(n / 256, width - 1) + [(n % 256) as byte]
  }

  function Pow256(width: nat): nat {
    if width == 0 then 1 else 256 * Pow256(width - 1)
  }

  lemma {:induction false} BigEndianInjective(m: nat, n: nat, width: nat)
    requires m < Pow256(width) && n < Pow256(width) && BigEndian(m, width) == BigEndian(n, width)
    ensures m == n
  {
    if width > 0 {
      var a, b := BigEndian(m, width), BigEndian(n, width);
      assert a[..width - 1] == BigEndian(m / 256, width - 1) && b[..width - 1] == BigEndian(n / 256, width - 1);
      assert a[width - 1] == (m % 256) as byte && b[width - 1] == (n % 256) as byte;
      BigEndianInjective(m / 256, n / 256, width - 1);
    }
  }

  /** Bytes of a string the server can hold. */
  predicate Fits(s: Bytes) {
    |s| < 0x1_0000_0000_0000_0000
  }

  lemma FitsIsPow(s: Bytes)
    ensures Fits(s) <==> |s| < Pow256(8)
  {
    assert Pow256(4) == 0x1_0000_0000;
    assert Pow256(8) == 256 * (256 * (256 * (256 * Pow256(4))));
  }

  // ----- Parts

  function Part(part: Bytes): Bytes {
    BigEndian(|part|, 8) + part
  }

  function Parts(parts: seq<Bytes>): Bytes {
    if parts == [] then [] else Part(parts[0]) + Parts(parts[1..])
  }

  predicate AllFit(parts: seq<Bytes>) {
    forall i | 0 <= i < |parts| :: Fits(parts[i])
  }

  lemma PartInjective(a: Bytes, b: Bytes, restA: Bytes, restB: Bytes)
    requires Fits(a) && Fits(b) && Part(a) + restA == Part(b) + restB
    ensures a == b && restA == restB
  {
    var whole := Part(a) + restA;
    assert whole[..8] == BigEndian(|a|, 8) && whole[..8] == BigEndian(|b|, 8);
    FitsIsPow(a);
    FitsIsPow(b);
    hide BigEndian, Fits, Pow256;
    BigEndianInjective(|a|, |b|, 8);
    assert whole[8..][..|a|] == a && whole[8..][..|b|] == b;
    assert whole[8..][|a|..] == restA && whole[8..][|b|..] == restB;
  }

  /** No two lists of parts are fed as the same bytes, whatever their lengths. */
  lemma {:induction false} PartsInjective(a: seq<Bytes>, b: seq<Bytes>)
    requires AllFit(a) && AllFit(b) && Parts(a) == Parts(b)
    ensures a == b
  {
    hide BigEndian, Fits;
    if a != [] && b != [] {
      PartInjective(a[0], b[0], Parts(a[1..]), Parts(b[1..]));
      PartsInjective(a[1..], b[1..]);
      WithoutFirst(a);
      WithoutFirst(b);
    }
  }

  method FeedParts(tag: Bytes, parts: seq<Bytes>) returns (fed: Bytes)
    ensures fed == tag + Parts(parts)
  {
    fed := tag;
    for i := 0 to |parts|
      invariant tag + Parts(parts) == fed + Parts(parts[i..])
    {
      WithoutFirst(parts[i..]);
      fed := fed + BigEndian(|parts[i]|, 8);
      fed := fed + parts[i];
    }
  }
}
