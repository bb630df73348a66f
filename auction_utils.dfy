/**
 * Helpers of auction-utils.go: the world-state key of an auction and the
 * commitment that hides a bid (SHAKE256 of FIPS 202 over the bidder's
 * certificate, the price and a salt).
 */
module AuctionUtils {
  import opened AuctionTypes

  const KeyPrefix: string := "auction "

  /** The world-state key under which the auction called `name` is stored. */
  function AuctionKey(name: string): (key: string)
    ensures |key| == |KeyPrefix| + |name|
    ensures key[..|KeyPrefix|] == KeyPrefix && key[|KeyPrefix|..] == name
  {
    KeyPrefix + name
  }

  /** Distinct auction names are stored under distinct keys. */
  lemma AuctionKeyInjective(a: string, b: string)
    ensures AuctionKey(a) == AuctionKey(b) <==> a == b
  {
    if AuctionKey(a) == AuctionKey(b) {
      assert a == AuctionKey(a)[|KeyPrefix|..];
    }
  }

  /** 256 to the power `n`. */
  function Pow256(n: nat): (p: nat)
    ensures p >= 1
  {
    if n == 0 then 1 else 0x100 * Pow256(n - 1)
  }

  /** The lowest `n` bytes of `v`, most significant first. */
  function ToBigEndian(v: nat, n: nat): (b: Bytes)
    ensures |b| == n
  {
    if n == 0 then [] else ToBigEndian(v / 0x100, n - 1) + [(v % 0x100) as uint8]
  }

  /** The unsigned value of bytes read most significant first. */
  function FromBigEndian(b: Bytes): (v: nat)
    ensures v < Pow256(|b|)
  {
    if |b| == 0 then 0 else FromBigEndian(b[..|b| - 1]) * 0x100 + b[|b| - 1] as nat
  }

  lemma {:induction false} FromToBigEndian(v: nat, n: nat)
    requires v < Pow256(n)
    ensures FromBigEndian(ToBigEndian(v, n)) == v
  {
    if n > 0 {
      var b := ToBigEndian(v, n);
      FromToBigEndian(v / 0x100, n - 1);
      assert b[..|b| - 1] == ToBigEndian(v / 0x100, n - 1);
    }
  }

  /** `binary.BigEndian.PutUint64`: the eight bytes of `v`, most significant first. */
  function BigEndian64(v: uint64): (b: Bytes)
    ensures |b| == 8
  {
    ToBigEndian(v as nat, 8)
  }

  /** `binary.BigEndian.Uint64` gives back the encoded price. */
  lemma BigEndian64RoundTrip(v: uint64)
    ensures FromBigEndian(BigEndian64(v)) == v as nat
  {
    assert Pow256(8) == 0x1_0000_0000_0000_0000;
    FromToBigEndian(v as nat, 8);
  }

  /**
   * The extendable-output function SHAKE256, left abstract: `xof(m, n)` is
   * the first `n` bytes squeezed after absorbing `m`.
   */
  type Xof = f: (Bytes, nat) -> Bytes | forall m, n :: |f(m, n)| == n
    witness (m: Bytes, n: nat) => seq(n, _ => 0 as uint8)

  /** The bytes absorbed for a commitment: certificate, big-endian price, salt. */
  function HashInput(cert: Bytes, bidPrice: uint64, salt: Bytes): (m: Bytes)
    ensures |m| == |cert| + 8 + |salt|
    ensures m[..|cert|] == cert && m[|cert| + 8..] == salt
    ensures m[|cert|..|cert| + 8] == BigEndian64(bidPrice)
  {
    cert + BigEndian64(bidPrice) + salt
  }

  /** For a fixed certificate and salt, distinct prices are absorbed as distinct inputs. */
  lemma HashInputInjective(cert: Bytes, salt: Bytes, p: uint64, q: uint64)
    ensures HashInput(cert, p, salt) == HashInput(cert, q, salt) <==> p == q
  {
    if HashInput(cert, p, salt) == HashInput(cert, q, salt) {
      BigEndian64RoundTrip(p);
      BigEndian64RoundTrip(q);
    }
  }

  /** The concatenation of `parts`, in order. */
  function Concat(parts: seq<Bytes>): (m: Bytes)
  {
    if |parts| == 0 then [] else Concat(parts[..|parts| - 1]) + parts[|parts| - 1]
  }

  /** The commitment to (`cert`, `bidPrice`, `salt`) as a value. */
  function Commitment(xof: Xof, cert: Bytes, bidPrice: uint64, salt: Bytes): (h: Bytes)
    ensures |h| == CommitLength
  {
    xof(HashInput(cert, bidPrice, salt), CommitLength)
  }

  /**
   * hashBid: writes the certificate, the eight price bytes and the salt
   * into a fresh SHAKE256 state, then reads 64 bytes. Writing several
   * slices into the state absorbs their concatenation.
   */
  method HashBid(xof: Xof, cert: Bytes, bidPrice: uint64, salt: Bytes) returns (hash: Bytes)
    ensures |hash| == CommitLength
    ensures hash == Commitment(xof, cert, bidPrice, salt)
  {
    var bidPriceBytes := BigEndian64(bidPrice);
    var parts := [cert, bidPriceBytes, salt];
    var absorbed: Bytes := [];
    for i := 0 to |parts|
      invariant absorbed == Concat(parts[..i])
    {
      assert parts[..i + 1][..i] == parts[..i];
      absorbed := absorbed + parts[i];
    }
    assert parts[..3] == parts;
    assert Concat(parts) == HashInput(cert, bidPrice, salt) by {
      assert parts[..2][..1] == [cert];
      assert Concat([cert]) == cert by { assert [cert][..0] == []; }
    }
    hash := xof(absorbed, CommitLength);
  }
}
