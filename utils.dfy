/**
 * Helpers of utils.go: the little-endian 4-byte encoding of an integer and
 * the conversion of a certificate between DER bytes and PEM text
 * (sections 2 and 5.1 of RFC 7468).
 */
module Utils {
  import opened AuctionTypes
  import Base64

  /** Go's `int` on the 64-bit platforms the chaincode runs on. */
  newtype int64 = x: int | -0x8000_0000_0000_0000 <= x < 0x8000_0000_0000_0000

  const TwoTo32: nat := 0x1_0000_0000

  /** The unsigned value of bytes read least significant first. */
  function LittleEndianValue(b: seq<uint8>): (n: nat)
    decreases |b|
  {
    if |b| == 0 then 0 else b[0] as nat + 0x100 * LittleEndianValue(b[1..])
  }

  /**
   * The four bytes of `val`, least significant first. Go shifts the signed
   * value arithmetically, which is floor division by a power of two, and
   * `byte(...)` keeps the low eight bits; for a positive divisor Dafny's `/`
   * is floor division and `%` is never negative, so negative values come
   * out in two's complement as in Go.
   */
  function IntToByteArray(val: int64): (arr: seq<uint8>)
    ensures |arr| == 4
    ensures arr[0] as int == val as int % 0x100
    ensures arr[1] as int == (val as int / 0x100) % 0x100
    ensures arr[2] as int == (val as int / 0x1_0000) % 0x100
    ensures arr[3] as int == (val as int / 0x100_0000) % 0x100
    ensures LittleEndianValue(arr) == val as int % TwoTo32
  {
    var v := val as int;
    var arr := [(v % 0x100) as uint8, (v / 0x100 % 0x100) as uint8,
                (v / 0x1_0000 % 0x100) as uint8, (v / 0x100_0000 % 0x100) as uint8];
    assert LittleEndianValue(arr) == v % TwoTo32 by {
      var t1 := arr[1..];
      var t2 := t1[1..];
      var t3 := t2[1..];
      assert t3[1..] == [];
      assert LittleEndianValue(t3) == arr[3] as nat;
      assert LittleEndianValue(t2) == arr[2] as nat + 0x100 * arr[3] as nat;
      assert LittleEndianValue(t1) == arr[1] as nat + 0x100 * LittleEndianValue(t2);
      var a := v / 0x100;
      var b := a / 0x100;
      var c := b / 0x100;
      assert b == v / 0x1_0000 && c == v / 0x100_0000;
      assert v == 0x100_0000 * c + 0x1_0000 * (b % 0x100) + 0x100 * (a % 0x100) + v % 0x100;
      assert v % TwoTo32 == 0x100_0000 * (c % 0x100) + 0x1_0000 * (b % 0x100) + 0x100 * (a % 0x100) + v % 0x100;
    }
    arr
  }

  /** The encapsulation boundaries of a PEM certificate (sections 2 and 5.1 of RFC 7468). */
  const PemHeader: string := "-----BEGIN CERTIFICATE-----\n"
  const PemFooter: string := "-----END CERTIFICATE-----\n"

  /** True when `pem` is framed by the certificate boundaries. */
  predicate HasPemFrame(pem: string)
  {
    |pem| >= |PemHeader| + |PemFooter| &&
    pem[..|PemHeader|] == PemHeader && pem[|pem| - |PemFooter|..] == PemFooter
  }

  /**
   * The PEM text of a DER certificate: the header, the base64 of the bytes
   * in lines of 64 characters, and the footer. Go's encoder can fail only
   * for headers containing a colon; the block here has none, so the model
   * returns the text itself rather than an optional one.
   */
  function CertDerToPem(der: Bytes): (pem: string)
    ensures HasPemFrame(pem)
  {
    var pem := PemHeader + Base64.Wrap(Base64.Encode(der)) + PemFooter;
    assert pem[..|PemHeader|] == PemHeader;
    assert pem[|pem| - |PemFooter|..] == PemFooter;
    pem
  }

  /**
   * The DER bytes of a PEM certificate, or None (Go's nil) when `pem` does
   * not hold a certificate block whose body decodes.
   */
  function CertPemToDer(pem: string): (der: Option<Bytes>)
    ensures !HasPemFrame(pem) ==> der == None
  {
    if !HasPemFrame(pem) then None
    else Base64.Decode(Base64.Unwrap(pem[|PemHeader|..|pem| - |PemFooter|]))
  }

  /** Converting a certificate to PEM and back gives the original bytes. */
  lemma PemRoundTrip(der: Bytes)
    ensures CertPemToDer(CertDerToPem(der)) == Some(der)
  {
    var body := Base64.Encode(der);
    var pem := CertDerToPem(der);
    assert pem[|PemHeader|..|pem| - |PemFooter|] == Base64.Wrap(body);
    Base64.UnwrapWrap(body);
    Base64.DecodeEncode(der);
  }

  /** Distinct certificates have distinct PEM texts, so PEM text can key buyers. */
  lemma CertDerToPemInjective(a: Bytes, b: Bytes)
    ensures CertDerToPem(a) == CertDerToPem(b) <==> a == b
  {
    PemRoundTrip(a);
    PemRoundTrip(b);
  }
}
