/**
 * The decoded form of a DER SEQUENCE as d2i_ASN1_SEQUENCE_ANY hands it over:
 * an ordered list of elements, each a tag with its payload. The DER decoder
 * itself is not modelled; its output is the input of the model.
 */
module Asn1 {
  import opened Base
  import opened Times

  /**
   * One ASN1_TYPE: the constructor is the tag, its fields the payload as the
   * accessor the source uses yields it.
   */
  datatype Element =
    | Integer(value: int)                  // V_ASN1_INTEGER, as ASN1_INTEGER_to_BN converts it
    | BitString(bits: seq<byte>)           // V_ASN1_BIT_STRING, its octets
    | OctetString(octets: seq<byte>)       // V_ASN1_OCTET_STRING
    | Object(nid: int)                     // V_ASN1_OBJECT, as OBJ_obj2nid names it
    | Ia5String(chars: seq<byte>)          // V_ASN1_IA5STRING, its octets with their length
    | GeneralizedTime(time: Option<Tm>)    // V_ASN1_GENERALIZEDTIME; None where ASN1_time_parse rejects it
    | Sequence(body: Decoded)              // V_ASN1_SEQUENCE, with the decoding of its own DER payload
    | Other(tag: int)                      // any other tag

  /** The result of d2i_ASN1_SEQUENCE_ANY: None where the bytes are not a DER SEQUENCE. */
  type Decoded = Option<seq<Element>>

  /** NID_sha256 in the OpenSSL object table. */
  const NidSha256: int := 672

  /** SHA256_DIGEST_LENGTH. */
  const Sha256DigestLength: nat := 32

  function Pow256(k: nat): (p: nat)
    ensures p >= 1
  {
    if k == 0 then 1 else 256 * Pow256(k - 1)
  }

  lemma {:induction false} Pow256Monotone(j: nat, k: nat)
    requires j <= k
    ensures Pow256(j) <= Pow256(k)
  {
    if j < k {
      Pow256Monotone(j, k - 1);
    }
  }

  lemma {:induction false} Pow256Add(j: nat, k: nat)
    ensures Pow256(j + k) == Pow256(j) * Pow256(k)
  {
    if k > 0 {
      Pow256Add(j, k - 1);
      assert Pow256(j + k) == 256 * Pow256(j + k - 1);
    }
  }

  /** BN_num_bytes of a non-negative number: the octets its magnitude needs (none for zero). */
  function NumBytes(n: nat): (k: nat)
    ensures n < Pow256(k)
    ensures k > 0 ==> Pow256(k - 1) <= n
  {
    if n == 0 then 0
    else
      var k := 1 + NumBytes(n / 256);
      assert Pow256(k) == 256 * Pow256(k - 1);
      assert n < 256 * (n / 256 + 1);
      if k > 1 then
        assert Pow256(k - 1) == 256 * Pow256(k - 2);
        assert 256 * Pow256(k - 2) <= 256 * (n / 256);
        k
      else k
  }

  /** At most c octets exactly when the number is below 256^c. */
  lemma NumBytesAtMost(n: nat, c: nat)
    ensures NumBytes(n) <= c <==> n < Pow256(c)
  {
    var k := NumBytes(n);
    if k <= c {
      Pow256Monotone(k, c);
    } else {
      Pow256Monotone(c, k - 1);
    }
  }
}
