/**
 * The signature shapes and the share counting of rhc/src/crypto.rs.
 *
 * BLS and Ed25519 arithmetic and blake3 hashing are not modelled: where the
 * source asks a cryptographic library for an answer, that answer is a
 * parameter (`dalek`, `decodeError`, `aggregation`).
 */
module RhcCrypto {
  import opened Wrappers
  import opened RhcBase

  /** `Signature`: the variant and its raw bytes. */
  datatype Signature = Ed25519(bytes: seq<Byte>) | Bls(bytes: seq<Byte>)

  /** `Signature::default()`: an Ed25519 signature of 64 zero bytes. */
  function DefaultSignature(): (s: Signature)
    ensures s.Ed25519? && |s.bytes| == 64
    ensures forall i :: 0 <= i < |s.bytes| ==> s.bytes[i] == 0
  {
    Ed25519(seq(64, _ => 0))
  }

  /**
   * `Ed25519KeyPair::verify`: the variant and the length are checked first;
   * only a 64-byte Ed25519 signature reaches the library, whose verdict is
   * `dalek` (its error text becomes the `Crypto` message).
   */
  function Ed25519Verify(signature: Signature, dalek: Result<(), string>): (r: Result<(), Error>)
    ensures r.Ok? <==> signature.Ed25519? && |signature.bytes| == 64 && dalek.Ok?
    ensures r.Err? ==> r.error.Crypto?
  {
    match signature
    case Ed25519(bytes) =>
      if |bytes| != 64 then Err(Crypto("Invalid signature length"))
      else if dalek.Err? then Err(Crypto(dalek.error))
      else Ok(())
    case Bls(_) => Err(Crypto("Invalid signature type"))
  }

  /**
   * A signature of the wrong variant or length is refused with the same error
   * whatever the library would have said: no cryptography is attempted.
   */
  lemma ShapeCheckedFirst(signature: Signature, d1: Result<(), string>, d2: Result<(), string>)
    requires !signature.Ed25519? || |signature.bytes| != 64
    ensures Ed25519Verify(signature, d1) == Ed25519Verify(signature, d2)
    ensures !signature.Ed25519? ==> Ed25519Verify(signature, d1) == Err(Crypto("Invalid signature type"))
    ensures signature.Ed25519? ==> Ed25519Verify(signature, d1) == Err(Crypto("Invalid signature length"))
  {
  }

  /** The shares of an aggregator: one decoded BLS signature per node. */
  type Shares = map<NodeId, seq<Byte>>

  /**
   * `add_share(node_id, share)`: its result and the new shares. `decodeError`
   * is the complaint of `BlsSignature::from_bytes`, if it has one.
   */
  function AddShareOutcome(shares: Shares, node: NodeId, share: Signature, decodeError: Option<string>): (Result<(), Error>, Shares)
  {
    match share
    case Bls(bytes) =>
      if decodeError.Some? then (Err(Crypto("Invalid BLS signature: " + decodeError.value)), shares)
      else (Ok(()), shares[node := bytes])
    case Ed25519(_) => (Err(Crypto("Expected BLS signature")), shares)
  }

  /**
   * `add_share` refuses a non-BLS or undecodable share with a `Crypto` error
   * and keeps the shares; otherwise it records the share under the node,
   * replacing an earlier share of that node, so the count of sharers grows by
   * one exactly for a new node.
   */
  lemma AddShareEffect(shares: Shares, node: NodeId, share: Signature, decodeError: Option<string>)
    ensures var (r, s) := AddShareOutcome(shares, node, share, decodeError);
            (r.Err? <==> !share.Bls? || decodeError.Some?) &&
            (!share.Bls? ==> r == Err(Crypto("Expected BLS signature"))) &&
            (r.Err? ==> r.error.Crypto? && s == shares)
    ensures var (r, s) := AddShareOutcome(shares, node, share, decodeError);
            r.Ok? ==> s == shares[node := share.bytes] && s.Keys == shares.Keys + {node} &&
                      |s| == (if node in shares then |shares| else |shares| + 1)
  {
  }

  /** `has_threshold`: at least `threshold` distinct nodes have a share. */
  predicate ThresholdReached(shares: Shares, threshold: nat)
  {
    |shares| >= threshold
  }

  /** What `AggregateSignature::aggregate` answers. */
  datatype AggregationOutcome = Aggregated(bytes: seq<Byte>) | TypeMismatch | AggregationFailed(detail: string)

  /** `aggregate()`: the threshold guard, then the library's aggregation. */
  function AggregateOutcome(shares: Shares, threshold: nat, aggregation: AggregationOutcome): Result<Signature, Error>
  {
    if !ThresholdReached(shares, threshold) then Err(InsufficientShares(|shares|, threshold))
    else match aggregation
      case Aggregated(bytes) => Ok(Bls(bytes))
      case TypeMismatch => Err(Crypto("Signature type mismatch"))
      case AggregationFailed(detail) => Err(Crypto("Aggregation failed: " + detail))
  }

  /**
   * `aggregate` fails with `InsufficientShares{got, need}` exactly when below
   * the threshold; above it, it succeeds with a BLS signature exactly when
   * the library aggregates, and otherwise fails with a `Crypto` error.
   */
  lemma AggregateGuard(shares: Shares, threshold: nat, aggregation: AggregationOutcome)
    ensures AggregateOutcome(shares, threshold, aggregation) == Err(InsufficientShares(|shares|, threshold)) <==>
              |shares| < threshold
    ensures |shares| >= threshold ==>
              (AggregateOutcome(shares, threshold, aggregation).Ok? <==> aggregation.Aggregated?) &&
              (aggregation.Aggregated? ==> AggregateOutcome(shares, threshold, aggregation) == Ok(Bls(aggregation.bytes))) &&
              (!aggregation.Aggregated? ==> AggregateOutcome(shares, threshold, aggregation).error.Crypto?)
  {
  }

  /**
   * The aggregation test of rhc/tests/global_consensus.rs (lines 180-222),
   * taken at threshold 3 instead of 5: shares from distinct nodes reach the
   * threshold only at the third, and a second share from a node does not
   * count twice.
   */
  lemma ThreeSharesTest(a: NodeId, b: NodeId, c: NodeId, sa: seq<Byte>, sb: seq<Byte>, sc: seq<Byte>)
    requires a != b && b != c && a != c
    ensures var s1 := AddShareOutcome(map[], a, Bls(sa), None).1;
            var s2 := AddShareOutcome(s1, b, Bls(sb), None).1;
            var s2' := AddShareOutcome(s2, a, Bls(sb), None).1;
            var s3 := AddShareOutcome(s2, c, Bls(sc), None).1;
            !ThresholdReached(s1, 3) && !ThresholdReached(s2, 3) && !ThresholdReached(s2', 3) &&
            ThresholdReached(s3, 3)
  {
    AddShareEffect(map[], a, Bls(sa), None);
    var s1 := AddShareOutcome(map[], a, Bls(sa), None).1;
    AddShareEffect(s1, b, Bls(sb), None);
    var s2 := AddShareOutcome(s1, b, Bls(sb), None).1;
    AddShareEffect(s2, a, Bls(sb), None);
    AddShareEffect(s2, c, Bls(sc), None);
  }

  /** `ThresholdSignatureAggregator`. */
  class ThresholdSignatureAggregator {
    const threshold: nat
    var shares: Shares

    constructor (threshold: nat)
      ensures this.threshold == threshold && shares == map[]
    {
      this.threshold := threshold;
      shares := map[];
    }

    /** `add_share(node_id, share)`. */
    method AddShare(node: NodeId, share: Signature, decodeError: Option<string>) returns (r: Result<(), Error>)
      modifies this
      ensures (r, shares) == AddShareOutcome(old(shares), node, share, decodeError)
    {
      match share {
        case Bls(bytes) =>
          if decodeError.Some? {
            return Err(Crypto("Invalid BLS signature: " + decodeError.value));
          }
          shares := shares[node := bytes];
          r := Ok(());
        case Ed25519(_) =>
          r := Err(Crypto("Expected BLS signature"));
      }
    }

    /** `has_threshold()`. */
    predicate HasThreshold()
      reads this
    {
      ThresholdReached(shares, threshold)
    }

    /** `aggregate()`. */
    method Aggregate(aggregation: AggregationOutcome) returns (r: Result<Signature, Error>)
      ensures r == AggregateOutcome(shares, threshold, aggregation)
    {
      if |shares| < threshold {
        return Err(InsufficientShares(|shares|, threshold));
      }
      match aggregation {
        case Aggregated(bytes) => r := Ok(Bls(bytes));
        case TypeMismatch => r := Err(Crypto("Signature type mismatch"));
        case AggregationFailed(detail) => r := Err(Crypto("Aggregation failed: " + detail));
      }
    }
  }
}
