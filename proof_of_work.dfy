/** The proof-of-work puzzle: a proof is accepted after `lastProof` when the
    SHA-256 hex digest of the two numbers' decimal texts, written one after the
    other, starts with four zero digits. */
module ProofOfWork {

  /** The fixed difficulty target: the digest's required first characters. */
  const Target: string := "0000"

  function DigitChar(d: int): (c: char)
    requires 0 <= d < 10
    ensures '0' <= c <= '9' && c as int - '0' as int == d
  {
    (d + '0' as int) as char
  }

  /** The decimal text of a natural number, without leading zeros. */
  function NatText(n: nat): (s: string)
    ensures |s| >= 1
    ensures forall i :: 0 <= i < |s| ==> '0' <= s[i] <= '9'
    ensures s[0] == '0' ==> n == 0
    decreases n
  {
    if n < 10 then [DigitChar(n)] else NatText(n / 10) + [DigitChar(n % 10)]
  }

  /** The decimal text of an integer as an f-string writes it: a minus sign
      before the digits of a negative number. */
  function IntText(n: int): (s: string)
    ensures |s| >= 1
    ensures s[0] == '-' <==> n < 0
  {
    if n < 0 then "-" + NatText(-n) else NatText(n)
  }

  /** The number a string of decimal digits denotes. */
  function DigitsValue(s: string): int
    decreases |s|
  {
    if s == [] then 0 else DigitsValue(s[..|s| - 1]) * 10 + (s[|s| - 1] as int - '0' as int)
  }

  /** Reading back the digits NatText writes gives the number again. */
  lemma {:induction false} NatTextRoundTrip(n: nat)
    ensures DigitsValue(NatText(n)) == n
    decreases n
  {
    if n >= 10 {
      NatTextRoundTrip(n / 10);
      var s := NatText(n);
      assert s[..|s| - 1] == NatText(n / 10);
    }
  }

  /** valid_proof. Python compares the slice `digest[0:4]` with "0000"; a slice
      of a shorter digest is shorter than four characters and so never equal. */
  predicate ValidProof(sha256Hex: string -> string, lastProof: int, proof: int) {
    var digest := sha256Hex(IntText(lastProof) + IntText(proof));
    |digest| >= |Target| && digest[..|Target|] == Target
  }

  /** A proof passes exactly when the digest is the target followed by any
      remaining characters; in particular a digest shorter than the target
      never passes. */
  lemma ValidProofIff(sha256Hex: string -> string, lastProof: int, proof: int)
    ensures var digest := sha256Hex(IntText(lastProof) + IntText(proof));
      && (ValidProof(sha256Hex, lastProof, proof) <==> exists rest :: digest == Target + rest)
      && (|digest| < |Target| ==> !ValidProof(sha256Hex, lastProof, proof))
  {
    var digest := sha256Hex(IntText(lastProof) + IntText(proof));
    if ValidProof(sha256Hex, lastProof, proof) {
      assert digest == Target + digest[|Target|..];
    }
    if rest :| digest == Target + rest {
      assert digest[..|Target|] == Target;
    }
  }

  /** The guess has no separator, so different pairs of proofs can share one
      guess text and hence one verdict: (1, 23) and (12, 3) both hash "123". */
  lemma ConcatenatedGuessIsAmbiguous(sha256Hex: string -> string)
    ensures ValidProof(sha256Hex, 1, 23) == ValidProof(sha256Hex, 12, 3)
  {
    assert NatText(23) == NatText(2) + [DigitChar(3)];
    assert NatText(12) == NatText(1) + [DigitChar(2)];
    assert IntText(1) + IntText(23) == "123" == IntText(12) + IntText(3);
  }
}
