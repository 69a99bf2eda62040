/** `pkg/checkpoint`, the signing side: `Signer.Sign` over the forward-secure signer. */
module CheckpointSigner {
  import opened Encoding
  import opened Hashing
  import opened Crypto
  import opened Options
  import opened KeyChain
  import opened Checkpoints
  import opened TextLines
  import Fwdsec

  /** The checkpoint of an epoch before it is signed. */
  function Unsigned(sha: Hasher, origin: Bytes, size: U64, root: Bytes, head: Bytes, now: I64, epoch: U64, key: Bytes,
                    beacon: Option<Beacon>): Checkpoint
  {
    Checkpoint(origin, size, root, head, now, epoch, KeyId(sha, key), beacon, NoSignature, NoSignature, [], [], [])
  }

  lemma SignaturesNotInText(c: Checkpoint, sig: Signature, quantumSig: Signature)
    ensures CheckpointText(c.(signature := sig, quantumSignature := quantumSig)) == CheckpointText(c)
  {
    hide Render, Hex, Dec, DecSigned, Text;
    var d := c.(signature := sig, quantumSignature := quantumSig);
    assert FirstLines(d) == FirstLines(c) && LastLines(d) == LastLines(c);
  }

  /** `Signer.Sign` takes the lock for each of its reads and signatures, so rotations may come in between:
      here the key ID is read at epoch `i`, the epoch at `j`, and the halves are signed at `k` and `l`. The
      checkpoint is accepted under the chain exactly if the chain's times are in order and the keys used are
      those of the epoch it names. */
  lemma SignedAcrossRotationsIff(sha: Hasher, c: Checkpoint, chain: Chain, hybrid: bool, i: nat, j: nat, k: nat, l: nat)
    requires Linked(chain.certs, hybrid) && i < |chain.certs| && j < |chain.certs| && k < |chain.certs|
    requires l < |chain.certs| && c.memberSigs == [] && c.epoch == j
    requires c.keyId == KeyId(sha, chain.certs[i].publicKey)
    requires c.signature == Signed(Ed25519, chain.certs[k].publicKey, CheckpointText(c))
    requires c.quantumSignature == if hybrid then Signed(Dilithium3, chain.certs[l].quantumPublicKey, CheckpointText(c))
                                   else NoSignature
    ensures OperatorSigned(sha, c, Some(chain), chain.certs[0].publicKey, None) <==>
              && TimesInOrder(chain.certs)
              && KeyId(sha, chain.certs[i].publicKey) == KeyId(sha, chain.certs[j].publicKey)
              && chain.certs[k].publicKey == chain.certs[j].publicKey
              && (hybrid ==> chain.certs[l].quantumPublicKey == chain.certs[j].quantumPublicKey)
  {
    hide CheckpointText, ChainVerifies, OperatorSigned, LinksTo, GenesisOf, TimesInOrder, Hex, CertBytes;
    OperatorSignedIff(sha, c, Some(chain), chain.certs[0].publicKey, None);
    LinkedVerifiesIff(sha, chain.certs, hybrid);
    assert OwnCert(chain.certs[j], hybrid);
  }

  lemma LastEpoch(signer: Fwdsec.Signer)
    requires signer.Valid()
    ensures |signer.chain.certs| > 0 && Linked(signer.chain.certs, signer.hybrid)
    ensures signer.LastCert().epoch == |signer.chain.certs| - 1
    ensures signer.active.alive ==> (|signer.active.quantumPublicKey| > 0 <==> signer.hybrid)
  {
    hide CertVerifies, Fwdsec.AllRecoverable;
    assert OwnCert(signer.LastCert(), signer.hybrid);
  }

  /** `Signer.Sign` in single-signature mode, without a rotation in between. What it signs is accepted
      under the published chain exactly while the chain itself is, that is if no rotation's clock went
      back. */
  method SignCheckpoint(sha: Hasher, signer: Fwdsec.Signer, size: U64, root: Bytes, head: Bytes, now: I64,
                        beacon: Option<Beacon>)
    returns (r: Option<Checkpoint>)
    requires signer.Valid()
    ensures r.Some? <==> signer.active.alive
    ensures r.Some? ==>
              var c, certs := r.value, signer.chain.certs;
              && c.origin == signer.origin && c.size == size && c.rootHash == root && c.headHash == head
              && c.timeNanos == now && c.beacon == beacon && c.epoch == |certs| - 1
              && (OperatorSigned(sha, c, signer.disk.chain, certs[0].publicKey, None) <==> TimesInOrder(certs))
  {
    hide CheckpointText, ChainVerifies, OperatorSigned, Fwdsec.AllRecoverable, Linked, TimesInOrder, Hex;
    LastEpoch(signer);
    var certs := signer.chain.certs;
    var last := certs[|certs| - 1];
    var c := Unsigned(sha, signer.origin, size, root, head, now, last.epoch, last.publicKey, beacon);
    var canon := CheckpointText(c);
    var sig := signer.Sign(canon);
    if sig.None? {
      return None;
    }
    var signed := c.(signature := sig.value.1);
    if |signer.active.quantumPublicKey| > 0 {
      var quantumSig := signer.QuantumSign(canon);
      signed := signed.(quantumSignature := quantumSig.value);
    }
    SignaturesNotInText(c, signed.signature, signed.quantumSignature);
    ghost var n := |certs| - 1;
    SignedAcrossRotationsIff(sha, signed, signer.chain, signer.hybrid, n, n, n, n);
    r := Some(signed);
  }
}
