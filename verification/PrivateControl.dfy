/**
 * The control chain of a private scope: a genesis, then transitions each judged by the policy
 * before it. Decoding, hashing and signature verification are parameters.
 */
module PrivateControls {
  import opened Prelude
  import opened PrivateAuthorizationPolicies

  datatype ControlHead = ControlHead(
    scopeId: Text, revision: int, parentHeadHash: Text, mlsEpoch: int,
    mlsContextHash: Text, operationBindingHash: Text, policyHash: Text)

  datatype GenesisHead = GenesisHead(
    scopeId: Text, revision: int, parentHeadHash: Option<Text>, mlsEpoch: int,
    mlsContextHash: Text, policyHash: Text)

  datatype Control = Control(head: ControlHead, headHash: Text, mlsMessageHash: Text, policy: Policy)
  datatype SignedControl = SignedControl(control: Control, signatures: map<Text, Text>)

  datatype Genesis = Genesis(version: int, head: GenesisHead, headHash: Text, policy: Policy)
  datatype SignedGenesis = SignedGenesis(genesis: Genesis, signatures: map<Text, Text>)

  /** What a client keeps of the last transition it adopted. */
  datatype Checkpoint = Checkpoint(scopeId: Text, revision: int, headHash: Text, mlsEpoch: int, policy: Policy)

  /** What the authenticated operation says of the control that carries it out. */
  datatype Operation = Operation(operationBindingHash: Text, resultingHeadHash: Text)

  /** The records hashed; their canonical texts differ, as their fields do. */
  datatype Record = OfPolicy(policy: Policy) | OfControl(control: ControlHead) | OfGenesis(genesis: GenesisHead)

  datatype Crypto = Crypto(
    decode: Decoder,
    hash: Record -> Text,
    verifiesControl: (Bytes, Control, Bytes) -> bool,
    verifiesGenesis: (Bytes, Genesis, Bytes) -> bool)

  /** Digests are strictly encoded, and different records never share one. */
  ghost predicate SoundHash(crypto: Crypto) {
    && (forall r :: Is32(crypto.decode, crypto.hash(r)))
    && forall r, s :: crypto.hash(r) == crypto.hash(s) ==> r == s
  }

  // ----- genesis -----------------------------------------------------------------------------

  predicate AcceptsGenesisPolicy(crypto: Crypto, policy: Policy, owner: Text) {
    && |policy.devices| == 1
    && Is32(crypto.decode, policy.devices[0].mlsCredentialHash)
    && Is32(crypto.decode, policy.leaseRevocationHpkeKey)
    && policy.version == 1
    && policy.threshold == 1
    && policy.authorityKeys == [owner]
    && policy.devices[0].deviceKey == owner
    && policy.sequencerKey == owner
    && policy.freshnessAuthorityKey == owner
    && policy.leaseRevocationKey == owner
    && policy.leaseRevocationHpkeKey != owner
  }

  predicate AcceptsGenesis(crypto: Crypto, genesis: Genesis, owner: Text) {
    && Is32(crypto.decode, owner)
    && Is32(crypto.decode, genesis.head.scopeId)
    && Is32(crypto.decode, genesis.head.mlsContextHash)
    && genesis.version == 1
    && genesis.head.revision == 0
    && genesis.head.mlsEpoch == 0
    && genesis.head.parentHeadHash == None
    && AcceptsGenesisPolicy(crypto, genesis.policy, owner)
    && genesis.head.policyHash == crypto.hash(OfPolicy(genesis.policy))
    && genesis.headHash == crypto.hash(OfGenesis(genesis.head))
  }

  predicate VerifiesGenesis(crypto: Crypto, signed: SignedGenesis, owner: Text, scopeId: Text, mlsContextHash: Text) {
    && AcceptsGenesis(crypto, signed.genesis, owner)
    && signed.signatures.Keys == {owner}
    && signed.genesis.head.scopeId == scopeId
    && signed.genesis.head.mlsContextHash == mlsContextHash
    && var signature := crypto.decode(signed.signatures[owner], 64);
       && signature.Some?
       && crypto.verifiesGenesis(signature.value, signed.genesis, crypto.decode(owner, 32).value)
  }

  // ----- a transition ------------------------------------------------------------------------

  predicate AcceptsCheckpoint(crypto: Crypto, previous: Checkpoint) {
    && Is32(crypto.decode, previous.scopeId)
    && Is32(crypto.decode, previous.headHash)
    && IsCounter(previous.revision)
    && IsCounter(previous.mlsEpoch)
    && Accepts(crypto.decode, previous.policy)
  }

  predicate FollowsParent(head: ControlHead, previous: Checkpoint) {
    && IsCounter(head.revision)
    && IsCounter(head.mlsEpoch)
    && head.scopeId == previous.scopeId
    && head.parentHeadHash == previous.headHash
    && head.revision == previous.revision + 1
    && head.mlsEpoch == previous.mlsEpoch + 1
  }

  predicate AcceptsControl(crypto: Crypto, control: Control, previous: Checkpoint, operationBindingHash: Text,
                           mlsMessageHash: Text)
  {
    && AcceptsCheckpoint(crypto, previous)
    && FollowsParent(control.head, previous)
    && Is32(crypto.decode, control.mlsMessageHash)
    && Is32(crypto.decode, control.head.mlsContextHash)
    && Is32(crypto.decode, control.head.operationBindingHash)
    && control.head.operationBindingHash == operationBindingHash
    && control.mlsMessageHash == mlsMessageHash
    && Accepts(crypto.decode, control.policy)
    && control.head.policyHash == crypto.hash(OfPolicy(control.policy))
    && control.headHash == crypto.hash(OfControl(control.head))
    && control.policy.leaseRevocationKey == previous.policy.leaseRevocationKey
    && control.policy.leaseRevocationHpkeKey == previous.policy.leaseRevocationHpkeKey
  }

  predicate SignedBy(crypto: Crypto, signed: SignedControl, key: Text)
    requires key in signed.signatures
  {
    var signature := crypto.decode(signed.signatures[key], 64);
    var publicKey := crypto.decode(key, 32);
    && signature.Some?
    && publicKey.Some?
    && crypto.verifiesControl(signature.value, signed.control, publicKey.value)
  }

  predicate AcceptsSignatures(crypto: Crypto, signed: SignedControl, previous: Policy) {
    && |signed.signatures| >= previous.threshold
    && |signed.signatures| <= |previous.authorityKeys|
    && previous.sequencerKey in signed.signatures
    && forall key :: key in signed.signatures ==> key in previous.authorityKeys && SignedBy(crypto, signed, key)
  }

  predicate Authenticates(crypto: Crypto, signed: SignedControl, previous: Checkpoint, operation: Operation,
                          mlsMessageHash: Text)
  {
    && Is32(crypto.decode, operation.resultingHeadHash)
    && AcceptsControl(crypto, signed.control, previous, operation.operationBindingHash, mlsMessageHash)
    && signed.control.headHash == operation.resultingHeadHash
    && AcceptsSignatures(crypto, signed, previous.policy)
  }

  predicate Verifies(crypto: Crypto, signed: SignedControl, previous: Checkpoint, operation: Operation,
                     mlsMessageHash: Text, mlsContextHash: Text)
  {
    && Authenticates(crypto, signed, previous, operation, mlsMessageHash)
    && signed.control.head.mlsContextHash == mlsContextHash
  }

  // ----- what can be proposed ----------------------------------------------------------------

  /** The transition to a policy that carries out an operation after a checkpoint. */
  function Proposed(crypto: Crypto, previous: Checkpoint, policy: Policy, operationBindingHash: Text,
                    mlsMessageHash: Text, mlsContextHash: Text): Control
  {
    var head := ControlHead(previous.scopeId, previous.revision + 1, previous.headHash, previous.mlsEpoch + 1,
                            mlsContextHash, operationBindingHash, crypto.hash(OfPolicy(policy)));
    Control(head, crypto.hash(OfControl(head)), mlsMessageHash, policy)
  }

  /** The signature given for a key is 64 bytes that verify the control under its 32. */
  ghost predicate Signs(crypto: Crypto, signed: SignedControl, key: Text) {
    && key in signed.signatures
    && exists signature, publicKey ::
         && crypto.decode(signed.signatures[key], 64) == Some(signature) && crypto.decode(key, 32) == Some(publicKey)
         && crypto.verifiesControl(signature, signed.control, publicKey)
  }

  lemma {:induction false} SignsExactly(crypto: Crypto, signed: SignedControl, key: Text)
    requires key in signed.signatures
    ensures SignedBy(crypto, signed, key) <==> Signs(crypto, signed, key)
  {
  }

  /** Signed by enough of the authorities before, the sequencer among them, and by no one else. */
  ghost predicate IsQuorum(crypto: Crypto, signed: SignedControl, previous: Policy) {
    && |signed.signatures.Keys| >= previous.threshold
    && previous.sequencerKey in signed.signatures
    && forall key :: key in signed.signatures ==> key in previous.authorityKeys && Signs(crypto, signed, key)
  }

  lemma {:induction false} QuorumIsAccepted(crypto: Crypto, signed: SignedControl, previous: Policy)
    requires Distinct(previous.authorityKeys)
    ensures AcceptsSignatures(crypto, signed, previous) <==> IsQuorum(crypto, signed, previous)
  {
    assert |signed.signatures| == |signed.signatures.Keys|;
    forall key | key in signed.signatures
      ensures SignedBy(crypto, signed, key) <==> Signs(crypto, signed, key)
    {
      SignsExactly(crypto, signed, key);
    }
    if IsQuorum(crypto, signed, previous) {
      SubsetFits(signed.signatures.Keys, SetOf(previous.authorityKeys));
      SetSizeTellsDistinct(previous.authorityKeys);
    }
  }

  lemma {:induction false} ProposedIsAccepted(crypto: Crypto, c: Checkpoint, policy: Policy, operationBindingHash: Text,
                                              mlsMessageHash: Text, mlsContextHash: Text)
    requires AcceptsCheckpoint(crypto, c)
    requires Is32(crypto.decode, operationBindingHash) && Is32(crypto.decode, mlsMessageHash)
    requires Is32(crypto.decode, mlsContextHash)
    ensures AcceptsControl(crypto, Proposed(crypto, c, policy, operationBindingHash, mlsMessageHash, mlsContextHash), c,
                           operationBindingHash, mlsMessageHash)
            <==> && WellFormed(crypto.decode, policy)
                 && policy.leaseRevocationKey == c.policy.leaseRevocationKey
                 && policy.leaseRevocationHpkeKey == c.policy.leaseRevocationHpkeKey
                 && c.revision < MAX_SAFE_INTEGER && c.mlsEpoch < MAX_SAFE_INTEGER
  {
    AcceptsExactlyWellFormed(crypto.decode, policy);
  }

  /**
   * A checkpoint can be left for exactly the well-formed policies with its lease keys, by exactly
   * the quorums of its own policy, until its counters run out.
   */
  lemma {:induction false} ProposedVerifiesExactly(crypto: Crypto, c: Checkpoint, policy: Policy,
                                                   operationBindingHash: Text, mlsMessageHash: Text,
                                                   mlsContextHash: Text, signatures: map<Text, Text>)
    requires SoundHash(crypto) && AcceptsCheckpoint(crypto, c)
    requires Is32(crypto.decode, operationBindingHash) && Is32(crypto.decode, mlsMessageHash)
    requires Is32(crypto.decode, mlsContextHash)
    ensures var control := Proposed(crypto, c, policy, operationBindingHash, mlsMessageHash, mlsContextHash);
            var signed := SignedControl(control, signatures);
            Verifies(crypto, signed, c, Operation(operationBindingHash, control.headHash), mlsMessageHash,
                     mlsContextHash)
            <==> && WellFormed(crypto.decode, policy)
                 && policy.leaseRevocationKey == c.policy.leaseRevocationKey
                 && policy.leaseRevocationHpkeKey == c.policy.leaseRevocationHpkeKey
                 && c.revision < MAX_SAFE_INTEGER && c.mlsEpoch < MAX_SAFE_INTEGER
                 && IsQuorum(crypto, signed, c.policy)
  {
    var control := Proposed(crypto, c, policy, operationBindingHash, mlsMessageHash, mlsContextHash);
    var signed := SignedControl(control, signatures);
    ProposedIsAccepted(crypto, c, policy, operationBindingHash, mlsMessageHash, mlsContextHash);
    AcceptsExactlyWellFormed(crypto.decode, c.policy);
    QuorumIsAccepted(crypto, signed, c.policy);
  }

  /** A checkpoint transitions can be verified after. */
  ghost predicate IsCheckpoint(crypto: Crypto, c: Checkpoint) {
    && crypto.decode(c.scopeId, 32).Some? && crypto.decode(c.headHash, 32).Some?
    && 0 <= c.revision <= 9007199254740991 && 0 <= c.mlsEpoch <= 9007199254740991
    && WellFormed(crypto.decode, c.policy)
  }

  /**
   * Exactly what verifies after a checkpoint: the one control that carries out the operation
   * under its policy, with this message and context, if the policy is well formed and keeps the
   * lease keys, the counters do not run out, and it is signed by a quorum of the policy before.
   */
  lemma {:induction false} VerifiesExactly(crypto: Crypto, signed: SignedControl, c: Checkpoint, operation: Operation,
                                           mlsMessageHash: Text, mlsContextHash: Text)
    requires SoundHash(crypto)
    ensures var control, policy := signed.control, signed.control.policy;
            Verifies(crypto, signed, c, operation, mlsMessageHash, mlsContextHash)
            <==> && IsCheckpoint(crypto, c)
                 && c.revision < 9007199254740991 && c.mlsEpoch < 9007199254740991
                 && crypto.decode(operation.operationBindingHash, 32).Some?
                 && crypto.decode(mlsMessageHash, 32).Some? && crypto.decode(mlsContextHash, 32).Some?
                 && control.head == ControlHead(c.scopeId, c.revision + 1, c.headHash, c.mlsEpoch + 1, mlsContextHash,
                                                operation.operationBindingHash, crypto.hash(OfPolicy(policy)))
                 && control.headHash == crypto.hash(OfControl(control.head)) == operation.resultingHeadHash
                 && control.mlsMessageHash == mlsMessageHash
                 && WellFormed(crypto.decode, policy)
                 && policy.leaseRevocationKey == c.policy.leaseRevocationKey
                 && policy.leaseRevocationHpkeKey == c.policy.leaseRevocationHpkeKey
                 && IsQuorum(crypto, signed, c.policy)
  {
    CheckpointExactly(crypto, c);
    AcceptsExactlyWellFormed(crypto.decode, signed.control.policy);
    ControlExactly(crypto, signed.control, c, operation.operationBindingHash, mlsMessageHash);
    if IsCheckpoint(crypto, c) {
      QuorumIsAccepted(crypto, signed, c.policy);
    }
  }

  lemma {:induction false} CheckpointExactly(crypto: Crypto, c: Checkpoint)
    ensures AcceptsCheckpoint(crypto, c) <==> IsCheckpoint(crypto, c)
  {
    AcceptsExactlyWellFormed(crypto.decode, c.policy);
  }

  lemma {:induction false} ControlExactly(crypto: Crypto, control: Control, c: Checkpoint, operationBindingHash: Text,
                                          mlsMessageHash: Text)
    ensures var policy := control.policy;
            AcceptsControl(crypto, control, c, operationBindingHash, mlsMessageHash)
            <==> && AcceptsCheckpoint(crypto, c)
                 && c.revision < 9007199254740991 && c.mlsEpoch < 9007199254740991
                 && crypto.decode(operationBindingHash, 32).Some?
                 && crypto.decode(mlsMessageHash, 32).Some? && crypto.decode(control.head.mlsContextHash, 32).Some?
                 && control.head == ControlHead(c.scopeId, c.revision + 1, c.headHash, c.mlsEpoch + 1,
                                                control.head.mlsContextHash, operationBindingHash,
                                                crypto.hash(OfPolicy(policy)))
                 && control.headHash == crypto.hash(OfControl(control.head))
                 && control.mlsMessageHash == mlsMessageHash
                 && Accepts(crypto.decode, policy)
                 && policy.leaseRevocationKey == c.policy.leaseRevocationKey
                 && policy.leaseRevocationHpkeKey == c.policy.leaseRevocationHpkeKey
  {
  }

  /** The genesis of an owner's scope. */
  function GenesisOf(crypto: Crypto, owner: Text, scopeId: Text, mlsContextHash: Text, mlsCredentialHash: Text,
                     hpkeKey: Text): Genesis
  {
    var policy := Policy(1, [Device(owner, mlsCredentialHash)], [owner], 1, owner, owner, owner, hpkeKey);
    var head := GenesisHead(scopeId, 0, None, 0, mlsContextHash, crypto.hash(OfPolicy(policy)));
    Genesis(1, head, crypto.hash(OfGenesis(head)), policy)
  }

  /**
   * Exactly what verifies as a genesis: for the owner, scope and context pinned, the one of some
   * credential and some lease key but the owner's own, signed by the owner and no one else.
   */
  lemma {:induction false} GenesisVerifiesExactly(crypto: Crypto, signed: SignedGenesis, owner: Text, scopeId: Text,
                                                  mlsContextHash: Text)
    ensures VerifiesGenesis(crypto, signed, owner, scopeId, mlsContextHash)
            <==> && crypto.decode(scopeId, 32).Some? && crypto.decode(mlsContextHash, 32).Some?
                 && (exists credential, hpkeKey ::
                       && crypto.decode(credential, 32).Some? && crypto.decode(hpkeKey, 32).Some? && hpkeKey != owner
                       && signed.genesis == GenesisOf(crypto, owner, scopeId, mlsContextHash, credential, hpkeKey))
                 && signed.signatures.Keys == {owner}
                 && exists signature, publicKey ::
                      && crypto.decode(signed.signatures[owner], 64) == Some(signature)
                      && crypto.decode(owner, 32) == Some(publicKey)
                      && crypto.verifiesGenesis(signature, signed.genesis, publicKey)
  {
    var policy := signed.genesis.policy;
    if VerifiesGenesis(crypto, signed, owner, scopeId, mlsContextHash) {
      var credential := policy.devices[0].mlsCredentialHash;
      assert policy.devices == [Device(owner, credential)];
      assert signed.genesis
             == GenesisOf(crypto, owner, scopeId, mlsContextHash, credential, policy.leaseRevocationHpkeKey);
    }
  }

  // ----- a history ---------------------------------------------------------------------------

  /** A transition with what its verifier was told to expect. */
  datatype Transition = Transition(
    signed: SignedControl, operation: Operation, mlsMessageHash: Text, mlsContextHash: Text)

  datatype History = History(
    signed: SignedGenesis, owner: Text, scopeId: Text, mlsContextHash: Text, transitions: seq<Transition>)

  function CheckpointOf(control: Control): Checkpoint {
    Checkpoint(control.head.scopeId, control.head.revision, control.headHash, control.head.mlsEpoch, control.policy)
  }

  /** The checkpoint after the genesis and the first `n` transitions. */
  function CheckpointAt(h: History, n: nat): Checkpoint
    requires n <= |h.transitions|
  {
    if n == 0 then
      var genesis := h.signed.genesis;
      Checkpoint(genesis.head.scopeId, genesis.head.revision, genesis.headHash, genesis.head.mlsEpoch, genesis.policy)
    else CheckpointOf(h.transitions[n - 1].signed.control)
  }

  predicate VerifiesNext(crypto: Crypto, h: History, n: nat)
    requires n < |h.transitions|
  {
    var t := h.transitions[n];
    Verifies(crypto, t.signed, CheckpointAt(h, n), t.operation, t.mlsMessageHash, t.mlsContextHash)
  }

  /** The genesis verified, and every transition by the checkpoint its predecessor left. */
  ghost predicate Verified(crypto: Crypto, h: History) {
    && VerifiesGenesis(crypto, h.signed, h.owner, h.scopeId, h.mlsContextHash)
    && forall n :: 0 <= n < |h.transitions| ==> VerifiesNext(crypto, h, n)
  }

  lemma {:induction false} GenesisPolicyIsWellFormed(crypto: Crypto, policy: Policy, owner: Text)
    requires Is32(crypto.decode, owner) && AcceptsGenesisPolicy(crypto, policy, owner)
    ensures WellFormed(crypto.decode, policy)
  {
  }

  /** What the checkpoint after `n` transitions keeps of the genesis, and how far it has come. */
  ghost predicate OnChain(crypto: Crypto, h: History, n: nat, c: Checkpoint) {
    && c.revision == n && c.mlsEpoch == n
    && c.scopeId == h.scopeId
    && c.policy.leaseRevocationKey == h.owner
    && c.policy.leaseRevocationHpkeKey == h.signed.genesis.policy.leaseRevocationHpkeKey
    && WellFormed(crypto.decode, c.policy)
    && n <= MAX_SAFE_INTEGER
  }

  lemma {:induction false} GenesisOnChain(crypto: Crypto, h: History)
    requires SoundHash(crypto)
    requires VerifiesGenesis(crypto, h.signed, h.owner, h.scopeId, h.mlsContextHash)
    ensures OnChain(crypto, h, 0, CheckpointAt(h, 0)) && AcceptsCheckpoint(crypto, CheckpointAt(h, 0))
  {
    GenesisPolicyIsWellFormed(crypto, h.signed.genesis.policy, h.owner);
    AcceptsExactlyWellFormed(crypto.decode, h.signed.genesis.policy);
  }

  lemma {:induction false} NextOnChain(crypto: Crypto, h: History, n: nat, c: Checkpoint, control: Control,
                                       operationBindingHash: Text, mlsMessageHash: Text)
    requires n > 0 && OnChain(crypto, h, n - 1, c)
    requires AcceptsControl(crypto, control, c, operationBindingHash, mlsMessageHash)
    ensures OnChain(crypto, h, n, CheckpointOf(control))
  {
    AcceptsExactlyWellFormed(crypto.decode, control.policy);
  }

  lemma {:induction false} NextKeeps(crypto: Crypto, h: History, n: nat, c: Checkpoint, t: Transition)
    requires SoundHash(crypto) && n > 0
    requires Verifies(crypto, t.signed, c, t.operation, t.mlsMessageHash, t.mlsContextHash)
    requires OnChain(crypto, h, n - 1, c)
    ensures OnChain(crypto, h, n, CheckpointOf(t.signed.control))
            && AcceptsCheckpoint(crypto, CheckpointOf(t.signed.control))
  {
    NextOnChain(crypto, h, n, c, t.signed.control, t.operation.operationBindingHash, t.mlsMessageHash);
  }

  lemma {:induction false} NextKeepsAt(crypto: Crypto, h: History, n: nat, c: Checkpoint)
    requires SoundHash(crypto) && 0 < n <= |h.transitions| && VerifiesNext(crypto, h, n - 1)
    requires c == CheckpointAt(h, n - 1) && OnChain(crypto, h, n - 1, c)
    ensures OnChain(crypto, h, n, CheckpointAt(h, n)) && AcceptsCheckpoint(crypto, CheckpointAt(h, n))
  {
    NextKeeps(crypto, h, n, c, h.transitions[n - 1]);
  }

  /**
   * All along a verified chain: revision and epoch count the transitions, the scope and both
   * lease keys are those of the genesis, and the policy is well formed.
   */
  lemma {:induction false} ChainKeeps(crypto: Crypto, h: History, n: nat)
    requires SoundHash(crypto) && Verified(crypto, h) && n <= |h.transitions|
    ensures OnChain(crypto, h, n, CheckpointAt(h, n))
    decreases n
  {
    if n == 0 {
      GenesisOnChain(crypto, h);
    } else {
      ChainKeeps(crypto, h, n - 1);
      NextKeepsAt(crypto, h, n, CheckpointAt(h, n - 1));
    }
  }

  /** Each checkpoint of a verified chain is one the next verification takes. */
  lemma {:induction false} ChainIsAccepted(crypto: Crypto, h: History, n: nat)
    requires SoundHash(crypto) && Verified(crypto, h) && n <= |h.transitions|
    ensures AcceptsCheckpoint(crypto, CheckpointAt(h, n))
  {
    if n == 0 {
      GenesisOnChain(crypto, h);
    } else {
      ChainKeeps(crypto, h, n - 1);
      NextKeepsAt(crypto, h, n, CheckpointAt(h, n - 1));
    }
  }

  /** Who signed a transition. */
  function Signers(h: History, n: nat): set<Text>
    requires n < |h.transitions|
  {
    h.transitions[n].signed.signatures.Keys
  }

  /**
   * Every transition was signed by at least the previous threshold of the previous policy's
   * authorities, all of them admitted devices, its sequencer among them, and no one else.
   */
  lemma {:induction false} QuorumSigned(crypto: Crypto, h: History, n: nat)
    requires SoundHash(crypto) && Verified(crypto, h) && n < |h.transitions|
    ensures var policy := CheckpointAt(h, n).policy;
            && |Signers(h, n)| >= policy.threshold >= 1
            && policy.sequencerKey in Signers(h, n)
            && forall key :: key in Signers(h, n) ==>
                 && key in policy.authorityKeys && Admitted(policy, key)
                 && Signs(crypto, h.transitions[n].signed, key)
  {
    ChainKeeps(crypto, h, n);
    assert VerifiesNext(crypto, h, n);
    var policy := CheckpointAt(h, n).policy;
    assert |Signers(h, n)| == |h.transitions[n].signed.signatures|;
    forall key | key in Signers(h, n)
      ensures Admitted(policy, key) && Signs(crypto, h.transitions[n].signed, key)
    {
      assert key in policy.authorityKeys;
      SignsExactly(crypto, h.transitions[n].signed, key);
    }
  }

  /** The key was made an authority by transition `k`. */
  ghost predicate MadeAuthority(h: History, k: nat, key: Text)
    requires k < |h.transitions|
  {
    key !in CheckpointAt(h, k).policy.authorityKeys && key in CheckpointAt(h, k + 1).policy.authorityKeys
  }

  /**
   * All authority comes from the owner: it alone signs the first transition, and whoever else
   * signs a later one was made an authority by a transition before that.
   */
  lemma {:induction false} AuthorityComesFromOwner(crypto: Crypto, h: History, n: nat, key: Text)
    requires SoundHash(crypto) && Verified(crypto, h) && n < |h.transitions| && key in Signers(h, n)
    ensures Signers(h, 0) == {h.owner}
    ensures key == h.owner || exists k :: 0 <= k < n && MadeAuthority(h, k, key)
  {
    QuorumSigned(crypto, h, 0);
    QuorumSigned(crypto, h, n);
    assert Signers(h, 0) == {h.owner} by {
      assert CheckpointAt(h, 0).policy.sequencerKey == h.owner;
    }
    MadeBefore(crypto, h, n, key);
  }

  lemma {:induction false} MadeBefore(crypto: Crypto, h: History, n: nat, key: Text)
    requires Verified(crypto, h) && n <= |h.transitions| && key in CheckpointAt(h, n).policy.authorityKeys
    ensures key == h.owner || exists k :: 0 <= k < n && MadeAuthority(h, k, key)
    decreases n
  {
    if n == 0 {
    } else if key in CheckpointAt(h, n - 1).policy.authorityKeys {
      MadeBefore(crypto, h, n - 1, key);
    } else {
      assert MadeAuthority(h, n - 1, key);
    }
  }

  ghost predicate Expected(t: Transition) {
    var control := t.signed.control;
    && control.head.operationBindingHash == t.operation.operationBindingHash
    && control.headHash == t.operation.resultingHeadHash
    && control.mlsMessageHash == t.mlsMessageHash
    && control.head.mlsContextHash == t.mlsContextHash
  }

  /** Every transition is the one its operation, message and context call for. */
  lemma {:induction false} CarriesOutItsOperation(crypto: Crypto, h: History, n: nat)
    requires Verified(crypto, h) && n < |h.transitions|
    ensures Expected(h.transitions[n])
  {
    assert VerifiesNext(crypto, h, n);
  }

  // ----- a head fixes all that came before it ------------------------------------------------

  /** Two histories agree on everything their heads bind, up to their first `n` transitions. */
  ghost predicate AgreeUpTo(g: History, h: History, n: nat) {
    && n <= |g.transitions| && n <= |h.transitions|
    && g.signed.genesis == h.signed.genesis
    && forall i :: 0 <= i < n ==> Agree(g.transitions[i].signed.control, h.transitions[i].signed.control)
  }

  ghost predicate Agree(a: Control, b: Control) {
    a.head == b.head && a.headHash == b.headHash && a.policy == b.policy
  }

  /** What the head hash at a place is the hash of. */
  function HeadAt(h: History, n: nat): Record
    requires n <= |h.transitions|
  {
    if n == 0 then OfGenesis(h.signed.genesis.head) else OfControl(h.transitions[n - 1].signed.control.head)
  }

  lemma {:induction false} HeadHashed(crypto: Crypto, h: History, n: nat)
    requires Verified(crypto, h) && n <= |h.transitions|
    ensures CheckpointAt(h, n).headHash == crypto.hash(HeadAt(h, n))
    ensures n > 0 ==> h.transitions[n - 1].signed.control.head.policyHash
                      == crypto.hash(OfPolicy(h.transitions[n - 1].signed.control.policy))
    ensures n > 0 ==> h.transitions[n - 1].signed.control.head.parentHeadHash == CheckpointAt(h, n - 1).headHash
  {
    if n > 0 {
      assert VerifiesNext(crypto, h, n - 1);
    }
  }

  lemma {:induction false} EqualHeadsAgree(crypto: Crypto, g: History, m: nat, h: History, n: nat)
    requires SoundHash(crypto) && Verified(crypto, g) && Verified(crypto, h)
    requires 0 < m <= |g.transitions| && 0 < n <= |h.transitions|
    requires HeadAt(g, m) == HeadAt(h, n) && CheckpointAt(g, m).headHash == CheckpointAt(h, n).headHash
    ensures Agree(g.transitions[m - 1].signed.control, h.transitions[n - 1].signed.control)
    ensures CheckpointAt(g, m - 1).headHash == CheckpointAt(h, n - 1).headHash
  {
    HeadHashed(crypto, g, m);
    HeadHashed(crypto, h, n);
  }

  /** Heads with one hash are heads at one place, of histories that agree back to the genesis. */
  lemma {:induction false} EqualHeadsEqualHistories(crypto: Crypto, g: History, m: nat, h: History, n: nat)
    requires SoundHash(crypto) && Verified(crypto, g) && Verified(crypto, h)
    requires m <= |g.transitions| && n <= |h.transitions|
    requires CheckpointAt(g, m).headHash == CheckpointAt(h, n).headHash
    ensures m == n && AgreeUpTo(g, h, n) && g.owner == h.owner
    decreases m
  {
    HeadHashed(crypto, g, m);
    HeadHashed(crypto, h, n);
    if m == 0 {
    } else {
      EqualHeadsAgree(crypto, g, m, h, n);
      EqualHeadsEqualHistories(crypto, g, m - 1, h, n - 1);
    }
  }

  /** A chain never comes back to a head it left, nor to the head of another revision elsewhere. */
  lemma {:induction false} HeadsNeverRepeat(crypto: Crypto, g: History, m: nat, h: History, n: nat)
    requires SoundHash(crypto) && Verified(crypto, g) && Verified(crypto, h)
    requires m <= |g.transitions| && n <= |h.transitions| && m != n
    ensures CheckpointAt(g, m).headHash != CheckpointAt(h, n).headHash
  {
    if CheckpointAt(g, m).headHash == CheckpointAt(h, n).headHash {
      EqualHeadsEqualHistories(crypto, g, m, h, n);
    }
  }

  /** Two operations that lead to one head are one operation, at one place, with one context. */
  lemma {:induction false} OneOperationAHead(crypto: Crypto, g: History, m: nat, h: History, n: nat)
    requires SoundHash(crypto) && Verified(crypto, g) && Verified(crypto, h)
    requires m < |g.transitions| && n < |h.transitions|
    requires g.transitions[m].operation.resultingHeadHash == h.transitions[n].operation.resultingHeadHash
    ensures m == n && g.transitions[m].operation == h.transitions[n].operation
    ensures g.transitions[m].mlsContextHash == h.transitions[n].mlsContextHash
  {
    CarriesOutItsOperation(crypto, g, m);
    CarriesOutItsOperation(crypto, h, n);
    assert CheckpointAt(g, m + 1).headHash == CheckpointAt(h, n + 1).headHash;
    EqualHeadsEqualHistories(crypto, g, m + 1, h, n + 1);
  }

  // ----- forks -------------------------------------------------------------------------------

  lemma {:induction false} Overlap(a: set<Text>, b: set<Text>, all: set<Text>)
    requires a <= all && b <= all
    ensures |a * b| >= |a| + |b| - |all|
  {
    SubsetFits(a + b, all);
    assert |a + b| + |a * b| == |a| + |b|;
  }

  /**
   * Two transitions accepted after one head are both signed by its sequencer, and by at least
   * twice the threshold less the number of authorities.
   */
  lemma {:induction false} ForksShareSigners(crypto: Crypto, g: History, h: History, n: nat)
    requires SoundHash(crypto) && Verified(crypto, g) && Verified(crypto, h)
    requires n < |g.transitions| && n < |h.transitions|
    requires CheckpointAt(g, n).headHash == CheckpointAt(h, n).headHash
    ensures var policy := CheckpointAt(g, n).policy;
            var common := Signers(g, n) * Signers(h, n);
            && CheckpointAt(h, n).policy == policy
            && policy.sequencerKey in common
            && |common| >= 2 * policy.threshold - |policy.authorityKeys|
  {
    EqualHeadsEqualHistories(crypto, g, n, h, n);
    var policy := CheckpointAt(g, n).policy;
    QuorumSigned(crypto, g, n);
    QuorumSigned(crypto, h, n);
    Overlap(Signers(g, n), Signers(h, n), SetOf(policy.authorityKeys));
    SetSizeTellsDistinct(policy.authorityKeys);
  }
}
