/** The authorization policy of a private scope: who is admitted, who may change it, and how many must agree. */
module PrivateAuthorizationPolicies {
  import opened Prelude

  const MAX_ENTRIES: nat := 128

  datatype Device = Device(deviceKey: Text, mlsCredentialHash: Text)

  datatype Policy = Policy(
    version: int,
    devices: seq<Device>,
    authorityKeys: seq<Text>,
    threshold: int,
    sequencerKey: Text,
    freshnessAuthorityKey: Text,
    leaseRevocationKey: Text,
    leaseRevocationHpkeKey: Text)

  /** The strict encoding of 32 bytes: a key or a digest. */
  predicate Is32(decode: Decoder, text: Text) {
    decode(text, 32).Some?
  }

  function DeviceKeys(devices: seq<Device>): (keys: seq<Text>)
    ensures |keys| == |devices| && forall i :: 0 <= i < |devices| ==> keys[i] == devices[i].deviceKey
  {
    seq(|devices|, i requires 0 <= i < |devices| => devices[i].deviceKey)
  }

  function Credentials(devices: seq<Device>): (hashes: seq<Text>)
    ensures |hashes| == |devices| && forall i :: 0 <= i < |devices| ==> hashes[i] == devices[i].mlsCredentialHash
  {
    seq(|devices|, i requires 0 <= i < |devices| => devices[i].mlsCredentialHash)
  }

  predicate IsList<T>(items: seq<T>) {
    1 <= |items| <= MAX_ENTRIES
  }

  predicate AcceptsDevices(decode: Decoder, devices: seq<Device>) {
    && IsList(devices)
    && (forall device :: device in devices ==> Is32(decode, device.deviceKey) && Is32(decode, device.mlsCredentialHash))
    && |SetOf(DeviceKeys(devices))| == |devices|
    && |SetOf(Credentials(devices))| == |devices|
  }

  predicate AcceptsAuthorities(decode: Decoder, authorities: seq<Text>, devices: seq<Text>) {
    && IsList(authorities)
    && (forall key :: key in authorities ==> Is32(decode, key))
    && |SetOf(authorities)| == |authorities|
    && !exists key :: key in authorities && key !in devices
  }

  predicate Accepts(decode: Decoder, policy: Policy) {
    && AcceptsDevices(decode, policy.devices)
    && AcceptsAuthorities(decode, policy.authorityKeys, DeviceKeys(policy.devices))
    && 1 <= policy.threshold <= |policy.authorityKeys|
    && Is32(decode, policy.leaseRevocationKey)
    && Is32(decode, policy.leaseRevocationHpkeKey)
    && policy.version == 1
    && policy.sequencerKey in policy.authorityKeys
    && policy.freshnessAuthorityKey in DeviceKeys(policy.devices)
    && policy.leaseRevocationKey != policy.leaseRevocationHpkeKey
  }

  // ----- what an accepted policy is ----------------------------------------------------------

  ghost predicate Admitted(policy: Policy, key: Text) {
    exists i :: 0 <= i < |policy.devices| && policy.devices[i].deviceKey == key
  }

  /** No two devices share a key or a credential. */
  ghost predicate DevicesDistinct(devices: seq<Device>) {
    forall i, j :: 0 <= i < j < |devices| ==>
      devices[i].deviceKey != devices[j].deviceKey && devices[i].mlsCredentialHash != devices[j].mlsCredentialHash
  }

  ghost predicate DevicesWellFormed(decode: Decoder, devices: seq<Device>) {
    && 1 <= |devices| <= 128
    && DevicesDistinct(devices)
    && forall i :: 0 <= i < |devices| ==>
         decode(devices[i].deviceKey, 32).Some? && decode(devices[i].mlsCredentialHash, 32).Some?
  }

  ghost predicate AuthoritiesWellFormed(policy: Policy) {
    && policy.authorityKeys != []
    && Distinct(policy.authorityKeys)
    && forall i :: 0 <= i < |policy.authorityKeys| ==> Admitted(policy, policy.authorityKeys[i])
  }

  ghost predicate WellFormed(decode: Decoder, policy: Policy) {
    && policy.version == 1
    && DevicesWellFormed(decode, policy.devices)
    && AuthoritiesWellFormed(policy)
    && 1 <= policy.threshold <= |policy.authorityKeys|
    && policy.sequencerKey in policy.authorityKeys
    && Admitted(policy, policy.freshnessAuthorityKey)
    && decode(policy.leaseRevocationKey, 32).Some? && decode(policy.leaseRevocationHpkeKey, 32).Some?
    && policy.leaseRevocationKey != policy.leaseRevocationHpkeKey
  }

  /** Distinct keys among some others are no more than those. */
  lemma {:induction false} DistinctAmongFit(keys: seq<Text>, others: seq<Text>)
    requires Distinct(keys) && forall key :: key in keys ==> key in others
    ensures |keys| <= |others|
  {
    SetSizeTellsDistinct(keys);
    SetSizeTellsDistinct(others);
    SubsetFits(SetOf(keys), SetOf(others));
  }

  lemma {:induction false} DevicesDistinctByList(devices: seq<Device>)
    ensures DevicesDistinct(devices)
            <==> |SetOf(DeviceKeys(devices))| == |devices| && |SetOf(Credentials(devices))| == |devices|
  {
    SetSizeTellsDistinct(DeviceKeys(devices));
    SetSizeTellsDistinct(Credentials(devices));
    assert DevicesDistinct(devices) <==> Distinct(DeviceKeys(devices)) && Distinct(Credentials(devices));
  }

  lemma {:induction false} AcceptsExactlyWellFormedDevices(decode: Decoder, devices: seq<Device>)
    ensures AcceptsDevices(decode, devices) <==> DevicesWellFormed(decode, devices)
  {
    DevicesDistinctByList(devices);
    if AcceptsDevices(decode, devices) {
      assert forall i :: 0 <= i < |devices| ==> devices[i] in devices;
    }
  }

  lemma {:induction false} AcceptsExactlyWellFormedAuthorities(decode: Decoder, policy: Policy)
    requires DevicesWellFormed(decode, policy.devices)
    ensures AcceptsAuthorities(decode, policy.authorityKeys, DeviceKeys(policy.devices))
            <==> AuthoritiesWellFormed(policy)
  {
    var authorities, keys := policy.authorityKeys, DeviceKeys(policy.devices);
    SetSizeTellsDistinct(authorities);
    if AuthoritiesWellFormed(policy) {
      DistinctAmongFit(authorities, keys);
    }
    if AcceptsAuthorities(decode, authorities, keys) {
      forall i | 0 <= i < |authorities|
        ensures Admitted(policy, authorities[i])
      {
        assert authorities[i] in authorities;
      }
    }
  }

  /** The checks accept exactly the well-formed policies. */
  lemma {:induction false} AcceptsExactlyWellFormed(decode: Decoder, policy: Policy)
    ensures Accepts(decode, policy) <==> WellFormed(decode, policy)
  {
    AcceptsExactlyWellFormedDevices(decode, policy.devices);
    if DevicesWellFormed(decode, policy.devices) {
      AcceptsExactlyWellFormedAuthorities(decode, policy);
    }
  }
}
