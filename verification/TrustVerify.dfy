/** Verifying a binary against its bundle, and the rollback floor over updates and
    restarts. */
module TrustVerify {
  import opened Common
  import opened Bytes
  import opened TrustGrammar

  datatype RootKey = RootKey(id: string, der: seq<Byte>)

  datatype RootSet = RootSet(keys: seq<RootKey>, threshold: nat)

  datatype Policy = Policy(checkExpiry: bool, now: int, minVersion: nat)

  datatype Verified = Verified(delegationVersion: nat, expires: int, keyId: string, keySpki: seq<Byte>)

  predicate DistinctRoots(keys: seq<RootKey>) {
    forall i, j | 0 <= i < j < |keys| :: keys[i].id != keys[j].id
  }

  /** A document's bytes as text. */
  function Text(b: seq<Byte>): string {
    seq(|b|, i requires 0 <= i < |b| => (b[i] as int) as char)
  }

  // ----- what acceptance means ----------------------------------------------------------

  predicate SignedBy(b: Bundle, r: RootKey, c: Crypto) {
    exists i :: 0 <= i < |b.rootSigs| && b.rootSigs[i].id == r.id && c.verify(b.document, b.rootSigs[i].sig, r.der)
  }

  /** The distinct roots that signed the document. */
  function Signers(b: Bundle, roots: RootSet, c: Crypto): set<RootKey> {
    set r | r in roots.keys && SignedBy(b, r, c)
  }

  /** Everything that must hold for a binary to be accepted with result v. */
  ghost predicate Accepts(binary: seq<Byte>, bundle: string, platform: string, roots: RootSet, policy: Policy,
                          c: Crypto, b: Bundle, d: Delegation, k: DelegatedKey, v: Verified) {
    && ValidBundle(b) && PrintBundle(b) == bundle
    && 0 < roots.threshold <= |Signers(b, roots, c)|
    && ValidDelegation(d, c) && PrintDelegation(d) == Text(b.document)
    && (policy.checkExpiry ==> policy.now < d.expires)
    && d.version >= policy.minVersion
    && k in d.keys && k.id == b.keyId && k.platform == platform
    && c.verify(binary, b.signature, k.spki)
    && v == Verified(d.version, d.expires, k.id, k.spki)
  }

  ghost predicate Accepted(binary: seq<Byte>, bundle: string, platform: string, roots: RootSet, policy: Policy,
                           c: Crypto, v: Verified) {
    exists b, d, k :: Accepts(binary, bundle, platform, roots, policy, c, b, d, k, v)
  }

  lemma SameIdSameKey(keys: seq<DelegatedKey>, a: DelegatedKey, b: DelegatedKey)
    requires DistinctIds(keys) && a in keys && b in keys && a.id == b.id
    ensures a == b
  {
  }

  /** A binary, bundle, platform, root set and policy have at most one result. */
  lemma OneResult(binary: seq<Byte>, bundle: string, platform: string, roots: RootSet, p: Policy, q: Policy,
                  c: Crypto, v: Verified, w: Verified)
    requires Accepted(binary, bundle, platform, roots, p, c, v) && Accepted(binary, bundle, platform, roots, q, c, w)
    ensures v == w
  {
    var b, d, k :| Accepts(binary, bundle, platform, roots, p, c, b, d, k, v);
    var b', d', k' :| Accepts(binary, bundle, platform, roots, q, c, b', d', k', w);
    BundleCanonical(b, b');
    DelegationCanonical(d, d', c);
    SameIdSameKey(d.keys, k, k');
  }

  // ----- the verifier ----------------------------------------------------------------------

  function FirstRoot(keys: seq<RootKey>, id: string): Option<RootKey> {
    if keys == [] then None
    else if keys[0].id == id then Some(keys[0])
    else FirstRoot(keys[1..], id)
  }

  lemma {:induction false} FirstRootIs(keys: seq<RootKey>, id: string)
    requires DistinctRoots(keys)
    ensures forall r :: FirstRoot(keys, id) == Some(r) <==> r in keys && r.id == id
  {
    if keys == [] {
    } else {
      FirstRootIs(keys[1..], id);
    }
  }

  /** Signers among the first n root signatures. */
  function SignersUpTo(b: Bundle, n: nat, roots: RootSet, c: Crypto): set<RootKey>
    requires n <= |b.rootSigs|
  {
    Signers(b.(rootSigs := b.rootSigs[..n]), roots, c)
  }

  lemma SignersStep(b: Bundle, n: nat, roots: RootSet, c: Crypto)
    requires n < |b.rootSigs| && Ascending(b.rootSigs) && DistinctRoots(roots.keys)
    ensures var sig, r := b.rootSigs[n], FirstRoot(roots.keys, b.rootSigs[n].id);
            |SignersUpTo(b, n + 1, roots, c)|
            == |SignersUpTo(b, n, roots, c)| + if r.Some? && c.verify(b.document, sig.sig, r.value.der) then 1 else 0
  {
    var sig, r := b.rootSigs[n], FirstRoot(roots.keys, b.rootSigs[n].id);
    var before, after := SignersUpTo(b, n, roots, c), SignersUpTo(b, n + 1, roots, c);
    FirstRootIs(roots.keys, sig.id);
    forall x | x in roots.keys
      ensures x in after <==> x in before || (x.id == sig.id && c.verify(b.document, sig.sig, x.der))
      ensures x in before ==> x.id != sig.id
    {
      SignedStep(b, n, x, c);
    }
    if r.Some? && c.verify(b.document, sig.sig, r.value.der) {
      assert after == before + {r.value};
    } else {
      assert after == before;
    }
  }

  lemma SignedStep(b: Bundle, n: nat, x: RootKey, c: Crypto)
    requires n < |b.rootSigs| && Ascending(b.rootSigs)
    ensures var sig := b.rootSigs[n];
            SignedBy(b.(rootSigs := b.rootSigs[..n + 1]), x, c)
            <==> || SignedBy(b.(rootSigs := b.rootSigs[..n]), x, c)
                 || (sig.id == x.id && c.verify(b.document, sig.sig, x.der))
    ensures SignedBy(b.(rootSigs := b.rootSigs[..n]), x, c) ==> x.id != b.rootSigs[n].id
  {
    var less, more := b.(rootSigs := b.rootSigs[..n]), b.(rootSigs := b.rootSigs[..n + 1]);
    if SignedBy(less, x, c) {
      var i :| 0 <= i < n && less.rootSigs[i].id == x.id && c.verify(b.document, less.rootSigs[i].sig, x.der);
      assert more.rootSigs[i] == less.rootSigs[i];
      AscendingDistinct(b.rootSigs, i, n);
    }
    assert more.rootSigs[n] == b.rootSigs[n];
    if SignedBy(more, x, c) {
      var i :| 0 <= i <= n && more.rootSigs[i].id == x.id && c.verify(b.document, more.rootSigs[i].sig, x.der);
      assert i < n ==> less.rootSigs[i] == more.rootSigs[i];
    }
  }

  /** Counts root signatures that verify; each counts one distinct root. */
  method CountRootSigs(b: Bundle, roots: RootSet, c: Crypto) returns (valid: nat)
    requires Ascending(b.rootSigs) && DistinctRoots(roots.keys)
    ensures valid == |Signers(b, roots, c)|
  {
    hide Signers, FirstRoot;
    valid := 0;
    assert SignersUpTo(b, 0, roots, c) == {} by { NoSigners(b, roots, c); }
    for i := 0 to |b.rootSigs|
      invariant valid == |SignersUpTo(b, i, roots, c)|
    {
      SignersStep(b, i, roots, c);
      var j := 0;
      FindRoot(roots.keys, b.rootSigs[i].id, 0);
      assert roots.keys[0..] == roots.keys;
      while j < |roots.keys|
        invariant j <= |roots.keys|
        invariant FirstRoot(roots.keys, b.rootSigs[i].id) == FirstRoot(roots.keys[j..], b.rootSigs[i].id)
        invariant valid == |SignersUpTo(b, i, roots, c)|
      {
        FindRoot(roots.keys, b.rootSigs[i].id, j);
        if b.rootSigs[i].id == roots.keys[j].id {
          break;
        }
        j := j + 1;
      }
      FindRoot(roots.keys, b.rootSigs[i].id, j);
      if j < |roots.keys| && c.verify(b.document, b.rootSigs[i].sig, roots.keys[j].der) {
        valid := valid + 1;
      }
    }
    assert b.(rootSigs := b.rootSigs[..|b.rootSigs|]) == b by { assert b.rootSigs[..|b.rootSigs|] == b.rootSigs; }
  }

  lemma NoSigners(b: Bundle, roots: RootSet, c: Crypto)
    ensures SignersUpTo(b, 0, roots, c) == {}
  {
  }

  lemma FindRoot(keys: seq<RootKey>, id: string, j: nat)
    requires j <= |keys|
    ensures j == |keys| ==> FirstRoot(keys[j..], id) == None
    ensures j < |keys| ==>
              FirstRoot(keys[j..], id) == if keys[j].id == id then Some(keys[j]) else FirstRoot(keys[j + 1..], id)
  {
    if j < |keys| {
      assert keys[j..][1..] == keys[j + 1..];
    }
  }

  /** The first delegated key with the given id, if any. */
  method FindKey(keys: seq<DelegatedKey>, id: string) returns (found: Option<DelegatedKey>)
    ensures found.Some? ==> found.value in keys && found.value.id == id
    ensures found.None? ==> forall k | k in keys :: k.id != id
  {
    for i := 0 to |keys|
      invariant forall j | 0 <= j < i :: keys[j].id != id
    {
      if keys[i].id == id {
        return Some(keys[i]);
      }
    }
    found := None;
  }

  /** Accepts exactly when at least threshold distinct roots signed the document and
      every later check passes. */
  method VerifyBundleWithRoots(binary: seq<Byte>, bundle: string, platform: string, roots: RootSet, policy: Policy,
                               c: Crypto)
    returns (r: Option<Verified>)
    requires DistinctRoots(roots.keys)
    ensures forall v :: r == Some(v) <==> Accepted(binary, bundle, platform, roots, policy, c, v)
  {
    hide ValidBundle, PrintBundle, PrintDelegation, Signers, Text;
    var ok, b := ParseBundle(bundle);
    if !ok {
      return None;
    }
    forall x | ValidBundle(x) && PrintBundle(x) == bundle ensures x == b {
      BundleCanonical(x, b);
    }
    BundleAscends(b);
    var valid := CountRootSigs(b, roots, c);
    if roots.threshold == 0 || valid < roots.threshold {
      return None;
    }
    var d;
    ok, d := ParseDelegation(Text(b.document), c);
    if !ok {
      return None;
    }
    forall x | ValidDelegation(x, c) && PrintDelegation(x) == Text(b.document) ensures x == d {
      DelegationCanonical(x, d, c);
    }
    if policy.checkExpiry && policy.now >= d.expires {
      return None;
    }
    if d.version < policy.minVersion {
      return None;
    }
    var key := FindKey(d.keys, b.keyId);
    if key.None? {
      return None;
    }
    DelegationIdsDistinct(d, c);
    forall k | k in d.keys && k.id == b.keyId ensures k == key.value {
      SameIdSameKey(d.keys, k, key.value);
    }
    if key.value.platform != platform || !c.verify(binary, b.signature, key.value.spki) {
      return None;
    }
    var v := Verified(d.version, d.expires, key.value.id, key.value.spki);
    assert Accepts(binary, bundle, platform, roots, policy, c, b, d, key.value, v);
    r := Some(v);
  }

  lemma BundleAscends(b: Bundle)
    requires ValidBundle(b)
    ensures Ascending(b.rootSigs)
  {
  }

  lemma DelegationIdsDistinct(d: Delegation, c: Crypto)
    requires ValidDelegation(d, c)
    ensures DistinctIds(d.keys)
  {
  }

  // ----- policies --------------------------------------------------------------------------

  function AcceptPolicy(now: int, floor: nat): Policy {
    Policy(true, now, floor)
  }

  const STARTUP_POLICY := Policy(false, 0, 0)

  /** An update is accepted exactly when its pair would pass the startup check, has
      not expired, and is not older than the floor; and with the same result. */
  lemma AcceptIsStartupAndMore(binary: seq<Byte>, bundle: string, platform: string, roots: RootSet, c: Crypto,
                               now: int, floor: nat, v: Verified)
    ensures Accepted(binary, bundle, platform, roots, AcceptPolicy(now, floor), c, v)
       <==> && Accepted(binary, bundle, platform, roots, STARTUP_POLICY, c, v)
            && now < v.expires && v.delegationVersion >= floor
  {
    hide ValidBundle, PrintBundle, ValidDelegation, PrintDelegation, Signers, Text;
    if b, d, k :| Accepts(binary, bundle, platform, roots, AcceptPolicy(now, floor), c, b, d, k, v) {
      assert Accepts(binary, bundle, platform, roots, STARTUP_POLICY, c, b, d, k, v);
    }
    if Accepted(binary, bundle, platform, roots, STARTUP_POLICY, c, v)
       && now < v.expires && v.delegationVersion >= floor {
      var b, d, k :| Accepts(binary, bundle, platform, roots, STARTUP_POLICY, c, b, d, k, v);
      assert Accepts(binary, bundle, platform, roots, AcceptPolicy(now, floor), c, b, d, k, v);
    }
  }

  // ----- updates and restarts -----------------------------------------------------------------

  /** One installed client: its binary and bundle on disk, and the floor of the
      process now running. */
  class Host {
    const platform: string
    const roots: RootSet
    const crypto: Crypto
    var binary: seq<Byte>
    var bundle: string
    var running: bool
    var selfDelegationVersion: nat
    ghost var floors: seq<nat>   // the floor of every process that has run

    /** Once a process has started: what is installed will start again, with a
        floor at least the current one, and floors have never gone down. */
    ghost predicate Valid()
      reads this
    {
      && DistinctRoots(roots.keys)
      && (forall i, j | 0 <= i < j < |floors| :: floors[i] <= floors[j])
      && (floors != [] ==>
            && floors[|floors| - 1] == selfDelegationVersion
            && (exists v :: Accepted(binary, bundle, platform, roots, STARTUP_POLICY, crypto, v)
                            && v.delegationVersion >= selfDelegationVersion))
      && (running ==> floors != [])
    }

    constructor (platform: string, roots: RootSet, crypto: Crypto, binary: seq<Byte>, bundle: string)
      requires DistinctRoots(roots.keys)
      ensures Valid() && floors == [] && !running
    {
      this.platform, this.roots, this.crypto, this.binary, this.bundle := platform, roots, crypto, binary, bundle;
      running, selfDelegationVersion, floors := false, 0, [];
    }

    /** The startup self-check.  It can fail only if no process ever ran. */
    method Start() returns (ok: bool)
      requires Valid()
      modifies this
      ensures Valid() && binary == old(binary) && bundle == old(bundle)
      ensures ok == running
      ensures ok ==> floors == old(floors) + [selfDelegationVersion]
      ensures old(floors) != [] ==> ok && selfDelegationVersion >= old(selfDelegationVersion)
    {
      hide Accepted;
      var r := VerifyBundleWithRoots(binary, bundle, platform, roots, STARTUP_POLICY, crypto);
      running := r.Some?;
      ok := running;
      if r.Some? {
        if floors != [] {
          ghost var v :| Accepted(binary, bundle, platform, roots, STARTUP_POLICY, crypto, v)
                         && v.delegationVersion >= selfDelegationVersion;
          assert v == r.value;
        }
        selfDelegationVersion := r.value.delegationVersion;
        floors := floors + [selfDelegationVersion];
      }
    }

    /** A downloaded pair is installed, binary and bundle together, if it verifies. */
    method Update(newBinary: seq<Byte>, newBundle: string, now: int) returns (ok: bool)
      requires Valid() && running
      modifies this
      ensures Valid() && running && floors == old(floors) && selfDelegationVersion == old(selfDelegationVersion)
      ensures ok <==> exists v :: Accepted(newBinary, newBundle, platform, roots, STARTUP_POLICY, crypto, v)
                                  && now < v.expires && v.delegationVersion >= selfDelegationVersion
      ensures if ok then binary == newBinary && bundle == newBundle else binary == old(binary) && bundle == old(bundle)
    {
      hide Accepted;
      var r := VerifyBundleWithRoots(newBinary, newBundle, platform, roots, AcceptPolicy(now, selfDelegationVersion),
                                     crypto);
      ok := r.Some?;
      var policy := AcceptPolicy(now, selfDelegationVersion);
      forall v
        ensures Accepted(newBinary, newBundle, platform, roots, policy, crypto, v)
           <==> && Accepted(newBinary, newBundle, platform, roots, STARTUP_POLICY, crypto, v)
                && now < v.expires && v.delegationVersion >= selfDelegationVersion
      {
        AcceptIsStartupAndMore(newBinary, newBundle, platform, roots, crypto, now, selfDelegationVersion, v);
      }
      if ok {
        binary, bundle := newBinary, newBundle;
        assert Accepted(binary, bundle, platform, roots, STARTUP_POLICY, crypto, r.value);
      }
    }
  }
}
