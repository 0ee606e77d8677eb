/**
 The local bundle verifier (clawctl/main.py, `verify_bundle_data` and the
 helpers it calls): commitment invariant and receipt integrity hash.
 */
module BundleVerify {
  import opened Wrappers
  import opened PyText
  import opened CanonJson
  import opened ReproVerify

  // ----- the hashed receipt fields --------------------------------------------------

  const STABLE_FIELDS: seq<string> := [
    "receipt_id", "protocol_version", "network", "epoch_id", "timeline_id", "commitment", "issued_at"
  ]

  function FieldsFrom(receipt: seq<Member>, keys: seq<string>): seq<Member> {
    seq(|keys|, i requires 0 <= i < |keys| => Member(keys[i], GetOrNull(receipt, keys[i])))
  }

  /** All stable fields, a missing one as null. */
  function Payload(receipt: seq<Member>): Json {
    Obj(FieldsFrom(receipt, STABLE_FIELDS))
  }

  function ComputedHash(hash: Digest, receipt: seq<Member>): string {
    hash(CanonBytes(Payload(receipt)))
  }

  // ----- where a receipt carries its own hash ---------------------------------------

  predicate IsText(v: Json) {
    v.Str? && Strip(v.s) != ""
  }

  const INTEGRITY_KEYS: seq<string> := [
    "sha256", "receipt_hash_sha256", "receipt_canonical_hash_sha256", "canonical_hash_sha256",
    "canonical_sha256", "canonical_hash", "hash"
  ]

  const RECEIPT_KEYS: seq<string> := [
    "receipt_hash_sha256", "receipt_sha256", "receipt_hash", "canonical_hash", "canonical_sha256",
    "sha256", "hash", "integrity_sha256"
  ]

  predicate SomeText(v: Json, keys: seq<string>) {
    v.Obj? && exists i | 0 <= i < |keys| :: IsText(GetOrNull(v.members, keys[i]))
  }

  /** `_has_explicit_integrity_hash` */
  predicate HasExplicitHash(receipt: seq<Member>) {
    || SomeText(GetOrNull(receipt, "integrity"), INTEGRITY_KEYS)
    || SomeText(Obj(receipt), RECEIPT_KEYS)
    || var meta := GetOrNull(receipt, "meta");
       meta.Obj?
       && IsText(GetOr(meta.members, "canonical_hash_sha256", GetOrNull(meta.members, "canonical_sha256")))
  }

  const HASH_PATHS: seq<seq<string>> := [
    ["integrity", "sha256"],
    ["integrity", "receipt_hash_sha256"],
    ["integrity", "receipt_canonical_hash_sha256"],
    ["integrity", "canonical_hash_sha256"],
    ["integrity_sha256"],
    ["receipt_hash_sha256"],
    ["receipt_sha256"],
    ["receipt_hash"],
    ["canonical_hash"],
    ["canonical_sha256"],
    ["hash"],
    ["sha256"],
    ["meta", "canonical_hash_sha256"],
    ["checks", "canonical_hash"],
    ["checks", "canonical_sha256"],
    ["checks", "receipt_sha256"],
    ["commitment"]
  ]

  /** The value at the end of a path of object keys. */
  function Walk(v: Json, path: seq<string>): Option<Json>
    decreases |path|
  {
    if path == [] then Some(v)
    else if !v.Obj? then None
    else
      match Get(v.members, path[0])
      case None => None
      case Some(w) => Walk(w, path[1..])
  }

  /** The normalised digest at a path, if there is one. */
  function HexAt(receipt: Json, path: seq<string>): Option<string> {
    match Walk(receipt, path)
    case Some(Str(s)) => if IsHex64(Lower(Strip(s))) then Some(Lower(Strip(s))) else None
    case _ => None
  }

  /** The first path that holds a digest wins. */
  function FirstHex(receipt: Json, paths: seq<seq<string>>): Option<string> {
    if paths == [] then None
    else if HexAt(receipt, paths[0]).Some? then HexAt(receipt, paths[0])
    else FirstHex(receipt, paths[1..])
  }

  function EmbeddedHash(receipt: Json): Option<string> {
    FirstHex(receipt, HASH_PATHS)
  }

  /** The walk as a loop with a moving cursor. */
  method WalkPath(receipt: Json, path: seq<string>) returns (r: Option<Json>)
    ensures r == Walk(receipt, path)
  {
    var cur := receipt;
    assert path[0..] == path;
    for i := 0 to |path|
      invariant Walk(cur, path[i..]) == Walk(receipt, path)
    {
      if !cur.Obj? || Get(cur.members, path[i]).None? { return None; }
      cur := Get(cur.members, path[i]).value;
      assert path[i..][1..] == path[i + 1..];
    }
    r := Some(cur);
  }

  /** `_embedded_receipt_hash`; the fall-back to `commitment` is the last path. */
  method ReadEmbeddedHash(receipt: Json) returns (r: Option<string>)
    ensures r == EmbeddedHash(receipt)
  {
    r := ReadFirstHex(receipt, HASH_PATHS);
  }

  method ReadFirstHex(receipt: Json, paths: seq<seq<string>>) returns (r: Option<string>)
    ensures r == FirstHex(receipt, paths)
  {
    assert paths[0..] == paths;
    for i := 0 to |paths|
      invariant FirstHex(receipt, paths[i..]) == FirstHex(receipt, paths)
    {
      var end := WalkPath(receipt, paths[i]);
      if end.Some? && end.value.Str? {
        var v := Lower(Strip(end.value.s));
        if IsHex64(v) { return Some(v); }
      }
      assert HexAt(receipt, paths[i]).None?;
      assert paths[i..][1..] == paths[i + 1..];
    }
    r := None;
  }

  // ----- the two calling conventions ------------------------------------------------

  const TIMELINE_KEYS: seq<string> := ["timeline", "final_state", "timeline_state", "created", "timeline_state"]

  function FirstObject(bundle: seq<Member>, keys: seq<string>): seq<Member> {
    if keys == [] then []
    else if GetOrNull(bundle, keys[0]).Obj? then GetOrNull(bundle, keys[0]).members
    else FirstObject(bundle, keys[1..])
  }

  function MembersOf(v: Json): seq<Member> {
    if v.Obj? then v.members else []
  }

  /** `_normalize_bundle`: the timeline and receipt objects. A null receipt is an absent one. */
  function Normalize(bundle: seq<Member>, receipt: Json): (seq<Member>, seq<Member>) {
    if receipt != Null then (bundle, MembersOf(receipt))
    else
      var timeline := FirstObject(bundle, TIMELINE_KEYS);
      if GetOrNull(bundle, "receipt") != Null then (timeline, MembersOf(GetOrNull(bundle, "receipt")))
      else if GetOrNull(bundle, "anchored") != Null then (timeline, MembersOf(GetOrNull(bundle, "anchored")))
      else (timeline, bundle)
  }

  // ----- the verifier ---------------------------------------------------------------

  datatype BundleError =
    | BundleNotAnObject
    | ReceiptMissing
    | CommitmentMismatch
    | EmbeddedHashMissing
    | IntegrityMismatch

  /** The receipt's commitment is the frozen manifest's digest, when both are given. */
  predicate CommitmentHolds(timeline: seq<Member>, receipt: seq<Member>) {
    var frozen, commitment := GetOrNull(timeline, "frozen_manifest_sha256"), GetOrNull(receipt, "commitment");
    Truthy(frozen) && Truthy(commitment) ==> Same(frozen, commitment, true)
  }

  /** An explicitly embedded hash is readable and is the computed one. */
  predicate IntegrityHolds(hash: Digest, receipt: seq<Member>) {
    HasExplicitHash(receipt) ==> EmbeddedHash(Obj(receipt)) == Some(ComputedHash(hash, receipt))
  }

  /** What a verified bundle satisfies. */
  predicate BundleOk(hash: Digest, bundle: Json, receipt: Json) {
    && bundle.Obj?
    && var (timeline, rcpt) := Normalize(bundle.members, receipt);
    rcpt != [] && CommitmentHolds(timeline, rcpt) && IntegrityHolds(hash, rcpt)
  }

  method VerifyBundle(hash: Digest, bundle: Json, receipt: Json) returns (ok: bool, errors: seq<BundleError>)
    ensures ok <==> BundleOk(hash, bundle, receipt)
    ensures ok <==> errors == []
    // a bundle that cannot be read gets one error and no other
    ensures !bundle.Obj? ==> errors == [BundleNotAnObject]
    ensures bundle.Obj? && Normalize(bundle.members, receipt).1 == [] ==> errors == [ReceiptMissing]
    ensures bundle.Obj? && Normalize(bundle.members, receipt).1 != [] ==>
      var (timeline, rcpt) := Normalize(bundle.members, receipt);
      errors ==
        (if CommitmentHolds(timeline, rcpt) then [] else [CommitmentMismatch]) +
        (if IntegrityHolds(hash, rcpt) then []
         else if EmbeddedHash(Obj(rcpt)).None? then [EmbeddedHashMissing] else [IntegrityMismatch])
  {
    if !bundle.Obj? { return false, [BundleNotAnObject]; }
    var (timeline, rcpt) := Normalize(bundle.members, receipt);
    if rcpt == [] { return false, [ReceiptMissing]; }
    errors := [];
    if !CommitmentHolds(timeline, rcpt) { errors := errors + [CommitmentMismatch]; }
    var computed := ComputedHash(hash, rcpt);
    var embedded := ReadEmbeddedHash(Obj(rcpt));
    if HasExplicitHash(rcpt) {
      if embedded.None? {
        errors := errors + [EmbeddedHashMissing];
      } else if embedded.value != computed {
        errors := errors + [IntegrityMismatch];
      }
    }
    ok := errors == [];
  }

  // ----- binding --------------------------------------------------------------------

  predicate SameAt(a: seq<Member>, b: seq<Member>, key: string) {
    Equal(GetOrNull(a, key), GetOrNull(b, key))
  }

  /** The two receipts agree on every stable field, a missing one counting as null. */
  predicate SameStableFields(a: seq<Member>, b: seq<Member>) {
    && SameAt(a, b, "receipt_id") && SameAt(a, b, "protocol_version") && SameAt(a, b, "network")
    && SameAt(a, b, "epoch_id") && SameAt(a, b, "timeline_id") && SameAt(a, b, "commitment")
    && SameAt(a, b, "issued_at")
  }

  lemma SameFieldByField(a: seq<Member>, b: seq<Member>)
    ensures SameStableFields(a, b) <==> forall i | 0 <= i < |STABLE_FIELDS| :: SameAt(a, b, STABLE_FIELDS[i])
  {
    if forall i | 0 <= i < |STABLE_FIELDS| :: SameAt(a, b, STABLE_FIELDS[i]) {
      assert SameAt(a, b, STABLE_FIELDS[0]) && SameAt(a, b, STABLE_FIELDS[1]) && SameAt(a, b, STABLE_FIELDS[2]);
      assert SameAt(a, b, STABLE_FIELDS[3]) && SameAt(a, b, STABLE_FIELDS[4]) && SameAt(a, b, STABLE_FIELDS[5]);
      assert SameAt(a, b, STABLE_FIELDS[6]);
    }
  }

  lemma PayloadIsValid(receipt: seq<Member>)
    requires Valid(Obj(receipt))
    ensures Valid(Payload(receipt))
  {
    forall i | 0 <= i < |STABLE_FIELDS| ensures Valid(GetOrNull(receipt, STABLE_FIELDS[i])) {
      GetIsValid(receipt, STABLE_FIELDS[i]);
    }
  }

  /** Equal payloads and equal stable fields are the same thing. */
  lemma PayloadDecides(a: seq<Member>, b: seq<Member>)
    requires Valid(Obj(a)) && Valid(Obj(b))
    ensures CanonBytes(Payload(a)) == CanonBytes(Payload(b)) <==> SameStableFields(a, b)
  {
    PayloadIsValid(a);
    PayloadIsValid(b);
    CanonBytesDecide(Payload(a), Payload(b));
    var ms, ns := Payload(a).members, Payload(b).members;
    forall i | 0 <= i < |STABLE_FIELDS|
      ensures HasEqual(ms[i].value, ms[i].key, ns, false) <==> SameAt(a, b, STABLE_FIELDS[i])
    {
      HasEqualIsGet(ms[i].value, ms[i].key, ns);
      GetAt(ns, i);
    }
    assert Equal(Payload(a), Payload(b)) <==>
      forall i | 0 <= i < |STABLE_FIELDS| :: HasEqual(ms[i].value, ms[i].key, ns, false);
    SameFieldByField(a, b);
  }

  /**
   Two accepted receipts with explicit integrity hashes carry the same embedded
   hash exactly when they agree on all seven stable fields, unless the two hashed
   payloads collide.
   */
  lemma EmbeddedHashBinds(hash: Digest, a: seq<Member>, b: seq<Member>)
    requires Valid(Obj(a)) && Valid(Obj(b))
    requires HasExplicitHash(a) && IntegrityHolds(hash, a)
    requires HasExplicitHash(b) && IntegrityHolds(hash, b)
    ensures SameStableFields(a, b) ==> EmbeddedHash(Obj(a)) == EmbeddedHash(Obj(b))
    ensures EmbeddedHash(Obj(a)) == EmbeddedHash(Obj(b)) ==>
      || SameStableFields(a, b)
      || Collide(hash, CanonBytes(Payload(a)), CanonBytes(Payload(b)))
  {
    PayloadDecides(a, b);
  }

  // ----- which hash is enforced --------------------------------------------------------

  /**
   The hash that a receipt carries has to be the computed one, whatever the hash
   function, exactly when the receipt has an explicit hash. The place it is read from
   does not matter: a hash under `checks` is enforced beside an explicit one, and a
   hash in any place is ignored without one.
   */
  lemma EnforcedExactly(receipt: seq<Member>)
    ensures
      (forall hash: Digest | IntegrityHolds(hash, receipt) ::
        EmbeddedHash(Obj(receipt)) == Some(ComputedHash(hash, receipt))) <==> HasExplicitHash(receipt)
  {
    if !HasExplicitHash(receipt) {
      var blank: Digest := bytes => "";
      EmbeddedIsHex(Obj(receipt), HASH_PATHS);
      assert IntegrityHolds(blank, receipt) && ComputedHash(blank, receipt) == "";
    }
  }

  lemma {:induction false} EmbeddedIsHex(receipt: Json, paths: seq<seq<string>>)
    ensures FirstHex(receipt, paths).Some? ==> IsHex64(FirstHex(receipt, paths).value)
  {
    if paths != [] {
      EmbeddedIsHex(receipt, paths[1..]);
    }
  }

  /** Path k is the first one that leads to a digest, and it leads to this one. */
  predicate ReadFrom(receipt: seq<Member>, k: nat, digest: string) {
    && k < |HASH_PATHS| && HexAt(Obj(receipt), HASH_PATHS[k]) == Some(digest)
    && forall i | 0 <= i < k :: HexAt(Obj(receipt), HASH_PATHS[i]).None?
  }

  /**
   A receipt with an explicit hash is accepted exactly when the first digest along the
   read paths, the `commitment` included, is the computed hash.
   */
  lemma ExplicitPassesExactly(hash: Digest, receipt: seq<Member>)
    requires HasExplicitHash(receipt)
    ensures IntegrityHolds(hash, receipt) <==> exists k: nat :: ReadFrom(receipt, k, ComputedHash(hash, receipt))
  {
    var doc, right := Obj(receipt), ComputedHash(hash, receipt);
    if exists k: nat :: ReadFrom(receipt, k, right) {
      var k: nat :| ReadFrom(receipt, k, right);
      FirstHexIs(doc, HASH_PATHS, k);
    }
    if EmbeddedHash(doc).Some? {
      var k := FirstHexAt(doc, HASH_PATHS);
      assert IntegrityHolds(hash, receipt) ==> ReadFrom(receipt, k, right);
    }
  }

  lemma {:induction false} FirstHexAt(receipt: Json, paths: seq<seq<string>>) returns (k: nat)
    requires FirstHex(receipt, paths).Some?
    ensures k < |paths| && HexAt(receipt, paths[k]) == FirstHex(receipt, paths)
    ensures forall i | 0 <= i < k :: HexAt(receipt, paths[i]).None?
  {
    if HexAt(receipt, paths[0]).Some? {
      k := 0;
    } else {
      var m := FirstHexAt(receipt, paths[1..]);
      k := m + 1;
      forall i | 0 <= i < k ensures HexAt(receipt, paths[i]).None? {
        assert i > 0 ==> paths[i] == paths[1..][i - 1];
      }
    }
  }

  // ----- two cases of it -----------------------------------------------------------------

  /**
   A receipt whose only hash stands under `checks` is accepted whatever digest is written
   there, and whatever the hash function, although that digest is the one that is read.
   */
  lemma ChecksHashIsNotEnforced(hash: Digest, digest: string)
    requires IsHex64(digest)
    ensures var receipt := Obj([Member("checks", Obj([Member("canonical_hash", Str(digest))]))]);
      EmbeddedHash(receipt) == Some(digest) && BundleOk(hash, receipt, Null)
  {
    var receipt := Obj([Member("checks", Obj([Member("canonical_hash", Str(digest))]))]);
    ChecksHashIsRead(digest);
    OneMember(receipt.members[0]);
    forall k | k in TIMELINE_KEYS ensures k != "checks" { NotChecks(k); }
    NoObject(receipt.members, TIMELINE_KEYS);
    NotChecks("receipt");
    NotChecks("anchored");
    assert Normalize(receipt.members, Null) == ([], receipt.members);
    NotChecks("integrity");
    NotChecks("meta");
    forall k | k in RECEIPT_KEYS ensures k != "checks" { NotChecks(k); }
    assert !HasExplicitHash(receipt.members);
  }

  lemma ChecksHashIsRead(digest: string)
    requires IsHex64(digest)
    ensures EmbeddedHash(Obj([Member("checks", Obj([Member("canonical_hash", Str(digest))]))])) == Some(digest)
  {
    var checks := Obj([Member("canonical_hash", Str(digest))]);
    var receipt := Obj([Member("checks", checks)]);
    HexIsNormal(digest);
    OneMember(checks.members[0]);
    OneMember(receipt.members[0]);
    assert Walk(receipt, HASH_PATHS[13]) == Some(Str(digest)) by {
      assert HASH_PATHS[13][1..] == ["canonical_hash"];
      assert Walk(checks, ["canonical_hash"]) == Walk(Str(digest), []);
    }
    forall i | 0 <= i < 13 ensures HexAt(receipt, HASH_PATHS[i]).None? {
      assert HASH_PATHS[i][0] != "checks" by { NotChecks(HASH_PATHS[i][0]); }
    }
    FirstHexIs(receipt, HASH_PATHS, 13);
  }

  lemma OneMember(m: Member)
    ensures forall key :: Get([m], key) == if key == m.key then Some(m.value) else None
  {
    assert [m][1..] == [];
  }

  lemma NotChecks(k: string)
    requires |k| != 6 || k[0] != 'c'
    ensures k != "checks"
  {
  }

  lemma HexIsNormal(s: string)
    requires IsHex64(s)
    ensures Lower(Strip(s)) == s
  {
    StripFixes(s);
    assert IsLowerHexDigit(s[0]) && IsLowerHexDigit(s[63]);
    assert Lower(s) == s;
  }

  lemma {:induction false} FirstHexIs(receipt: Json, paths: seq<seq<string>>, k: nat)
    requires k < |paths| && HexAt(receipt, paths[k]).Some?
    requires forall i | 0 <= i < k :: HexAt(receipt, paths[i]).None?
    ensures FirstHex(receipt, paths) == HexAt(receipt, paths[k])
  {
    if k > 0 {
      assert paths[1..][k - 1] == paths[k];
      FirstHexIs(receipt, paths[1..], k - 1);
    }
  }

  lemma {:induction false} NoObject(bundle: seq<Member>, keys: seq<string>)
    requires forall k | k in keys :: !GetOrNull(bundle, k).Obj?
    ensures FirstObject(bundle, keys) == []
  {
    if keys != [] {
      assert keys[0] in keys;
      NoObject(bundle, keys[1..]);
    }
  }

  /** A receipt with an explicit hash but no digest in any of the read places is rejected. */
  lemma ExplicitMustBeReadable(hash: Digest, receipt: seq<Member>)
    requires HasExplicitHash(receipt)
    requires forall i | 0 <= i < |HASH_PATHS| :: HexAt(Obj(receipt), HASH_PATHS[i]).None?
    ensures !IntegrityHolds(hash, receipt)
  {
    NoHex(Obj(receipt), HASH_PATHS);
  }

  lemma {:induction false} NoHex(receipt: Json, paths: seq<seq<string>>)
    requires forall i | 0 <= i < |paths| :: HexAt(receipt, paths[i]).None?
    ensures FirstHex(receipt, paths).None?
  {
    if paths != [] {
      assert forall i | 0 <= i < |paths[1..]| :: paths[1..][i] == paths[i + 1];
      NoHex(receipt, paths[1..]);
    }
  }

  /** A receipt whose only hash is `integrity.hash`. */
  function HashUnderIntegrity(digest: string): seq<Member> {
    [Member("integrity", Obj([Member("hash", Str(digest))]))]
  }

  /** It is rejected even when that hash is the right one. */
  lemma RightHashRejected(hash: Digest)
    requires forall bytes :: IsHex64(hash(bytes))
    ensures var right := ComputedHash(hash, []);
      && ComputedHash(hash, HashUnderIntegrity(right)) == right
      && HasExplicitHash(HashUnderIntegrity(right)) && !IntegrityHolds(hash, HashUnderIntegrity(right))
  {
    var right := ComputedHash(hash, []);
    OneMember(HashUnderIntegrity(right)[0]);
    StableIsNotIntegrity();
    assert FieldsFrom(HashUnderIntegrity(right), STABLE_FIELDS) == FieldsFrom([], STABLE_FIELDS);
    assert IsHex64(right);
    HashUnderIntegrityIsExplicit(right);
    HashUnderIntegrityIsUnread(right);
    ExplicitMustBeReadable(hash, HashUnderIntegrity(right));
  }

  /** The same with a commitment beside it. */
  function WithCommitment(commitment: string, digest: string): seq<Member> {
    [Member("commitment", Str(commitment))] + HashUnderIntegrity(digest)
  }

  /**
   With the right hash under `integrity.hash` and a digest as commitment, which is what
   a receipt has, it is the commitment that is compared with the computed hash. So the
   receipt is accepted only in case the two happen to be the same.
   */
  lemma CommitmentIsComparedInstead(hash: Digest, commitment: string)
    requires IsHex64(commitment) && forall bytes :: IsHex64(hash(bytes))
    ensures var right := ComputedHash(hash, WithCommitment(commitment, ""));
      var receipt := WithCommitment(commitment, right);
      && ComputedHash(hash, receipt) == right && HasExplicitHash(receipt)
      && (IntegrityHolds(hash, receipt) <==> commitment == right)
  {
    var right := ComputedHash(hash, WithCommitment(commitment, ""));
    var receipt := WithCommitment(commitment, right);
    SamePayload(commitment, "", right);
    assert IsHex64(right);
    WithCommitmentIsExplicit(commitment, right);
    WithCommitmentReads(commitment, right);
  }

  lemma WithCommitmentGet(commitment: string, digest: string, key: string)
    ensures Get(WithCommitment(commitment, digest), key) ==
      if key == "commitment" then Some(Str(commitment))
      else if key == "integrity" then Some(Obj([Member("hash", Str(digest))]))
      else None
  {
    assert WithCommitment(commitment, digest)[1..] == HashUnderIntegrity(digest);
    OneMember(HashUnderIntegrity(digest)[0]);
  }

  /** The integrity object is not among the hashed fields. */
  lemma SamePayload(commitment: string, digest: string, digest': string)
    ensures Payload(WithCommitment(commitment, digest)) == Payload(WithCommitment(commitment, digest'))
  {
    var a, b := WithCommitment(commitment, digest), WithCommitment(commitment, digest');
    StableIsNotIntegrity();
    forall i | 0 <= i < |STABLE_FIELDS| ensures GetOrNull(a, STABLE_FIELDS[i]) == GetOrNull(b, STABLE_FIELDS[i]) {
      WithCommitmentGet(commitment, digest, STABLE_FIELDS[i]);
      WithCommitmentGet(commitment, digest', STABLE_FIELDS[i]);
    }
    assert FieldsFrom(a, STABLE_FIELDS) == FieldsFrom(b, STABLE_FIELDS);
  }

  lemma WithCommitmentIsExplicit(commitment: string, digest: string)
    requires IsHex64(digest)
    ensures HasExplicitHash(WithCommitment(commitment, digest))
  {
    var integrity := [Member("hash", Str(digest))];
    WithCommitmentGet(commitment, digest, "integrity");
    NotCommitment();
    OneMember(integrity[0]);
    IsTextHex(digest);
    assert IsText(GetOrNull(integrity, INTEGRITY_KEYS[6]));
  }

  lemma NotCommitment()
    ensures "integrity" != "commitment"
    ensures forall i | 0 <= i < 16 :: HASH_PATHS[i][0] != "commitment"
  {
    assert |"commitment"| == 10 && "commitment"[1] == 'o';
    assert forall i | 0 <= i < 16 :: |HASH_PATHS[i][0]| != 10 || HASH_PATHS[i][0][1] != 'o';
  }

  lemma WithCommitmentReads(commitment: string, digest: string)
    requires IsHex64(commitment)
    ensures EmbeddedHash(Obj(WithCommitment(commitment, digest))) == Some(commitment)
  {
    var receipt := Obj(WithCommitment(commitment, digest));
    NotCommitment();
    forall i | 0 <= i < 16 ensures HexAt(receipt, HASH_PATHS[i]).None? {
      NotThroughIntegrity(commitment, digest, HASH_PATHS[i]);
    }
    WithCommitmentGet(commitment, digest, "commitment");
    assert Walk(receipt, HASH_PATHS[16]) == Some(Str(commitment)) by {
      assert HASH_PATHS[16][1..] == [];
    }
    HexIsNormal(commitment);
    FirstHexIs(receipt, HASH_PATHS, 16);
  }

  lemma NotThroughIntegrity(commitment: string, digest: string, path: seq<string>)
    requires path in HASH_PATHS && path[0] != "commitment"
    ensures Walk(Obj(WithCommitment(commitment, digest)), path).None?
  {
    var integrity := Member("hash", Str(digest));
    WithCommitmentGet(commitment, digest, path[0]);
    if path[0] == "integrity" {
      HashIsNotRead(path);
      OneMember(integrity);
      assert path[1..][0] == path[1];
      assert Walk(Obj([integrity]), path[1..]).None?;
    }
  }

  lemma HashUnderIntegrityIsExplicit(digest: string)
    requires IsHex64(digest)
    ensures HasExplicitHash(HashUnderIntegrity(digest))
  {
    var integrity := [Member("hash", Str(digest))];
    OneMember(integrity[0]);
    OneMember(HashUnderIntegrity(digest)[0]);
    IsTextHex(digest);
    assert IsText(GetOrNull(integrity, INTEGRITY_KEYS[6]));
  }

  lemma HashUnderIntegrityIsUnread(digest: string)
    ensures forall i | 0 <= i < |HASH_PATHS| :: HexAt(Obj(HashUnderIntegrity(digest)), HASH_PATHS[i]).None?
  {
    var integrity := Member("hash", Str(digest));
    OneMember(integrity);
    OneMember(HashUnderIntegrity(digest)[0]);
    forall path | path in HASH_PATHS ensures Walk(Obj(HashUnderIntegrity(digest)), path).None? {
      if path[0] == "integrity" {
        HashIsNotRead(path);
        assert path[1..][0] == path[1];
        assert Walk(Obj([integrity]), path[1..]).None?;
      }
    }
  }

  lemma IsTextHex(s: string)
    requires IsHex64(s)
    ensures IsText(Str(s))
  {
    StripFixes(s);
    assert IsLowerHexDigit(s[0]) && IsLowerHexDigit(s[63]);
  }

  lemma StableIsNotIntegrity()
    ensures forall i | 0 <= i < |STABLE_FIELDS| :: STABLE_FIELDS[i] != "integrity"
  {
    assert "integrity"[1] == 'n';
    assert forall i | 0 <= i < |STABLE_FIELDS| :: |STABLE_FIELDS[i]| != 9 || STABLE_FIELDS[i][1] != 'n';
  }

  /** No read path is `integrity.hash`. */
  lemma HashIsNotRead(path: seq<string>)
    requires path in HASH_PATHS && path[0] == "integrity"
    ensures |path| == 2 && path[1] != "hash"
  {
    assert "integrity"[0] == 'i' && |"integrity"| == 9;
    assert "hash"[0] == 'h';
  }

  // ----- the places in literals ------------------------------------------------------------

  predicate TextUnder(v: Json, key: string) {
    v.Obj? && IsText(GetOrNull(v.members, key))
  }

  lemma TextUnderIntegrity(v: Json)
    ensures SomeText(v, INTEGRITY_KEYS) <==>
      || TextUnder(v, "hash") || TextUnder(v, "sha256") || TextUnder(v, "canonical_hash")
      || TextUnder(v, "canonical_sha256") || TextUnder(v, "canonical_hash_sha256")
      || TextUnder(v, "receipt_hash_sha256") || TextUnder(v, "receipt_canonical_hash_sha256")
  {
    var keys := INTEGRITY_KEYS;
    assert SomeText(v, keys) <==>
      || TextUnder(v, keys[0]) || TextUnder(v, keys[1]) || TextUnder(v, keys[2]) || TextUnder(v, keys[3])
      || TextUnder(v, keys[4]) || TextUnder(v, keys[5]) || TextUnder(v, keys[6]);
  }

  lemma TextAtTop(v: Json)
    ensures SomeText(v, RECEIPT_KEYS) <==>
      || TextUnder(v, "hash") || TextUnder(v, "sha256") || TextUnder(v, "canonical_hash")
      || TextUnder(v, "canonical_sha256") || TextUnder(v, "receipt_hash") || TextUnder(v, "receipt_sha256")
      || TextUnder(v, "receipt_hash_sha256") || TextUnder(v, "integrity_sha256")
  {
    var keys := RECEIPT_KEYS;
    assert SomeText(v, keys) <==>
      || TextUnder(v, keys[0]) || TextUnder(v, keys[1]) || TextUnder(v, keys[2]) || TextUnder(v, keys[3])
      || TextUnder(v, keys[4]) || TextUnder(v, keys[5]) || TextUnder(v, keys[6]) || TextUnder(v, keys[7]);
  }

  /** Every place where a hash is explicit; under `meta` the second one counts if the first one is empty. */
  lemma ExplicitExactly(receipt: seq<Member>)
    ensures var v, integrity, meta := Obj(receipt), GetOrNull(receipt, "integrity"), GetOrNull(receipt, "meta");
      HasExplicitHash(receipt) <==>
        || TextUnder(v, "hash") || TextUnder(v, "sha256") || TextUnder(v, "canonical_hash")
        || TextUnder(v, "canonical_sha256") || TextUnder(v, "receipt_hash") || TextUnder(v, "receipt_sha256")
        || TextUnder(v, "receipt_hash_sha256") || TextUnder(v, "integrity_sha256")
        || TextUnder(integrity, "hash") || TextUnder(integrity, "sha256") || TextUnder(integrity, "canonical_hash")
        || TextUnder(integrity, "canonical_sha256") || TextUnder(integrity, "canonical_hash_sha256")
        || TextUnder(integrity, "receipt_hash_sha256") || TextUnder(integrity, "receipt_canonical_hash_sha256")
        || TextUnder(meta, "canonical_hash_sha256")
        || (TextUnder(meta, "canonical_sha256") && !Truthy(GetOrNull(meta.members, "canonical_hash_sha256")))
  {
    var meta := GetOrNull(receipt, "meta");
    TextUnderIntegrity(GetOrNull(receipt, "integrity"));
    TextAtTop(Obj(receipt));
    if TextUnder(meta, "canonical_hash_sha256") {
      StripFixes("");
    }
  }

  lemma WalkOne(receipt: seq<Member>, key: string)
    ensures Walk(Obj(receipt), [key]) == Get(receipt, key)
  {
    assert [key][1..] == [];
  }

  lemma WalkTwo(receipt: seq<Member>, first: string, key: string)
    ensures var v := GetOrNull(receipt, first);
      Walk(Obj(receipt), [first, key]) == if v.Obj? then Get(v.members, key) else None
  {
    assert [first, key][1..] == [key];
    if GetOrNull(receipt, first).Obj? { WalkOne(GetOrNull(receipt, first).members, key); }
  }

  /** The order in which the places are read. */
  lemma ReadOrder()
    ensures |HASH_PATHS| == 17
    ensures HASH_PATHS[0] == ["integrity", "sha256"] && HASH_PATHS[1] == ["integrity", "receipt_hash_sha256"]
    ensures HASH_PATHS[2] == ["integrity", "receipt_canonical_hash_sha256"]
    ensures HASH_PATHS[3] == ["integrity", "canonical_hash_sha256"]
    ensures HASH_PATHS[4] == ["integrity_sha256"] && HASH_PATHS[5] == ["receipt_hash_sha256"]
    ensures HASH_PATHS[6] == ["receipt_sha256"] && HASH_PATHS[7] == ["receipt_hash"]
    ensures HASH_PATHS[8] == ["canonical_hash"] && HASH_PATHS[9] == ["canonical_sha256"]
    ensures HASH_PATHS[10] == ["hash"] && HASH_PATHS[11] == ["sha256"]
    ensures HASH_PATHS[12] == ["meta", "canonical_hash_sha256"] && HASH_PATHS[13] == ["checks", "canonical_hash"]
    ensures HASH_PATHS[14] == ["checks", "canonical_sha256"] && HASH_PATHS[15] == ["checks", "receipt_sha256"]
    ensures HASH_PATHS[16] == ["commitment"]
  {
  }

  /** A digest is read with the white space around it stripped and its letters lowered. */
  lemma HexIsNormalised(receipt: seq<Member>, key: string, s: string)
    requires Get(receipt, key) == Some(Str(s)) && |Strip(s)| == 64
    requires forall i | 0 <= i < 64 :: Lower(Strip(s))[i] in "0123456789abcdef"
    ensures HexAt(Obj(receipt), [key]) == Some(Lower(Strip(s)))
  {
    WalkOne(receipt, key);
  }

  // ----- both calling conventions in literals ------------------------------------------------

  lemma FirstObjectIs(bundle: seq<Member>, i: nat)
    requires i < |TIMELINE_KEYS| && GetOrNull(bundle, TIMELINE_KEYS[i]).Obj?
    requires forall k | 0 <= k < i :: !GetOrNull(bundle, TIMELINE_KEYS[k]).Obj?
    ensures FirstObject(bundle, TIMELINE_KEYS) == GetOrNull(bundle, TIMELINE_KEYS[i]).members
  {
    FirstObjectFrom(bundle, TIMELINE_KEYS, i);
  }

  lemma {:induction false} FirstObjectFrom(bundle: seq<Member>, keys: seq<string>, i: nat)
    requires i < |keys| && GetOrNull(bundle, keys[i]).Obj?
    requires forall k | 0 <= k < i :: !GetOrNull(bundle, keys[k]).Obj?
    ensures FirstObject(bundle, keys) == GetOrNull(bundle, keys[i]).members
  {
    if i > 0 {
      FirstObjectFrom(bundle, keys[1..], i - 1);
    }
  }

  /** The timeline is the first object under one of four keys, the receipt what is under two others, or the bundle. */
  lemma NormalizeExactly(bundle: seq<Member>, receipt: Json)
    ensures var (timeline, rcpt) := Normalize(bundle, receipt);
      var found := [GetOrNull(bundle, "timeline"), GetOrNull(bundle, "final_state"),
                    GetOrNull(bundle, "timeline_state"), GetOrNull(bundle, "created")];
      var inner := if GetOrNull(bundle, "receipt") != Null then GetOrNull(bundle, "receipt")
                   else GetOrNull(bundle, "anchored");
      if receipt != Null then timeline == bundle && Obj(rcpt) == (if receipt.Obj? then receipt else Obj([]))
      else
        && Obj(rcpt) == (if inner.Obj? then inner else if inner == Null then Obj(bundle) else Obj([]))
        && Obj(timeline) == if found[0].Obj? then found[0] else if found[1].Obj? then found[1]
                            else if found[2].Obj? then found[2] else if found[3].Obj? then found[3] else Obj([])
  {
    if receipt == Null {
      if GetOrNull(bundle, "timeline").Obj? { FirstObjectIs(bundle, 0); }
      else if GetOrNull(bundle, "final_state").Obj? { FirstObjectIs(bundle, 1); }
      else if GetOrNull(bundle, "timeline_state").Obj? { FirstObjectIs(bundle, 2); }
      else if GetOrNull(bundle, "created").Obj? { FirstObjectIs(bundle, 3); }
      else { NoObject(bundle, TIMELINE_KEYS); }
    }
  }

  /** The commitment is compared with the frozen manifest's digest when neither is empty. */
  lemma CommitmentExactly(timeline: seq<Member>, receipt: seq<Member>, frozen: string, commitment: string)
    requires Get(timeline, "frozen_manifest_sha256") == Some(Str(frozen))
    requires Get(receipt, "commitment") == Some(Str(commitment))
    ensures CommitmentHolds(timeline, receipt) <==> frozen == "" || commitment == "" || frozen == commitment
  {
  }

  /** Where both are given but are no texts, they are compared as Python compares them. */
  lemma OddCommitments(timeline: seq<Member>, receipt: seq<Member>, n: int)
    requires Get(timeline, "frozen_manifest_sha256") == Some(Bool(true)) && Get(receipt, "commitment") == Some(Int(n))
    ensures CommitmentHolds(timeline, receipt) <==> n in [0, 1]
  {
  }
}
