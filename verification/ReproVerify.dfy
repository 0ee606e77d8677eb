/**
 The semantic half of the reproduction verifier (repro/verify.py, `main`):
 event hashes, manifest hash and receipt commitment. The digest is an arbitrary
 function of bytes.
 */
module ReproVerify {
  import opened Wrappers
  import opened PyText
  import opened CanonJson
  import Utf8

  type Digest = seq<Utf8.Byte> -> string

  /** Two different byte strings with one digest. */
  ghost predicate Collide(hash: Digest, x: seq<Utf8.Byte>, y: seq<Utf8.Byte>) {
    x != y && hash(x) == hash(y)
  }

  // ----- reading the documents -------------------------------------------------------

  /** Python truth of a decoded value. */
  predicate Truthy(v: Json) {
    match v
    case Null => false
    case Bool(b) => b
    case Int(n) => n != 0
    case Str(s) => s != ""
    case Arr(items) => items != []
    case Obj(ms) => ms != []
  }

  /** Six values are falsy. */
  lemma FalsyTable(v: Json)
    ensures !Truthy(v) <==> v in [Null, Bool(false), Int(0), Str(""), Arr([]), Obj([])]
  {
  }

  function GetOrNull(ms: seq<Member>, key: string): Json {
    match Get(ms, key) case None => Null case Some(v) => v
  }

  /** `ms.get(key) or default` */
  function GetOr(ms: seq<Member>, key: string, default: Json): Json {
    if Truthy(GetOrNull(ms, key)) then GetOrNull(ms, key) else default
  }

  /** Keys that look like hash or manifest metadata are left out of the hashed event. */
  predicate IsHashField(key: string) {
    var k := Lower(key);
    Contains(k, "hash") || Contains(k, "sha256") || Contains(k, "manifest")
  }

  function Hashed(ms: seq<Member>): seq<Member> {
    if ms == [] then []
    else if IsHashField(ms[0].key) then Hashed(ms[1..])
    else [ms[0]] + Hashed(ms[1..])
  }

  function EventBytes(ev: seq<Member>): seq<Utf8.Byte> {
    CanonBytes(Obj(Hashed(ev)))
  }

  const PRECOMPUTED_KEYS: seq<string> := ["event_sha256", "event_hash", "hash", "sha256"]

  /** A hash field that the event carries itself is absent, falsy or right. */
  predicate PrecomputedAgrees(ev: seq<Member>, key: string, digest: string) {
    var v := GetOrNull(ev, key);
    Truthy(v) ==> v == Str(digest)
  }

  predicate EventAccepted(hash: Digest, ev: Json) {
    && ev.Obj?
    && forall i | 0 <= i < |PRECOMPUTED_KEYS| ::
         PrecomputedAgrees(ev.members, PRECOMPUTED_KEYS[i], hash(EventBytes(ev.members)))
  }

  function ManifestPayload(count: nat, hashes: Json): Json {
    Obj([Member("event_count", Int(count)), Member("event_hashes", hashes)])
  }

  // ----- what acceptance means ---------------------------------------------------------

  predicate WellShaped(timeline: Json, receipt: Json) {
    && timeline.Obj? && receipt.Obj?
    && GetOr(timeline.members, "manifest", Obj([])).Obj?
    && GetOr(Manifest(timeline), "event_hashes", Arr([])).Arr?
    && GetOrNull(timeline.members, "events").Arr? && Truthy(GetOrNull(timeline.members, "events"))
  }

  function Manifest(timeline: Json): seq<Member>
    requires timeline.Obj? && GetOr(timeline.members, "manifest", Obj([])).Obj?
  {
    GetOr(timeline.members, "manifest", Obj([])).members
  }

  function Events(timeline: Json, receipt: Json): seq<Json>
    requires WellShaped(timeline, receipt)
  {
    GetOrNull(timeline.members, "events").items
  }

  function ListedHashes(timeline: Json, receipt: Json): seq<Json>
    requires WellShaped(timeline, receipt)
  {
    GetOr(Manifest(timeline), "event_hashes", Arr([])).items
  }

  predicate HashListed(hash: Digest, ev: Json, listed: Json) {
    ev.Obj? && listed == Str(hash(EventBytes(ev.members)))
  }

  function ManifestDigest(hash: Digest, hashes: seq<Json>): string {
    hash(CanonBytes(ManifestPayload(|hashes|, Arr(hashes))))
  }

  /** The receipt pins this digest and carries no Merkle path. */
  predicate ReceiptAccepted(receipt: Json, digest: string)
    requires receipt.Obj?
  {
    && Truthy(GetOrNull(receipt.members, "commitment"))
    && GetOrNull(receipt.members, "commitment") == Str(digest)
    && GetOrNull(receipt.members, "merkle_proof") in [Arr([]), Null]
  }

  predicate ManifestAccepted(timeline: Json, digest: string)
    requires timeline.Obj? && GetOr(timeline.members, "manifest", Obj([])).Obj?
  {
    && GetOrNull(Manifest(timeline), "manifest_sha256") == Str(digest)
    && (Truthy(GetOrNull(timeline.members, "frozen")) ==>
          GetOrNull(timeline.members, "frozen_manifest_sha256") == Str(digest))
  }

  /** Every check of the verifier passes. */
  predicate Accepts(hash: Digest, timeline: Json, receipt: Json) {
    && WellShaped(timeline, receipt)
    && var events, listed := Events(timeline, receipt), ListedHashes(timeline, receipt);
    && (forall i | 0 <= i < |events| :: EventAccepted(hash, events[i]))
    && |events| == |listed|
    && (forall i | 0 <= i < |events| :: HashListed(hash, events[i], listed[i]))
    && ManifestAccepted(timeline, ManifestDigest(hash, listed))
    && ReceiptAccepted(receipt, ManifestDigest(hash, listed))
  }

  // ----- the verifier --------------------------------------------------------------------

  datatype Failure =
    | Malformed
    | EventNotAnObject(i: nat)
    | EventHashMismatch(i: nat)
    | LengthMismatch
    | ListedHashMismatch(i: nat)
    | ManifestMismatch
    | ReceiptMismatch

  predicate EventsAccepted(hash: Digest, events: seq<Json>, n: nat)
    requires n <= |events|
  {
    forall i | 0 <= i < n :: EventAccepted(hash, events[i])
  }

  predicate HashesListed(hash: Digest, events: seq<Json>, listed: seq<Json>, n: nat)
    requires n <= |events| && n <= |listed|
  {
    forall i | 0 <= i < n :: HashListed(hash, events[i], listed[i])
  }

  /** What each way to fail says about the documents: it names the first check that does not pass. */
  predicate Explains(failure: Failure, hash: Digest, timeline: Json, receipt: Json) {
    if failure.Malformed? then !WellShaped(timeline, receipt)
    else
      && WellShaped(timeline, receipt)
      && var events, listed := Events(timeline, receipt), ListedHashes(timeline, receipt);
      match failure
      case Malformed => false
      case EventNotAnObject(i) => i < |events| && EventsAccepted(hash, events, i) && !events[i].Obj?
      case EventHashMismatch(i) =>
        i < |events| && EventsAccepted(hash, events, i) && events[i].Obj? && !EventAccepted(hash, events[i])
      case LengthMismatch => EventsAccepted(hash, events, |events|) && |events| != |listed|
      case ListedHashMismatch(i) =>
        && EventsAccepted(hash, events, |events|)
        && i < |events| == |listed| && HashesListed(hash, events, listed, i) && !HashListed(hash, events[i], listed[i])
      case ManifestMismatch =>
        && EventsAccepted(hash, events, |events|) && |events| == |listed|
        && HashesListed(hash, events, listed, |events|) && !ManifestAccepted(timeline, ManifestDigest(hash, listed))
      case ReceiptMismatch =>
        && EventsAccepted(hash, events, |events|) && |events| == |listed|
        && HashesListed(hash, events, listed, |events|) && ManifestAccepted(timeline, ManifestDigest(hash, listed))
        && !ReceiptAccepted(receipt, ManifestDigest(hash, listed))
  }

  method CheckEvent(hash: Digest, ev: Json) returns (ok: bool, digest: string)
    requires ev.Obj?
    ensures digest == hash(EventBytes(ev.members))
    ensures ok <==> EventAccepted(hash, ev)
  {
    digest := hash(EventBytes(ev.members));
    for k := 0 to |PRECOMPUTED_KEYS|
      invariant forall m | 0 <= m < k :: PrecomputedAgrees(ev.members, PRECOMPUTED_KEYS[m], digest)
    {
      var carried := GetOrNull(ev.members, PRECOMPUTED_KEYS[k]);
      if Truthy(carried) && carried != Str(digest) {
        assert !PrecomputedAgrees(ev.members, PRECOMPUTED_KEYS[k], digest);
        return false, digest;
      }
    }
    ok := true;
  }

  /** The loop over the events: their hashes, or the first event at fault. */
  method RecomputeHashes(hash: Digest, events: seq<Json>) returns (failure: Option<Failure>, recomputed: seq<string>)
    ensures failure.None? <==> forall i | 0 <= i < |events| :: EventAccepted(hash, events[i])
    ensures failure.None? ==> |recomputed| == |events|
    ensures failure.None? ==>
      forall i | 0 <= i < |events| :: recomputed[i] == hash(EventBytes(events[i].members))
    ensures failure.Some? ==>
      match failure.value
      case EventNotAnObject(i) => i < |events| && EventsAccepted(hash, events, i) && !events[i].Obj?
      case EventHashMismatch(i) =>
        i < |events| && EventsAccepted(hash, events, i) && events[i].Obj? && !EventAccepted(hash, events[i])
      case _ => false
  {
    recomputed := [];
    for i := 0 to |events|
      invariant |recomputed| == i
      invariant forall j | 0 <= j < i :: EventAccepted(hash, events[j])
      invariant forall j | 0 <= j < i :: recomputed[j] == hash(EventBytes(events[j].members))
    {
      if !events[i].Obj? {
        assert !EventAccepted(hash, events[i]);
        return Some(EventNotAnObject(i)), recomputed;
      }
      var ok, digest := CheckEvent(hash, events[i]);
      if !ok {
        return Some(EventHashMismatch(i)), recomputed;
      }
      recomputed := recomputed + [digest];
    }
    failure := None;
  }

  /** The loop that compares them with the manifest's list. */
  method FirstUnlisted(recomputed: seq<string>, listed: seq<Json>) returns (at: Option<nat>)
    requires |recomputed| == |listed|
    ensures at.None? ==> forall i | 0 <= i < |listed| :: listed[i] == Str(recomputed[i])
    ensures at.Some? ==> at.value < |listed| && listed[at.value] != Str(recomputed[at.value])
    ensures at.Some? ==> forall i | 0 <= i < at.value :: listed[i] == Str(recomputed[i])
  {
    for i := 0 to |recomputed|
      invariant forall j | 0 <= j < i :: listed[j] == Str(recomputed[j])
    {
      if listed[i] != Str(recomputed[i]) {
        return Some(i);
      }
    }
    at := None;
  }

  /** `main`, from the decoded documents to PASS or the first failure. */
  method Verify(hash: Digest, timeline: Json, receipt: Json) returns (failure: Option<Failure>)
    ensures failure.None? <==> Accepts(hash, timeline, receipt)
    ensures failure.Some? ==> Explains(failure.value, hash, timeline, receipt)
  {
    if !timeline.Obj? || !receipt.Obj? { return Some(Malformed); }
    var manifest := GetOr(timeline.members, "manifest", Obj([]));
    if !manifest.Obj? { return Some(Malformed); }
    var listed := GetOr(manifest.members, "event_hashes", Arr([]));
    if !listed.Arr? { return Some(Malformed); }
    var events := GetOrNull(timeline.members, "events");
    if !events.Arr? || events.items == [] { return Some(Malformed); }
    assert WellShaped(timeline, receipt);

    var fault, recomputed := RecomputeHashes(hash, events.items);
    if fault.Some? { return fault; }
    if |recomputed| != |listed.items| { return Some(LengthMismatch); }
    var at := FirstUnlisted(recomputed, listed.items);
    if at.Some? {
      assert !HashListed(hash, events.items[at.value], listed.items[at.value]);
      return Some(ListedHashMismatch(at.value));
    }

    var digest := ManifestDigest(hash, listed.items);
    if GetOrNull(manifest.members, "manifest_sha256") != Str(digest) { return Some(ManifestMismatch); }
    if Truthy(GetOrNull(timeline.members, "frozen"))
      && GetOrNull(timeline.members, "frozen_manifest_sha256") != Str(digest)
    {
      return Some(ManifestMismatch);
    }
    var commitment := GetOrNull(receipt.members, "commitment");
    if !Truthy(commitment) || commitment != Str(digest) { return Some(ReceiptMismatch); }
    var path := GetOrNull(receipt.members, "merkle_proof");
    if path != Arr([]) && path != Null { return Some(ReceiptMismatch); }
    failure := None;
  }

  // ----- binding ------------------------------------------------------------------------

  /** The same number of events, in the same order, equal on every hashed field. */
  predicate SameEvidence(es: seq<Json>, fs: seq<Json>)
    requires forall i | 0 <= i < |es| :: es[i].Obj?
    requires forall i | 0 <= i < |fs| :: fs[i].Obj?
  {
    && |es| == |fs|
    && forall i | 0 <= i < |es| :: Equal(Obj(Hashed(es[i].members)), Obj(Hashed(fs[i].members)))
  }

  lemma {:induction false} HashedMembers(ms: seq<Member>)
    ensures forall m :: m in Hashed(ms) <==> m in ms && !IsHashField(m.key)
  {
    if ms != [] {
      assert ms == [ms[0]] + ms[1..];
      HashedMembers(ms[1..]);
    }
  }

  lemma {:induction false} HashedKeysDistinct(ms: seq<Member>)
    requires DistinctKeys(ms)
    ensures DistinctKeys(Hashed(ms))
  {
    if ms != [] {
      HashedKeysDistinct(ms[1..]);
      HashedMembers(ms[1..]);
      var hs := Hashed(ms[1..]);
      forall j | 0 <= j < |hs| ensures hs[j].key != ms[0].key {
        assert hs[j] in ms[1..];
      }
    }
  }

  lemma HashedIsValid(ms: seq<Member>)
    requires Valid(Obj(ms))
    ensures Valid(Obj(Hashed(ms)))
    ensures forall m :: m in Hashed(ms) <==> m in ms && !IsHashField(m.key)
  {
    HashedMembers(ms);
    HashedKeysDistinct(ms);
    var hs := Hashed(ms);
    forall j | 0 <= j < |hs| ensures Valid(hs[j].value) {
      assert hs[j] in ms;
    }
  }

  lemma {:induction false} GetIsValid(ms: seq<Member>, key: string)
    requires Valid(Obj(ms))
    ensures Valid(GetOrNull(ms, key))
  {
    GetFinds(ms, key);
  }

  lemma EventsAreValid(timeline: Json, receipt: Json)
    requires WellShaped(timeline, receipt) && Valid(timeline)
    ensures forall i | 0 <= i < |Events(timeline, receipt)| :: Valid(Events(timeline, receipt)[i])
  {
    GetIsValid(timeline.members, "events");
  }

  /** The bytes whose digest is the commitment. */
  function CommittedBytes(timeline: Json, receipt: Json): seq<Utf8.Byte>
    requires WellShaped(timeline, receipt)
  {
    var listed := ListedHashes(timeline, receipt);
    CanonBytes(ManifestPayload(|listed|, Arr(listed)))
  }

  lemma ListedStrings(hash: Digest, timeline: Json, receipt: Json)
    requires Accepts(hash, timeline, receipt)
    ensures forall i | 0 <= i < |ListedHashes(timeline, receipt)| :: ListedHashes(timeline, receipt)[i].Str?
  {
    var events, listed := Events(timeline, receipt), ListedHashes(timeline, receipt);
    forall i | 0 <= i < |listed| ensures listed[i].Str? {
      assert HashListed(hash, events[i], listed[i]);
    }
  }

  /** Equal manifest payloads list the same hashes. */
  lemma PayloadDetermines(xs: seq<Json>, ys: seq<Json>)
    requires forall i | 0 <= i < |xs| :: xs[i].Str?
    requires forall i | 0 <= i < |ys| :: ys[i].Str?
    requires CanonBytes(ManifestPayload(|xs|, Arr(xs))) == CanonBytes(ManifestPayload(|ys|, Arr(ys)))
    ensures xs == ys
  {
    var p, q := ManifestPayload(|xs|, Arr(xs)), ManifestPayload(|ys|, Arr(ys));
    assert Valid(Arr(xs)) && Valid(Arr(ys));
    assert Valid(p) && Valid(q);
    CanonBytesDecide(p, q);
    assert HasEqual(p.members[1].value, p.members[1].key, q.members, false);
    assert Same(Arr(xs), Arr(ys), false);
  }

  /**
   Commitment binding. Two accepted timelines under one commitment carry the same
   evidence, or two of the byte strings that were hashed on the way collide: the
   two manifest payloads, or the two events at one index.
   */
  lemma CommitmentBinds(hash: Digest, t: Json, r: Json, t': Json, r': Json)
    requires Valid(t) && Valid(t') && Accepts(hash, t, r) && Accepts(hash, t', r')
    requires GetOrNull(r.members, "commitment") == GetOrNull(r'.members, "commitment")
    ensures
      || SameEvidence(Events(t, r), Events(t', r'))
      || Collide(hash, CommittedBytes(t, r), CommittedBytes(t', r'))
      || exists i | 0 <= i < |Events(t, r)| && i < |Events(t', r')| ::
           Collide(hash, EventBytes(Events(t, r)[i].members), EventBytes(Events(t', r')[i].members))
  {
    var es, fs := Events(t, r), Events(t', r');
    var xs, ys := ListedHashes(t, r), ListedHashes(t', r');
    assert hash(CommittedBytes(t, r)) == hash(CommittedBytes(t', r'));
    if CommittedBytes(t, r) == CommittedBytes(t', r') {
      ListedStrings(hash, t, r);
      ListedStrings(hash, t', r');
      PayloadDetermines(xs, ys);
      EventsAreValid(t, r);
      EventsAreValid(t', r');
      if forall i | 0 <= i < |es| :: !Collide(hash, EventBytes(es[i].members), EventBytes(fs[i].members)) {
        forall i | 0 <= i < |es|
          ensures Equal(Obj(Hashed(es[i].members)), Obj(Hashed(fs[i].members)))
        {
          assert HashListed(hash, es[i], xs[i]) && HashListed(hash, fs[i], ys[i]);
          assert !Collide(hash, EventBytes(es[i].members), EventBytes(fs[i].members));
          HashedIsValid(es[i].members);
          HashedIsValid(fs[i].members);
          CanonBytesDecide(Obj(Hashed(es[i].members)), Obj(Hashed(fs[i].members)));
        }
      }
    }
  }

  /** Conversely the commitment is a function of the evidence. */
  lemma EvidenceDeterminesCommitment(hash: Digest, t: Json, r: Json, t': Json, r': Json)
    requires Valid(t) && Valid(t') && Accepts(hash, t, r) && Accepts(hash, t', r')
    requires SameEvidence(Events(t, r), Events(t', r'))
    ensures GetOrNull(r.members, "commitment") == GetOrNull(r'.members, "commitment")
  {
    var es, fs := Events(t, r), Events(t', r');
    var xs, ys := ListedHashes(t, r), ListedHashes(t', r');
    EventsAreValid(t, r);
    EventsAreValid(t', r');
    forall i | 0 <= i < |es| ensures xs[i] == ys[i] {
      assert HashListed(hash, es[i], xs[i]) && HashListed(hash, fs[i], ys[i]);
      HashedIsValid(es[i].members);
      HashedIsValid(fs[i].members);
      CanonBytesDecide(Obj(Hashed(es[i].members)), Obj(Hashed(fs[i].members)));
    }
    assert xs == ys;
  }

  /**
   The binding is tight: with the manifest's two hash fields and the two frozen fields as
   they are, whatever replaces the fields that the filter drops, a timeline with the same
   evidence is accepted exactly when the hashes that its events carry about themselves agree.
   */
  lemma DroppedFieldsAreFree(hash: Digest, t: Json, r: Json, t': Json)
    requires Valid(t) && Valid(t') && Accepts(hash, t, r) && WellShaped(t', r)
    requires ListedHashes(t', r) == ListedHashes(t, r)
    requires GetOrNull(Manifest(t'), "manifest_sha256") == GetOrNull(Manifest(t), "manifest_sha256")
    requires GetOrNull(t'.members, "frozen") == GetOrNull(t.members, "frozen")
    requires GetOrNull(t'.members, "frozen_manifest_sha256") == GetOrNull(t.members, "frozen_manifest_sha256")
    requires forall i | 0 <= i < |Events(t', r)| :: Events(t', r)[i].Obj?
    requires SameEvidence(Events(t, r), Events(t', r))
    ensures Accepts(hash, t', r) <==> forall i | 0 <= i < |Events(t', r)| :: EventAccepted(hash, Events(t', r)[i])
  {
    var es, fs, listed := Events(t, r), Events(t', r), ListedHashes(t, r);
    EventsAreValid(t, r);
    EventsAreValid(t', r);
    forall i | 0 <= i < |es| ensures HashListed(hash, fs[i], listed[i]) {
      assert EventAccepted(hash, es[i]) && HashListed(hash, es[i], listed[i]);
      HashedIsValid(es[i].members);
      HashedIsValid(fs[i].members);
      CanonBytesDecide(Obj(Hashed(es[i].members)), Obj(Hashed(fs[i].members)));
    }
  }

  /** In particular when those are the ones the accepted timeline carries. */
  lemma SameReportedHashesPass(hash: Digest, ev: seq<Member>, ev': seq<Member>)
    requires EventAccepted(hash, Obj(ev)) && EventBytes(ev) == EventBytes(ev')
    requires forall k | 0 <= k < |PRECOMPUTED_KEYS| ::
      GetOrNull(ev', PRECOMPUTED_KEYS[k]) == GetOrNull(ev, PRECOMPUTED_KEYS[k])
    ensures EventAccepted(hash, Obj(ev'))
  {
    forall k | 0 <= k < |PRECOMPUTED_KEYS| ensures PrecomputedAgrees(ev', PRECOMPUTED_KEYS[k], hash(EventBytes(ev'))) {
      assert PrecomputedAgrees(ev, PRECOMPUTED_KEYS[k], hash(EventBytes(ev)));
    }
  }

  // ----- field names in literals ----------------------------------------------------------

  /** The lower-cased key contains one of the three words. */
  predicate NamesAHash(key: string) {
    Contains(Lower(key), "hash") || Contains(Lower(key), "sha256") || Contains(Lower(key), "manifest")
  }

  lemma {:induction false} HashedAppend(ms: seq<Member>, ns: seq<Member>)
    ensures Hashed(ms + ns) == Hashed(ms) + Hashed(ns)
  {
    if ms == [] {
      assert ms + ns == ns;
    } else {
      assert (ms + ns)[1..] == ms[1..] + ns;
      HashedAppend(ms[1..], ns);
    }
  }

  /** Such a member is not hashed, wherever it stands, and any other is. */
  lemma OnlyHashNamesAreDropped(before: seq<Member>, m: Member, after: seq<Member>)
    ensures NamesAHash(m.key) ==> EventBytes(before + [m] + after) == EventBytes(before + after)
    ensures !NamesAHash(m.key) ==> m in Hashed(before + [m] + after)
  {
    HashedAppend(before + [m], after);
    HashedAppend(before, [m]);
    HashedAppend(before, after);
    assert [m][1..] == [];
    assert Hashed(before) + [] == Hashed(before);
  }

  /** The four fields in which an event may report its own hash are among them. */
  lemma SelfReportsAreNotHashed(key: string)
    requires key in ["event_sha256", "event_hash", "hash", "sha256"]
    ensures NamesAHash(key)
  {
    IsLowerCase(key);
    if key == "event_sha256" {
      assert key[6..12] == "sha256";
      ContainsAt(key, "sha256", 6);
    } else if key == "event_hash" {
      assert key[6..10] == "hash";
      ContainsAt(key, "hash", 6);
    }
  }

  lemma IsLowerCase(key: string)
    requires key in ["event_sha256", "event_hash", "hash", "sha256"]
    ensures Lower(key) == key
  {
  }

  /** So an event may report its own hash, and nothing else, in any of the four. */
  lemma OwnHashIsAccepted(hash: Digest, ev: seq<Member>, key: string, report: Json)
    requires EventAccepted(hash, Obj(ev)) && Get(ev, key).None?
    requires key in ["event_sha256", "event_hash", "hash", "sha256"]
    ensures EventAccepted(hash, Obj(ev + [Member(key, report)])) <==>
      !Truthy(report) || report == Str(hash(EventBytes(ev)))
  {
    var m := Member(key, report);
    SelfReportsAreNotHashed(key);
    OnlyHashNamesAreDropped(ev, m, []);
    assert ev + [m] + [] == ev + [m] && ev + [] == ev;
    forall k: string ensures GetOrNull(ev + [m], k) == if k == key then report else GetOrNull(ev, k) {
      GetAppend(ev, m, k);
    }
    assert exists i | 0 <= i < |PRECOMPUTED_KEYS| :: PRECOMPUTED_KEYS[i] == key by {
      assert PRECOMPUTED_KEYS[0] == "event_sha256" && PRECOMPUTED_KEYS[1] == "event_hash";
      assert PRECOMPUTED_KEYS[2] == "hash" && PRECOMPUTED_KEYS[3] == "sha256";
    }
    var digest := hash(EventBytes(ev));
    assert forall i | 0 <= i < |PRECOMPUTED_KEYS| :: PrecomputedAgrees(ev, PRECOMPUTED_KEYS[i], digest);
  }

  lemma {:induction false} GetAppend(ms: seq<Member>, m: Member, key: string)
    ensures Get(ms + [m], key) ==
      if Get(ms, key).Some? then Get(ms, key) else if m.key == key then Some(m.value) else None
  {
    if ms == [] {
      assert ms + [m] == [m] && [m][1..] == [];
    } else {
      assert (ms + [m])[1..] == ms[1..] + [m];
      GetAppend(ms[1..], m, key);
    }
  }

  /** The two values, if there are any, are equal up to the order of object keys. */
  predicate SameField(x: Option<Json>, y: Option<Json>) {
    if x.Some? && y.Some? then Equal(x.value, y.value) else x == y
  }

  /** Two events agree on every field whose name contains none of the words. */
  predicate AgreeOn(a: seq<Member>, b: seq<Member>, key: string) {
    !NamesAHash(key) ==> SameField(Get(a, key), Get(b, key))
  }

  lemma {:induction false} GetHashed(ms: seq<Member>, key: string)
    requires !NamesAHash(key)
    ensures Get(Hashed(ms), key) == Get(ms, key)
  {
    if ms != [] {
      GetHashed(ms[1..], key);
    }
  }

  lemma EqualObjectsAgree(ms: seq<Member>, ns: seq<Member>, key: string)
    requires DistinctKeys(ms) && DistinctKeys(ns) && Equal(Obj(ms), Obj(ns))
    ensures SameField(Get(ms, key), Get(ns, key))
  {
    GetFinds(ms, key);
    GetFinds(ns, key);
    if HasKey(ms, key) {
      var i :| 0 <= i < |ms| && ms[i].key == key;
      GetAt(ms, i);
      HasEqualIsGet(ms[i].value, key, ns);
      assert HasEqual(ms[i].value, ms[i].key, ns, false);
    } else if HasKey(ns, key) {
      forall i | 0 <= i < |ms| ensures HasKey(ns, ms[i].key) {
        assert HasEqual(ms[i].value, ms[i].key, ns, false);
      }
      NoKeyLeftOver(ms, ns, key);
    }
  }

  /** The same number of events, which agree pairwise on every such field. */
  ghost predicate SameFields(es: seq<Json>, fs: seq<Json>)
    requires forall i | 0 <= i < |es| :: es[i].Obj?
    requires forall i | 0 <= i < |fs| :: fs[i].Obj?
  {
    |es| == |fs| && forall i, key | 0 <= i < |es| :: AgreeOn(es[i].members, fs[i].members, key)
  }

  /**
   Commitment binding, field by field: under one commitment the two timelines agree on
   every event and field whose name contains none of the three words, or two byte strings
   that were hashed collide.
   */
  lemma CommitmentBindsFields(hash: Digest, t: Json, r: Json, t': Json, r': Json)
    requires Valid(t) && Valid(t') && Accepts(hash, t, r) && Accepts(hash, t', r')
    requires Get(r.members, "commitment") == Get(r'.members, "commitment")
    ensures
      || SameFields(Events(t, r), Events(t', r'))
      || Collide(hash, CommittedBytes(t, r), CommittedBytes(t', r'))
      || exists i | 0 <= i < |Events(t, r)| && i < |Events(t', r')| ::
           Collide(hash, EventBytes(Events(t, r)[i].members), EventBytes(Events(t', r')[i].members))
  {
    var es, fs := Events(t, r), Events(t', r');
    CommitmentBinds(hash, t, r, t', r');
    EventsAreValid(t, r);
    EventsAreValid(t', r');
    if SameEvidence(es, fs) {
      forall i, key | 0 <= i < |es| ensures AgreeOn(es[i].members, fs[i].members, key) {
        if !NamesAHash(key) {
          HashedIsValid(es[i].members);
          HashedIsValid(fs[i].members);
          EqualObjectsAgree(Hashed(es[i].members), Hashed(fs[i].members), key);
          GetHashed(es[i].members, key);
          GetHashed(fs[i].members, key);
        }
      }
    }
  }

  // ----- a whole case -----------------------------------------------------------------------

  const SAMPLE_EVENT := [Member("id", Int(1))]

  /** A timeline of one event, with the hash it lists, the manifest's digest, and what it says of being frozen. */
  function SampleTimeline(report: Json, listed: string, digest: string, frozen: Json, frozenDigest: Json): Json {
    Obj([
      Member("manifest", Obj([Member("event_hashes", Arr([Str(listed)])), Member("manifest_sha256", Str(digest))])),
      Member("events", Arr([Obj(SAMPLE_EVENT + [Member("event_sha256", report)])])),
      Member("frozen", frozen), Member("frozen_manifest_sha256", frozenDigest)
    ])
  }

  function SampleReceipt(commitment: string, path: Json): Json {
    Obj([Member("commitment", Str(commitment)), Member("merkle_proof", path)])
  }

  /** What acceptance asks of each of their parts. */
  lemma SampleAcceptedExactly(
    hash: Digest, report: Json, listed: string, digest: string, frozen: Json, frozenDigest: Json,
    commitment: string, path: Json)
    ensures
      var eventDigest := hash(CanonBytes(Obj([Member("id", Int(1))])));
      var payload := Obj([Member("event_count", Int(1)), Member("event_hashes", Arr([Str(listed)]))]);
      Accepts(hash, SampleTimeline(report, listed, digest, frozen, frozenDigest), SampleReceipt(commitment, path)) <==>
        && (!Truthy(report) || report == Str(eventDigest)) && listed == eventDigest
        && digest == hash(CanonBytes(payload)) && (Truthy(frozen) ==> frozenDigest == Str(digest))
        && commitment == digest != "" && path in [Arr([]), Null]
  {
    var t, r := SampleTimeline(report, listed, digest, frozen, frozenDigest), SampleReceipt(commitment, path);
    SampleShaped(report, listed, digest, frozen, frozenDigest, r);
    OneEventAccepts(hash, t, r);
    SampleEventAccepted(hash, report);
    var d := ManifestDigest(hash, [Str(listed)]);
    SampleManifestAccepted(report, listed, digest, frozen, frozenDigest, d);
    SampleReceiptAccepted(commitment, path, d);
    assert ManifestPayload(1, Arr([Str(listed)]))
      == Obj([Member("event_count", Int(1)), Member("event_hashes", Arr([Str(listed)]))]);
  }

  /** Acceptance of a timeline of one event. */
  lemma OneEventAccepts(hash: Digest, t: Json, r: Json)
    requires WellShaped(t, r) && |Events(t, r)| == 1 && |ListedHashes(t, r)| == 1
    ensures var ev, listed, d := Events(t, r)[0], ListedHashes(t, r)[0], ManifestDigest(hash, ListedHashes(t, r));
      Accepts(hash, t, r) <==>
        EventAccepted(hash, ev) && HashListed(hash, ev, listed) && ManifestAccepted(t, d) && ReceiptAccepted(r, d)
  {
  }

  lemma SampleShaped(
    report: Json, listed: string, digest: string, frozen: Json, frozenDigest: Json, receipt: Json)
    requires receipt.Obj?
    ensures var t := SampleTimeline(report, listed, digest, frozen, frozenDigest);
      && WellShaped(t, receipt)
      && Events(t, receipt) == [Obj(SAMPLE_EVENT + [Member("event_sha256", report)])]
      && ListedHashes(t, receipt) == [Str(listed)]
  {
    SampleReads(report, listed, digest, frozen, frozenDigest);
  }

  lemma SampleManifestAccepted(
    report: Json, listed: string, digest: string, frozen: Json, frozenDigest: Json, d: string)
    ensures var t := SampleTimeline(report, listed, digest, frozen, frozenDigest);
      && GetOr(t.members, "manifest", Obj([])).Obj?
      && (ManifestAccepted(t, d) <==> digest == d && (Truthy(frozen) ==> frozenDigest == Str(d)))
  {
    SampleReads(report, listed, digest, frozen, frozenDigest);
  }

  lemma SampleReceiptAccepted(commitment: string, path: Json, d: string)
    ensures ReceiptAccepted(SampleReceipt(commitment, path), d) <==>
      commitment == d != "" && path in [Arr([]), Null]
  {
    var ms := SampleReceipt(commitment, path).members;
    assert |"commitment"| == 10 && |"merkle_proof"| == 12;
    assert DistinctKeys(ms);
    GetAt(ms, 0);
    GetAt(ms, 1);
  }

  lemma SampleReads(report: Json, listed: string, digest: string, frozen: Json, frozenDigest: Json)
    ensures var ms := SampleTimeline(report, listed, digest, frozen, frozenDigest).members;
      && GetOrNull(ms, "manifest")
           == Obj([Member("event_hashes", Arr([Str(listed)])), Member("manifest_sha256", Str(digest))])
      && GetOrNull(GetOrNull(ms, "manifest").members, "event_hashes") == Arr([Str(listed)])
      && GetOrNull(GetOrNull(ms, "manifest").members, "manifest_sha256") == Str(digest)
      && GetOrNull(ms, "events") == Arr([Obj(SAMPLE_EVENT + [Member("event_sha256", report)])])
      && GetOrNull(ms, "frozen") == frozen && GetOrNull(ms, "frozen_manifest_sha256") == frozenDigest
  {
    var ms := SampleTimeline(report, listed, digest, frozen, frozenDigest).members;
    var manifest := ms[0].value.members;
    assert |"manifest"| == 8 && |"events"| == 6 && |"frozen"| == 6 && |"frozen_manifest_sha256"| == 22;
    assert "events"[0] == 'e' && "frozen"[0] == 'f';
    assert DistinctKeys(ms);
    GetAt(ms, 0);
    GetAt(ms, 1);
    GetAt(ms, 2);
    GetAt(ms, 3);
    assert |"event_hashes"| == 12 && |"manifest_sha256"| == 15;
    assert DistinctKeys(manifest);
    GetAt(manifest, 0);
    GetAt(manifest, 1);
  }

  lemma SampleEventBytes(report: Json)
    ensures EventBytes(SAMPLE_EVENT + [Member("event_sha256", report)]) == CanonBytes(Obj([Member("id", Int(1))]))
    ensures Hashed(SAMPLE_EVENT) == SAMPLE_EVENT
  {
    assert SAMPLE_EVENT[1..] == [] && !IsHashField("id");
    SelfReportsAreNotHashed("event_sha256");
    OnlyHashNamesAreDropped(SAMPLE_EVENT, Member("event_sha256", report), []);
    assert SAMPLE_EVENT + [] == SAMPLE_EVENT;
    assert SAMPLE_EVENT + [Member("event_sha256", report)] + [] == SAMPLE_EVENT + [Member("event_sha256", report)];
  }

  lemma SampleEventAccepted(hash: Digest, report: Json)
    ensures var ev := SAMPLE_EVENT + [Member("event_sha256", report)];
      && EventBytes(ev) == CanonBytes(Obj([Member("id", Int(1))]))
      && (EventAccepted(hash, Obj(ev)) <==>
            !Truthy(report) || report == Str(hash(CanonBytes(Obj([Member("id", Int(1))])))))
  {
    SampleEventBytes(report);
    assert |"id"| == 2 && |"hash"| == 4;
    assert forall k | k in PRECOMPUTED_KEYS :: Get(SAMPLE_EVENT, k).None?;
    assert EventAccepted(hash, Obj(SAMPLE_EVENT));
    OwnHashIsAccepted(hash, SAMPLE_EVENT, "event_sha256", report);
  }
}
