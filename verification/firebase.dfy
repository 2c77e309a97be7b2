/** The order/payment-proof store: backend selection by a one-shot latch,
    identifier generation, and the local-storage fallback of `saveOrder` and
    `submitPaymentProof`. The remote backend is reduced to the flag that
    selects it. */
module Firebase {
  import opened Wrappers
  import opened LocalStore

  // ---------------------------------------------------------------------
  // Configuration and the initialisation latch
  // ---------------------------------------------------------------------

  /** The six credentials read from the build environment; `None` when a
      variable is unset. */
  datatype Config = Config(
    apiKey: Option<string>,
    authDomain: Option<string>,
    projectId: Option<string>,
    storageBucket: Option<string>,
    messagingSenderId: Option<string>,
    appId: Option<string>)

  /** JavaScript truthiness of an optional string: present and non-empty. */
  predicate Truthy(v: Option<string>) {
    v.Some? && v.value != ""
  }

  /** `Object.values(cfg)`, in declaration order. */
  function ConfigValues(c: Config): seq<Option<string>> {
    [c.apiKey, c.authDomain, c.projectId, c.storageBucket, c.messagingSenderId, c.appId]
  }

  /** `hasConfig`: the remote backend is configured exactly when each of the
      six credentials is set and non-empty; one missing value disables it. */
  function HasConfig(c: Config): (r: bool)
    ensures r <==>
      && Truthy(c.apiKey) && Truthy(c.authDomain) && Truthy(c.projectId)
      && Truthy(c.storageBucket) && Truthy(c.messagingSenderId) && Truthy(c.appId)
  {
    forall v | v in ConfigValues(c) :: Truthy(v)
  }

  /** The module-level `initialized` / `firebaseEnabled` pair. */
  datatype Latch = Latch(initialized: bool, enabled: bool)

  /** The latch as the module is loaded. */
  const Fresh := Latch(false, false)

  /** What the first initialisation attempt meets: the configuration, and
      whether importing and initialising the SDK completes without throwing. */
  datatype Env = Env(config: Config, sdkInitSucceeds: bool)

  /** `ensureFirebase`: the first call decides and records whether the remote
      backend is used; a missing credential or a throwing SDK initialisation
      decides "no". Every later call returns the recorded decision and looks
      at nothing else. */
  function EnsureFirebase(l: Latch, env: Env): (res: (Latch, bool))
    ensures res.0.initialized && res.1 == res.0.enabled
    ensures l.initialized ==> res.0 == l
    ensures !l.initialized ==> (res.1 <==> HasConfig(env.config) && env.sdkInitSucceeds)
  {
    if l.initialized then (l, l.enabled)
    else if !HasConfig(env.config) then (Latch(true, false), false)
    else if env.sdkInitSucceeds then (Latch(true, true), true)
    else (Latch(true, false), false)
  }

  /** The answers of successive `ensureFirebase` calls, the i-th meeting
      environment `envs[i]`. */
  function Answers(l: Latch, envs: seq<Env>): (rs: seq<bool>)
    ensures |rs| == |envs|
    decreases |envs|
  {
    if envs == [] then []
    else
      var (l', r) := EnsureFirebase(l, envs[0]);
      [r] + Answers(l', envs[1..])
  }

  lemma {:induction false} AnswersOnceInitialized(l: Latch, envs: seq<Env>)
    requires l.initialized
    ensures forall i :: 0 <= i < |envs| ==> Answers(l, envs)[i] == l.enabled
  {
    if envs != [] {
      AnswersOnceInitialized(l, envs[1..]);
    }
  }

  /** The backend decision is taken once: however the environment looks at
      later calls, every call answers what the first call decided. */
  lemma DecidedOnce(envs: seq<Env>)
    requires |envs| > 0
    ensures forall i :: 0 <= i < |envs| ==>
      Answers(Fresh, envs)[i] == (HasConfig(envs[0].config) && envs[0].sdkInitSucceeds)
  {
    var (l', r) := EnsureFirebase(Fresh, envs[0]);
    AnswersOnceInitialized(l', envs[1..]);
  }

  // ---------------------------------------------------------------------
  // Identifiers
  // ---------------------------------------------------------------------

  const Alphabet := "abcdefghijklmnopqrstuvwxyz0123456789"

  /** The length `uid` uses when called without an argument. */
  const DefaultUidLength := 12

  /** A lower-case ASCII letter or a decimal digit. */
  predicate IsIdChar(c: char) {
    'a' <= c <= 'z' || '0' <= c <= '9'
  }

  /** A value `Math.random()` can return. */
  predicate IsDraw(x: real) {
    0.0 <= x < 1.0
  }

  predicate ValidDraws(draws: seq<real>) {
    forall i :: 0 <= i < |draws| ==> IsDraw(draws[i])
  }

  /** `Math.floor(Math.random() * chars.length)` for the draw `x`. */
  function DrawIndex(x: real): (k: nat)
    requires IsDraw(x)
    ensures k < |Alphabet|
  {
    (x * (|Alphabet| as real)).Floor
  }

  /** The character at position `k` of the alphabet: letters first, then
      digits. */
  function AlphabetChar(k: nat): (c: char)
    requires k < 36
    ensures IsIdChar(c)
  {
    if k < 26 then ('a' as int + k) as char else ('0' as int + k - 26) as char
  }

  lemma AlphabetLayout()
    ensures |Alphabet| == 36
    ensures forall k :: 0 <= k < 36 ==> Alphabet[k] == AlphabetChar(k)
  {
    assert Alphabet == seq(36, k requires 0 <= k < 36 => AlphabetChar(k));
  }

  /** `uid(len)` with `draws[i]` the i-th value of `Math.random()`: `len`
      characters, each a lower-case letter or digit picked by its draw. */
  function Uid(len: nat, draws: seq<real>): (id: string)
    requires len <= |draws| && ValidDraws(draws)
    ensures |id| == len
    ensures forall i :: 0 <= i < len ==> id[i] == Alphabet[DrawIndex(draws[i])]
    ensures forall i :: 0 <= i < len ==> IsIdChar(id[i])
  {
    AlphabetLayout();
    if len == 0 then ""
    else
      var prefix := Uid(len - 1, draws);
      var id := prefix + [Alphabet[DrawIndex(draws[len - 1])]];
      assert forall i :: 0 <= i < len - 1 ==> id[i] == prefix[i];
      id
  }

  /** The loop of `uid`, appending one character per iteration. */
  method GenerateUid(len: nat, draws: seq<real>) returns (out: string)
    requires len <= |draws| && ValidDraws(draws)
    ensures out == Uid(len, draws)
    ensures |out| == len && forall i :: 0 <= i < len ==> IsIdChar(out[i])
  {
    out := "";
    var i := 0;
    while i < len
      invariant i <= len
      invariant out == Uid(i, draws)
    {
      out := out + [Alphabet[DrawIndex(draws[i])]];
      i := i + 1;
    }
  }

  /** A draw that makes `uid` pick character `c`. */
  function DrawFor(c: char): (x: real)
    requires IsIdChar(c)
    ensures IsDraw(x) && Alphabet[DrawIndex(x)] == c
  {
    var k := if 'a' <= c <= 'z' then c as int - 'a' as int else 26 + c as int - '0' as int;
    var x := k as real / 36.0;
    assert DrawIndex(x) == k by {
      assert x * 36.0 == k as real;
    }
    AlphabetLayout();
    x
  }

  /** `uid` can produce every string of lower-case letters and digits: its
      range is exactly the identifiers `IsIdChar` describes. */
  lemma UidReachesEveryId(id: string)
    requires forall i :: 0 <= i < |id| ==> IsIdChar(id[i])
    ensures exists draws :: ValidDraws(draws) && |draws| == |id| && Uid(|id|, draws) == id
  {
    var draws := seq(|id|, i requires 0 <= i < |id| => DrawFor(id[i]));
    assert ValidDraws(draws);
    assert Uid(|id|, draws) == id;
  }

  // ---------------------------------------------------------------------
  // Records
  // ---------------------------------------------------------------------

  const Pending := "pending"
  const PaymentSubmitted := "payment_submitted"

  /** The record `saveOrder` stores for caller input `order`, generated id
      `id` and clock reading `now`: every input field except `status` and
      `createdAt`, which are overridden; `id` is the generated one unless the
      input brings its own, which wins because it is spread afterwards. */
  predicate IsSavedOrder(d: Record, id: string, order: Record, now: int) {
    && d.Keys == order.Keys + {"id", "status", "createdAt"}
    && d["status"] == Str(Pending)
    && d["createdAt"] == Num(now)
    && d["id"] == (if "id" in order then order["id"] else Str(id))
    && forall f :: f in order && f != "status" && f != "createdAt" ==> d[f] == order[f]
  }

  /** An order record after its payment was reported: `status` reads
      payment_submitted, `paymentSubmittedAt` is stamped, and every other
      field is as before. */
  predicate IsMarkedSubmitted(d: Record, before: Record, at: int) {
    && d.Keys == before.Keys + {"status", "paymentSubmittedAt"}
    && d["status"] == Str(PaymentSubmitted)
    && d["paymentSubmittedAt"] == Num(at)
    && forall f :: f in before && f != "status" && f != "paymentSubmittedAt" ==> d[f] == before[f]
  }

  /** An uploaded file; only its presence matters to the fallback backend. */
  datatype File = File(name: string)

  /** The argument of `submitPaymentProof`. */
  datatype ProofRequest = ProofRequest(orderId: string, txnId: Option<string>, file: Option<File>)

  /** `txnId || null`: an absent or empty transaction id is stored as null. */
  function TxnValue(t: Option<string>): (v: Value)
    ensures v == Null <==> !Truthy(t)
    ensures v != Null ==> v == Str(t.value)
  {
    if t.Some? && t.value != "" then Str(t.value) else Null
  }

  /** The proof record for `req`, stamped `at`, with the given proof URL. */
  predicate IsProof(d: Record, req: ProofRequest, at: int, proofUrl: Value) {
    && d.Keys == {"orderId", "txnId", "status", "submittedAt", "proofUrl"}
    && d["orderId"] == Str(req.orderId)
    && d["txnId"] == TxnValue(req.txnId)
    && d["status"] == Str(PaymentSubmitted)
    && d["submittedAt"] == Num(at)
    && d["proofUrl"] == proofUrl
  }

  /** The record `saveOrder` stores: `{ id, ...order, status, createdAt }`. */
  function SavedOrder(id: string, order: Record, now: int): (d: Record)
    ensures IsSavedOrder(d, id, order, now)
  {
    map["id" := Str(id)] + order + map["status" := Str(Pending), "createdAt" := Num(now)]
  }

  /** The order record after `o.status = 'payment_submitted'` and
      `o.paymentSubmittedAt = at`. */
  function MarkSubmitted(o: Record, at: int): (d: Record)
    ensures IsMarkedSubmitted(d, o, at)
  {
    o["status" := Str(PaymentSubmitted)]["paymentSubmittedAt" := Num(at)]
  }

  /** The proof record `submitPaymentProof` stores. */
  function ProofRecord(req: ProofRequest, at: int, proofUrl: Value): (d: Record)
    ensures IsProof(d, req, at, proofUrl)
  {
    map[
      "orderId" := Str(req.orderId),
      "txnId" := TxnValue(req.txnId),
      "status" := Str(PaymentSubmitted),
      "submittedAt" := Num(at),
      "proofUrl" := proofUrl]
  }

  // ---------------------------------------------------------------------
  // Operations
  // ---------------------------------------------------------------------

  /** The process-wide state the store works on. */
  datatype System = System(latch: Latch, storage: Storage)

  /** How a store call ended: answered by the local fallback, handed to the
      remote backend (whose effect is outside this model), or thrown. */
  datatype Outcome<T> = Local(value: T) | Remote | Threw

  /** `saveOrder(order)` with clock reading `now` and random draws `draws`.
      In fallback mode it writes exactly one key, `orders:<id>` for the
      returned 12-character id, holding the input stamped pending; no other
      key changes. In remote mode local storage is untouched. */
  function SaveOrder(sys: System, env: Env, order: Record, now: int, draws: seq<real>)
    : (res: (System, Outcome<string>))
    requires DefaultUidLength <= |draws| && ValidDraws(draws)
    ensures res.0.latch == EnsureFirebase(sys.latch, env).0
    ensures res.1.Remote? <==> EnsureFirebase(sys.latch, env).1
    ensures !res.1.Threw?
    ensures res.1.Remote? ==> res.0.storage == sys.storage
    ensures res.1.Local? ==>
      var id := res.1.value;
      && id == Uid(DefaultUidLength, draws)
      && |id| == DefaultUidLength
      && (forall i :: 0 <= i < |id| ==> IsIdChar(id[i]))
      && res.0.storage.Keys == sys.storage.Keys + {OrderKey(id)}
      && (forall k :: k in sys.storage && k != OrderKey(id) ==> res.0.storage[k] == sys.storage[k])
      && res.0.storage[OrderKey(id)].Doc?
      && IsSavedOrder(res.0.storage[OrderKey(id)].fields, id, order, now)
  {
    var (latch, enabled) := EnsureFirebase(sys.latch, env);
    if enabled then
      (System(latch, sys.storage), Remote)
    else
      var id := Uid(DefaultUidLength, draws);
      (System(latch, sys.storage[OrderKey(id) := Doc(SavedOrder(id, order, now))]), Local(id))
  }

  /** The three clock readings one `submitPaymentProof` call makes: the
      proof's `submittedAt`, the timestamp in its key, and the order's
      `paymentSubmittedAt`. */
  datatype Stamps = Stamps(submittedAt: int, keyedAt: int, updatedAt: int)

  /** What `submitPaymentProof` resolves to. */
  datatype Receipt = Receipt(orderId: string, proofUrl: Value)

  /** `submitPaymentProof(req)`. `fileRead` is what reading the file as a data
      URL yields (`None` when the reader fails, which rejects the call before
      anything is written). In fallback mode the proof is stored under
      `payment_proofs:<orderId>:<keyedAt>` whether or not the order exists;
      if `orders:<orderId>` holds a record, that record is marked
      payment_submitted, and otherwise it is left alone; nothing else changes,
      and the caller's order id is echoed back. */
  function SubmitPaymentProof(sys: System, env: Env, req: ProofRequest, at: Stamps, fileRead: Option<string>)
    : (res: (System, Outcome<Receipt>))
    ensures res.0.latch == EnsureFirebase(sys.latch, env).0
    ensures res.1.Remote? <==> EnsureFirebase(sys.latch, env).1
    ensures res.1.Threw? <==> !EnsureFirebase(sys.latch, env).1 && req.file.Some? && fileRead.None?
    ensures !res.1.Local? ==> res.0.storage == sys.storage
    ensures res.1.Local? ==>
      var receipt := res.1.value;
      var s := res.0.storage;
      var pk := ProofKey(req.orderId, at.keyedAt);
      var ok := OrderKey(req.orderId);
      && receipt.orderId == req.orderId
      && (receipt.proofUrl == Null <==> req.file.None?)
      && (req.file.Some? ==> receipt.proofUrl == Str(fileRead.value))
      && s.Keys == sys.storage.Keys + {pk}
      && s[pk].Doc? && IsProof(s[pk].fields, req, at.submittedAt, receipt.proofUrl)
      && (forall k :: k in sys.storage && k != pk && k != ok ==> s[k] == sys.storage[k])
      && (ok in sys.storage && sys.storage[ok].Doc? ==>
            s[ok].Doc? && IsMarkedSubmitted(s[ok].fields, sys.storage[ok].fields, at.updatedAt))
      && (ok in sys.storage && sys.storage[ok].Raw? ==> s[ok] == sys.storage[ok])
  {
    var (latch, enabled) := EnsureFirebase(sys.latch, env);
    if enabled then
      (System(latch, sys.storage), Remote)
    else if req.file.Some? && fileRead.None? then
      (System(latch, sys.storage), Threw)
    else
      var proofUrl := if req.file.Some? then Str(fileRead.value) else Null;
      var proof := ProofRecord(req, at.submittedAt, proofUrl);
      var pk := ProofKey(req.orderId, at.keyedAt);
      var ok := OrderKey(req.orderId);
      KeySpacesDisjoint(req.orderId, req.orderId, at.keyedAt);
      var s2 := StoreProof(sys.storage, pk, ok, proof, at.updatedAt);
      (System(latch, s2), Local(Receipt(req.orderId, proofUrl)))
  }

  /** The local writes of `submitPaymentProof`: the proof under `pk`, then
      the order under `ok` marked if it holds a record. Only those two keys
      change, and `ok` is never created. */
  function StoreProof(s: Storage, pk: string, ok: string, proof: Record, at: int): (s': Storage)
    requires pk != ok
    ensures s'.Keys == s.Keys + {pk}
    ensures s'[pk] == Doc(proof)
    ensures forall k :: k in s && k != pk && k != ok ==> s'[k] == s[k]
    ensures ok in s && s[ok].Doc? ==> s'[ok] == Doc(MarkSubmitted(s[ok].fields, at))
    ensures ok in s && s[ok].Raw? ==> s'[ok] == s[ok]
  {
    var s1 := s[pk := Doc(proof)];
    if ok in s1 && s1[ok].Doc? then s1[ok := Doc(MarkSubmitted(s1[ok].fields, at))] else s1
  }

  // ---------------------------------------------------------------------
  // Properties across calls
  // ---------------------------------------------------------------------

  /** The stored `id` field equals the returned id exactly when the caller's
      input has no `id` field of its own (or one with that very value): the
      returned id is the key suffix either way. */
  lemma StoredIdShadowing(sys: System, env: Env, order: Record, now: int, draws: seq<real>)
    requires DefaultUidLength <= |draws| && ValidDraws(draws)
    requires SaveOrder(sys, env, order, now, draws).1.Local?
    ensures var (sys', out) := SaveOrder(sys, env, order, now, draws);
      var d := sys'.storage[OrderKey(out.value)].fields;
      (d["id"] == Str(out.value) <==> "id" !in order || order["id"] == Str(out.value))
  {
  }

  predicate IsSubmittedEntry(e: Entry) {
    e.Doc? && "status" in e.fields && e.fields["status"] == Str(PaymentSubmitted)
  }

  /** An order only reads payment_submitted once a proof naming its id has
      been stored. */
  ghost predicate SubmittedHasProof(s: Storage) {
    forall id :: OrderKey(id) in s && IsSubmittedEntry(s[OrderKey(id)]) ==> exists at :: ProofKey(id, at) in s
  }

  /** The store never writes under the `last_order_id` key, which the forms
      fill with plain text. */
  predicate LastOrderIdIsText(s: Storage) {
    LastOrderIdKey in s ==> s[LastOrderIdKey].Raw?
  }

  ghost predicate StoreInvariant(s: Storage) {
    SubmittedHasProof(s) && LastOrderIdIsText(s)
  }

  lemma OrderKeyInjective(a: string, b: string)
    requires OrderKey(a) == OrderKey(b)
    ensures a == b
  {
    OrderKeyRoundTrip(a);
    OrderKeyRoundTrip(b);
  }

  /** `saveOrder` keeps the store invariant. */
  lemma SaveOrderKeepsInvariant(sys: System, env: Env, order: Record, now: int, draws: seq<real>)
    requires DefaultUidLength <= |draws| && ValidDraws(draws)
    requires StoreInvariant(sys.storage)
    ensures StoreInvariant(SaveOrder(sys, env, order, now, draws).0.storage)
  {
    var (sys', out) := SaveOrder(sys, env, order, now, draws);
    var s, s' := sys.storage, sys'.storage;
    if out.Local? {
      var nk := OrderKey(out.value);
      KeySpacesDisjoint(out.value, "", 0);
      forall id | OrderKey(id) in s' && IsSubmittedEntry(s'[OrderKey(id)])
        ensures exists at :: ProofKey(id, at) in s'
      {
        assert OrderKey(id) != nk;
        var at :| ProofKey(id, at) in s;
        assert ProofKey(id, at) in s';
      }
    }
  }

  /** `submitPaymentProof` keeps the store invariant: the only order it marks
      is the one whose proof it has just stored. */
  lemma SubmitKeepsInvariant(sys: System, env: Env, req: ProofRequest, at: Stamps, fileRead: Option<string>)
    requires StoreInvariant(sys.storage)
    ensures StoreInvariant(SubmitPaymentProof(sys, env, req, at, fileRead).0.storage)
  {
    var (sys', out) := SubmitPaymentProof(sys, env, req, at, fileRead);
    var s, s' := sys.storage, sys'.storage;
    if out.Local? {
      var pk := ProofKey(req.orderId, at.keyedAt);
      KeySpacesDisjoint(req.orderId, req.orderId, at.keyedAt);
      forall id | OrderKey(id) in s' && IsSubmittedEntry(s'[OrderKey(id)])
        ensures exists t :: ProofKey(id, t) in s'
      {
        if id == req.orderId {
          assert pk in s';
        } else {
          if OrderKey(id) == OrderKey(req.orderId) {
            OrderKeyInjective(id, req.orderId);
          }
          KeySpacesDisjoint(id, req.orderId, at.keyedAt);
          assert s'[OrderKey(id)] == s[OrderKey(id)];
          var t :| ProofKey(id, t) in s;
          assert ProofKey(id, t) in s';
        }
      }
    }
  }

  /** Reporting a payment twice for an existing order keeps it
      payment_submitted: the second report changes nothing but the
      `paymentSubmittedAt` stamp. */
  lemma ResubmitKeepsStatus(
    sys: System, env: Env, req1: ProofRequest, at1: Stamps, read1: Option<string>,
    req2: ProofRequest, at2: Stamps, read2: Option<string>)
    requires req1.orderId == req2.orderId
    requires OrderKey(req1.orderId) in sys.storage && sys.storage[OrderKey(req1.orderId)].Doc?
    requires SubmitPaymentProof(sys, env, req1, at1, read1).1.Local?
    requires SubmitPaymentProof(SubmitPaymentProof(sys, env, req1, at1, read1).0, env, req2, at2, read2).1.Local?
    ensures
      var sys1 := SubmitPaymentProof(sys, env, req1, at1, read1).0;
      var sys2 := SubmitPaymentProof(sys1, env, req2, at2, read2).0;
      var ok := OrderKey(req1.orderId);
      && sys1.storage[ok].Doc? && sys2.storage[ok].Doc?
      && sys2.storage[ok].fields["status"] == Str(PaymentSubmitted)
      && sys2.storage[ok].fields == sys1.storage[ok].fields["paymentSubmittedAt" := Num(at2.updatedAt)]
  {
    var sys1 := SubmitPaymentProof(sys, env, req1, at1, read1).0;
    var ok := OrderKey(req1.orderId);
    var d0 := sys.storage[ok].fields;
    SubmitMarksOrder(sys, env, req1, at1, read1);
    SubmitMarksOrder(sys1, env, req2, at2, read2);
    MarkTwice(d0, at1.updatedAt, at2.updatedAt);
  }

  /** A fallback `submitPaymentProof` for an order stored as a record
      replaces that record by its marked copy. */
  lemma SubmitMarksOrder(sys: System, env: Env, req: ProofRequest, at: Stamps, fileRead: Option<string>)
    requires OrderKey(req.orderId) in sys.storage && sys.storage[OrderKey(req.orderId)].Doc?
    requires SubmitPaymentProof(sys, env, req, at, fileRead).1.Local?
    ensures var ok := OrderKey(req.orderId);
      SubmitPaymentProof(sys, env, req, at, fileRead).0.storage[ok]
        == Doc(MarkSubmitted(sys.storage[ok].fields, at.updatedAt))
  {
    KeySpacesDisjoint(req.orderId, req.orderId, at.keyedAt);
  }

  /** Marking an already marked record again only moves its stamp. */
  lemma MarkTwice(d: Record, t1: int, t2: int)
    ensures MarkSubmitted(MarkSubmitted(d, t1), t2) == MarkSubmitted(d, t1)["paymentSubmittedAt" := Num(t2)]
  {
    var d1 := MarkSubmitted(d, t1);
    assert d1["status" := Str(PaymentSubmitted)] == d1;
  }

  /** Remembering an order id under `last_order_id`, as both forms do,
      keeps the store invariant. */
  lemma RememberOrderKeepsInvariant(s: Storage, id: string)
    requires StoreInvariant(s)
    ensures StoreInvariant(s[LastOrderIdKey := Raw(id)])
  {
    var s' := s[LastOrderIdKey := Raw(id)];
    forall oid | OrderKey(oid) in s' && IsSubmittedEntry(s'[OrderKey(oid)])
      ensures exists t :: ProofKey(oid, t) in s'
    {
      KeySpacesDisjoint(oid, oid, 0);
      var t :| ProofKey(oid, t) in s;
      assert ProofKey(oid, t) in s';
    }
  }

  /** A fallback `saveOrder` followed by remembering its id under
      `last_order_id`: two keys are written, the order and the reminder, and
      nothing else changes. */
  lemma SaveThenRemember(sys: System, env: Env, order: Record, now: int, draws: seq<real>)
    requires DefaultUidLength <= |draws| && ValidDraws(draws)
    requires !EnsureFirebase(sys.latch, env).1
    ensures var id := Uid(DefaultUidLength, draws);
      var s' := SaveOrder(sys, env, order, now, draws).0.storage[LastOrderIdKey := Raw(id)];
      && s'.Keys == sys.storage.Keys + {OrderKey(id), LastOrderIdKey}
      && s'[LastOrderIdKey] == Raw(id)
      && s'[OrderKey(id)].Doc?
      && IsSavedOrder(s'[OrderKey(id)].fields, id, order, now)
      && (forall k :: k in sys.storage && k != OrderKey(id) && k != LastOrderIdKey ==> s'[k] == sys.storage[k])
  {
    var id := Uid(DefaultUidLength, draws);
    var s1 := SaveOrder(sys, env, order, now, draws).0.storage;
    KeySpacesDisjoint(id, "", 0);
    WriteAfterWrite(sys.storage, s1, OrderKey(id), LastOrderIdKey, Raw(id));
  }

  /** A map that differs from `s` only at the new key `k1`, then written at
      `k2`, differs from `s` only at those two keys. */
  lemma WriteAfterWrite(s: Storage, s1: Storage, k1: string, k2: string, e: Entry)
    requires k1 != k2
    requires s1.Keys == s.Keys + {k1}
    requires forall k :: k in s && k != k1 ==> s1[k] == s[k]
    ensures var s2 := s1[k2 := e];
      && s2.Keys == s.Keys + {k1, k2}
      && s2[k1] == s1[k1]
      && s2[k2] == e
      && (forall k :: k in s && k != k1 && k != k2 ==> s2[k] == s[k])
  {
  }
}
