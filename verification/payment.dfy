/** The payment form: the order id prefilled from `last_order_id`, the two
    guards in front of a submission, and what success and failure leave
    behind. */
module Payment {
  import opened Wrappers
  import opened LocalStore
  import opened Firebase
  import opened Feedback
  import opened PrePurchase

  const OrderIdRequired := "Order ID is required"
  const ProofRequired := "Enter Transaction ID or upload screenshot"
  const SubmittedText := "Payment proof submitted. Status updated to payment_submitted."
  const SubmitFailedText := "Could not submit payment proof. Please try again."

  datatype PaymentState = PaymentState(
    orderId: string, txnId: string, file: Option<File>, loading: bool, message: Option<Message>)

  /** The form as first rendered. */
  const Blank := PaymentState("", "", None, false, None)

  /** The mount effect: the order id is taken from `last_order_id` when that
      holds a non-empty value, and the form is left alone otherwise. */
  function Prefill(st: PaymentState, s: Storage): (st': PaymentState)
    ensures LastOrderIdKey in s && s[LastOrderIdKey].Raw? && s[LastOrderIdKey].text != "" ==>
      st' == st.(orderId := s[LastOrderIdKey].text)
    ensures (LastOrderIdKey !in s || s[LastOrderIdKey] == Raw("")) ==> st' == st
  {
    match Get<string, Entry>(s, LastOrderIdKey)
    case Some(Raw(last)) => if last != "" then st.(orderId := last) else st
    case _ => st
  }

  /** The synchronous start of `onSubmit`. A missing order id, or an order id
      with neither a transaction id nor a file, sets its message and submits
      nothing; otherwise the form starts loading and `submitPaymentProof`
      receives exactly the form's order id, transaction id and file. */
  function BeginSubmit(st: PaymentState): (res: (PaymentState, Option<ProofRequest>))
    ensures res.1.Some? <==> st.orderId != "" && (st.txnId != "" || st.file.Some?)
    ensures st.orderId == "" ==> res.0 == st.(message := Some(Message(Error, OrderIdRequired)))
    ensures st.orderId != "" && st.txnId == "" && st.file.None? ==>
      res.0 == st.(message := Some(Message(Error, ProofRequired)))
    ensures res.1.Some? ==>
      res.1.value == ProofRequest(st.orderId, Some(st.txnId), st.file) && res.0 == st.(loading := true)
  {
    if st.orderId == "" then (st.(message := Some(Message(Error, OrderIdRequired))), None)
    else if st.txnId == "" && st.file.None? then (st.(message := Some(Message(Error, ProofRequired))), None)
    else (st.(loading := true), Some(ProofRequest(st.orderId, Some(st.txnId), st.file)))
  }

  /** The end of `onSubmit` once `submitPaymentProof` settled with `res`
      (`None` when it threw). Success remembers the echoed order id, clears
      the transaction id and the file and keeps the order id; failure shows
      the error and keeps all three fields. Loading stops either way. */
  function FinishSubmit(st: PaymentState, s: Storage, res: Option<Receipt>): (out: (PaymentState, Storage))
    ensures !out.0.loading && out.0.orderId == st.orderId
    ensures res.None? ==>
      && out.0 == st.(loading := false, message := Some(Message(Error, SubmitFailedText)))
      && out.1 == s
    ensures res.Some? ==>
      && out.0.txnId == "" && out.0.file.None?
      && out.0.message == Some(Message(Success, SubmittedText))
      && out.1 == (if res.value.orderId != "" then s[LastOrderIdKey := Raw(res.value.orderId)] else s)
  {
    match res
    case None => (st.(loading := false, message := Some(Message(Error, SubmitFailedText))), s)
    case Some(r) =>
      var s' := if r.orderId != "" then s[LastOrderIdKey := Raw(r.orderId)] else s;
      (st.(txnId := "", file := None, loading := false, message := Some(Message(Success, SubmittedText))), s')
  }

  /** `onSubmit` in full. `at` and `fileRead` are the clock readings and the
      file reader's answer the store call meets. When the remote backend is
      selected, `remoteProofUrl` is the proof URL it resolves with (`None`
      when the call throws); the receipt echoes the form's own order id, as
      the store does in both modes. The order id is never changed. A
      guarded-off submission leaves the store and the latch alone. One that
      goes ahead ends loading, and succeeds exactly when the store answered:
      in fallback mode unless the file could not be read, in remote mode
      unless the remote call threw. Success clears the transaction id and the
      file and always ends with the form's order id remembered under
      `last_order_id`; in remote mode that is the only local change. A
      failure shows the error, keeps all three fields and changes nothing
      locally. */
  function SubmitProof(
    st: PaymentState, sys: System, env: Env, at: Stamps, fileRead: Option<string>, remoteProofUrl: Option<Value>)
    : (res: (PaymentState, System))
    ensures res.0.orderId == st.orderId
    ensures var go := st.orderId != "" && (st.txnId != "" || st.file.Some?);
      var remote := EnsureFirebase(sys.latch, env).1;
      var ok := go && (if remote then remoteProofUrl.Some? else !(st.file.Some? && fileRead.None?));
      var req := ProofRequest(st.orderId, Some(st.txnId), st.file);
      && (!go ==> res.1 == sys && res.0.loading == st.loading)
      && (go ==> !res.0.loading && res.1.latch == EnsureFirebase(sys.latch, env).0)
      && (go ==> (res.0.message == Some(Message(Success, SubmittedText)) <==> ok))
      && (go && !ok ==> res.1.storage == sys.storage)
      && (go && !ok ==> res.0 == st.(loading := false, message := Some(Message(Error, SubmitFailedText))))
      && (ok ==> res.0.txnId == "" && res.0.file.None?)
      && (ok && remote ==> res.1.storage == sys.storage[LastOrderIdKey := Raw(st.orderId)])
      && (ok && !remote ==>
            res.1.storage == SubmitPaymentProof(sys, env, req, at, fileRead).0.storage[LastOrderIdKey := Raw(st.orderId)])
  {
    var (st1, req) := BeginSubmit(st);
    match req
    case None => (st1, sys)
    case Some(r) =>
      var (sys1, out) := SubmitPaymentProof(sys, env, r, at, fileRead);
      var answer := match out
        case Local(receipt) => Some(receipt)
        case Remote => (match remoteProofUrl case Some(url) => Some(Receipt(r.orderId, url)) case None => None)
        case Threw => None;
      var (st2, s2) := FinishSubmit(st1, sys1.storage, answer);
      (st2, sys1.(storage := s2))
  }

  /** A submission the guards stop changes nothing but the message. */
  lemma GuardedSubmitChangesNothing(
    st: PaymentState, sys: System, env: Env, at: Stamps, fileRead: Option<string>, remoteProofUrl: Option<Value>)
    requires st.orderId == "" || (st.txnId == "" && st.file.None?)
    ensures var res := SubmitProof(st, sys, env, at, fileRead, remoteProofUrl);
      && res.1 == sys
      && res.0 == st.(message := res.0.message)
      && res.0.message == Some(Message(Error, if st.orderId == "" then OrderIdRequired else ProofRequired))
  {
  }

  /** In fallback mode a submission that passes the guards stores the proof
      of the form's order id, transaction id and file, remembers the order id
      under `last_order_id` and resets the transaction id and file, or, when
      the file cannot be read, writes nothing and keeps the fields. */
  lemma FallbackSubmitOutcome(
    st: PaymentState, sys: System, env: Env, at: Stamps, fileRead: Option<string>, remoteProofUrl: Option<Value>)
    requires st.orderId != "" && (st.txnId != "" || st.file.Some?)
    requires !EnsureFirebase(sys.latch, env).1
    ensures var res := SubmitProof(st, sys, env, at, fileRead, remoteProofUrl);
      var req := ProofRequest(st.orderId, Some(st.txnId), st.file);
      var (sys1, out) := SubmitPaymentProof(sys, env, req, at, fileRead);
      && (out.Threw? ==>
            && res.1 == sys1 && res.1.storage == sys.storage
            && res.0 == st.(loading := false, message := Some(Message(Error, SubmitFailedText))))
      && (out.Local? ==>
            && res.1.storage == sys1.storage[LastOrderIdKey := Raw(st.orderId)]
            && res.0 == st.(txnId := "", file := None, loading := false, message := Some(Message(Success, SubmittedText))))
  {
  }

  /** A submission keeps the store invariant. */
  lemma SubmitProofKeepsInvariant(
    st: PaymentState, sys: System, env: Env, at: Stamps, fileRead: Option<string>, remoteProofUrl: Option<Value>)
    requires StoreInvariant(sys.storage)
    ensures StoreInvariant(SubmitProof(st, sys, env, at, fileRead, remoteProofUrl).1.storage)
  {
    var (st1, req) := BeginSubmit(st);
    if req.Some? {
      SubmitKeepsInvariant(sys, env, req.value, at, fileRead);
      var sys1 := SubmitPaymentProof(sys, env, req.value, at, fileRead).0;
      RememberOrderKeepsInvariant(sys1.storage, st.orderId);
    }
  }

  /** The id a fallback pre-purchase remembers is the one the payment form
      reads the next time it mounts (a later page load: the form mounted
      with the page reads `last_order_id` once, before any order exists). */
  lemma SavedOrderPrefillsPayment(
    st: PurchaseState, sys: System, env: Env, now: int, draws: seq<real>, remoteId: Option<string>)
    requires DefaultUidLength <= |draws| && ValidDraws(draws)
    requires Validate(st.form).None?
    requires !EnsureFirebase(sys.latch, env).1
    ensures var s := SubmitOrder(st, sys, env, now, draws, remoteId).1.storage;
      Prefill(Blank, s) == Blank.(orderId := Uid(DefaultUidLength, draws))
  {
    ValidFormGoesThroughSaveOrder(st, sys, env, now, draws, remoteId);
  }

  /** A successful payment submission, in either mode, leaves its order id
      for the payment form to read the next time it mounts. */
  lemma SubmittedProofPrefills(
    st: PaymentState, sys: System, env: Env, at: Stamps, fileRead: Option<string>, remoteProofUrl: Option<Value>)
    requires st.orderId != "" && (st.txnId != "" || st.file.Some?)
    requires if EnsureFirebase(sys.latch, env).1 then remoteProofUrl.Some? else !(st.file.Some? && fileRead.None?)
    ensures Prefill(Blank, SubmitProof(st, sys, env, at, fileRead, remoteProofUrl).1.storage)
      == Blank.(orderId := st.orderId)
  {
  }
}
