/** The pre-purchase form: the course catalogue, the three field checks,
    the order it builds, and what a submission does to the form and to the
    store. */
module PrePurchase {
  import opened Wrappers
  import opened Text
  import opened Decimal
  import opened LocalStore
  import opened Firebase
  import opened Feedback

  // ---------------------------------------------------------------------
  // Catalogue
  // ---------------------------------------------------------------------

  datatype Course = Course(id: string, title: string, price: int)

  const Catalogue: seq<Course> := [Course("top-100-ai-tools", "Top 100 AI Tools for Creators", 499)]

  /** `COURSES.find(c => c.id === id)`: the first course with that id, or
      nothing when no course has it. */
  function FindCourse(courses: seq<Course>, id: string): (r: Option<Course>)
    ensures r.None? <==> forall i :: 0 <= i < |courses| ==> courses[i].id != id
    ensures r.Some? ==> r.value.id == id
    ensures r.Some? ==>
      exists i :: 0 <= i < |courses| && courses[i] == r.value && (forall j :: 0 <= j < i ==> courses[j].id != id)
  {
    if courses == [] then None
    else if courses[0].id == id then Some(courses[0])
    else
      var r := FindCourse(courses[1..], id);
      assert forall i :: 0 < i < |courses| ==> courses[i] == courses[1..][i - 1];
      r
  }

  // ---------------------------------------------------------------------
  // Field checks
  // ---------------------------------------------------------------------

  /** `[^\s@]+` matched by `s[lo..hi]`: at least one character, none of them
      white space or `@`. */
  predicate AtomAt(s: string, lo: nat, hi: nat)
    requires lo <= hi <= |s|
  {
    lo < hi && forall p :: lo <= p < hi ==> !IsSpace(s[p]) && s[p] != '@'
  }

  /** `/^[^\s@]+@[^\s@]+\.[^\s@]+$/`, read off the pattern: an atom, `@`, an
      atom, `.`, an atom (the dot may be any dot after the `@`). */
  predicate IsEmail(s: string) {
    exists i, j | 0 <= i < j < |s| ::
      s[i] == '@' && s[j] == '.' && AtomAt(s, 0, i) && AtomAt(s, i + 1, j) && AtomAt(s, j + 1, |s|)
  }

  /** What the email pattern accepts, in plain terms: no white space, exactly
      one `@` (at position `a`), a non-empty local part before it, and a domain
      after it that has a dot with non-empty text on both sides. */
  predicate EmailShapeAt(s: string, a: int) {
    && 0 < a < |s| && s[a] == '@'
    && NoSpace(s)
    && (forall p :: 0 <= p < |s| && p != a ==> s[p] != '@')
    && (exists j :: a + 1 < j < |s| - 1 && s[j] == '.')
  }

  predicate EmailShape(s: string) {
    exists a :: 0 <= a < |s| && EmailShapeAt(s, a)
  }

  lemma EmailShapeOfEmail(s: string)
    requires IsEmail(s)
    ensures EmailShape(s)
  {
    var i, j :| 0 <= i < j < |s| && s[i] == '@' && s[j] == '.'
      && AtomAt(s, 0, i) && AtomAt(s, i + 1, j) && AtomAt(s, j + 1, |s|);
    assert EmailShapeAt(s, i);
  }

  lemma EmailOfEmailShape(s: string)
    requires EmailShape(s)
    ensures IsEmail(s)
  {
    var a :| 0 <= a < |s| && EmailShapeAt(s, a);
    var j :| a + 1 < j < |s| - 1 && s[j] == '.';
    assert AtomAt(s, 0, a) && AtomAt(s, a + 1, j) && AtomAt(s, j + 1, |s|);
  }

  /** The email pattern accepts exactly the strings `EmailShape` describes. */
  lemma EmailShapeIff(s: string)
    ensures IsEmail(s) <==> EmailShape(s)
  {
    if IsEmail(s) {
      EmailShapeOfEmail(s);
    }
    if EmailShape(s) {
      EmailOfEmailShape(s);
    }
  }

  /** Lower-casing an accepted email keeps it accepted. */
  lemma LowerKeepsEmail(s: string)
    requires IsEmail(s)
    ensures IsEmail(Lower(s))
  {
    var i, j :| 0 <= i < j < |s| && s[i] == '@' && s[j] == '.'
      && AtomAt(s, 0, i) && AtomAt(s, i + 1, j) && AtomAt(s, j + 1, |s|);
    var l := Lower(s);
    LowerKeeps(s, '@');
    assert AtomAt(l, 0, i) && AtomAt(l, i + 1, j) && AtomAt(l, j + 1, |l|);
  }

  /** An accepted email contains no white space. */
  lemma EmailHasNoSpace(s: string)
    requires IsEmail(s)
    ensures NoSpace(s)
  {
    EmailShapeOfEmail(s);
  }

  /** `[0-9\-()\s]`: a digit, a hyphen, a parenthesis or white space. */
  predicate IsPhoneChar(c: char) {
    IsDigit(c) || c == '-' || c == '(' || c == ')' || IsSpace(c)
  }

  /** `[0-9\-()\s]{7,15}` */
  predicate IsPhoneBody(s: string) {
    7 <= |s| <= 15 && forall i :: 0 <= i < |s| ==> IsPhoneChar(s[i])
  }

  /** `/^\+?[0-9\-()\s]{7,15}$/`: the body, optionally after one `+`. */
  predicate IsPhone(s: string) {
    IsPhoneBody(s) || (|s| > 0 && s[0] == '+' && IsPhoneBody(s[1..]))
  }

  /** What the phone pattern accepts, in plain terms: after dropping one
      leading `+`, if there is one, 7 to 15 characters remain, each a digit,
      a hyphen, a parenthesis or white space. In particular the whole string
      has 7 to 16 characters and contains no letter. */
  lemma PhoneShape(s: string)
    ensures var body := if |s| > 0 && s[0] == '+' then s[1..] else s;
      IsPhone(s) <==> IsPhoneBody(body)
    ensures IsPhone(s) ==> 7 <= |s| <= 16
    ensures IsPhone(s) ==> forall i :: 0 <= i < |s| ==> !('a' <= s[i] <= 'z' || 'A' <= s[i] <= 'Z')
  {
    if IsPhone(s) && |s| > 0 && s[0] == '+' {
      assert !IsPhoneChar(s[0]);
      assert forall i :: 0 < i < |s| ==> s[i] == s[1..][i - 1];
    }
  }

  /** A phone made only of white space passes the check, and the order built
      from it carries an empty phone number. */
  lemma BlankPhoneAccepted()
    ensures IsPhone("       ")
    ensures Trim("       ") == ""
  {
    TrimEmptyIff("       ");
  }

  // ---------------------------------------------------------------------
  // Validation and the order it builds
  // ---------------------------------------------------------------------

  const NameRequired := "Full name is required"
  const EmailRequired := "Valid email is required"
  const PhoneRequired := "Valid phone is required"

  /** The form's field values. */
  datatype Form = Form(name: string, email: string, phone: string, courseId: string)

  /** `validate`: the checks run name, email, phone, and the first failing
      one names the error; nothing is returned only when all three pass. The
      name counts as missing when it is all white space. */
  function Validate(f: Form): (err: Option<string>)
    ensures err.None? <==> !AllSpace(f.name) && IsEmail(f.email) && IsPhone(f.phone)
    ensures err == Some(NameRequired) <==> AllSpace(f.name)
    ensures err == Some(EmailRequired) <==> !AllSpace(f.name) && !IsEmail(f.email)
    ensures err == Some(PhoneRequired) <==> !AllSpace(f.name) && IsEmail(f.email) && !IsPhone(f.phone)
  {
    TrimEmptyIff(f.name);
    if Trim(f.name) == "" then Some(NameRequired)
    else if !IsEmail(f.email) then Some(EmailRequired)
    else if !IsPhone(f.phone) then Some(PhoneRequired)
    else None
  }

  /** The order `onSubmit` builds. `courseTitle` is `None` where the
      source has `undefined`. */
  datatype Order = Order(
    name: string, email: string, phone: string, courseId: string, courseTitle: Option<string>, price: int)

  /** The order `onSubmit` hands to `saveOrder`: trimmed name and phone, the
      email trimmed and lower-cased, and the title and price of the chosen
      course; with no matching course there is no title and the price is 0. */
  function NormalisedOrder(f: Form): (o: Order)
    ensures o.name == Trim(f.name) && o.phone == Trim(f.phone)
    ensures o.email == Lower(Trim(f.email))
    ensures var c := FindCourse(Catalogue, f.courseId);
      && o.courseId == f.courseId
      && (c.Some? ==> o.courseTitle == Some(c.value.title) && o.price == c.value.price)
      && (c.None? ==> o.courseTitle.None? && o.price == 0)
  {
    var course := FindCourse(Catalogue, f.courseId);
    Order(
      Trim(f.name),
      Lower(Trim(f.email)),
      Trim(f.phone),
      f.courseId,
      match course case Some(c) => Some(c.title) case None => None,
      match course case Some(c) => c.price case None => 0)
  }

  /** The order as serialised into local storage: every field of the order
      and no other, except that an absent title is dropped (serialisation
      omits `undefined`), so such a record has no `courseTitle` field. */
  function OrderRecord(o: Order): (r: Record)
    ensures r.Keys == {"name", "email", "phone", "courseId", "price"} + (if o.courseTitle.Some? then {"courseTitle"} else {})
    ensures r["name"] == Str(o.name) && r["email"] == Str(o.email) && r["phone"] == Str(o.phone)
    ensures r["courseId"] == Str(o.courseId) && r["price"] == Num(o.price)
    ensures o.courseTitle.Some? ==> r["courseTitle"] == Str(o.courseTitle.value)
  {
    var fields := map[
      "name" := Str(o.name),
      "email" := Str(o.email),
      "phone" := Str(o.phone),
      "courseId" := Str(o.courseId),
      "price" := Num(o.price)];
    match o.courseTitle
    case Some(t) => fields["courseTitle" := Str(t)]
    case None => fields
  }

  /** Normalising an already normalised form changes nothing: trimming and
      lower-casing are idempotent. */
  lemma NormaliseIdempotent(f: Form)
    ensures var o := NormalisedOrder(f);
      NormalisedOrder(Form(o.name, o.email, o.phone, o.courseId)) == o
  {
    TrimIdempotent(f.name);
    TrimIdempotent(f.phone);
    TrimIdempotent(f.email);
    LowerIdempotent(Trim(f.email));
    TrimOfLower(Trim(f.email));
  }

  /** For a form that passes validation the order's name is non-empty, and
      its email is the typed email lower-cased (trimming changes nothing,
      because the check admits no white space), which still passes the email
      check. */
  lemma ValidatedOrderFields(f: Form)
    requires Validate(f).None?
    ensures NormalisedOrder(f).name != ""
    ensures NormalisedOrder(f).email == Lower(f.email)
    ensures IsEmail(NormalisedOrder(f).email)
  {
    TrimEmptyIff(f.name);
    EmailHasNoSpace(f.email);
    TrimNoSpace(f.email);
    LowerKeepsEmail(f.email);
  }

  // ---------------------------------------------------------------------
  // Submission
  // ---------------------------------------------------------------------

  const SavedText := "Order saved. Proceed to payment."
  const SaveFailedText := "Could not save order. Please try again."

  datatype PurchaseState = PurchaseState(form: Form, loading: bool, message: Option<Message>)

  /** The synchronous start of `onSubmit`: a failing check sets its message
      and nothing is saved; otherwise the form starts loading and the
      normalised order is handed out to be saved. */
  function BeginOrder(st: PurchaseState): (res: (PurchaseState, Option<Order>))
    ensures res.1.None? <==> Validate(st.form).Some?
    ensures res.1.None? ==> res.0 == st.(message := Some(Message(Error, Validate(st.form).value)))
    ensures res.1.Some? ==> res.1.value == NormalisedOrder(st.form) && res.0 == st.(loading := true)
  {
    match Validate(st.form)
    case Some(err) => (st.(message := Some(Message(Error, err))), None)
    case None => (st.(loading := true), Some(NormalisedOrder(st.form)))
  }

  /** The end of `onSubmit` once `saveOrder` settled with `saved` (`None`
      when it threw): success remembers a non-empty id under
      `last_order_id`; either way loading stops and the form fields stay. */
  function FinishOrder(st: PurchaseState, s: Storage, saved: Option<string>): (res: (PurchaseState, Storage))
    ensures !res.0.loading && res.0.form == st.form
    ensures saved.None? ==> res.0.message == Some(Message(Error, SaveFailedText)) && res.1 == s
    ensures saved.Some? ==> res.0.message == Some(Message(Success, SavedText))
    ensures saved.Some? && saved.value != "" ==> res.1 == s[LastOrderIdKey := Raw(saved.value)]
    ensures saved.Some? && saved.value == "" ==> res.1 == s
  {
    match saved
    case None => (st.(message := Some(Message(Error, SaveFailedText)), loading := false), s)
    case Some(id) =>
      var s' := if id != "" then s[LastOrderIdKey := Raw(id)] else s;
      (st.(message := Some(Message(Success, SavedText)), loading := false), s')
  }

  /** `onSubmit` in full. `remoteId` is the remote backend's answer when that
      backend is selected (`None` when it throws). An invalid form only shows
      its error; otherwise loading ends, the backend is decided, and the
      success message shows exactly when the store answered: always in
      fallback mode, and when the remote call did not throw otherwise; a
      remote call that throws shows the save-failed error. In remote mode
      local storage changes only by the remembered id. */
  function SubmitOrder(
    st: PurchaseState, sys: System, env: Env, now: int, draws: seq<real>, remoteId: Option<string>)
    : (res: (PurchaseState, System))
    requires DefaultUidLength <= |draws| && ValidDraws(draws)
    ensures res.0.form == st.form
    ensures Validate(st.form).Some? ==>
      res == (st.(message := Some(Message(Error, Validate(st.form).value))), sys)
    ensures Validate(st.form).None? ==>
      && !res.0.loading
      && res.1.latch == EnsureFirebase(sys.latch, env).0
      && (!EnsureFirebase(sys.latch, env).1 ==> res.0.message == Some(Message(Success, SavedText)))
    ensures Validate(st.form).None? && EnsureFirebase(sys.latch, env).1 ==>
      && (res.0.message == Some(Message(Success, SavedText)) <==> remoteId.Some?)
      && (remoteId.None? ==> res.0.message == Some(Message(Error, SaveFailedText)))
      && res.1.storage ==
           (if remoteId.Some? && remoteId.value != "" then sys.storage[LastOrderIdKey := Raw(remoteId.value)]
            else sys.storage)
  {
    var (st1, order) := BeginOrder(st);
    match order
    case None => (st1, sys)
    case Some(o) =>
      var (sys1, out) := SaveOrder(sys, env, OrderRecord(o), now, draws);
      var saved := match out case Local(id) => Some(id) case Remote => remoteId case Threw => None;
      var (st2, s2) := FinishOrder(st1, sys1.storage, saved);
      (st2, sys1.(storage := s2))
  }

  /** A form that fails validation saves nothing and only shows the error. */
  lemma InvalidFormSavesNothing(
    st: PurchaseState, sys: System, env: Env, now: int, draws: seq<real>, remoteId: Option<string>)
    requires DefaultUidLength <= |draws| && ValidDraws(draws)
    requires Validate(st.form).Some?
    ensures SubmitOrder(st, sys, env, now, draws, remoteId)
      == (st.(message := Some(Message(Error, Validate(st.form).value))), sys)
  {
  }

  /** In fallback mode a valid form is saved through `saveOrder` with the
      normalised order, and the id it returns is remembered. */
  lemma ValidFormGoesThroughSaveOrder(
    st: PurchaseState, sys: System, env: Env, now: int, draws: seq<real>, remoteId: Option<string>)
    requires DefaultUidLength <= |draws| && ValidDraws(draws)
    requires Validate(st.form).None?
    requires !EnsureFirebase(sys.latch, env).1
    ensures var res := SubmitOrder(st, sys, env, now, draws, remoteId);
      var saved := SaveOrder(sys, env, OrderRecord(NormalisedOrder(st.form)), now, draws);
      && saved.1 == Local(Uid(DefaultUidLength, draws))
      && res.1.storage == saved.0.storage[LastOrderIdKey := Raw(Uid(DefaultUidLength, draws))]
      && res.0.message == Some(Message(Success, SavedText)) && !res.0.loading
  {
    var (st1, order) := BeginOrder(st);
    var (sys1, out) := SaveOrder(sys, env, OrderRecord(NormalisedOrder(st.form)), now, draws);
    assert out.Local? && out.value != "";
  }

  /** In fallback mode a valid form stores the normalised order, stamped
      pending, under `orders:<id>` for its generated 12-character id, remembers that
      id under `last_order_id`, and changes no other key. */
  lemma ValidFormSavesOrder(
    st: PurchaseState, sys: System, env: Env, now: int, draws: seq<real>, remoteId: Option<string>)
    requires DefaultUidLength <= |draws| && ValidDraws(draws)
    requires Validate(st.form).None?
    requires !EnsureFirebase(sys.latch, env).1
    ensures var s' := SubmitOrder(st, sys, env, now, draws, remoteId).1.storage;
      var id := Uid(DefaultUidLength, draws);
      && s'.Keys == sys.storage.Keys + {OrderKey(id), LastOrderIdKey}
      && s'[LastOrderIdKey] == Raw(id)
      && s'[OrderKey(id)].Doc?
      && IsSavedOrder(s'[OrderKey(id)].fields, id, OrderRecord(NormalisedOrder(st.form)), now)
      && (forall k :: k in sys.storage && k != OrderKey(id) && k != LastOrderIdKey ==> s'[k] == sys.storage[k])
  {
    ValidFormGoesThroughSaveOrder(st, sys, env, now, draws, remoteId);
    SaveThenRemember(sys, env, OrderRecord(NormalisedOrder(st.form)), now, draws);
  }

  /** A submission keeps the store invariant. */
  lemma SubmitOrderKeepsInvariant(
    st: PurchaseState, sys: System, env: Env, now: int, draws: seq<real>, remoteId: Option<string>)
    requires DefaultUidLength <= |draws| && ValidDraws(draws)
    requires StoreInvariant(sys.storage)
    ensures StoreInvariant(SubmitOrder(st, sys, env, now, draws, remoteId).1.storage)
  {
    var (st1, order) := BeginOrder(st);
    if order.Some? {
      SaveOrderKeepsInvariant(sys, env, OrderRecord(order.value), now, draws);
      var (sys1, out) := SaveOrder(sys, env, OrderRecord(order.value), now, draws);
      var saved := match out case Local(id) => Some(id) case Remote => remoteId case Threw => None;
      if saved.Some? && saved.value != "" {
        RememberOrderKeepsInvariant(sys1.storage, saved.value);
      }
    }
  }
}
