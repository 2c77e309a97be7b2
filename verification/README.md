# Course storefront: order and payment-proof store

A Dafny model of the order path of a small course-selling web app.

- **Pre-purchase form.** It checks a buyer's name, email and phone. It then builds a normalised order for the chosen course and hands it to the store.
- **Store.** `saveOrder` saves the order and the form remembers the returned order id. The store is backed by Firebase when that is configured, and by the browser's `localStorage` otherwise.
- **Payment form.** When it mounts (on page load) it prefills the order id last remembered, and it guards its submission. It then hands the transaction id or screenshot to `submitPaymentProof`, which stores a proof record and marks the order `payment_submitted`.
- **Course card.** It shows how many hours ago a course was added.

The model covers the local-storage fallback, within the limits listed under "Left out". The remote backend is reduced to the one-shot latch that selects it and to the answer it gives.

Modules:

- `Wrappers`: `Option` and map lookup.
- `Text`: ASCII `\s`, `trim` and `toLowerCase`.
- `Decimal`: integer to decimal text and back.
- `LocalStore`: stored values, records, entries and the three key shapes `orders:<id>`, `payment_proofs:<orderId>:<ms>` and `last_order_id`.
- `Firebase`: `src/lib/firebase.js`.
- `Feedback`: the message banner.
- `PrePurchase`: `src/components/PrePurchaseForm.jsx`.
- `Payment`: `src/components/Payment.jsx`.
- `Courses`: `timeSince` in `src/components/Courses.jsx`.

Modelling choices:

- **Storage.** `localStorage` is a map from keys to entries. An entry is either `Doc`, a serialised JSON object as the store writes it, or `Raw`, a string stored as it is (the id under `last_order_id`; under an order key, an entry that does not parse to an object).
- **Missing title.** `JSON.stringify` drops `undefined`, so an order with no matching course has no `courseTitle` field.
- **Clock, random numbers, file reader.** These are parameters:
  - each `Date.now()` reading is its own integer (`submitPaymentProof` reads the clock three times);
  - `Math.random()` draws are reals in [0, 1);
  - the file reader's result is `Option<string>`, where `None` means the reader failed and the call rejects.
- **Remote backend.** When it is selected, its effect on Firestore is outside the model. The forms see only its answer, which is a parameter: the id Firestore assigns to a new order, or the proof URL of a submitted proof (the receipt always echoes the form's own order id). `None` means the remote call threw.

## Model

| member | source | states |
|---|---|---|
| Firebase.HasConfig | src/lib/firebase.js:18-20 | the remote backend counts as configured exactly when all six credentials are set and non-empty |
| Firebase.EnsureFirebase | src/lib/firebase.js:22-43 | the first call records a decision: yes only with full configuration and an SDK start that does not throw; a later call returns the recorded decision and changes nothing |
| Firebase.AnswersOnceInitialized | src/lib/firebase.js:23 | once the latch is set, every further call in any environment answers the recorded flag |
| Firebase.DecidedOnce | src/lib/firebase.js:22-43 | from a fresh module, every call in a sequence answers what the first call's configuration and SDK start decided |
| Firebase.DrawIndex | src/lib/firebase.js:48 | a random draw in [0, 1) always picks a valid alphabet position |
| Firebase.Uid | src/lib/firebase.js:45-50 | the id has the requested length; character i is the alphabet letter picked by draw i, so it is a lower-case letter or a digit |
| Firebase.GenerateUid | src/lib/firebase.js:45-50 | the appending loop builds the same id as the definition: right length, letters and digits only |
| Firebase.DrawFor | src/lib/firebase.js:48 | every letter and digit is picked by some draw in [0, 1) |
| Firebase.UidReachesEveryId | src/lib/firebase.js:45-50 | every string of lower-case letters and digits is some draw sequence's id, so the id space is exactly those strings |
| Firebase.SavedOrder | src/lib/firebase.js:53-68 | the stored order has the caller's fields plus id, status and createdAt; status is pending and createdAt is the clock; the caller's own id, if any, wins over the generated one |
| Firebase.SaveOrder | src/lib/firebase.js:52-70 | in fallback mode exactly one key is written, `orders:<id>` for a 12-character letters-and-digits id, holding the stamped order (an earlier entry under that key is overwritten); every other key keeps its value; the fallback never throws; in remote mode local storage is untouched |
| Firebase.StoredIdShadowing | src/lib/firebase.js:53-68 | the stored id equals the returned id exactly when the caller's input has no id field or has that same id |
| Firebase.TxnValue | src/lib/firebase.js:75 | an absent or empty transaction id is stored as null, any other as itself |
| Firebase.ProofRecord | src/lib/firebase.js:73-79 | the proof holds exactly orderId, txnId, status payment_submitted, submittedAt and proofUrl |
| Firebase.MarkSubmitted | src/lib/firebase.js:110-113 | the order gains status payment_submitted and the paymentSubmittedAt stamp; every other field is kept |
| Firebase.SubmitPaymentProof | src/lib/firebase.js:72-117 | fallback mode: an unreadable file rejects with nothing written. Otherwise the proof is written under `payment_proofs:<orderId>:<ms>` whether or not the order exists, a stored order record is marked, a non-record entry is kept, no other key changes, and the order id is echoed with the data URL (null without a file) |
| Firebase.StoreProof | src/lib/firebase.js:105-115 | the local writes put the proof under its key, mark a stored order record, keep a non-record entry, never create the order key, and change no other key |
| Firebase.SubmitMarksOrder | src/lib/firebase.js:106-115 | for an order stored as a record, the entry afterwards is exactly that record marked with the update stamp |
| Firebase.MarkTwice | src/lib/firebase.js:110-113 | marking an already marked record changes only its paymentSubmittedAt stamp |
| Firebase.ResubmitKeepsStatus | src/lib/firebase.js:106-115 | a second proof for the same order leaves it payment_submitted and only moves its paymentSubmittedAt stamp |
| Firebase.OrderKeyInjective | src/lib/firebase.js:67 | different ids give different order keys |
| Firebase.SaveOrderKeepsInvariant | src/lib/firebase.js:52-70 | saving an order keeps two facts: every payment_submitted order has a stored proof, and `last_order_id` holds plain text |
| Firebase.SubmitKeepsInvariant | src/lib/firebase.js:102-116 | submitting a proof keeps the same store invariant: the only order it marks is the one whose proof it has just stored |
| Firebase.RememberOrderKeepsInvariant | src/components/PrePurchaseForm.jsx:59 | writing an id under `last_order_id` keeps the store invariant |
| Firebase.SaveThenRemember | src/components/PrePurchaseForm.jsx:57-59 | save then remember changes exactly two keys: the new order, stored as saveOrder promises, and `last_order_id` holding its id |
| LocalStore.OrderKey | src/lib/firebase.js:67 | an order key is the `orders:` prefix followed by the id |
| LocalStore.ProofKey | src/lib/firebase.js:105 | a proof key is the `payment_proofs:` prefix, the order id, a colon and the decimal timestamp, and no colon follows that separator |
| LocalStore.OrderKeyRoundTrip | src/lib/firebase.js:67 | an order key parses back to its id |
| LocalStore.ProofKeyRoundTrip | src/lib/firebase.js:105 | a proof key parses back to its order id and timestamp, even when the order id contains colons |
| LocalStore.ProofKeyInjective | src/lib/firebase.js:105 | two proofs share a key only when they share the order id and the timestamp |
| LocalStore.KeySpacesDisjoint | src/lib/firebase.js:105-106 | order keys, proof keys and `last_order_id` never collide |
| Decimal.NatToString | src/components/Courses.jsx:7 | the decimal numeral is non-empty and all digits, with no leading zero |
| Decimal.IntToString | src/components/Courses.jsx:7 | the numeral is non-empty, made of digits and a minus sign, and starts with a minus exactly for negative values |
| Decimal.ParseIntToString | src/components/Courses.jsx:7 | a rendered integer parses back to itself |
| Decimal.ParseNatToString | src/components/Courses.jsx:7 | a rendered natural number parses back to itself |
| Decimal.IntToStringInjective | src/lib/firebase.js:105 | different integers render differently |
| Text.Trim | src/components/PrePurchaseForm.jsx:34 | the result is the slice after the leading white space; only white space follows it, and it neither starts nor ends with white space |
| Text.TrimEmptyIff | src/components/PrePurchaseForm.jsx:34 | a string trims to nothing exactly when it is all white space |
| Text.TrimNoSpace | src/components/PrePurchaseForm.jsx:51 | a string with no white space trims to itself |
| Text.TrimIdempotent | src/components/PrePurchaseForm.jsx:50-52 | trimming twice is trimming once |
| Text.Lower | src/components/PrePurchaseForm.jsx:51 | lower-casing keeps the length and maps each character on its own, in place |
| Text.LowerIdempotent | src/components/PrePurchaseForm.jsx:51 | lower-casing twice is lower-casing once; no upper-case letter remains, and nothing else changes |
| Text.TrimOfLower | src/components/PrePurchaseForm.jsx:51 | trimming and lower-casing commute |
| PrePurchase.FindCourse | src/components/PrePurchaseForm.jsx:19 | the first course with the id, or nothing exactly when no course has it |
| PrePurchase.EmailShapeIff | src/components/PrePurchaseForm.jsx:35 | the email pattern accepts exactly: no white space, exactly one `@` with text before it, and a dot after it with text on both sides |
| PrePurchase.EmailHasNoSpace | src/components/PrePurchaseForm.jsx:35 | an accepted email contains no white space |
| PrePurchase.LowerKeepsEmail | src/components/PrePurchaseForm.jsx:51 | lower-casing an accepted email keeps it accepted |
| PrePurchase.PhoneShape | src/components/PrePurchaseForm.jsx:36 | the phone pattern accepts exactly: after an optional `+`, 7 to 15 digits, hyphens, parentheses or white space; so 7 to 16 characters with no letter |
| PrePurchase.BlankPhoneAccepted | src/components/PrePurchaseForm.jsx:36 | seven spaces pass the phone check and trim to an empty phone |
| PrePurchase.Validate | src/components/PrePurchaseForm.jsx:33-38 | no error exactly when all three checks pass; otherwise the first failing check in order name, email, phone names the error; a blank name fails |
| PrePurchase.NormalisedOrder | src/components/PrePurchaseForm.jsx:49-56 | name and phone are the typed values trimmed, the email is trimmed then lower-cased, the course id is kept, and the order carries the chosen course's title and price, or no title and price 0 when no course matches |
| PrePurchase.OrderRecord | src/components/PrePurchaseForm.jsx:49-57 | the serialised order has exactly the order's fields with their values, with courseTitle dropped when it is undefined |
| PrePurchase.NormaliseIdempotent | src/components/PrePurchaseForm.jsx:49-53 | normalising an already normalised order changes nothing |
| PrePurchase.ValidatedOrderFields | src/components/PrePurchaseForm.jsx:42-52 | a valid form's order has a non-empty name and the typed email lower-cased, which still passes the email check |
| PrePurchase.BeginOrder | src/components/PrePurchaseForm.jsx:40-56 | an invalid form shows its error and hands nothing to the store; a valid one starts loading and hands over the normalised order |
| PrePurchase.FinishOrder | src/components/PrePurchaseForm.jsx:57-66 | success shows the saved message and remembers a non-empty id; failure shows the error and leaves storage alone; loading always stops and the fields stay |
| PrePurchase.SubmitOrder | src/components/PrePurchaseForm.jsx:40-67 | an invalid form only shows its error; otherwise loading ends, the backend is decided, and success shows exactly when the store answered (always in fallback mode, when the remote call did not throw otherwise, with only the remembered id written locally); a remote call that throws shows "Could not save order. Please try again."; the form fields are kept |
| PrePurchase.InvalidFormSavesNothing | src/components/PrePurchaseForm.jsx:42-46 | an invalid submission changes neither the store nor the latch, only the message |
| PrePurchase.ValidFormGoesThroughSaveOrder | src/components/PrePurchaseForm.jsx:47-60 | in fallback mode a valid form is saved with the normalised order, its generated id is remembered, and the success message shows |
| PrePurchase.ValidFormSavesOrder | src/components/PrePurchaseForm.jsx:47-60 | in fallback mode a valid submission writes exactly two keys, the pending order under its generated id and `last_order_id`; every other key keeps its value |
| PrePurchase.SubmitOrderKeepsInvariant | src/components/PrePurchaseForm.jsx:40-67 | a submission, in any mode and with any outcome, keeps the store invariant |
| Payment.Prefill | src/components/Payment.jsx:20-23 | a non-empty `last_order_id` fills the order id; a missing or empty one leaves the form as it is |
| Payment.BeginSubmit | src/components/Payment.jsx:37-44 | a submission goes ahead exactly when there is an order id and a transaction id or a file; the first failing guard names the error; the store gets exactly the form's three values |
| Payment.FinishSubmit | src/components/Payment.jsx:44-56 | success clears the transaction id and file, keeps the order id, and remembers the echoed id; failure keeps all fields and storage; loading always stops |
| Payment.SubmitProof | src/components/Payment.jsx:37-57 | the order id is never changed; a guarded-off submission leaves store and latch alone; otherwise loading ends and success shows exactly when the store answered (fallback: unless the file cannot be read; remote: unless the call threw); success in either mode clears the transaction id and file and ends with the form's order id under `last_order_id`, which in remote mode is the only local change; a failure shows "Could not submit payment proof. Please try again.", keeps all three fields and changes nothing locally |
| Payment.GuardedSubmitChangesNothing | src/components/Payment.jsx:39-40 | a guarded-off submission changes only the message |
| Payment.FallbackSubmitOutcome | src/components/Payment.jsx:42-56 | in fallback mode an unreadable file shows the error and writes nothing; otherwise the proof's effects are followed by remembering the order id and resetting the form |
| Payment.SubmitProofKeepsInvariant | src/components/Payment.jsx:37-57 | a submission, in any mode and with any outcome, keeps the store invariant |
| Payment.SavedOrderPrefillsPayment | src/components/Payment.jsx:20-23 | after a valid fallback pre-purchase, the next time the payment form mounts (a later page load) it is prefilled with the generated order id |
| Payment.SubmittedProofPrefills | src/components/Payment.jsx:20-23 | after a successful payment submission in either mode, the next time the payment form mounts it is prefilled with the same order id |
| Courses.FloorDiv | src/components/Courses.jsx:5-6 | the quotient is the greatest integer whose multiple does not exceed the dividend |
| Courses.WholeHours | src/components/Courses.jsx:5-6 | whole seconds, then whole hours of them, equals whole hours of the milliseconds |
| Courses.TimeSince | src/components/Courses.jsx:4-8 | hours is the elapsed milliseconds rounded down to whole hours; the label is "Just now" exactly below one hour, "Added 1 hour ago" at one hour and "Added N hours ago" from two hours on; the badge shows exactly below 24 hours |
| Courses.HoursMonotone | src/components/Courses.jsx:5-6 | more elapsed time never gives fewer hours |
| Courses.AddedLabelRoundTrip | src/components/Courses.jsx:7 | an "Added N hour(s) ago" label reads back as N |
| Courses.LabelNamesHours | src/components/Courses.jsx:7 | from one hour on, the label reads back as the hour count, so different counts give different labels |
| Courses.SixHoursAgo | src/components/Courses.jsx:11-12 | the card dates its course six hours back with one clock reading and runs `timeSince` with a second; whenever the second is under an hour after the first, it reads "Added 6 hours ago" and carries the new badge |

## Left out

- The payment form mounts together with the pre-purchase form on page load and reads `last_order_id` only then, so within one visit the id just saved is not prefilled. The model states the prefill for the next mount only (`Payment.SavedOrderPrefillsPayment`) and has no model of component mounting.
- The remote backend (Firestore writes, Storage uploads, `serverTimestamp`, the upload path, the swallowed `updateDoc` failure). Its calls go to an SDK that is not part of this model. Only the flag selecting it is modelled, and the forms receive its answer as a parameter.
- The race of two overlapping first `ensureFirebase` calls is not modelled. Calls are taken one at a time.
- `console.warn`/`console.error` logging and the four-second auto-dismissal of messages (`setTimeout`) are left out. They are timers and output with no effect on stored data.
- Rendering, the `onGoToPayment` scroll, the button disabled while loading, clearing the file input element, and `handleChange`/`onFileChange` are left out. These are UI plumbing; the state they set is the model's input.
- `localStorage.setItem` failing (quota, private mode) is not modelled. The model's store always accepts a write.
- Text: `\s`, `trim` and `toLowerCase` are modelled on ASCII only. Unicode white space such as U+00A0 and non-ASCII case mapping are left out.
- `JSON.parse` of an existing order entry is reduced to the split between `Doc` (an object) and `Raw` (anything else, left unchanged). In particular:
  - An entry whose JSON is an array or a scalar is treated as unparsable.
  - Serialisation is not modelled character by character.
  - Numbers are integers, because only integral millisecond stamps and prices are stored.
  - A field value is a string, an integer or null. Booleans, fractions, arrays and nested objects in an existing entry (one written by other code) are not representable, and marking such an order is not modelled.
- Payment.Prefill: says nothing when `last_order_id` holds an object record. The program never stores one there, and `Firebase.StoreInvariant` excludes it.
- Firebase.DrawIndex: `Math.random()` is an exact real in [0, 1), not a double. Floating-point rounding of `x * 36` is left out.
- Courses.TimeSince: an invalid `Date` (NaN arithmetic) is left out. Times are integer milliseconds.
- `fileToDataUrl` is reduced to its result. `File` keeps only its name, because the fallback only needs to know whether a file is present.
