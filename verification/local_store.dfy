/** The browser's `localStorage` as the fallback backend sees it: a map from
    keys to stored values, with the three key shapes the program writes. */
module LocalStore {
  import opened Wrappers
  import opened Decimal
  import opened Text

  /** A JSON scalar as it survives `JSON.stringify`/`JSON.parse`. Numbers are
      the integral millisecond timestamps and prices the program stores. */
  datatype Value = Str(s: string) | Num(n: int) | Null

  /** A JSON object: field name to value. */
  type Record = map<string, Value>

  /** A stored string. `Doc` is the serialised form of a JSON object, as the
      store writes it; `Raw` is a string stored as it is (the order id kept
      under `last_order_id`), and under an order key it stands for an entry
      that does not parse to an object. */
  datatype Entry = Doc(fields: Record) | Raw(text: string)

  type Storage = map<string, Entry>

  const OrdersPrefix := "orders:"
  const ProofsPrefix := "payment_proofs:"
  const LastOrderIdKey := "last_order_id"

  /** `orders:<id>`: the order prefix followed by the id. */
  function OrderKey(id: string): (k: string)
    ensures |k| == |OrdersPrefix| + |id|
    ensures k[..|OrdersPrefix|] == OrdersPrefix && k[|OrdersPrefix|..] == id
  {
    OrdersPrefix + id
  }

  /** `payment_proofs:<orderId>:<timestamp>`: the proof prefix, the order id,
      a colon, and the decimal timestamp, which holds no colon, so the last
      colon of the key is the separator. */
  function ProofKey(orderId: string, at: int): (k: string)
    ensures var n := |ProofsPrefix| + |orderId|;
      && |k| > n + 1
      && k[..|ProofsPrefix|] == ProofsPrefix
      && k[|ProofsPrefix|..n] == orderId
      && k[n] == ':'
      && k[n + 1..] == IntToString(at)
      && (forall j :: n < j < |k| ==> k[j] != ':')
  {
    var k := ProofsPrefix + orderId + ":" + IntToString(at);
    var n := |ProofsPrefix| + |orderId|;
    assert k[n + 1..] == IntToString(at);
    assert forall j :: n < j < |k| ==> k[j] == IntToString(at)[j - n - 1];
    k
  }

  predicate HasPrefix(s: string, prefix: string) {
    |prefix| <= |s| && s[..|prefix|] == prefix
  }

  /** The id an order key names, if `k` is an order key. */
  function ParseOrderKey(k: string): (r: Option<string>)
    ensures r.Some? ==> OrderKey(r.value) == k
  {
    if HasPrefix(k, OrdersPrefix) then Some(k[|OrdersPrefix|..]) else None
  }

  /** The order id and timestamp a proof key names, if `k` is a proof key:
      the timestamp is what follows the last colon. */
  function ParseProofKey(k: string): Option<(string, int)> {
    if !HasPrefix(k, ProofsPrefix) then None
    else
      var rest := k[|ProofsPrefix|..];
      match LastIndexOf(rest, ':')
      case None => None
      case Some(i) =>
        match ParseInt(rest[i + 1..])
        case None => None
        case Some(at) => Some((rest[..i], at))
  }

  /** An order key reads back as the id it was built from. */
  lemma OrderKeyRoundTrip(id: string)
    ensures ParseOrderKey(OrderKey(id)) == Some(id)
  {
    assert OrderKey(id)[..|OrdersPrefix|] == OrdersPrefix;
    assert OrderKey(id)[|OrdersPrefix|..] == id;
  }

  /** A proof key reads back as the order id and timestamp it was built
      from, even when the order id itself contains colons. */
  lemma ProofKeyRoundTrip(orderId: string, at: int)
    ensures ParseProofKey(ProofKey(orderId, at)) == Some((orderId, at))
  {
    var k := ProofKey(orderId, at);
    var rest := orderId + ":" + IntToString(at);
    assert k == ProofsPrefix + rest;
    assert k[..|ProofsPrefix|] == ProofsPrefix;
    assert k[|ProofsPrefix|..] == rest;
    LastColonSplits(orderId, IntToString(at));
    ParseIntToString(at);
  }

  /** In `head:tail` with a colon-free `tail`, the last colon is the one
      between them. */
  lemma LastColonSplits(head: string, tail: string)
    requires forall j :: 0 <= j < |tail| ==> tail[j] != ':'
    ensures var joined := head + ":" + tail;
      && LastIndexOf(joined, ':') == Some(|head|)
      && joined[..|head|] == head
      && joined[|head| + 1..] == tail
  {
    var joined := head + ":" + tail;
    assert joined[|head|] == ':';
    assert forall j :: |head| < j < |joined| ==> joined[j] == tail[j - |head| - 1];
    assert joined[..|head|] == head;
    assert joined[|head| + 1..] == tail;
  }

  /** Distinct (order id, timestamp) pairs never share a proof key, so a
      proof never overwrites another one submitted at a different time or
      for a different order. */
  lemma ProofKeyInjective(o1: string, t1: int, o2: string, t2: int)
    requires ProofKey(o1, t1) == ProofKey(o2, t2)
    ensures o1 == o2 && t1 == t2
  {
    ProofKeyRoundTrip(o1, t1);
    ProofKeyRoundTrip(o2, t2);
  }

  /** The three key shapes never collide: an order, a proof and the
      remembered last order id always live under different keys. */
  lemma KeySpacesDisjoint(id: string, orderId: string, at: int)
    ensures OrderKey(id) != ProofKey(orderId, at)
    ensures OrderKey(id) != LastOrderIdKey
    ensures ProofKey(orderId, at) != LastOrderIdKey
  {
    assert OrderKey(id)[0] == 'o';
    assert ProofKey(orderId, at)[0] == 'p';
    assert OrderKey(id)[6] == ':';
    assert LastOrderIdKey[6] == 'r';
  }
}
