/** The streaming blob verifier, and its agreement with the one-shot descriptor check. */
module Streams {
  import opened Wrappers
  import opened Digests
  import opened Manifests

  const U64_MAX := 0xFFFF_FFFF_FFFF_FFFF

  /** One item of the upstream body: a data frame, or a transport error. */
  datatype Item = Frame(bytes: Content) | Broken

  datatype StreamError = BadDescriptor | TransportError

  type Delivery = Result<Content, StreamError>

  function SaturatingAdd(a: nat, b: nat): nat {
    if a + b > U64_MAX then U64_MAX else a + b
  }

  /** `Verifier`: the state shared by the scan and the final check. `hashed` is what went into the
      hasher. */
  class Verifier {
    const sha: Digester
    const expectedSize: nat
    const expectedDigest: string
    var hashed: Content
    var size: nat
    var failed: bool

    constructor (sha: Digester, descriptor: Descriptor)
      ensures this.sha == sha && expectedSize == descriptor.size && expectedDigest == descriptor.digest
      ensures State() == START
    {
      this.sha, expectedSize, expectedDigest := sha, descriptor.size, descriptor.digest;
      hashed, size, failed := [], 0, false;
    }

    function State(): ScanState
      reads this
    {
      ScanState(hashed, size, failed)
    }

    method Scan(item: Item) returns (delivery: Delivery)
      modifies this
      ensures (State(), delivery) == ScanStep(expectedSize, old(State()), item)
    {
      match item
      case Frame(bytes) =>
        var nextSize := SaturatingAdd(size, |bytes|);
        if failed || nextSize > expectedSize {
          failed := true;
          delivery := Err(BadDescriptor);
        } else {
          hashed := hashed + bytes;
          size := nextSize;
          delivery := Ok(bytes);
        }
      case Broken =>
        failed := true;
        delivery := Err(TransportError);
    }

    method Finish() returns (error: Option<StreamError>)
      ensures error == FinalCheck(sha, expectedSize, expectedDigest, State())
    {
      if failed || size != expectedSize {
        return Some(BadDescriptor);
      }
      var actual := sha(hashed);
      if actual != expectedDigest {
        return Some(BadDescriptor);
      }
      return None;
    }
  }

  /** The whole body: the scan of every item, then the final check. */
  method VerifiedBody(sha: Digester, descriptor: Descriptor, items: seq<Item>) returns (deliveries: seq<Delivery>)
    ensures deliveries == BodyOf(sha, descriptor, items)
  {
    var verifier := new Verifier(sha, descriptor);
    deliveries := [];
    var i := 0;
    while i < |items|
      invariant 0 <= i <= |items|
      invariant (verifier.State(), deliveries) == ScanAll(descriptor.size, items[..i])
      invariant verifier.sha == sha && verifier.expectedSize == descriptor.size
      invariant verifier.expectedDigest == descriptor.digest
    {
      assert items[..i + 1][..i] == items[..i];
      var delivery := verifier.Scan(items[i]);
      deliveries := deliveries + [delivery];
      i := i + 1;
    }
    assert items[..i] == items;
    var last := verifier.Finish();
    if last.Some? {
      deliveries := deliveries + [Err(last.value)];
    }
  }

  // ---- The same as functions ----

  datatype ScanState = ScanState(hashed: Content, size: nat, failed: bool)

  const START := ScanState([], 0, false)

  function ScanStep(expectedSize: nat, state: ScanState, item: Item): (ScanState, Delivery) {
    match item
    case Frame(bytes) =>
      var nextSize := SaturatingAdd(state.size, |bytes|);
      if state.failed || nextSize > expectedSize then (state.(failed := true), Err(BadDescriptor))
      else (ScanState(state.hashed + bytes, nextSize, false), Ok(bytes))
    case Broken => (state.(failed := true), Err(TransportError))
  }

  function ScanAll(expectedSize: nat, items: seq<Item>): (ScanState, seq<Delivery>) {
    if items == [] then (START, []) else
      var (before, deliveries) := ScanAll(expectedSize, items[..|items| - 1]);
      var (after, delivery) := ScanStep(expectedSize, before, items[|items| - 1]);
      (after, deliveries + [delivery])
  }

  function FinalCheck(sha: Digester, expectedSize: nat, expectedDigest: string, state: ScanState): Option<StreamError> {
    if state.failed || state.size != expectedSize then Some(BadDescriptor)
    else if sha(state.hashed) != expectedDigest then Some(BadDescriptor)
    else None
  }

  function BodyOf(sha: Digester, descriptor: Descriptor, items: seq<Item>): seq<Delivery> {
    var (state, deliveries) := ScanAll(descriptor.size, items);
    match FinalCheck(sha, descriptor.size, descriptor.digest, state)
    case None => deliveries
    case Some(e) => deliveries + [Err(e)]
  }

  // ---- What is upstream, and what is delivered ----

  /** The bytes upstream, up to the first transport error. */
  function Upstream(items: seq<Item>): Content {
    if items == [] then []
    else if items[0].Broken? then []
    else items[0].bytes + Upstream(items[1..])
  }

  function Delivered(deliveries: seq<Delivery>): Content {
    if deliveries == [] then []
    else (if deliveries[0].Ok? then deliveries[0].value else []) + Delivered(deliveries[1..])
  }

  predicate Clean(deliveries: seq<Delivery>) {
    forall d | d in deliveries :: d.Ok?
  }

  predicate Unbroken(items: seq<Item>) {
    forall i | i in items :: i.Frame?
  }

  /** `verify_descriptor`. */
  predicate VerifiesDescriptor(sha: Digester, descriptor: Descriptor, bytes: Content) {
    && descriptor.size == |bytes|
    && ValidDigest(descriptor.digest)
    && sha(bytes) == descriptor.digest
  }

  lemma {:induction false} DeliveredConcat(a: seq<Delivery>, b: seq<Delivery>)
    ensures Delivered(a + b) == Delivered(a) + Delivered(b)
  {
    if a == [] {
      assert a + b == b;
    } else {
      assert (a + b)[1..] == a[1..] + b;
      DeliveredConcat(a[1..], b);
    }
  }

  lemma UpstreamCons(item: Item, items: seq<Item>)
    ensures Upstream([item] + items) == if item.Broken? then [] else item.bytes + Upstream(items)
    ensures Unbroken([item] + items) <==> item.Frame? && Unbroken(items)
  {
    var all := [item] + items;
    assert all[1..] == items && item in all && forall i | i in items :: i in all;
  }

  lemma {:induction false} UpstreamConcat(a: seq<Item>, b: seq<Item>)
    ensures Unbroken(a) ==> Upstream(a + b) == Upstream(a) + Upstream(b)
    ensures !Unbroken(a) ==> Upstream(a + b) == Upstream(a)
  {
    hide Upstream, Unbroken;
    if a == [] {
      assert a + b == b;
      NothingUpstream(b);
    } else {
      var first, rest := a[0], a[1..];
      UpstreamConcat(rest, b);
      UpstreamLonger(first, rest, b);
      assert a == [first] + rest;
    }
  }

  lemma UpstreamLonger(first: Item, rest: seq<Item>, b: seq<Item>)
    requires Unbroken(rest) ==> Upstream(rest + b) == Upstream(rest) + Upstream(b)
    requires !Unbroken(rest) ==> Upstream(rest + b) == Upstream(rest)
    ensures var a := [first] + rest;
      if Unbroken(a) then Upstream(a + b) == Upstream(a) + Upstream(b) else Upstream(a + b) == Upstream(a)
  {
    hide Upstream, Unbroken;
    assert [first] + rest + b == [first] + (rest + b);
    UpstreamCons(first, rest);
    UpstreamCons(first, rest + b);
    if first.Frame? {
      assert first.bytes + (Upstream(rest) + Upstream(b)) == first.bytes + Upstream(rest) + Upstream(b);
    }
  }

  lemma NothingUpstream(b: seq<Item>)
    ensures Upstream([]) == [] && Unbroken([]) && [] + Upstream(b) == Upstream(b)
  {
  }

  function Saturated(n: nat): nat {
    if n > U64_MAX then U64_MAX else n
  }

  /** What holds after any number of items. Until it fails the scan has delivered everything; once
      it has failed it delivers nothing more. */
  ghost predicate ScanInvariant(expectedSize: nat, items: seq<Item>, state: ScanState, deliveries: seq<Delivery>) {
    && |deliveries| == |items|
    && state.hashed == Delivered(deliveries)
    && state.size == Saturated(|state.hashed|) <= expectedSize
    && state.hashed <= Upstream(items)
    && (state.failed <==> !Clean(deliveries))
    && (!state.failed ==> Unbroken(items) && state.hashed == Upstream(items))
    && (state.failed && Unbroken(items) ==> Saturated(|Upstream(items)|) > expectedSize)
    && (forall i, j | 0 <= i < j < |deliveries| :: deliveries[i].Err? ==> deliveries[j].Err?)
  }

  lemma CleanSnoc(deliveries: seq<Delivery>, d: Delivery)
    ensures Clean(deliveries + [d]) <==> Clean(deliveries) && d.Ok?
  {
    var all := deliveries + [d];
    assert d in all && forall e | e in deliveries :: e in all;
    assert forall e | e in all :: e in deliveries || e == d;
  }

  lemma UnbrokenSnoc(items: seq<Item>, item: Item)
    ensures Unbroken(items + [item]) <==> Unbroken(items) && item.Frame?
  {
    var all := items + [item];
    assert item in all && forall e | e in items :: e in all;
    assert forall e | e in all :: e in items || e == item;
  }

  lemma ScanStepInvariant(
    expectedSize: nat, items: seq<Item>, state: ScanState, deliveries: seq<Delivery>, item: Item)
    requires ScanInvariant(expectedSize, items, state, deliveries)
    ensures var (after, delivery) := ScanStep(expectedSize, state, item);
      ScanInvariant(expectedSize, items + [item], after, deliveries + [delivery])
  {
    hide Clean, Unbroken, Delivered, Upstream;
    var (after, delivery) := ScanStep(expectedSize, state, item);
    DeliveredConcat(deliveries, [delivery]);
    UpstreamConcat(items, [item]);
    CleanSnoc(deliveries, delivery);
    UnbrokenSnoc(items, item);
    OneDelivery(delivery);
    OneItem(item);
    ErrorsLast(deliveries, delivery);
  }

  lemma OneDelivery(d: Delivery)
    ensures Delivered([d]) == if d.Ok? then d.value else []
  {
    assert Delivered([d][1..]) == [];
  }

  lemma OneItem(item: Item)
    ensures Upstream([item]) == if item.Frame? then item.bytes else []
  {
    assert Upstream([item][1..]) == [];
  }

  lemma ErrorsLast(deliveries: seq<Delivery>, d: Delivery)
    ensures Clean(deliveries) ==> forall i | 0 <= i < |deliveries| :: deliveries[i].Ok?
  {
  }

  lemma {:induction false} ScanKeepsInvariant(expectedSize: nat, items: seq<Item>)
    ensures var (state, deliveries) := ScanAll(expectedSize, items);
      ScanInvariant(expectedSize, items, state, deliveries)
  {
    hide ScanInvariant, ScanStep;
    if items == [] {
      StartInvariant(expectedSize);
    } else {
      var n := |items| - 1;
      ScanKeepsInvariant(expectedSize, items[..n]);
      var (before, deliveries) := ScanAll(expectedSize, items[..n]);
      ScanStepInvariant(expectedSize, items[..n], before, deliveries, items[n]);
      assert items[..n] + [items[n]] == items;
    }
  }

  lemma StartInvariant(expectedSize: nat)
    ensures ScanInvariant(expectedSize, [], START, [])
  {
  }

  /** Nothing is delivered after an error. */
  ghost predicate SilentAfterError(deliveries: seq<Delivery>) {
    forall i, j | 0 <= i < j < |deliveries| :: deliveries[i].Err? ==> deliveries[j].Err?
  }

  /** For every chunking of the upstream bytes: what is delivered is a prefix of them, no longer
      than declared, with nothing after an error; and the stream ends cleanly exactly when there
      was no transport error and the one-shot check accepts all the bytes. The one exception is
      where the size counter saturates, at a declared size no caller admits. */
  lemma StreamAgreesWithOneShot(sha: Digester, descriptor: Descriptor, items: seq<Item>)
    requires descriptor.size <= U64_MAX
    ensures var body := BodyOf(sha, descriptor, items);
      && Delivered(body) <= Upstream(items)
      && Saturated(|Delivered(body)|) <= descriptor.size
      && SilentAfterError(body)
      && (Clean(body) ==> Delivered(body) == Upstream(items))
      && (Clean(body) <==>
            && Unbroken(items)
            && (VerifiesDescriptor(sha, descriptor, Upstream(items))
                || (descriptor.size == U64_MAX && |Upstream(items)| > U64_MAX
                  && sha(Upstream(items)) == descriptor.digest)))
  {
    hide Upstream, Unbroken, Delivered, Clean, ValidDigest, ScanInvariant, ScanAll;
    ScanKeepsInvariant(descriptor.size, items);
    var (state, deliveries) := ScanAll(descriptor.size, items);
    Verdict(sha, descriptor, items, state, deliveries);
  }

  lemma AppendedError(deliveries: seq<Delivery>)
    ensures var body := deliveries + [Err(BadDescriptor)];
      Delivered(body) == Delivered(deliveries) && !Clean(body)
        && (SilentAfterError(deliveries) ==> SilentAfterError(body))
  {
    hide Delivered, Clean;
    var e: Delivery := Err(BadDescriptor);
    DeliveredConcat(deliveries, [e]);
    OneDelivery(e);
    CleanSnoc(deliveries, e);
  }

  lemma Verdict(sha: Digester, descriptor: Descriptor, items: seq<Item>, state: ScanState, deliveries: seq<Delivery>)
    requires ScanInvariant(descriptor.size, items, state, deliveries) && descriptor.size <= U64_MAX
    ensures var final := FinalCheck(sha, descriptor.size, descriptor.digest, state);
      var body := if final.None? then deliveries else deliveries + [Err(final.value)];
      && Delivered(body) <= Upstream(items)
      && Saturated(|Delivered(body)|) <= descriptor.size
      && SilentAfterError(body)
      && (Clean(body) ==> Delivered(body) == Upstream(items))
      && (Clean(body) <==>
            && Unbroken(items)
            && (VerifiesDescriptor(sha, descriptor, Upstream(items))
                || (descriptor.size == U64_MAX && |Upstream(items)| > U64_MAX
                  && sha(Upstream(items)) == descriptor.digest)))
  {
    hide Upstream, Unbroken, Delivered, Clean, ValidDigest;
    AppendedError(deliveries);
    assert ValidDigest(sha(Upstream(items)));
    assert Saturated(|Upstream(items)|) == descriptor.size <==>
      descriptor.size == |Upstream(items)| || (descriptor.size == U64_MAX && |Upstream(items)| > U64_MAX);
  }

  /** The verdict does not depend on how the bytes were cut into frames. */
  lemma ChunkingIrrelevant(sha: Digester, descriptor: Descriptor, a: seq<Item>, b: seq<Item>)
    requires descriptor.size <= U64_MAX
    requires Unbroken(a) && Unbroken(b) && Upstream(a) == Upstream(b)
    ensures Clean(BodyOf(sha, descriptor, a)) <==> Clean(BodyOf(sha, descriptor, b))
  {
    hide Upstream, BodyOf, Clean, Delivered, ValidDigest;
    StreamAgreesWithOneShot(sha, descriptor, a);
    StreamAgreesWithOneShot(sha, descriptor, b);
  }

  // ---- Item by item ----

  /** The first items up to and including this one are frames that stay within the declared size. */
  predicate WithinSize(expectedSize: nat, items: seq<Item>, i: nat)
    requires i < |items|
  {
    Unbroken(items[..i + 1]) && Saturated(|Upstream(items[..i + 1])|) <= expectedSize
  }

  /** A transport error as itself, a frame as itself until the first error or excess byte, and as a bad
      descriptor from then on. */
  function DeliveredAs(expectedSize: nat, items: seq<Item>, i: nat): Delivery
    requires i < |items|
  {
    if items[i].Broken? then Err(TransportError)
    else if WithinSize(expectedSize, items, i) then Ok(items[i].bytes)
    else Err(BadDescriptor)
  }

  /** The scan delivers every item as that. */
  lemma {:induction false} ItemsTell(expectedSize: nat, items: seq<Item>)
    ensures var (state, deliveries) := ScanAll(expectedSize, items);
      && |deliveries| == |items|
      && (items != [] ==> (state.failed <==> !WithinSize(expectedSize, items, |items| - 1)))
      && (items == [] ==> !state.failed)
      && forall i | 0 <= i < |items| :: deliveries[i] == DeliveredAs(expectedSize, items, i)
  {
    hide Upstream, Unbroken, Delivered, Clean, ScanInvariant, WithinSize, ScanStep;
    if items != [] {
      var n := |items| - 1;
      var init, last := items[..n], items[n];
      ItemsTell(expectedSize, init);
      ScanKeepsInvariant(expectedSize, init);
      var (before, _) := ScanAll(expectedSize, init);
      LastTells(expectedSize, init, last, before, ScanAll(expectedSize, init).1);
      assert items == init + [last];
      forall i | 0 <= i < n ensures WithinSize(expectedSize, items, i) == WithinSize(expectedSize, init, i) {
        EarlierWithin(expectedSize, init, last, i);
      }
    }
  }

  lemma EarlierWithin(expectedSize: nat, init: seq<Item>, last: Item, i: nat)
    requires i < |init|
    ensures WithinSize(expectedSize, init + [last], i) == WithinSize(expectedSize, init, i)
  {
    assert (init + [last])[..i + 1] == init[..i + 1];
  }

  lemma LastTells(
    expectedSize: nat, init: seq<Item>, last: Item, before: ScanState, deliveries: seq<Delivery>)
    requires ScanInvariant(expectedSize, init, before, deliveries)
    ensures var (after, delivery) := ScanStep(expectedSize, before, last);
      && (after.failed <==> !WithinSize(expectedSize, init + [last], |init|))
      && delivery ==
        if last.Broken? then Err(TransportError)
        else if WithinSize(expectedSize, init + [last], |init|) then Ok(last.bytes)
        else Err(BadDescriptor)
  {
    hide Upstream, Unbroken, Delivered, Clean;
    assert (init + [last])[..|init| + 1] == init + [last];
    UpstreamConcat(init, [last]);
    OneItem(last);
    UnbrokenSnoc(init, last);
  }

  /** The body is what the items are delivered as, and one more error exactly when the stream has failed
      or its size or digest is not the declared one. */
  lemma DeliveriesTell(sha: Digester, descriptor: Descriptor, items: seq<Item>)
    requires descriptor.size <= U64_MAX
    ensures var body := BodyOf(sha, descriptor, items);
      && |body| >= |items|
      && (forall i | 0 <= i < |items| :: body[i] == DeliveredAs(descriptor.size, items, i))
      && (Clean(body) ==> |body| == |items|)
      && (!Clean(body) ==> |body| == |items| + 1 && body[|items|] == Err(BadDescriptor))
  {
    hide Upstream, Unbroken, Delivered, Clean, ScanInvariant, WithinSize, ScanAll, ValidDigest;
    ItemsTell(descriptor.size, items);
    ScanKeepsInvariant(descriptor.size, items);
    var (state, deliveries) := ScanAll(descriptor.size, items);
    AppendedError(deliveries);
    FailedUnclean(descriptor.size, items, state, deliveries);
  }

  lemma FailedUnclean(expectedSize: nat, items: seq<Item>, state: ScanState, deliveries: seq<Delivery>)
    requires ScanInvariant(expectedSize, items, state, deliveries)
    ensures state.failed <==> !Clean(deliveries)
  {
    hide Upstream, Unbroken, Delivered, Clean;
  }
}
