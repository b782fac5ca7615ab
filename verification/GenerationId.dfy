/** Generation identifiers: UUIDs of version 7 (section 5.7 of RFC 9562) whose timestamp runs
backwards, so that a listing by name has the newest generation first. */
module GenerationId {
  import opened Collections
  import opened Lexicographic

  /** Sixteen bytes. */
  type Id = seq<nat>

  const BASE: nat := 253370761200
  const NANOS: nat := 1_000_000_000

  /** Seconds and nanoseconds since 1970. */
  datatype Timestamp = Timestamp(secs: nat, nanos: nat)

  function EncodeMillis(millis: nat, random: seq<nat>): Id
    requires |random| == 10
  {
    Digits(Quot(millis, 65536), 4, 256) + Digits(millis, 2, 256)
    + [0x70 + Rem(random[0], 16), random[1], 0x80 + Rem(random[2], 64)] + random[3..]
  }

  function ToMillis(t: Timestamp): nat { t.secs * 1000 + t.nanos / 1_000_000 }

  function Mirror(t: Timestamp): Timestamp
    requires t.secs <= BASE && t.nanos < NANOS
  {
    Timestamp(BASE - t.secs, NANOS - 1 - t.nanos)
  }

  /** The identifier of a generation that starts at `t`. */
  function FromTimestamp(t: Timestamp, random: seq<nat>): Id
    requires t.secs <= BASE && t.nanos < NANOS && |random| == 10
  {
    EncodeMillis(ToMillis(Mirror(t)), random)
  }

  function Millis(id: Id): nat
    requires |id| == 16
  {
    Value(id[..6], 256)
  }

  /** Identifiers of other origin can lie beyond the base; the subtraction then wraps. */
  function ToTimestamp(id: Id): Timestamp
    requires |id| == 16
  {
    var secs := Millis(id) / 1000;
    Timestamp(if secs <= BASE then BASE - secs else (U64 + BASE - secs) % U64,
              NANOS - 1 - Millis(id) % 1000 * 1_000_000)
  }

  // ----- Encoding and decoding -----

  lemma Layout(millis: nat, random: seq<nat>)
    requires |random| == 10 && AreDigits(random, 256)
    ensures var id := EncodeMillis(millis, random);
      && |id| == 16 && AreDigits(id, 256)
      && id[..6] == Digits(millis, 6, 256)
      && id[6] / 16 == 7 && id[8] / 64 == 2
  {
    hide Quot;
    hide Digits;
    assert Pow(256, 2) == 65536;
    DigitsSplit(millis, 4, 2, 256);
  }

  lemma EncodedMillis(millis: nat, random: seq<nat>)
    requires |random| == 10 && AreDigits(random, 256) && millis < 0x1_0000_0000_0000
    ensures |EncodeMillis(millis, random)| == 16 && Millis(EncodeMillis(millis, random)) == millis
  {
    hide EncodeMillis;
    Layout(millis, random);
    assert Pow(256, 2) == 65536 && Pow(256, 4) == 65536 * 65536;
    assert Pow(256, 6) == 65536 * 65536 * 65536;
    ValueOfDigits(millis, 6, 256);
  }

  /** The mirrored time counts the milliseconds down. */
  lemma MirroredMillis(t: Timestamp)
    requires t.secs <= BASE && t.nanos < NANOS
    ensures ToMillis(Mirror(t)) == BASE * 1000 + 999 - ToMillis(t)
    ensures ToMillis(Mirror(t)) < 0x1_0000_0000_0000
  {
    var m, r := t.nanos / 1_000_000, t.nanos % 1_000_000;
    assert NANOS - 1 - t.nanos == (999 - m) * 1_000_000 + (999_999 - r);
  }

  /** Decoding gives back the millisecond at which the generation started, for every choice of
      the random bytes; what is finer than that reads as 999999 nanoseconds. */
  lemma RoundTrip(t: Timestamp, random: seq<nat>)
    requires t.secs <= BASE && t.nanos < NANOS && |random| == 10 && AreDigits(random, 256)
    ensures |FromTimestamp(t, random)| == 16
    ensures ToTimestamp(FromTimestamp(t, random)) == Timestamp(t.secs, t.nanos / 1_000_000 * 1_000_000 + 999_999)
    ensures ToMillis(ToTimestamp(FromTimestamp(t, random))) == ToMillis(t)
  {
    MirroredMillis(t);
    EncodedMillis(ToMillis(Mirror(t)), random);
    hide EncodeMillis;
    hide Millis;
    var m := t.nanos / 1_000_000;
    assert ToMillis(Mirror(t)) == (BASE - t.secs) * 1000 + (999 - m);
  }

  /** An earlier millisecond gives a larger identifier, whatever the random bytes. */
  lemma TimeReversed(t: Timestamp, x: seq<nat>, u: Timestamp, y: seq<nat>)
    requires t.secs <= BASE && t.nanos < NANOS && |x| == 10 && AreDigits(x, 256)
    requires u.secs <= BASE && u.nanos < NANOS && |y| == 10 && AreDigits(y, 256)
    requires ToMillis(t) < ToMillis(u)
    ensures Less(FromTimestamp(u, y), FromTimestamp(t, x))
  {
    MirroredMillis(t);
    MirroredMillis(u);
    EncodedMillis(ToMillis(Mirror(t)), x);
    EncodedMillis(ToMillis(Mirror(u)), y);
    Layout(ToMillis(Mirror(t)), x);
    Layout(ToMillis(Mirror(u)), y);
    hide EncodeMillis;
    OrderOfMillis(FromTimestamp(u, y), FromTimestamp(t, x));
  }

  lemma OrderOfMillis(a: Id, b: Id)
    requires |a| == |b| == 16 && AreDigits(a, 256) && AreDigits(b, 256) && Millis(a) < Millis(b)
    ensures Less(a, b)
  {
    ValueOrder(a[..6], b[..6], 256);
    EarlierDecides(a[..6], b[..6], a[6..], b[6..]);
    assert a == a[..6] + a[6..] && b == b[..6] + b[6..];
  }

  // ----- The textual form -----

  /** A hexadecimal digit as a character code; letters come after the decimal digits. */
  function Hex(d: nat): nat { if d < 10 then 48 + d else 87 + d }

  /** The bytes from the `i`th on, in the hyphenated form of section 4 of RFC 9562. */
  function Text(id: seq<nat>, i: nat): seq<nat> {
    if id == [] then []
    else
      (if i in {4, 6, 8, 10} then [45] else []) +
      ([Hex(id[0] / 16), Hex(id[0] % 16)] + Text(id[1..], i + 1))
  }

  /** Listings sort names; that is the order of the identifiers themselves. */
  lemma {:induction false} TextOrder(a: seq<nat>, b: seq<nat>, i: nat)
    requires |a| == |b| && AreDigits(a, 256) && AreDigits(b, 256) && Less(a, b)
    ensures Less(Text(a, i), Text(b, i))
  {
    var p := if i in {4, 6, 8, 10} then [45] else [];
    var x, y := [Hex(a[0] / 16), Hex(a[0] % 16)], [Hex(b[0] / 16), Hex(b[0] % 16)];
    SamePrefix(p, x + Text(a[1..], i + 1), y + Text(b[1..], i + 1));
    if a[0] == b[0] {
      TextOrder(a[1..], b[1..], i + 1);
      SamePrefix(x, Text(a[1..], i + 1), Text(b[1..], i + 1));
    } else {
      assert Less(x[1..], y[1..]) <==> x[1] < y[1];
      EarlierDecides(x, y, Text(a[1..], i + 1), Text(b[1..], i + 1));
    }
  }

  // ----- The newest generation before a time -----

  /** A listed key: the part that should name a generation, and the generation if it does. */
  datatype Key = Key(name: seq<nat>, generation: Option<Id>)

  predicate Qualifies(k: Key, threshold: Option<nat>)
    requires k.generation.Some? ==> |k.generation.value| == 16
  {
    k.generation.Some? && (threshold.None? || ToTimestamp(k.generation.value).secs <= threshold.value)
  }

  predicate Keys(keys: seq<Key>) {
    && (forall k | 0 <= k < |keys| && keys[k].generation.Some? :: |keys[k].generation.value| == 16)
    && (forall i, j | 0 <= i < |keys| && 0 <= j < |keys| && keys[i].name == keys[j].name ::
          keys[i].generation == keys[j].generation)
  }

  function First(keys: seq<Key>, threshold: Option<nat>): Option<Id>
    requires forall k | 0 <= k < |keys| && keys[k].generation.Some? :: |keys[k].generation.value| == 16
  {
    if keys == [] then None
    else if Qualifies(keys[0], threshold) then keys[0].generation
    else First(keys[1..], threshold)
  }

  /** One page of the listing; a name already looked at on the page is not looked at again. */
  method SearchPage(objs: seq<Key>, threshold: Option<nat>) returns (r: Option<Id>)
    requires Keys(objs)
    ensures r == First(objs, threshold)
  {
    var lastGen: Option<seq<nat>> := None;
    var k := 0;
    assert objs[0..] == objs;
    while k < |objs|
      invariant 0 <= k <= |objs| && First(objs, threshold) == First(objs[k..], threshold)
      invariant lastGen.Some? ==> 0 < k && lastGen.value == objs[k - 1].name
      invariant forall i | 0 <= i < k :: !Qualifies(objs[i], threshold)
    {
      assert objs[k..][0] == objs[k] && objs[k..][1..] == objs[k + 1..];
      if Some(objs[k].name) != lastGen {
        lastGen := Some(objs[k].name);
        if objs[k].generation.Some? {
          var id := objs[k].generation.value;
          if threshold.None? || ToTimestamp(id).secs <= threshold.value {
            return Some(id);
          }
        }
      } else {
        assert objs[k].generation == objs[k - 1].generation && !Qualifies(objs[k - 1], threshold);
      }
      k := k + 1;
    }
    r := None;
  }

  ghost predicate AllKeys(pages: seq<seq<Key>>) {
    forall p | p in pages :: p != [] && Keys(p)
  }

  lemma {:induction false} FlatKeys(pages: seq<seq<Key>>)
    requires AllKeys(pages)
    ensures forall k | 0 <= k < |Flatten(pages)| && Flatten(pages)[k].generation.Some? :: |Flatten(pages)[k].generation.value| == 16
  {
    if pages != [] {
      assert pages[0] in pages && forall p | p in pages[1..] :: p in pages;
      FlatKeys(pages[1..]);
    }
  }

  lemma {:induction false} FirstOfConcat(a: seq<Key>, b: seq<Key>, threshold: Option<nat>)
    requires forall k | 0 <= k < |a + b| && (a + b)[k].generation.Some? :: |(a + b)[k].generation.value| == 16
    ensures (forall k | 0 <= k < |a| && a[k].generation.Some? :: |a[k].generation.value| == 16)
    ensures (forall k | 0 <= k < |b| && b[k].generation.Some? :: |b[k].generation.value| == 16)
    ensures First(a + b, threshold) ==
      if First(a, threshold).Some? then First(a, threshold) else First(b, threshold)
  {
    forall k | 0 <= k < |a| ensures (a + b)[k] == a[k] {}
    forall k | 0 <= k < |b| ensures (a + b)[|a| + k] == b[k] {}
    if a == [] {
      assert a + b == b;
    } else {
      assert (a + b)[1..] == a[1..] + b;
      FirstOfConcat(a[1..], b, threshold);
    }
  }

  /** The pages of the listing are searched one after the other. */
  method LatestGenerationBefore(pages: seq<seq<Key>>, threshold: Option<nat>) returns (r: Option<Id>)
    requires AllKeys(pages)
    ensures (forall k | 0 <= k < |Flatten(pages)| && Flatten(pages)[k].generation.Some? :: |Flatten(pages)[k].generation.value| == 16)
    ensures r == First(Flatten(pages), threshold)
  {
    FlatKeys(pages);
    var n := 0;
    assert pages[0..] == pages;
    while n < |pages|
      invariant 0 <= n <= |pages| && AllKeys(pages[n..])
      invariant forall k | 0 <= k < |Flatten(pages[n..])| && Flatten(pages[n..])[k].generation.Some? ::
        |Flatten(pages[n..])[k].generation.value| == 16
      invariant First(Flatten(pages), threshold) == First(Flatten(pages[n..]), threshold)
    {
      assert pages[n] in pages[n..];
      assert pages[n..][1..] == pages[n + 1..];
      FirstOfConcat(pages[n], Flatten(pages[n + 1..]), threshold);
      r := SearchPage(pages[n], threshold);
      if r.Some? {
        return;
      }
      n := n + 1;
    }
    r := None;
  }

  /** The names are those of the generations, in the order of a listing. */
  ghost predicate Sorted(keys: seq<Key>) {
    && (forall k | 0 <= k < |keys| && keys[k].generation.Some? ::
          |keys[k].generation.value| == 16 && AreDigits(keys[k].generation.value, 256) &&
          keys[k].name == Text(keys[k].generation.value, 0))
    && (forall i, j | 0 <= i < j < |keys| :: !Less(keys[j].name, keys[i].name))
  }

  lemma {:induction false} FirstIndex(keys: seq<Key>, threshold: Option<nat>) returns (i: nat)
    requires forall k | 0 <= k < |keys| && keys[k].generation.Some? :: |keys[k].generation.value| == 16
    requires First(keys, threshold).Some?
    ensures i < |keys| && Qualifies(keys[i], threshold) && keys[i].generation == First(keys, threshold)
    ensures forall k | 0 <= k < i :: !Qualifies(keys[k], threshold)
  {
    if Qualifies(keys[0], threshold) {
      i := 0;
    } else {
      i := FirstIndex(keys[1..], threshold);
      i := i + 1;
    }
  }

  /** The generation found is the newest of those listed that started by the threshold, and one
      is found whenever there is one. */
  lemma FoundIsNewest(keys: seq<Key>, threshold: Option<nat>, j: nat)
    requires Sorted(keys) && j < |keys| && Qualifies(keys[j], threshold)
    ensures First(keys, threshold).Some? && |First(keys, threshold).value| == 16
    ensures Millis(First(keys, threshold).value) <= Millis(keys[j].generation.value)
  {
    FirstFinds(keys, threshold, j);
    var i := FirstIndex(keys, threshold);
    var x, y := keys[i].generation.value, keys[j].generation.value;
    if Millis(y) < Millis(x) {
      OrderOfMillis(y, x);
      TextOrder(y, x, 0);
      assert false;
    }
  }

  lemma {:induction false} FirstFinds(keys: seq<Key>, threshold: Option<nat>, j: nat)
    requires forall k | 0 <= k < |keys| && keys[k].generation.Some? :: |keys[k].generation.value| == 16
    requires j < |keys| && Qualifies(keys[j], threshold)
    ensures First(keys, threshold).Some?
  {
    if !Qualifies(keys[0], threshold) {
      FirstFinds(keys[1..], threshold, j - 1);
    }
  }

  /** For generations made by this program, newest means the latest start. */
  lemma NewestStarted(keys: seq<Key>, threshold: Option<nat>, i: nat, t: Timestamp, x: seq<nat>, j: nat, u: Timestamp, y: seq<nat>)
    requires Sorted(keys) && i < |keys| && j < |keys|
    requires t.secs <= BASE && t.nanos < NANOS && |x| == 10 && AreDigits(x, 256)
    requires u.secs <= BASE && u.nanos < NANOS && |y| == 10 && AreDigits(y, 256)
    requires keys[i].generation == Some(FromTimestamp(t, x)) && keys[j].generation == Some(FromTimestamp(u, y))
    requires First(keys, threshold) == keys[i].generation
    requires threshold.Some? ==> u.secs <= threshold.value
    ensures (threshold.Some? ==> t.secs <= threshold.value) && ToMillis(u) <= ToMillis(t)
  {
    hide EncodeMillis;
    RoundTrip(t, x);
    RoundTrip(u, y);
    var k := FirstIndex(keys, threshold);
    FoundIsNewest(keys, threshold, j);
    MirroredMillis(t);
    MirroredMillis(u);
    EncodedMillis(ToMillis(Mirror(t)), x);
    EncodedMillis(ToMillis(Mirror(u)), y);
  }
}
