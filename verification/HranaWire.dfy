/** The hand-written part of the wire codec: values, and vectors written as maps from index to
message, in the encoding of Protocol Buffers. */
module HranaWire {
  import opened Collections

  type Bytes = seq<Byte>

  const I63: int := 0x8000_0000_0000_0000

  /** A value read, and what is left of the input. */
  datatype Read<T> = Error | Done(value: T, rest: Bytes)

  // ----- Variable-length integers -----

  function Varint(n: nat): Bytes {
    if n < 128 then [n] else [n % 128 + 128] + Varint(n / 128)
  }

  function VarintLen(n: nat): nat {
    if n < 128 then 1 else 1 + VarintLen(n / 128)
  }

  function ReadGroups(s: Bytes, room: nat): (r: Read<nat>)
    ensures r.Done? ==> |r.rest| < |s|
    decreases room
  {
    if s == [] || room == 0 then Error
    else if s[0] < 128 then Done(s[0], s[1..])
    else
      var r := ReadGroups(s[1..], room - 1);
      if r.Error? then Error else Done(r.value * 128 + (s[0] - 128), r.rest)
  }

  /** At most ten groups, and a value of 64 bits. */
  function ReadVarint(s: Bytes): (r: Read<nat>)
    ensures r.Done? ==> |r.rest| < |s|
  {
    var r := ReadGroups(s, 10);
    if r.Done? && r.value < U64 then r else Error
  }

  lemma {:induction false} VarintLength(n: nat)
    ensures |Varint(n)| == VarintLen(n)
  {
    if n >= 128 {
      VarintLength(n / 128);
    }
  }

  function Pow128(k: nat): nat {
    if k == 0 then 1 else Pow128(k - 1) * 128
  }

  lemma {:induction false} GroupsRoundTrip(n: nat, rest: Bytes, room: nat)
    requires room > 0 && n < Pow128(room)
    ensures ReadGroups(Varint(n) + rest, room) == Done(n, rest)
    decreases room
  {
    var s := Varint(n) + rest;
    assert Pow128(1) == 128;
    if n < 128 {
      assert s[1..] == rest;
    } else {
      assert s[1..] == Varint(n / 128) + rest;
      GroupsRoundTrip(n / 128, rest, room - 1);
    }
  }

  lemma VarintRoundTrip(n: nat, rest: Bytes)
    requires n < U64
    ensures ReadVarint(Varint(n) + rest) == Done(n, rest)
  {
    assert Pow128(5) == 34359738368;
    assert Pow128(10) == 34359738368 * 34359738368;
    GroupsRoundTrip(n, rest, 10);
  }

  // ----- Signed and fixed-width numbers -----

  function ZigZag(i: int): nat {
    if i >= 0 then 2 * i else -2 * i - 1
  }

  function UnZigZag(n: nat): int {
    if n % 2 == 0 then n / 2 else -(n / 2) - 1
  }

  lemma ZigZagRoundTrip(i: int)
    requires -I63 <= i < I63
    ensures ZigZag(i) < U64 && UnZigZag(ZigZag(i)) == i
  {
  }

  /** Little-endian bytes. */
  function Fixed(n: nat, k: nat): (b: Bytes)
    ensures |b| == k
    decreases k
  {
    if k == 0 then [] else [n % 256] + Fixed(n / 256, k - 1)
  }

  function ReadFixed(b: Bytes): nat {
    if b == [] then 0 else b[0] + 256 * ReadFixed(b[1..])
  }

  function Pow256(k: nat): nat {
    if k == 0 then 1 else Pow256(k - 1) * 256
  }

  lemma {:induction false} FixedRoundTrip(n: nat, k: nat)
    requires n < Pow256(k)
    ensures ReadFixed(Fixed(n, k)) == n
    decreases k
  {
    if k > 0 {
      FixedRoundTrip(n / 256, k - 1);
      assert Fixed(n, k)[1..] == Fixed(n / 256, k - 1);
    }
  }

  // ----- Fields -----

  const VARINT: nat := 0
  const FIXED64: nat := 1
  const LENGTH: nat := 2
  const FIXED32: nat := 5

  function Key(tag: nat, wire: nat): Bytes { Varint(tag * 8 + wire) }

  function KeyLen(tag: nat): nat { VarintLen(tag * 8) }

  function Delimited(tag: nat, body: Bytes): Bytes { Key(tag, LENGTH) + Varint(|body|) + body }

  function DelimitedLen(tag: nat, n: nat): nat { KeyLen(tag) + VarintLen(n) + n }

  function Take(s: Bytes, n: nat): (r: Read<Bytes>)
    ensures r.Done? ==> |r.rest| <= |s|
  {
    if n <= |s| then Done(s[..n], s[n..]) else Error
  }

  function ReadDelimited(s: Bytes): (r: Read<Bytes>)
    ensures r.Done? ==> |r.rest| < |s|
  {
    var n := ReadVarint(s);
    if n.Error? then Error else Take(n.rest, n.value)
  }

  /** A key has 32 bits, and its tag is not 0. */
  function ReadKey(s: Bytes): (r: Read<nat>)
    ensures r.Done? ==> |r.rest| < |s|
  {
    var r := ReadVarint(s);
    if r.Error? || r.value >= U32 || r.value / 8 == 0 then Error else r
  }

  /** Skip a field that is not wanted; groups are not supported. */
  function Skip(wire: nat, s: Bytes): (r: Read<Bytes>)
    ensures r.Done? ==> |r.rest| <= |s|
  {
    if wire == VARINT then
      var r := ReadVarint(s);
      if r.Error? then Error else Done([], r.rest)
    else if wire == FIXED64 then Take(s, 8)
    else if wire == FIXED32 then Take(s, 4)
    else if wire == LENGTH then ReadDelimited(s)
    else Error
  }

  lemma KeyLength(tag: nat, wire: nat)
    requires wire < 8
    ensures |Key(tag, wire)| == KeyLen(tag)
  {
    VarintLength(tag * 8 + wire);
    SameGroups(tag, wire);
  }

  lemma SameGroups(tag: nat, wire: nat)
    requires wire < 8
    ensures VarintLen(tag * 8 + wire) == VarintLen(tag * 8)
  {
    assert (tag * 8 + wire) / 128 == tag / 16 == tag * 8 / 128;
  }

  lemma DelimitedLength(tag: nat, body: Bytes)
    ensures |Delimited(tag, body)| == DelimitedLen(tag, |body|)
  {
    KeyLength(tag, LENGTH);
    VarintLength(|body|);
  }

  lemma Regroup(a: Bytes, b: Bytes, c: Bytes)
    ensures a + b + c == a + (b + c)
  {
  }

  lemma TakeFirst(body: Bytes, rest: Bytes)
    ensures Take(body + rest, |body|) == Done(body, rest)
  {
  }

  lemma DelimitedRoundTrip(body: Bytes, rest: Bytes)
    requires |body| < U64
    ensures ReadDelimited(Varint(|body|) + body + rest) == Done(body, rest)
  {
    hide ReadVarint;
    hide Varint;
    VarintRoundTrip(|body|, body + rest);
    Regroup(Varint(|body|), body, rest);
    TakeFirst(body, rest);
    hide Take;
  }

  // ----- Values -----

  /** Floats by their 64 bits, text by its bytes. */
  datatype Value = NoValue | Null | Integer(i: int) | Float(bits: nat) | Text(text: Bytes) | Blob(blob: Bytes)

  ghost predicate Fits(v: Value) {
    match v
    case Integer(i) => -I63 <= i < I63
    case Float(bits) => bits < U64
    case Text(b) => |b| < U64
    case Blob(b) => |b| < U64
    case _ => true
  }

  function Encode(v: Value): Bytes {
    match v
    case NoValue => []
    case Null => Key(1, LENGTH) + Varint(0)
    case Integer(i) => Key(2, VARINT) + Varint(ZigZag(i))
    case Float(bits) => Key(3, FIXED64) + Fixed(bits, 8)
    case Text(b) => Delimited(4, b)
    case Blob(b) => Delimited(5, b)
  }

  function EncodedLen(v: Value): nat {
    match v
    case NoValue => 0
    case Null => KeyLen(1) + VarintLen(0)
    case Integer(i) => KeyLen(2) + VarintLen(ZigZag(i))
    case Float(_) => KeyLen(3) + 8
    case Text(b) => DelimitedLen(4, |b|)
    case Blob(b) => DelimitedLen(5, |b|)
  }

  /** The length announced is the length written. */
  lemma EncodedLenIsExact(v: Value)
    ensures |Encode(v)| == EncodedLen(v)
  {
    match v
    case NoValue =>
    case Null => KeyLength(1, LENGTH); VarintLength(0);
    case Integer(i) => KeyLength(2, VARINT); VarintLength(ZigZag(i));
    case Float(_) => KeyLength(3, FIXED64);
    case Text(b) => DelimitedLength(4, b);
    case Blob(b) => DelimitedLength(5, b);
  }

  // ----- The bytes on the wire -----

  /** Seven bits to a byte, the least significant first. */
  function GroupsValue(b: Bytes): nat {
    if b == [] then 0 else b[0] % 128 + 128 * GroupsValue(b[1..])
  }

  /** All bytes of a variable-length integer but the last have their highest bit set, and no shorter
      sequence would do. */
  lemma {:induction false} VarintIsBase128(n: nat)
    ensures var b := Varint(n);
      && b != [] && GroupsValue(b) == n
      && (forall k | 0 <= k < |b| - 1 :: b[k] >= 128) && b[|b| - 1] < 128
      && (|b| > 1 ==> b[|b| - 1] != 0)
  {
    if n < 128 {
      assert [n][1..] == [];
    } else {
      VarintIsBase128(n / 128);
      assert Varint(n)[1..] == Varint(n / 128);
      forall k | 0 < k < |Varint(n)| ensures Varint(n)[k] == Varint(n / 128)[k - 1] {}
    }
  }

  /** The fields of a value as Protocol Buffers has them: the number of the field times eight plus its
      wire type, then a signed integer folded onto the naturals, eight bytes, or a length and as many
      bytes. */
  lemma EncodedBytes(v: Value)
    requires Fits(v)
    ensures Encode(v) == match v
      case NoValue => []
      case Null => [0x0A, 0x00]
      case Integer(i) => [0x10] + Varint(if i < 0 then -2 * i - 1 else 2 * i)
      case Float(bits) => [0x19] + Fixed(bits, 8)
      case Text(b) => [0x22] + Varint(|b|) + b
      case Blob(b) => [0x2A] + Varint(|b|) + b
    ensures v.Float? ==> ReadFixed(Fixed(v.bits, 8)) == v.bits
  {
    if v.Float? {
      assert Pow256(4) == 0x1_0000_0000 && Pow256(8) == U64;
      FixedRoundTrip(v.bits, 8);
    }
  }

  function MergeField(cur: Value, tag: nat, wire: nat, s: Bytes): (r: Read<Value>)
    ensures r.Done? ==> |r.rest| <= |s|
  {
    if tag == 2 then
      if wire != VARINT then Error
      else
        var r := ReadVarint(s);
        if r.Error? then Error else Done(Integer(UnZigZag(r.value)), r.rest)
    else if tag == 3 then
      if wire != FIXED64 then Error
      else
        var r := Take(s, 8);
        if r.Error? then Error else Done(Float(ReadFixed(r.value)), r.rest)
    else if tag == 4 || tag == 5 then
      if wire != LENGTH then Error
      else
        var r := ReadDelimited(s);
        if r.Error? then Error else Done(if tag == 4 then Text(r.value) else Blob(r.value), r.rest)
    else
      var r := Skip(wire, s);
      if r.Error? then Error else Done(if tag == 1 then Null else cur, r.rest)
  }

  /** One field: its key, and what the key says. */
  function MergeNext(cur: Value, s: Bytes): (r: Read<Value>)
    ensures r.Done? ==> |r.rest| < |s|
  {
    var key := ReadKey(s);
    if key.Error? then Error
    else MergeField(cur, key.value / 8, key.value % 8, key.rest)
  }

  /** Fields are merged until the input is used up. */
  function Merge(cur: Value, s: Bytes): Option<Value>
    decreases |s|
  {
    if s == [] then Some(cur)
    else
      var r := MergeNext(cur, s);
      if r.Error? then None else Merge(r.value, r.rest)
  }

  lemma KeyRoundTrip(tag: nat, wire: nat, rest: Bytes)
    requires 0 < tag < 16 && wire < 8
    ensures ReadKey(Key(tag, wire) + rest) == Done(tag * 8 + wire, rest)
    ensures (tag * 8 + wire) / 8 == tag && (tag * 8 + wire) % 8 == wire
  {
    hide ReadVarint;
    VarintRoundTrip(tag * 8 + wire, rest);
  }

  lemma NextField(cur: Value, tag: nat, wire: nat, body: Bytes)
    requires 0 < tag < 16 && wire < 8
    ensures MergeNext(cur, Key(tag, wire) + body) == MergeField(cur, tag, wire, body)
  {
    hide ReadKey;
    hide MergeField;
    hide Key;
    KeyRoundTrip(tag, wire, body);
  }

  lemma NullRoundTrip(cur: Value, rest: Bytes)
    ensures MergeNext(cur, Encode(Null) + rest) == Done(Null, rest)
  {
    hide ReadVarint;
    assert Encode(Null) + rest == Key(1, LENGTH) + (Varint(0) + rest);
    NextField(cur, 1, LENGTH, Varint(0) + rest);
    VarintRoundTrip(0, rest);
  }

  lemma IntegerRoundTrip(cur: Value, i: int, rest: Bytes)
    requires -I63 <= i < I63
    ensures MergeNext(cur, Encode(Integer(i)) + rest) == Done(Integer(i), rest)
  {
    hide ReadVarint;
    assert Encode(Integer(i)) + rest == Key(2, VARINT) + (Varint(ZigZag(i)) + rest);
    NextField(cur, 2, VARINT, Varint(ZigZag(i)) + rest);
    ZigZagRoundTrip(i);
    VarintRoundTrip(ZigZag(i), rest);
  }

  lemma FloatRoundTrip(cur: Value, bits: nat, rest: Bytes)
    requires bits < U64
    ensures MergeNext(cur, Encode(Float(bits)) + rest) == Done(Float(bits), rest)
  {
    hide ReadVarint;
    var body := Fixed(bits, 8);
    assert Encode(Float(bits)) + rest == Key(3, FIXED64) + (body + rest);
    NextField(cur, 3, FIXED64, body + rest);
    assert (body + rest)[..8] == body && (body + rest)[8..] == rest;
    assert Pow256(4) == 0x1_0000_0000 && Pow256(8) == U64;
    FixedRoundTrip(bits, 8);
  }

  lemma BytesRoundTrip(cur: Value, tag: nat, b: Bytes, rest: Bytes)
    requires tag in {4, 5} && |b| < U64
    ensures MergeNext(cur, Delimited(tag, b) + rest) == Done(if tag == 4 then Text(b) else Blob(b), rest)
  {
    hide ReadDelimited;
    assert Delimited(tag, b) + rest == Key(tag, LENGTH) + (Varint(|b|) + b + rest);
    NextField(cur, tag, LENGTH, Varint(|b|) + b + rest);
    DelimitedRoundTrip(b, rest);
  }

  lemma OneField(cur: Value, v: Value, rest: Bytes)
    requires Fits(v) && !v.NoValue?
    ensures MergeNext(cur, Encode(v) + rest) == Done(v, rest)
  {
    hide MergeNext;
    match v
    case NoValue =>
    case Null => NullRoundTrip(cur, rest);
    case Integer(i) => IntegerRoundTrip(cur, i, rest);
    case Float(bits) => FloatRoundTrip(cur, bits, rest);
    case Text(b) => BytesRoundTrip(cur, 4, b, rest);
    case Blob(b) => BytesRoundTrip(cur, 5, b, rest);
  }

  /** Merging an encoded value gives that value, whatever was there before and whatever follows;
      the absent value writes nothing and so leaves what was there. */
  lemma MergeEncoded(cur: Value, v: Value, rest: Bytes)
    requires Fits(v)
    ensures Merge(cur, Encode(v) + rest) == Merge(if v.NoValue? then cur else v, rest)
  {
    if v.NoValue? {
      assert Encode(v) + rest == rest;
    } else {
      hide MergeNext;
      OneField(cur, v, rest);
    }
  }

  /** Fields with other numbers are skipped, and leave the value as it is. */
  lemma OtherFieldsSkipped(cur: Value, tag: nat, n: nat, body: Bytes, rest: Bytes)
    requires 5 < tag < 16 && n < U64 && |body| < U64
    ensures Merge(cur, Key(tag, VARINT) + (Varint(n) + rest)) == Merge(cur, rest)
    ensures Merge(cur, Key(tag, LENGTH) + (Varint(|body|) + body + rest)) == Merge(cur, rest)
  {
    NextField(cur, tag, VARINT, Varint(n) + rest);
    NextField(cur, tag, LENGTH, Varint(|body|) + body + rest);
    VarintRoundTrip(n, rest);
    DelimitedRoundTrip(body, rest);
    hide ReadVarint;
    hide ReadDelimited;
    hide MergeNext;
    hide Varint;
    KeyIsThere(tag, VARINT);
    KeyIsThere(tag, LENGTH);
  }

  lemma KeyIsThere(tag: nat, wire: nat)
    ensures Key(tag, wire) != []
  {
  }

  /** A value in the wrong wire type is an error. */
  lemma WrongWireFails(cur: Value, tag: nat, wire: nat, rest: Bytes)
    requires 1 < tag <= 5 && wire < 8 && wire != (if tag == 2 then 0 else if tag == 3 then 1 else 2)
    ensures Merge(cur, Key(tag, wire) + rest).None?
  {
    NextField(cur, tag, wire, rest);
    hide MergeNext;
    KeyIsThere(tag, wire);
  }

  /** A value that fields are merged into. */
  class Message {
    var value: Value

    constructor ()
      ensures value == NoValue
    {
      value := NoValue;
    }

    method MergeAll(s: Bytes) returns (ok: bool)
      modifies this
      ensures ok <==> Merge(old(value), s).Some?
      ensures ok ==> Merge(old(value), s) == Some(value)
    {
      var rest := s;
      while rest != []
        invariant Merge(value, rest) == Merge(old(value), s)
        decreases |rest|
      {
        var r := MergeNext(value, rest);
        if r.Error? {
          return false;
        }
        value, rest := r.value, r.rest;
      }
      ok := true;
    }
  }

  function Decode(s: Bytes): Option<Value> { Merge(NoValue, s) }

  lemma RoundTrip(v: Value)
    requires Fits(v)
    ensures Decode(Encode(v)) == Some(v)
  {
    assert Encode(v) + [] == Encode(v);
    MergeEncoded(NoValue, v, []);
  }

  // ----- Vectors as maps -----

  /** The entry for one message: its index under tag 1, the message under tag 2. */
  function EntryBody(index: nat, msg: Bytes): Bytes { Key(1, VARINT) + Varint(index) + Delimited(2, msg) }

  function EntryBodyLen(index: nat, n: nat): nat { KeyLen(1) + VarintLen(index) + DelimitedLen(2, n) }

  function Entry(tag: nat, index: nat, msg: Bytes): Bytes {
    Key(tag, LENGTH) + Varint(EntryBodyLen(index, |msg|)) + EntryBody(index, msg)
  }

  function EntryLen(tag: nat, index: nat, n: nat): nat {
    KeyLen(tag) + VarintLen(EntryBodyLen(index, n)) + EntryBodyLen(index, n)
  }

  /** The entries of the messages that are there, up to the `k`th. */
  function MapBytes(tag: nat, values: seq<Option<Bytes>>, k: nat): Bytes
    requires k <= |values|
  {
    if k == 0 then []
    else MapBytes(tag, values, k - 1) + if values[k - 1].Some? then Entry(tag, k - 1, values[k - 1].value) else []
  }

  method EncodeMap(tag: nat, values: seq<Option<Bytes>>, buf: Bytes) returns (out: Bytes)
    ensures out == buf + MapBytes(tag, values, |values|)
  {
    out := buf;
    var index := 0;
    while index < |values|
      invariant 0 <= index <= |values| && out == buf + MapBytes(tag, values, index)
    {
      if values[index].Some? {
        out := out + Entry(tag, index, values[index].value);
      }
      index := index + 1;
    }
  }

  /** The sum of the entry lengths is the length of what is written. */
  method EncodedMapLen(tag: nat, values: seq<Option<Bytes>>) returns (n: nat)
    ensures n == |MapBytes(tag, values, |values|)|
  {
    n := 0;
    var index := 0;
    while index < |values|
      invariant 0 <= index <= |values| && n == |MapBytes(tag, values, index)|
    {
      if values[index].Some? {
        EntryLength(tag, index, values[index].value);
        n := n + EntryLen(tag, index, |values[index].value|);
      }
      index := index + 1;
    }
  }

  method EncodeBatchResult(results: seq<Option<Bytes>>, errors: seq<Option<Bytes>>, buf: Bytes) returns (out: Bytes)
    ensures out == buf + BatchBytes(results, errors)
  {
    out := EncodeMap(1, results, buf);
    out := EncodeMap(2, errors, out);
  }

  function BatchBytes(results: seq<Option<Bytes>>, errors: seq<Option<Bytes>>): Bytes {
    MapBytes(1, results, |results|) + MapBytes(2, errors, |errors|)
  }

  method BatchResultLen(results: seq<Option<Bytes>>, errors: seq<Option<Bytes>>) returns (n: nat)
    ensures n == |BatchBytes(results, errors)|
  {
    var a := EncodedMapLen(1, results);
    var b := EncodedMapLen(2, errors);
    n := a + b;
  }

  /** An entry of the two maps of a batch result. */
  lemma EntryBytes(tag: nat, index: nat, msg: Bytes)
    requires tag in {1, 2}
    ensures
      var body := [0x08] + Varint(index) + [0x12] + Varint(|msg|) + msg;
      Entry(tag, index, msg) == [if tag == 1 then 0x0A else 0x12] + Varint(|body|) + body
  {
    EntryLength(tag, index, msg);
    hide Varint;
    assert Key(1, VARINT) == [0x08] && Key(2, LENGTH) == [0x12] && Key(1, LENGTH) == [0x0A] by { SmallKeys(); }
    assert EntryBody(index, msg) == [0x08] + Varint(index) + [0x12] + Varint(|msg|) + msg;
  }

  lemma SmallKeys()
    ensures Key(1, VARINT) == [0x08] && Key(2, LENGTH) == [0x12] && Key(1, LENGTH) == [0x0A]
  {
  }

  /** The length prefix of an entry is the length of its body. */
  lemma EntryLength(tag: nat, index: nat, msg: Bytes)
    ensures |EntryBody(index, msg)| == EntryBodyLen(index, |msg|)
    ensures Entry(tag, index, msg) == Delimited(tag, EntryBody(index, msg))
    ensures |Entry(tag, index, msg)| == EntryLen(tag, index, |msg|)
  {
    KeyLength(1, VARINT);
    VarintLength(index);
    DelimitedLength(2, msg);
    DelimitedLength(tag, EntryBody(index, msg));
  }

  // ----- Reading the map back -----

  datatype Item = Item(tag: nat, index: nat, msg: Bytes)

  function ReadBody(tag: nat, s: Bytes): Option<Item> {
    var k1 := ReadKey(s);
    if k1.Error? || k1.value != 8 then None
    else
      var index := ReadVarint(k1.rest);
      if index.Error? then None
      else
        var k2 := ReadKey(index.rest);
        if k2.Error? || k2.value != 18 then None
        else
          var msg := ReadDelimited(k2.rest);
          if msg.Error? || msg.rest != [] then None else Some(Item(tag, index.value, msg.value))
  }

  /** What a receiver makes of one entry of a map field. */
  function ReadEntry(s: Bytes): (r: Read<Item>)
    ensures r.Done? ==> |r.rest| < |s|
  {
    var key := ReadKey(s);
    if key.Error? || key.value % 8 != LENGTH then Error
    else
      var body := ReadDelimited(key.rest);
      if body.Error? then Error
      else
        var item := ReadBody(key.value / 8, body.value);
        if item.None? then Error else Done(item.value, body.rest)
  }

  function ReadMap(s: Bytes): Option<seq<Item>>
    decreases |s|
  {
    if s == [] then Some([])
    else
      var r := ReadEntry(s);
      if r.Error? then None
      else
        var more := ReadMap(r.rest);
        if more.None? then None else Some([r.value] + more.value)
  }

  /** The messages that are there, with their places. */
  function Items(tag: nat, values: seq<Option<Bytes>>, k: nat): seq<Item>
    requires k <= |values|
  {
    if k == 0 then []
    else Items(tag, values, k - 1) + if values[k - 1].Some? then [Item(tag, k - 1, values[k - 1].value)] else []
  }

  lemma BodyRoundTrip(tag: nat, index: nat, msg: Bytes)
    requires index < U64 && |msg| < U64
    ensures ReadBody(tag, EntryBody(index, msg)) == Some(Item(tag, index, msg))
  {
    hide ReadVarint;
    hide ReadKey;
    hide ReadDelimited;
    var tail := Varint(|msg|) + msg + [];
    var s := EntryBody(index, msg);
    assert s == Key(1, VARINT) + (Varint(index) + (Key(2, LENGTH) + tail));
    KeyRoundTrip(1, VARINT, Varint(index) + (Key(2, LENGTH) + tail));
    VarintRoundTrip(index, Key(2, LENGTH) + tail);
    KeyRoundTrip(2, LENGTH, tail);
    DelimitedRoundTrip(msg, []);
  }

  lemma EntryRoundTrip(tag: nat, index: nat, msg: Bytes, rest: Bytes)
    requires 0 < tag < 16 && index < U64 && EntryBodyLen(index, |msg|) < U64
    ensures ReadEntry(Entry(tag, index, msg) + rest) == Done(Item(tag, index, msg), rest)
  {
    hide ReadVarint;
    hide ReadKey;
    hide ReadDelimited;
    hide ReadBody;
    var body := EntryBody(index, msg);
    EntryLength(tag, index, msg);
    assert Entry(tag, index, msg) + rest == Key(tag, LENGTH) + (Varint(|body|) + body + rest);
    KeyRoundTrip(tag, LENGTH, Varint(|body|) + body + rest);
    DelimitedRoundTrip(body, rest);
    BodyRoundTrip(tag, index, msg);
  }

  ghost predicate Small(values: seq<Option<Bytes>>) {
    forall k | 0 <= k < |values| && values[k].Some? :: k < 0x1_0000_0000 && EntryBodyLen(k, |values[k].value|) < U64
  }

  lemma ReadOneMore(tag: nat, index: nat, msg: Bytes, rest: Bytes, more: seq<Item>)
    requires 0 < tag < 16 && index < U64 && EntryBodyLen(index, |msg|) < U64 && ReadMap(rest) == Some(more)
    ensures ReadMap(Entry(tag, index, msg) + rest) == Some([Item(tag, index, msg)] + more)
  {
    EntryRoundTrip(tag, index, msg, rest);
  }

  lemma {:induction false} MapRoundTrip(tag: nat, values: seq<Option<Bytes>>, k: nat, rest: Bytes, more: seq<Item>)
    requires 0 < tag < 16 && k <= |values| && Small(values) && ReadMap(rest) == Some(more)
    ensures ReadMap(MapBytes(tag, values, k) + rest) == Some(Items(tag, values, k) + more)
  {
    hide ReadMap;
    hide Entry;
    if k == 0 {
      assert MapBytes(tag, values, 0) + rest == rest && Items(tag, values, 0) + more == more;
    } else if values[k - 1].None? {
      MapRoundTrip(tag, values, k - 1, rest, more);
      assert MapBytes(tag, values, k) == MapBytes(tag, values, k - 1);
      assert Items(tag, values, k) == Items(tag, values, k - 1);
    } else {
      var msg := values[k - 1].value;
      var entry, item := Entry(tag, k - 1, msg), Item(tag, k - 1, msg);
      ReadOneMore(tag, k - 1, msg, rest, more);
      MapRoundTrip(tag, values, k - 1, entry + rest, [item] + more);
      assert MapBytes(tag, values, k) + rest == MapBytes(tag, values, k - 1) + (entry + rest);
      assert Items(tag, values, k) + more == Items(tag, values, k - 1) + ([item] + more);
    }
  }

  /** A receiver gets back every result and every error at its index, and nothing else. */
  lemma BatchRoundTrip(results: seq<Option<Bytes>>, errors: seq<Option<Bytes>>)
    requires Small(results) && Small(errors)
    ensures
      var items := Items(1, results, |results|) + Items(2, errors, |errors|);
      ReadMap(BatchBytes(results, errors)) == Some(items)
  {
    hide ReadEntry;
    var r, e := MapBytes(1, results, |results|), MapBytes(2, errors, |errors|);
    MapRoundTrip(2, errors, |errors|, [], []);
    assert e + [] == e && Items(2, errors, |errors|) + [] == Items(2, errors, |errors|);
    MapRoundTrip(1, results, |results|, e, Items(2, errors, |errors|));
  }
}
