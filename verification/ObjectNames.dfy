/** Names of the uploaded batches: the frame range zero-padded, the time, and the compression. */
module ObjectNames {
  import opened Collections
  import opened Lexicographic
  import opened LocalReplay

  datatype Compression = Raw | Gzip | Zstd

  datatype BatchName = BatchName(first: nat, last: nat, time: nat, kind: Compression)

  // ----- Printing -----

  function DigitChar(d: nat): char
    requires d < 10
  {
    '0' + d as char
  }

  function Chars(d: seq<nat>): string
    requires AreDigits(d, 10)
  {
    seq(|d|, i requires 0 <= i < |d| => DigitChar(d[i]))
  }

  function Padded(n: nat): string { Chars(Digits(n, 12, 10)) }

  /** The digits without leading zeros. */
  function Shortest(n: nat): (d: seq<nat>)
    ensures d != [] && AreDigits(d, 10)
  {
    if n < 10 then [n] else Shortest(n / 10) + [n % 10]
  }

  function KindText(k: Compression): string {
    match k
    case Raw => "raw"
    case Gzip => "gz"
    case Zstd => "zstd"
  }

  function FileName(r: BatchName): string {
    Padded(r.first) + "-" + Padded(r.last) + "-" + Chars(Shortest(r.time)) + "." + KindText(r.kind)
  }

  function Key(dir: string, r: BatchName): string { dir + "/" + FileName(r) }

  // ----- Parsing -----

  function Rfind(s: string, c: char): (r: Option<nat>)
    ensures r.Some? ==> r.value < |s| && s[r.value] == c && c !in s[r.value + 1..]
    ensures r.None? ==> c !in s
  {
    if s == [] then None
    else if s[|s| - 1] == c then Some(|s| - 1)
    else
      var r := Rfind(s[..|s| - 1], c);
      assert r.Some? ==> s[r.value + 1..] == s[..|s| - 1][r.value + 1..] + [s[|s| - 1]];
      assert s == s[..|s| - 1] + [s[|s| - 1]];
      r
  }

  predicate IsDigit(c: char) { '0' <= c <= '9' }

  ghost predicate AllDigits(s: string) { forall i | 0 <= i < |s| :: IsDigit(s[i]) }

  function DigitOf(c: char): nat
    requires IsDigit(c)
  {
    (c - '0') as nat
  }

  /** The value of a string of digits; anything else has none. */
  function Number(s: string): Option<nat> {
    if s == [] then Some(0)
    else
      var r := Number(s[..|s| - 1]);
      if r.None? || !IsDigit(s[|s| - 1]) then None else Some(r.value * 10 + DigitOf(s[|s| - 1]))
  }

  /** An unsigned integer below the limit, with or without a plus sign. */
  function ParseUnsigned(s: string, limit: nat): Option<nat> {
    var body := if s != [] && s[0] == '+' then s[1..] else s;
    if body == [] then None
    else
      var r := Number(body);
      if r.Some? && r.value < limit then r else None
  }

  function ParseKind(s: string): Option<Compression> {
    if s == "gz" || s == "gzip" then Some(Gzip)
    else if s == "raw" || s == "" then Some(Raw)
    else if s == "zstd" then Some(Zstd)
    else None
  }

  /** The name after the last slash. */
  function ParseName(name: string): Option<BatchName> {
    var timeAt := Rfind(name, '-');
    if timeAt.None? then None
    else
      var lastAt := Rfind(name[..timeAt.value], '-');
      if lastAt.None? then None
      else
        var kindAt := Rfind(name, '.');
        if kindAt.None? then None
        else
          var first := ParseUnsigned(name[..lastAt.value], U32);
          var last := ParseUnsigned(name[lastAt.value + 1..timeAt.value], U32);
          if first.None? || last.None? then None
          else
            // The slice below is in bounds: a dot before the time would be in one of the numbers.
            NoDotBefore(name, lastAt.value, timeAt.value, kindAt.value);
            var time := ParseUnsigned(name[timeAt.value + 1..kindAt.value], U64);
            var kind := ParseKind(name[kindAt.value + 1..]);
            if time.None? || kind.None? then None
            else Some(BatchName(first.value, last.value, time.value, kind.value))
  }

  function Parse(key: string): Option<BatchName> {
    var slash := Rfind(key, '/');
    if slash.None? then None else ParseName(key[slash.value + 1..])
  }

  lemma {:induction false} NumberIsDigits(s: string, c: char)
    requires Number(s).Some? && !IsDigit(c)
    ensures c !in s
  {
    if s != [] {
      NumberIsDigits(s[..|s| - 1], c);
      assert s == s[..|s| - 1] + [s[|s| - 1]];
    }
  }

  lemma UnsignedHasNoDot(s: string, limit: nat)
    requires ParseUnsigned(s, limit).Some?
    ensures '.' !in s
  {
    if s[0] == '+' {
      NumberIsDigits(s[1..], '.');
      assert s == [s[0]] + s[1..];
    } else {
      NumberIsDigits(s, '.');
    }
  }

  /** A dot in a name whose frame numbers parse comes after the last dash: no slice is out of
      bounds on any key. */
  lemma NoDotBefore(name: string, lastAt: nat, timeAt: nat, kindAt: nat)
    requires lastAt < timeAt < |name| && kindAt < |name|
    requires name[lastAt] == '-' && name[timeAt] == '-' && name[kindAt] == '.'
    requires ParseUnsigned(name[..lastAt], U32).Some? && ParseUnsigned(name[lastAt + 1..timeAt], U32).Some?
    ensures timeAt < kindAt
  {
    UnsignedHasNoDot(name[..lastAt], U32);
    UnsignedHasNoDot(name[lastAt + 1..timeAt], U32);
    forall i | 0 <= i < timeAt ensures name[i] != '.' {
      assert i < lastAt ==> name[i] == name[..lastAt][i];
      assert i > lastAt ==> name[i] == name[lastAt + 1..timeAt][i - lastAt - 1];
    }
  }

  // ----- Round trip -----

  lemma {:induction false} RfindLast(a: string, c: char, b: string)
    requires c !in b
    ensures Rfind(a + [c] + b, c) == Some(|a|)
  {
    var s := a + [c] + b;
    if b != [] {
      assert s[..|s| - 1] == a + [c] + b[..|b| - 1];
      assert b == b[..|b| - 1] + [b[|b| - 1]];
      RfindLast(a, c, b[..|b| - 1]);
    }
  }

  lemma {:induction false} NumberOfChars(d: seq<nat>)
    requires AreDigits(d, 10)
    ensures Number(Chars(d)) == Some(Value(d, 10))
  {
    if d != [] {
      NumberOfChars(d[..|d| - 1]);
      assert Chars(d)[..|d| - 1] == Chars(d[..|d| - 1]);
    }
  }

  lemma CharsAreDigits(d: seq<nat>)
    requires AreDigits(d, 10)
    ensures AllDigits(Chars(d))
  {
  }

  lemma ParseChars(d: seq<nat>, limit: nat)
    requires AreDigits(d, 10) && d != [] && Value(d, 10) < limit
    ensures ParseUnsigned(Chars(d), limit) == Some(Value(d, 10))
  {
    NumberOfChars(d);
  }

  lemma {:induction false} ValueOfShortest(n: nat)
    ensures Value(Shortest(n), 10) == n
  {
    if n < 10 {
      assert [n][..0] == [];
    } else {
      ValueOfShortest(n / 10);
      assert (Shortest(n / 10) + [n % 10])[..|Shortest(n / 10)|] == Shortest(n / 10);
    }
  }

  lemma TwelveDigits()
    ensures Pow(10, 12) == 1_000_000_000_000
  {
    assert Pow(10, 4) == 10_000;
    assert Pow(10, 8) == 100_000_000;
  }

  lemma ParsePadded(n: nat)
    requires n < U32
    ensures |Padded(n)| == 12 && AllDigits(Padded(n)) && ParseUnsigned(Padded(n), U32) == Some(n)
  {
    hide Digits;
    TwelveDigits();
    ValueOfDigits(n, 12, 10);
    ParseChars(Digits(n, 12, 10), U32);
  }

  lemma Without(s: string, c: char)
    requires AllDigits(s) && !IsDigit(c)
    ensures c !in s
  {
  }

  ghost predicate Fits(r: BatchName) { r.first < U32 && r.last < U32 && r.time < U64 }

  lemma Regroup(a: string, t: string, k: string)
    ensures a + "-" + t + "." + k == a + ['-'] + (t + "." + k)
    ensures (a + "-" + t + "." + k)[..|a|] == a
  {
  }

  lemma TimeDelimiter(f: string, l: string, t: string, k: string)
    requires '-' !in t && '-' !in k
    ensures var name := f + "-" + l + "-" + t + "." + k;
      Rfind(name, '-') == Some(|f| + 1 + |l|) && name[..|f| + 1 + |l|] == f + "-" + l
  {
    hide Rfind;
    assert '-' !in t + "." + k;
    RfindLast(f + "-" + l, '-', t + "." + k);
    Regroup(f + "-" + l, t, k);
  }

  lemma KindDelimiter(f: string, l: string, t: string, k: string)
    requires '.' !in k
    ensures var name := f + "-" + l + "-" + t + "." + k;
      Rfind(name, '.') == Some(|f| + 1 + |l| + 1 + |t|)
  {
    RfindLast(f + "-" + l + "-" + t, '.', k);
  }

  /** The three delimiters of a printed name are where the parser looks for them. */
  lemma Delimiters(f: string, l: string, t: string, k: string)
    requires AllDigits(f) && AllDigits(l) && AllDigits(t) && '-' !in k && '.' !in k
    ensures var name := f + "-" + l + "-" + t + "." + k;
      && Rfind(name, '-') == Some(|f| + 1 + |l|)
      && name[..|f| + 1 + |l|] == f + "-" + l
      && Rfind(f + "-" + l, '-') == Some(|f|)
      && Rfind(name, '.') == Some(|f| + 1 + |l| + 1 + |t|)
  {
    hide Rfind;
    Without(t, '-');
    Without(l, '-');
    TimeDelimiter(f, l, t, k);
    KindDelimiter(f, l, t, k);
    RfindLast(f, '-', l);
  }

  lemma Pieces(f: string, l: string, t: string, k: string)
    ensures var name := f + "-" + l + "-" + t + "." + k;
      && name[..|f|] == f
      && name[|f| + 1..|f| + 1 + |l|] == l
      && name[|f| + 1 + |l| + 1..|f| + 1 + |l| + 1 + |t|] == t
      && name[|f| + 1 + |l| + 1 + |t| + 1..] == k
  {
  }

  lemma KindRoundTrip(k: Compression)
    ensures ParseKind(KindText(k)) == Some(k) && '-' !in KindText(k) && '.' !in KindText(k) && '/' !in KindText(k)
  {
  }

  lemma NameParsesBack(r: BatchName)
    requires Fits(r)
    ensures ParseName(FileName(r)) == Some(r)
  {
    hide ParseUnsigned;
    hide Padded;
    hide Chars;
    hide Rfind;
    var f, l, t, k := Padded(r.first), Padded(r.last), Chars(Shortest(r.time)), KindText(r.kind);
    ParsePadded(r.first);
    ParsePadded(r.last);
    ValueOfShortest(r.time);
    ParseChars(Shortest(r.time), U64);
    CharsAreDigits(Shortest(r.time));
    KindRoundTrip(r.kind);
    Delimiters(f, l, t, k);
    Pieces(f, l, t, k);
  }

  lemma ParseTime(n: nat)
    requires n < U64
    ensures |Chars(Shortest(n))| > 0 && ParseUnsigned(Chars(Shortest(n)), U64) == Some(n)
  {
    ValueOfShortest(n);
    ParseChars(Shortest(n), U64);
  }

  /** How a name looks: two numbers of twelve digits, the time, and the ending for the compression. */
  lemma NameLayout(r: BatchName, ending: string) returns (f: string, l: string, t: string)
    requires Fits(r) && ending == match r.kind case Raw => ".raw" case Gzip => ".gz" case Zstd => ".zstd"
    ensures FileName(r) == f + "-" + l + "-" + (t + ending)
    ensures |f| == 12 && AllDigits(f) && ParseUnsigned(f, U32) == Some(r.first)
    ensures |l| == 12 && AllDigits(l) && ParseUnsigned(l, U32) == Some(r.last)
    ensures |t| > 0 && ParseUnsigned(t, U64) == Some(r.time)
  {
    f, l, t := Padded(r.first), Padded(r.last), Chars(Shortest(r.time));
    var k := KindText(r.kind);
    assert FileName(r) == f + "-" + l + "-" + t + "." + k && r.first < U32 && r.last < U32 && r.time < U64;
    EndingOf(r.kind, ending);
    hide *;
    ParsePadded(r.first);
    ParsePadded(r.last);
    ParseTime(r.time);
    EndRegroup(f + "-" + l + "-", t, k);
  }

  lemma EndRegroup(a: string, t: string, k: string)
    ensures a + t + "." + k == a + (t + ("." + k))
  {
  }

  lemma EndingOf(kind: Compression, ending: string)
    requires ending == match kind case Raw => ".raw" case Gzip => ".gz" case Zstd => ".zstd"
    ensures ending == "." + KindText(kind) && |ending| == 1 + |KindText(kind)|
  {
  }

  lemma NoSlash(r: BatchName)
    requires Fits(r)
    ensures '/' !in FileName(r)
  {
    hide Padded;
    hide Chars;
    ParsePadded(r.first);
    ParsePadded(r.last);
    CharsAreDigits(Shortest(r.time));
    Without(Padded(r.first), '/');
    Without(Padded(r.last), '/');
    Without(Chars(Shortest(r.time)), '/');
    KindRoundTrip(r.kind);
  }

  /** A printed key parses to what it was printed from, in any directory. */
  lemma RoundTrip(dir: string, r: BatchName)
    requires Fits(r)
    ensures Parse(Key(dir, r)) == Some(r)
  {
    hide FileName;
    hide ParseName;
    NoSlash(r);
    RfindLast(dir, '/', FileName(r));
    assert dir + ['/'] + FileName(r) == Key(dir, r);
    assert Key(dir, r)[|dir| + 1..] == FileName(r);
    NameParsesBack(r);
  }

  // ----- Listing order -----

  function Codes(s: string): seq<nat> { seq(|s|, i requires 0 <= i < |s| => s[i] as nat) }

  lemma CodesConcat(a: string, b: string)
    ensures Codes(a + b) == Codes(a) + Codes(b)
  {
  }

  lemma {:induction false} CodesOfDigits(a: seq<nat>, b: seq<nat>)
    requires |a| == |b| && AreDigits(a, 10) && AreDigits(b, 10) && Less(a, b)
    ensures Less(Codes(Chars(a)), Codes(Chars(b)))
  {
    assert Codes(Chars(a))[1..] == Codes(Chars(a[1..])) && Codes(Chars(b))[1..] == Codes(Chars(b[1..]));
    if a[0] == b[0] {
      CodesOfDigits(a[1..], b[1..]);
    }
  }

  /** Zero padding: the earlier batch has the smaller key. */
  lemma KeysInFrameOrder(dir: string, r: BatchName, s: BatchName)
    requires Fits(r) && Fits(s) && r.first < s.first
    ensures Less(Codes(Key(dir, r)), Codes(Key(dir, s)))
  {
    TwelveDigits();
    hide Digits;
    hide Chars;
    var a, b := Digits(r.first, 12, 10), Digits(s.first, 12, 10);
    DigitsOrder(r.first, s.first, 12, 10);
    CodesOfDigits(a, b);
    var x := "-" + Padded(r.last) + "-" + Chars(Shortest(r.time)) + "." + KindText(r.kind);
    var y := "-" + Padded(s.last) + "-" + Chars(Shortest(s.time)) + "." + KindText(s.kind);
    SameLength(a, b);
    EarlierDecides(Codes(Chars(a)), Codes(Chars(b)), Codes(x), Codes(y));
    SamePrefix(Codes(dir + "/"), Codes(Chars(a)) + Codes(x), Codes(Chars(b)) + Codes(y));
    SplitKey(dir, r, x);
    SplitKey(dir, s, y);
  }

  lemma SameLength(a: seq<nat>, b: seq<nat>)
    requires |a| == |b| && AreDigits(a, 10) && AreDigits(b, 10)
    ensures |Codes(Chars(a))| == |Codes(Chars(b))|
  {
  }

  lemma SplitKey(dir: string, r: BatchName, x: string)
    requires x == "-" + Padded(r.last) + "-" + Chars(Shortest(r.time)) + "." + KindText(r.kind)
    ensures Codes(Key(dir, r)) == Codes(dir + "/") + (Codes(Padded(r.first)) + Codes(x))
  {
    hide Padded;
    hide Chars;
    assert FileName(r) == Padded(r.first) + x;
    CodesConcat(dir + "/", FileName(r));
    CodesConcat(Padded(r.first), x);
  }

  /** An object is listed under the name of its batch. */
  ghost predicate NamedAs(dir: string, o: Object, key: string) {
    o.Batch? ==> exists kind :: key == Key(dir, BatchName(o.first, o.last, o.time, kind))
  }

  /** Batches that do not overlap are listed in the order of their frames. */
  lemma ListedInFrameOrder(dir: string, objs: seq<Object>, keys: seq<string>)
    requires |keys| == |objs| && forall k | 0 <= k < |objs| :: NamedAs(dir, objs[k], keys[k])
    requires forall i, j | 0 <= i < j < |keys| :: !Less(Codes(keys[j]), Codes(keys[i]))
    requires forall k | 0 <= k < |objs| && objs[k].Batch? ::
      objs[k].frames != [] && objs[k].first < U32 && objs[k].last < U32 && objs[k].time < U64
    requires forall i, j | 0 <= i < |objs| && 0 <= j < |objs| && i != j && objs[i].Batch? && objs[j].Batch? ::
      objs[i].first + |objs[i].frames| <= objs[j].first || objs[j].first + |objs[j].frames| <= objs[i].first
    ensures InOrder(objs)
  {
    forall i, j | 0 <= i < j < |objs| && objs[i].Batch? && objs[j].Batch?
      ensures objs[i].first + |objs[i].frames| <= objs[j].first
    {
      hide Less;
      hide Codes;
      SmallerFirstKey(dir, objs[j], keys[j], objs[i], keys[i]);
    }
  }

  lemma SmallerFirstKey(dir: string, a: Object, x: string, b: Object, y: string)
    requires a.Batch? && a.first < U32 && a.last < U32 && a.time < U64 && NamedAs(dir, a, x)
    requires b.Batch? && b.first < U32 && b.last < U32 && b.time < U64 && NamedAs(dir, b, y)
    ensures a.first < b.first ==> Less(Codes(x), Codes(y))
  {
    hide Key;
    hide Less;
    hide Codes;
    var k :| x == Key(dir, BatchName(a.first, a.last, a.time, k));
    var m :| y == Key(dir, BatchName(b.first, b.last, b.time, m));
    if a.first < b.first {
      KeysInFrameOrder(dir, BatchName(a.first, a.last, a.time, k), BatchName(b.first, b.last, b.time, m));
    }
  }
}
