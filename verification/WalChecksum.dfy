/** The checksum chain of a write-ahead log (section 4.2 of the SQLite Database File Format):
two 32-bit sums that wrap, over words in the byte order the log was written in. */
module WalChecksum {
  import opened Collections

  datatype Crc = Crc(s0: Word32, s1: Word32)

  function WrappingAdd(a: Word32, b: Word32): Word32 { if a + b < U32 then a + b else a + b - U32 }

  function WrappingSub(a: Word32, b: Word32): Word32 { if a >= b then a - b else a + U32 - b }

  /** Four bytes, the most significant first. */
  function Join(a: nat, b: nat, c: nat, d: nat): (w: Word32)
    requires a < 256 && b < 256 && c < 256 && d < 256
  {
    ((a * 256 + b) * 256 + c) * 256 + d
  }

  /** Four bytes in big-endian or little-endian order. */
  function Word(b: seq<Byte>, big: bool): Word32
    requires |b| == 4
  {
    if big then Join(b[0], b[1], b[2], b[3]) else Join(b[3], b[2], b[1], b[0])
  }

  function Add(c: Crc, x: Word32, y: Word32): Crc {
    var s0 := WrappingAdd(WrappingAdd(c.s0, x), c.s1);
    Crc(s0, WrappingAdd(WrappingAdd(c.s1, y), s0))
  }

  function Pair(c: Crc, pair: seq<Byte>, big: bool): Crc
    requires |pair| == 8
  {
    Add(c, Word(pair[0..4], big), Word(pair[4..8], big))
  }

  /** The sums over the whole pairs of words in the data. */
  function Checksum(c: Crc, data: seq<Byte>, big: bool): Crc
    decreases |data|
  {
    if |data| < 8 then c else Checksum(Pair(c, data[..8], big), data[8..], big)
  }

  method ChecksumStep(init: Crc, data: seq<Byte>, big: bool) returns (c: Crc)
    ensures c == Checksum(init, data, big)
  {
    hide Word;
    var s0, s1, i := init.s0, init.s1, 0;
    assert data[0..] == data;
    while i + 8 <= |data|
      invariant 0 <= i <= |data|
      invariant Checksum(Crc(s0, s1), data[i..], big) == Checksum(init, data, big)
    {
      var pair := data[i..i + 8];
      assert data[i..][..8] == pair && data[i..][8..] == data[i + 8..];
      s0 := WrappingAdd(WrappingAdd(s0, Word(pair[0..4], big)), s1);
      s1 := WrappingAdd(WrappingAdd(s1, Word(pair[4..8], big)), s0);
      i := i + 8;
    }
    c := Crc(s0, s1);
  }

  /** Extending a checksum over a second piece is checksumming both in one. */
  lemma {:induction false} Composes(c: Crc, a: seq<Byte>, b: seq<Byte>, big: bool)
    requires |a| % 8 == 0
    ensures Checksum(c, a + b, big) == Checksum(Checksum(c, a, big), b, big)
    decreases |a|
  {
    hide Pair;
    if |a| < 8 {
      assert a + b == b;
    } else {
      assert (a + b)[..8] == a[..8] && (a + b)[8..] == a[8..] + b;
      Composes(Pair(c, a[..8], big), a[8..], b, big);
    }
  }

  // ----- The checksum can be run backwards -----

  function Sub(c: Crc, x: Word32, y: Word32): Crc {
    var s1 := WrappingSub(WrappingSub(c.s1, c.s0), y);
    Crc(WrappingSub(WrappingSub(c.s0, s1), x), s1)
  }

  function Unpair(c: Crc, pair: seq<Byte>, big: bool): Crc
    requires |pair| == 8
  {
    Sub(c, Word(pair[0..4], big), Word(pair[4..8], big))
  }

  function Undo(c: Crc, data: seq<Byte>, big: bool): Crc {
    if |data| < 8 then c else Unpair(Undo(c, data[8..], big), data[..8], big)
  }

  lemma AddSub(a: Word32, b: Word32)
    ensures WrappingSub(WrappingAdd(a, b), b) == a && WrappingAdd(WrappingSub(a, b), b) == a
  {
  }

  lemma SubAdd(c: Crc, x: Word32, y: Word32)
    ensures Sub(Add(c, x, y), x, y) == c && Add(Sub(c, x, y), x, y) == c
  {
    hide WrappingAdd;
    hide WrappingSub;
    var s0 := WrappingAdd(WrappingAdd(c.s0, x), c.s1);
    AddSub(WrappingAdd(c.s0, x), c.s1);
    AddSub(c.s0, x);
    AddSub(WrappingAdd(c.s1, y), s0);
    AddSub(c.s1, y);
    var s1 := WrappingSub(WrappingSub(c.s1, c.s0), y);
    AddSub(c.s1, c.s0);
    AddSub(WrappingSub(c.s1, c.s0), y);
    AddSub(c.s0, s1);
    AddSub(WrappingSub(c.s0, s1), x);
  }

  lemma {:induction false} UndoChecksum(c: Crc, data: seq<Byte>, big: bool)
    ensures Undo(Checksum(c, data, big), data, big) == c
    decreases |data|
  {
    if |data| >= 8 {
      hide Add;
      hide Sub;
      hide Word;
      UndoChecksum(Pair(c, data[..8], big), data[8..], big);
      SubAdd(c, Word(data[..8][0..4], big), Word(data[..8][4..8], big));
    }
  }

  /** For fixed data the checksum is a bijection on the 64 bits of its state. */
  lemma {:induction false} ChecksumUndo(c: Crc, data: seq<Byte>, big: bool)
    ensures Checksum(Undo(c, data, big), data, big) == c
    decreases |data|
  {
    if |data| >= 8 {
      hide Add;
      hide Sub;
      hide Word;
      var d := Undo(c, data[8..], big);
      SubAdd(d, Word(data[..8][0..4], big), Word(data[..8][4..8], big));
      ChecksumUndo(c, data[8..], big);
    }
  }

  // ----- The weights of the words -----

  function Fib(n: nat): nat {
    if n < 2 then n else Fib(n - 1) + Fib(n - 2)
  }

  /** The words with Fibonacci weights, the largest on the first. */
  function Sum(words: seq<nat>, m: nat): nat
    requires m >= |words|
  {
    if words == [] then 0 else Fib(m) * words[0] + Sum(words[1..], m - 1)
  }

  function Weighted(c: Crc, words: seq<nat>): nat {
    Fib(|words|) * c.s0 + Fib(|words| + 1) * c.s1 + Sum(words, |words|)
  }

  function Words(data: seq<Byte>, big: bool): seq<nat>
    decreases |data|
  {
    if |data| < 8 then [] else [Word(data[..8][0..4], big), Word(data[..8][4..8], big)] + Words(data[8..], big)
  }

  lemma WrapsOnce(a: Word32, b: Word32) returns (t: nat)
    ensures WrappingAdd(a, b) + U32 * t == a + b
  {
    t := if a + b < U32 then 0 else 1;
  }

  lemma Distribute(f: nat, a: int, b: int)
    ensures f * (a + b) == f * a + f * b
  {
  }

  lemma Carries(f: nat, a: int, u: nat)
    ensures f * (a + U32 * u) == f * a + U32 * (f * u)
  {
    Distribute(f, a, U32 * u);
    assert f * (U32 * u) == U32 * (f * u);
  }

  lemma TwoWeights(f: nat, g: nat, s0: nat, s1: nat, x: nat, y: nat)
    ensures (f + g) * s0 + (f + 2 * g) * s1 + (f + g) * x + g * y ==
            f * (s0 + s1 + x) + g * (s1 + y + (s0 + s1 + x))
  {
    assert f * (s0 + s1 + x) == f * s0 + f * s1 + f * x;
    assert g * (s1 + y + (s0 + s1 + x)) == g * s1 + g * y + g * s0 + g * s1 + g * x;
    assert (f + g) * s0 == f * s0 + g * s0;
    assert (f + 2 * g) * s1 == f * s1 + g * s1 + g * s1;
    assert (f + g) * x == f * x + g * x;
  }

  lemma StateWraps(c: Crc, x: Word32, y: Word32) returns (u: nat, v: nat)
    ensures Add(c, x, y).s0 + U32 * u == c.s0 + c.s1 + x
    ensures Add(c, x, y).s1 + U32 * v == c.s1 + y + (c.s0 + c.s1 + x)
  {
    var s0 := Add(c, x, y).s0;
    var t1 := WrapsOnce(c.s0, x);
    var t2 := WrapsOnce(WrappingAdd(c.s0, x), c.s1);
    var t3 := WrapsOnce(c.s1, y);
    var t4 := WrapsOnce(WrappingAdd(c.s1, y), s0);
    hide WrappingAdd;
    u, v := t1 + t2, t1 + t2 + t3 + t4;
  }

  lemma Balance(f: nat, g: nat, h: nat, i: nat, s0: nat, s1: nat, x: nat, y: nat, d0: nat, d1: nat, u: nat, v: nat)
    requires h == f + g && i == f + 2 * g
    requires d0 + U32 * u == s0 + s1 + x && d1 + U32 * v == s1 + y + (s0 + s1 + x)
    ensures h * s0 + i * s1 + h * x + g * y == f * d0 + g * d1 + U32 * (f * u + g * v)
  {
    TwoWeights(f, g, s0, s1, x, y);
    Carries(f, d0, u);
    Carries(g, d1, v);
    Distribute(U32, f * u, g * v);
  }

  lemma WeightsOfTwo(c: Crc, x: nat, y: nat, words: seq<nat>)
    ensures
      var k := |words|;
      Weighted(c, [x, y] + words) ==
      Fib(k + 2) * c.s0 + Fib(k + 3) * c.s1 + Fib(k + 2) * x + Fib(k + 1) * y + Sum(words, k)
  {
    hide Fib;
    SumOfTwo(x, y, words);
    hide Sum;
  }

  lemma NextFib(k: nat)
    ensures Fib(k + 2) == Fib(k) + Fib(k + 1)
  {
  }

  /** Taking two words into the state keeps the weighted sum, up to multiples of 2^32. */
  lemma TakeTwo(c: Crc, x: Word32, y: Word32, words: seq<nat>) returns (q: nat)
    ensures Weighted(c, [x, y] + words) == Weighted(Add(c, x, y), words) + U32 * q
  {
    hide Fib;
    hide Sum;
    hide Add;
    var k := |words|;
    var f, g, d := Fib(k), Fib(k + 1), Add(c, x, y);
    var u, v := StateWraps(c, x, y);
    NextFib(k);
    NextFib(k + 1);
    WeightsOfTwo(c, x, y, words);
    Balance(f, g, Fib(k + 2), Fib(k + 3), c.s0, c.s1, x, y, d.s0, d.s1, u, v);
    q := f * u + g * v;
  }

  lemma SumOfTwo(x: nat, y: nat, words: seq<nat>)
    ensures Sum([x, y] + words, |words| + 2) == Fib(|words| + 2) * x + Fib(|words| + 1) * y + Sum(words, |words|)
  {
    assert ([x, y] + words)[1..] == [y] + words && ([y] + words)[1..] == words;
  }

  lemma SameRemainder(a: nat, b: nat, q: nat)
    requires a == b + U32 * q
    ensures a % U32 == b % U32
  {
  }

  /** The second sum is all words, and the first all but the last, with the start and the words
      weighted by Fibonacci numbers in reverse order, modulo 2^32. */
  lemma {:induction false} FibonacciWeights(c: Crc, data: seq<Byte>, big: bool)
    ensures
      var r, words := Checksum(c, data, big), Words(data, big);
      && r.s1 == Weighted(c, words) % U32
      && (if words == [] then r == c else r.s0 == Weighted(c, words[..|words| - 1]) % U32)
    decreases |data|
  {
    hide Word;
    if |data| < 8 {
      assert Fib(0) == 0 && Fib(1) == 1;
    } else {
      var x, y, rest := Word(data[..8][0..4], big), Word(data[..8][4..8], big), Words(data[8..], big);
      var d := Add(c, x, y);
      FibonacciWeights(d, data[8..], big);
      hide Add;
      hide Weighted;
      var q := TakeTwo(c, x, y, rest);
      SameRemainder(Weighted(c, [x, y] + rest), Weighted(d, rest), q);
      if rest == [] {
        FirstWord(c, x, y);
        assert ([x, y] + rest)[..1] == [x];
      } else {
        var most := rest[..|rest| - 1];
        q := TakeTwo(c, x, y, most);
        SameRemainder(Weighted(c, [x, y] + most), Weighted(d, most), q);
        assert ([x, y] + rest)[..|rest| + 1] == [x, y] + most;
      }
    }
  }

  lemma FirstWord(c: Crc, x: Word32, y: Word32)
    ensures Add(c, x, y).s0 == Weighted(c, [x]) % U32
  {
    assert Fib(1) == 1 && Fib(2) == 1;
    assert Sum([x], 1) == x by { assert [x][1..] == []; }
    assert Weighted(c, [x]) == c.s0 + c.s1 + x;
  }

  // ----- Frames -----

  datatype Verified = Ok(crc: Crc) | Mismatch

  function FrameCrc(header: seq<Byte>): Crc
    requires |header| == 24
  {
    Crc(Word(header[16..20], true), Word(header[20..24], true))
  }

  /** The checksum covers the first eight bytes of the frame header and the page. */
  function Covered(init: Crc, header: seq<Byte>, page: seq<Byte>, big: bool): Crc
    requires |header| == 24
  {
    Checksum(Checksum(init, header[..8], big), page, big)
  }

  method Verify(header: seq<Byte>, init: Crc, page: seq<Byte>, big: bool) returns (r: Verified)
    requires |header| == 24 && |page| % 8 == 0
    ensures r == if Covered(init, header, page, big) == FrameCrc(header) then Ok(FrameCrc(header)) else Mismatch
  {
    var crc := ChecksumStep(init, header[..8], big);
    crc := ChecksumStep(crc, page, big);
    r := if crc == FrameCrc(header) then Ok(crc) else Mismatch;
  }

  ghost predicate Verifies(header: seq<Byte>, init: Crc, page: seq<Byte>, big: bool)
    requires |header| == 24
  {
    Covered(init, header, page, big) == FrameCrc(header)
  }

  function BigEndian(w: Word32): seq<Byte> {
    [w / 0x100_0000, w / 0x1_0000 % 256, w / 256 % 256, w % 256]
  }

  lemma WordOfBytes(w: Word32)
    ensures |BigEndian(w)| == 4 && Word(BigEndian(w), true) == w
  {
    var a, b, c := w / 256, w / 256 / 256, w / 256 / 256 / 256;
    assert w / 0x1_0000 == b && w / 0x100_0000 == c by { Shifts(w); }
    assert BigEndian(w) == [c, b % 256, a % 256, w % 256];
    assert c * 256 + b % 256 == b && b * 256 + a % 256 == a && a * 256 + w % 256 == w;
  }

  lemma Shifts(w: nat)
    ensures w / 0x1_0000 == w / 256 / 256 && w / 0x100_0000 == w / 256 / 256 / 256
  {
  }

  /** A frame written with the checksum of its first eight header bytes and its page, most
      significant byte first after the salts, verifies whatever the salts are; with any other
      checksum there it does not. */
  lemma WrittenFrameVerifies(first: seq<Byte>, salts: seq<Byte>, init: Crc, page: seq<Byte>, big: bool, crc: Crc)
    requires |first| == 8 && |salts| == 8
    ensures
      var header := first + salts + BigEndian(crc.s0) + BigEndian(crc.s1);
      Verifies(header, init, page, big) <==> crc == Checksum(init, first + page, big)
  {
    hide Checksum;
    var header := first + salts + BigEndian(crc.s0) + BigEndian(crc.s1);
    assert header[16..20] == BigEndian(crc.s0) && header[20..24] == BigEndian(crc.s1) && header[..8] == first;
    WordOfBytes(crc.s0);
    WordOfBytes(crc.s1);
    Composes(init, first, page, big);
  }

  /** A frame verifies from exactly one starting checksum. */
  lemma VerifiesFromOne(header: seq<Byte>, init: Crc, page: seq<Byte>, big: bool)
    requires |header| == 24
    ensures Verifies(header, init, page, big) <==>
            init == Undo(Undo(FrameCrc(header), page, big), header[..8], big)
  {
    hide Word;
    hide Add;
    hide Sub;
    var mid := Checksum(init, header[..8], big);
    UndoChecksum(init, header[..8], big);
    UndoChecksum(mid, page, big);
    var back := Undo(FrameCrc(header), page, big);
    ChecksumUndo(back, header[..8], big);
    ChecksumUndo(FrameCrc(header), page, big);
  }

  // ----- Changes are noticed -----

  lemma LastByte(x: nat, p: nat, y: nat, q: nat)
    requires p < 256 && q < 256 && x * 256 + p == y * 256 + q
    ensures x == y && p == q
  {
  }

  lemma JoinInjective(a: nat, b: nat, c: nat, d: nat, a': nat, b': nat, c': nat, d': nat)
    requires a < 256 && b < 256 && c < 256 && d < 256 && a' < 256 && b' < 256 && c' < 256 && d' < 256
    requires Join(a, b, c, d) == Join(a', b', c', d')
    ensures a == a' && b == b' && c == c' && d == d'
  {
    LastByte((a * 256 + b) * 256 + c, d, (a' * 256 + b') * 256 + c', d');
    LastByte(a * 256 + b, c, a' * 256 + b', c');
    LastByte(a, b, a', b');
  }

  lemma WordInjective(a: seq<Byte>, b: seq<Byte>, big: bool)
    requires |a| == |b| == 4 && Word(a, big) == Word(b, big)
    ensures a == b
  {
    if big {
      JoinInjective(a[0], a[1], a[2], a[3], b[0], b[1], b[2], b[3]);
    } else {
      JoinInjective(a[3], a[2], a[1], a[0], b[3], b[2], b[1], b[0]);
    }
    assert a == [a[0], a[1], a[2], a[3]] && b == [b[0], b[1], b[2], b[3]];
  }

  lemma AddInjective(c: Crc, x: Word32, y: Word32, x': Word32, y': Word32)
    requires Add(c, x, y) == Add(c, x', y')
    ensures x == x' && y == y'
  {
  }

  lemma Halves(a: seq<Byte>)
    requires |a| == 8
    ensures a == a[0..4] + a[4..8]
  {
  }

  lemma PairInjective(c: Crc, a: seq<Byte>, b: seq<Byte>, big: bool)
    requires |a| == |b| == 8 && Pair(c, a, big) == Pair(c, b, big)
    ensures a == b
  {
    hide Add;
    hide Word;
    AddInjective(c, Word(a[0..4], big), Word(a[4..8], big), Word(b[0..4], big), Word(b[4..8], big));
    WordInjective(a[0..4], b[0..4], big);
    WordInjective(a[4..8], b[4..8], big);
    Halves(a);
    Halves(b);
  }

  /** The two pieces of data differ, and only inside their `k`th pair of words. */
  ghost predicate DifferInPair(a: seq<Byte>, b: seq<Byte>, k: nat) {
    && |a| == |b| && 8 * k + 8 <= |a|
    && a[..8 * k] == b[..8 * k] && a[8 * k..8 * k + 8] != b[8 * k..8 * k + 8] && a[8 * k + 8..] == b[8 * k + 8..]
  }

  /** No change inside one pair of words goes unnoticed, from any starting checksum. */
  lemma ChangeShows(c: Crc, a: seq<Byte>, b: seq<Byte>, k: nat, big: bool)
    requires DifferInPair(a, b, k)
    ensures Checksum(c, a, big) != Checksum(c, b, big)
  {
    hide Pair;
    hide Unpair;
    var i := 8 * k;
    var p, x, y, q := a[..i], a[i..i + 8], b[i..i + 8], a[i + 8..];
    assert a == p + (x + q) && b == p + (y + q);
    var d := Checksum(c, p, big);
    Composes(c, p, x + q, big);
    Composes(c, p, y + q, big);
    Composes(d, x, q, big);
    Composes(d, y, q, big);
    OnePair(d, x, big);
    OnePair(d, y, big);
    UndoChecksum(Pair(d, x, big), q, big);
    UndoChecksum(Pair(d, y, big), q, big);
    if Pair(d, x, big) == Pair(d, y, big) {
      PairInjective(d, x, y, big);
      assert false;
    }
  }

  lemma OnePair(c: Crc, pair: seq<Byte>, big: bool)
    requires |pair| == 8
    ensures Checksum(c, pair, big) == Pair(c, pair, big)
  {
    hide Pair;
    assert pair[..8] == pair && pair[8..] == [];
  }

  /** Changing any word of the page makes verification fail. */
  lemma PageChangeFails(header: seq<Byte>, init: Crc, page: seq<Byte>, page': seq<Byte>, k: nat, big: bool)
    requires |header| == 24 && Verifies(header, init, page, big) && DifferInPair(page, page', k)
    ensures !Verifies(header, init, page', big)
  {
    hide Checksum;
    ChangeShows(Checksum(init, header[..8], big), page, page', k, big);
  }

  /** Changing the page number or the database size in the header makes verification fail. */
  lemma HeaderChangeFails(header: seq<Byte>, header': seq<Byte>, init: Crc, page: seq<Byte>, big: bool)
    requires |header| == |header'| == 24 && header[8..] == header'[8..] && header[..8] != header'[..8]
    requires Verifies(header, init, page, big)
    ensures !Verifies(header', init, page, big)
  {
    hide Checksum;
    hide Undo;
    assert header[16..20] == header[8..][8..12] && header[20..24] == header[8..][12..16];
    assert header'[16..20] == header'[8..][8..12] && header'[20..24] == header'[8..][12..16];
    var a, b := header[..8], header'[..8];
    assert DifferInPair(a, b, 0) by {
      assert a[0..8] == a && b[0..8] == b;
    }
    ChangeShows(init, a, b, 0, big);
    UndoChecksum(Checksum(init, a, big), page, big);
    UndoChecksum(Checksum(init, b, big), page, big);
  }
}
