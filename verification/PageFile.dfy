/** A database file as bytes, and writing pages into it at their offsets. */
module PageFile {
  import opened WalLog

  type File = seq<nat>

  function Zeros(n: nat): File { seq(n, _ => 0) }

  /** Seek and write: beyond the end of the file the gap is filled with zeros. */
  function WriteAt(f: File, off: nat, data: Data): File {
    var g := if off <= |f| then f else f + Zeros(off - |f|);
    g[..off] + data + (if off + |data| <= |g| then g[off + |data|..] else [])
  }

  function ByteAt(f: File, x: nat): nat {
    if x < |f| then f[x] else 0
  }

  lemma WriteAtBytes(f: File, off: nat, data: Data)
    ensures |WriteAt(f, off, data)| == if off + |data| < |f| then |f| else off + |data|
    ensures forall x: nat :: ByteAt(WriteAt(f, off, data), x) ==
              if off <= x < off + |data| then data[x - off] else ByteAt(f, x)
  {
  }

  lemma SameBytes(f: File, g: File)
    requires |f| == |g| && forall x: nat :: ByteAt(f, x) == ByteAt(g, x)
    ensures f == g
  {
    forall x | 0 <= x < |f| ensures f[x] == g[x] {
      assert ByteAt(f, x) == ByteAt(g, x);
    }
  }

  /** Writes to separate places can be swapped. */
  lemma WritesCommute(f: File, a: nat, x: Data, b: nat, y: Data)
    requires a + |x| <= b
    ensures WriteAt(WriteAt(f, a, x), b, y) == WriteAt(WriteAt(f, b, y), a, x)
  {
    WriteAtBytes(f, a, x);
    WriteAtBytes(f, b, y);
    WriteAtBytes(WriteAt(f, a, x), b, y);
    WriteAtBytes(WriteAt(f, b, y), a, x);
    SameBytes(WriteAt(WriteAt(f, a, x), b, y), WriteAt(WriteAt(f, b, y), a, x));
  }

  /** A write hides the one before it at the same place. */
  lemma WriteTwice(f: File, a: nat, x: Data, y: Data)
    requires |x| == |y|
    ensures WriteAt(WriteAt(f, a, x), a, y) == WriteAt(f, a, y)
  {
    WriteAtBytes(f, a, x);
    WriteAtBytes(f, a, y);
    WriteAtBytes(WriteAt(f, a, x), a, y);
    SameBytes(WriteAt(WriteAt(f, a, x), a, y), WriteAt(f, a, y));
  }

  // ----- Pages -----

  function Offset(ps: nat, p: PageNo): nat
    requires p > 0
  {
    (p - 1) * ps
  }

  lemma PagesApart(ps: nat, p: PageNo, q: PageNo)
    requires 0 < p < q
    ensures Offset(ps, p) + ps <= Offset(ps, q)
  {
    assert (q - 1) * ps == (p - 1) * ps + (q - p) * ps;
    assert (q - p) * ps >= ps;
  }

  function WritePage(f: File, ps: nat, p: PageNo, data: Data): File
    requires p > 0
  {
    WriteAt(f, Offset(ps, p), data)
  }

  /** Pages that can be written: numbered from 1, and all of one size. */
  ghost predicate Pages(ps: nat, pages: Image) {
    forall p | p in pages :: p > 0 && |pages[p]| == ps
  }

  ghost predicate PageFrames(ps: nat, frames: seq<Frame>) {
    forall k | 0 <= k < |frames| :: frames[k].page > 0 && |frames[k].data| == ps
  }

  /** The reference: every frame is written, in order. */
  ghost function WriteFrames(f: File, ps: nat, frames: seq<Frame>): File
    requires PageFrames(ps, frames)
  {
    if frames == [] then f
    else
      var last := |frames| - 1;
      WritePage(WriteFrames(f, ps, frames[..last]), ps, frames[last].page, frames[last].data)
  }

  lemma {:induction false} WriteFramesConcat(f: File, ps: nat, a: seq<Frame>, b: seq<Frame>)
    requires PageFrames(ps, a) && PageFrames(ps, b)
    ensures PageFrames(ps, a + b) && WriteFrames(f, ps, a + b) == WriteFrames(WriteFrames(f, ps, a), ps, b)
    decreases b
  {
    if b == [] {
      assert a + b == a;
    } else {
      assert (a + b)[..|a + b| - 1] == a + b[..|b| - 1];
      WriteFramesConcat(f, ps, a, b[..|b| - 1]);
    }
  }

  lemma WritePageBytes(f: File, ps: nat, p: PageNo, data: Data, q: PageNo, x: nat)
    requires p > 0 && q > 0 && |data| == ps && x < ps
    ensures ByteAt(WritePage(f, ps, p, data), (q - 1) * ps + x) == if q == p then data[x] else ByteAt(f, (q - 1) * ps + x)
  {
    WriteAtBytes(f, Offset(ps, p), data);
    if q < p {
      PagesApart(ps, q, p);
    } else if p < q {
      PagesApart(ps, p, q);
    }
  }

  /** After writing frames, page p is the ps bytes from (p - 1) * ps on: what the last frame for it
      held, or what was there before. */
  lemma {:induction false} FileHoldsImage(f: File, ps: nat, frames: seq<Frame>, p: PageNo, x: nat)
    requires PageFrames(ps, frames) && p > 0 && x < ps
    ensures p in WriteAll(map[], frames) ==> |WriteAll(map[], frames)[p]| == ps
    ensures ByteAt(WriteFrames(f, ps, frames), (p - 1) * ps + x) ==
      if p in WriteAll(map[], frames) then WriteAll(map[], frames)[p][x] else ByteAt(f, (p - 1) * ps + x)
  {
    if frames != [] {
      var last := |frames| - 1;
      FileHoldsImage(f, ps, frames[..last], p, x);
      hide WritePage;
      WritePageBytes(WriteFrames(f, ps, frames[..last]), ps, frames[last].page, frames[last].data, p, x);
    }
  }

  /** Write the pages of a map, in the given order of its keys. */
  ghost function WriteInOrder(f: File, ps: nat, pages: Image, order: seq<PageNo>): File
    requires Pages(ps, pages) && forall k | 0 <= k < |order| :: order[k] in pages
  {
    if order == [] then f
    else
      var last := |order| - 1;
      WritePage(WriteInOrder(f, ps, pages, order[..last]), ps, order[last], pages[order[last]])
  }

  ghost predicate Enumerates(order: seq<PageNo>, keys: set<PageNo>) {
    && (forall i, j | 0 <= i < j < |order| :: order[i] != order[j])
    && (forall i | 0 <= i < |order| :: order[i] in keys)
    && (forall p | p in keys :: p in order)
  }

  lemma NothingToEnumerate(order: seq<PageNo>, keys: set<PageNo>)
    requires Enumerates(order, keys)
    ensures order != [] ==> keys != {}
  {
    if order != [] {
      assert order[0] in keys;
    }
  }

  function Drop(order: seq<PageNo>, i: nat): seq<PageNo>
    requires i < |order|
  {
    order[..i] + order[i + 1..]
  }

  lemma SwapPages(f: File, ps: nat, p: PageNo, x: Data, q: PageNo, y: Data)
    requires p > 0 && q > 0 && p != q && |x| == ps && |y| == ps
    ensures WritePage(WritePage(f, ps, p, x), ps, q, y) == WritePage(WritePage(f, ps, q, y), ps, p, x)
  {
    if p < q {
      PagesApart(ps, p, q);
      WritesCommute(f, Offset(ps, p), x, Offset(ps, q), y);
    } else {
      PagesApart(ps, q, p);
      WritesCommute(f, Offset(ps, q), y, Offset(ps, p), x);
    }
  }

  lemma DropEnumerates(order: seq<PageNo>, keys: set<PageNo>, i: nat)
    requires Enumerates(order, keys) && i < |order|
    ensures Enumerates(Drop(order, i), keys - {order[i]})
  {
    var d := Drop(order, i);
    forall p | p in keys - {order[i]} ensures p in d {
      var j :| 0 <= j < |order| && order[j] == p;
      assert d[if j < i then j else j - 1] == p;
    }
    forall j | 0 <= j < |d| ensures d[j] == order[if j < i then j else j + 1] {}
  }

  lemma DropKeeps(order: seq<PageNo>, pages: Image, i: nat)
    requires (forall k | 0 <= k < |order| :: order[k] in pages) && i < |order|
    ensures forall k | 0 <= k < |Drop(order, i)| :: Drop(order, i)[k] in pages
  {
    forall k | 0 <= k < |Drop(order, i)| ensures Drop(order, i)[k] == order[if k < i then k else k + 1] {}
  }

  lemma DropOfPrefix(order: seq<PageNo>, i: nat)
    requires i < |order| - 1
    ensures Drop(order, i) == Drop(order[..|order| - 1], i) + [order[|order| - 1]]
  {
    var last := |order| - 1;
    assert order[i + 1..] == order[i + 1..last] + [order[last]];
    assert order[..last][i + 1..] == order[i + 1..last] && order[..last][..i] == order[..i];
  }

  /** Any page may be written last. */
  lemma {:induction false} WriteLast(f: File, ps: nat, pages: Image, order: seq<PageNo>, i: nat)
    requires Pages(ps, pages) && (forall k | 0 <= k < |order| :: order[k] in pages) && i < |order|
    requires forall j, k | 0 <= j < k < |order| :: order[j] != order[k]
    ensures forall k | 0 <= k < |Drop(order, i)| :: Drop(order, i)[k] in pages
    ensures WriteInOrder(f, ps, pages, order) ==
            WritePage(WriteInOrder(f, ps, pages, Drop(order, i)), ps, order[i], pages[order[i]])
  {
    hide WritePage;
    DropKeeps(order, pages, i);
    var last := |order| - 1;
    if i == last {
      assert Drop(order, i) == order[..last];
    } else {
      WriteLast(f, ps, pages, order[..last], i);
      DropOfPrefix(order, i);
      var g := WriteInOrder(f, ps, pages, Drop(order[..last], i));
      WriteSnoc(f, ps, pages, Drop(order[..last], i), order[last]);
      SwapPages(g, ps, order[i], pages[order[i]], order[last], pages[order[last]]);
    }
  }

  lemma WriteSnoc(f: File, ps: nat, pages: Image, order: seq<PageNo>, p: PageNo)
    requires Pages(ps, pages) && (forall k | 0 <= k < |order| :: order[k] in pages) && p in pages
    ensures WriteInOrder(f, ps, pages, order + [p]) ==
            WritePage(WriteInOrder(f, ps, pages, order), ps, p, pages[p])
  {
    assert (order + [p])[..|order|] == order;
  }

  /** The order in which the pages are written makes no difference. */
  lemma {:induction false} AnyOrder(f: File, ps: nat, pages: Image, x: Image, a: seq<PageNo>, b: seq<PageNo>, keys: set<PageNo>)
    requires Pages(ps, pages) && Pages(ps, x) && Enumerates(a, keys) && Enumerates(b, keys)
    requires forall p | p in keys :: p in pages && p in x && pages[p] == x[p]
    ensures WriteInOrder(f, ps, pages, a) == WriteInOrder(f, ps, x, b)
    decreases |a|
  {
    if a == [] {
      assert keys == {};
      NothingToEnumerate(b, keys);
    } else {
      var last := |a| - 1;
      assert a[last] in keys;
      var i :| 0 <= i < |b| && b[i] == a[last];
      assert Drop(a, last) == a[..last];
      DropEnumerates(a, keys, last);
      DropEnumerates(b, keys, i);
      AnyOrder(f, ps, pages, x, a[..last], Drop(b, i), keys - {a[last]});
      WriteLast(f, ps, x, b, i);
    }
  }

  lemma {:induction false} LastWritesPages(ps: nat, frames: seq<Frame>)
    requires PageFrames(ps, frames)
    ensures Pages(ps, WriteAll(map[], frames))
  {
    if frames != [] {
      LastWritesPages(ps, frames[..|frames| - 1]);
    }
  }

  lemma PagesWith(ps: nat, pages: Image, p: PageNo, data: Data)
    requires Pages(ps, pages) && p > 0 && |data| == ps
    ensures Pages(ps, pages[p := data])
  {
  }

  lemma PageTwice(f: File, ps: nat, p: PageNo, x: Data, y: Data)
    requires p > 0 && |x| == |y|
    ensures WritePage(WritePage(f, ps, p, x), ps, p, y) == WritePage(f, ps, p, y)
  {
    WriteTwice(f, Offset(ps, p), x, y);
  }

  lemma EnumeratesSnoc(order: seq<PageNo>, keys: set<PageNo>, p: PageNo)
    requires Enumerates(order, keys - {p}) && p in keys
    ensures Enumerates(order + [p], keys)
  {
    assert (order + [p])[|order|] == p;
  }

  /** One more write of a page, whether or not the map had it, is one more write at the end. */
  lemma AddPage(f: File, ps: nat, pages: Image, p: PageNo, data: Data, order: seq<PageNo>) returns (order0: seq<PageNo>)
    requires Pages(ps, pages) && p > 0 && |data| == ps && Enumerates(order, pages.Keys + {p})
    ensures Pages(ps, pages[p := data]) && Enumerates(order0, pages.Keys)
    ensures WriteInOrder(f, ps, pages[p := data], order) ==
            WritePage(WriteInOrder(f, ps, pages, order0), ps, p, data)
  {
    hide WritePage;
    hide WriteInOrder;
    var pages': Image := pages[p := data];
    PagesWith(ps, pages, p, data);
    assert p in pages.Keys + {p};
    var i :| 0 <= i < |order| && order[i] == p;
    WriteLast(f, ps, pages', order, i);
    DropEnumerates(order, pages.Keys + {p}, i);
    var others := Drop(order, i);
    AnyOrder(f, ps, pages', pages, others, others, pages.Keys - {p});
    if p in pages {
      order0 := others + [p];
      assert pages.Keys + {p} == pages.Keys;
      EnumeratesSnoc(others, pages.Keys, p);
      WriteSnoc(f, ps, pages, others, p);
      PageTwice(WriteInOrder(f, ps, pages, others), ps, p, pages[p], data);
    } else {
      order0 := others;
      assert pages.Keys + {p} - {p} == pages.Keys;
    }
  }

  /** Writing only the last content of each page, in any order, is writing every frame. */
  lemma {:induction false} LastWritesSuffice(f: File, ps: nat, frames: seq<Frame>, order: seq<PageNo>)
    requires PageFrames(ps, frames) && Enumerates(order, WriteAll(map[], frames).Keys)
    ensures Pages(ps, WriteAll(map[], frames))
    ensures WriteInOrder(f, ps, WriteAll(map[], frames), order) == WriteFrames(f, ps, frames)
  {
    LastWritesPages(ps, frames);
    if frames == [] {
      NothingToEnumerate(order, WriteAll(map[], frames).Keys);
    } else {
      var before, last := frames[..|frames| - 1], frames[|frames| - 1];
      LastWritesPages(ps, before);
      assert WriteAll(map[], frames).Keys == WriteAll(map[], before).Keys + {last.page};
      var order0 := AddPage(f, ps, WriteAll(map[], before), last.page, last.data, order);
      LastWritesSuffice(f, ps, before, order0);
    }
  }
}
