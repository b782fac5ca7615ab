/** The page cache that SQLite connections share: one slab of pages with its free list threaded
through the pages' own flag words, and one map from page number to slab page per pager.

Every callback is one atomic step. What hash-map iteration order decides in the source (which
unpinned page is reused, in which order pages are returned) is an argument of the step. */
module PageCache {
  import opened Collections

  type PagerId = nat
  type Key = nat

  const FREE_BIT: nat := 0x4000_0000_0000_0000
  const PIN_BIT: nat := 0x8000_0000_0000_0000
  const EXTRA_SIZE: nat := 224

  function Zeroed(): seq<nat> { seq(EXTRA_SIZE, _ => 0) }

  /** A slab page: the flag word, and the extra area SQLite keeps its own header in. */
  datatype Page = Page(flags: nat, extra: seq<nat>)

  // ----- The flag word: bits 0..31 key or next free page, bit 62 free, bit 63 pinned -----

  function FreeWord(next: nat): nat { FREE_BIT + next }

  function PinWord(key: Key): nat { PIN_BIT + key }

  predicate IsFree(w: nat) { w / FREE_BIT % 2 == 1 }

  predicate IsPinned(w: nat) { w / PIN_BIT % 2 == 1 }

  function Low32(w: nat): nat { w % U32 }

  function UnpinWord(w: nat): nat {
    var v := if IsPinned(w) then w - PIN_BIT else w;
    v - v % U32
  }

  /** The three kinds of word are told apart, and each gives back what was packed into it. */
  lemma Words(x: nat)
    requires x < U32
    ensures IsFree(FreeWord(x)) && !IsPinned(FreeWord(x)) && Low32(FreeWord(x)) == x
    ensures !IsFree(PinWord(x)) && IsPinned(PinWord(x)) && Low32(PinWord(x)) == x
    ensures UnpinWord(PinWord(x)) == 0 && !IsFree(0) && !IsPinned(0)
  {
  }

  // ----- State and steps -----

  datatype Cache = Cache(slab: seq<Page>, head: nat, pagers: map<PagerId, map<Key, nat>>)

  datatype Fetched = Null | At(i: nat)

  datatype Outcome = Done(c: Cache, r: Fetched) | Panicked

  datatype Op =
    | Create(p: PagerId)
    | Fetch(p: PagerId, key: Key, create: bool, victim: Key)
    | Unpin(p: PagerId, i: nat, discard: bool)
    | Rekey(p: PagerId, oldKey: Key, newKey: Key)
    | Truncate(p: PagerId, limit: Key, order: seq<Key>)
    | Shrink(p: PagerId, order: seq<Key>)
    | Destroy(p: PagerId, order: seq<Key>)
    | WriteExtra(p: PagerId, i: nat, extra: seq<nat>)  // SQLite, through a page it has pinned

  /** Allocator::new links every page to the next, with a cast of the index to 32 bits. */
  function New(n: nat): Cache {
    Cache(seq(n, i requires i >= 0 => Page(FreeWord((i + 1) % U32), Zeroed())), 0, map[])
  }

  function SetPage(c: Cache, i: nat, page: Page): Cache
    requires i < |c.slab|
  {
    c.(slab := c.slab[i := page])
  }

  function SetPages(c: Cache, p: PagerId, pages: map<Key, nat>): Cache {
    c.(pagers := c.pagers[p := pages])
  }

  /** Allocator::free, with its assertion. */
  function Free(c: Cache, i: nat): Outcome
    requires i < |c.slab|
  {
    if IsFree(c.slab[i].flags) then Panicked
    else Done(SetPage(c, i, Page(FreeWord(c.head), Zeroed())).(head := i), Null)
  }

  function Pinned(c: Cache, i: nat): bool
    requires i < |c.slab|
  {
    IsPinned(c.slab[i].flags)
  }

  function Unpinned(c: Cache, p: PagerId): set<Key>
    requires InSlab(c) && p in c.pagers
  {
    set k | k in c.pagers[p] && !Pinned(c, c.pagers[p][k])
  }

  predicate InSlab(c: Cache) {
    forall p, k | p in c.pagers && k in c.pagers[p] :: c.pagers[p][k] < |c.slab|
  }

  function DoFetch(c: Cache, p: PagerId, key: Key, create: bool, victim: Key): Outcome
    requires InSlab(c) && p in c.pagers
    requires Unpinned(c, p) != {} ==> victim in Unpinned(c, p)
  {
    var pages := c.pagers[p];
    if key in pages then
      var i := pages[key];
      Done(SetPage(c, i, c.slab[i].(flags := PinWord(key))), At(i))
    else if Unpinned(c, p) != {} then
      var i := pages[victim];
      Done(SetPages(SetPage(c, i, Page(PinWord(key), Zeroed())), p, Put(pages - {victim}, key, i)), At(i))
    else if !create || c.head >= |c.slab| then Done(c, Null)
    else if !IsFree(c.slab[c.head].flags) then Panicked
    else
      var i := c.head;
      var next := Low32(c.slab[i].flags);
      Done(SetPages(SetPage(c, i, c.slab[i].(flags := PinWord(key))), p, Put(pages, key, i)).(head := next), At(i))
  }

  function DoUnpin(c: Cache, p: PagerId, i: nat, discard: bool): Outcome
    requires InSlab(c) && p in c.pagers && i < |c.slab|
  {
    var key := Low32(c.slab[i].flags);
    var d := SetPage(c, i, c.slab[i].(flags := UnpinWord(c.slab[i].flags)));
    if !discard then Done(d, Null)
    else if key !in c.pagers[p] then Panicked
    else Free(SetPages(d, p, c.pagers[p] - {key}), c.pagers[p][key])
  }

  function DoRekey(c: Cache, p: PagerId, oldKey: Key, newKey: Key): Outcome
    requires InSlab(c) && p in c.pagers
  {
    if oldKey !in c.pagers[p] then Panicked
    else
      var i := c.pagers[p][oldKey];
      var rest := c.pagers[p] - {oldKey};
      var d := SetPages(SetPage(c, i, c.slab[i].(flags := PinWord(newKey))), p, Put(rest, newKey, i));
      if newKey !in rest then Done(d, Null)
      else if Pinned(d, rest[newKey]) then Panicked
      else Free(d, rest[newKey])
  }

  predicate NoRepeats<T(==)>(s: seq<T>) {
    forall i, j | 0 <= i < j < |s| :: s[i] != s[j]
  }

  function Elements<T>(s: seq<T>): set<T> { set x | x in s }

  lemma ElementsStep<T>(s: seq<T>)
    requires s != [] && NoRepeats(s)
    ensures NoRepeats(s[1..]) && s[0] in Elements(s) && Elements(s[1..]) == Elements(s) - {s[0]}
  {
    assert s == [s[0]] + s[1..];
  }

  predicate Releasable(c: Cache, p: PagerId, keys: seq<Key>) {
    InSlab(c) && p in c.pagers && Elements(keys) <= c.pagers[p].Keys && NoRepeats(keys)
  }

  /** Take the keys out of the pager's map and free their pages, one after the other. */
  function FreeKeys(c: Cache, p: PagerId, keys: seq<Key>): Outcome
    requires Releasable(c, p, keys)
    decreases keys
  {
    if keys == [] then Done(c, Null)
    else
      ElementsStep(keys);
      var d := Free(SetPages(c, p, c.pagers[p] - {keys[0]}), c.pagers[p][keys[0]]);
      if d.Panicked? then Panicked else FreeKeys(d.c, p, keys[1..])
  }

  /** What SQLite promises when it calls, and what the hash map's order may be. */
  predicate Allowed(c: Cache, op: Op) {
    && InSlab(c)
    && if op.Create? then op.p !in c.pagers
       else
         && op.p in c.pagers
         && var pages := c.pagers[op.p];
            match op
            case Fetch(p, key, _, victim) => key < U32 && (Unpinned(c, p) != {} ==> victim in Unpinned(c, p))
            case Unpin(p, i, _) => i in pages.Values && Pinned(c, i)
            case Rekey(p, oldKey, newKey) =>
              && oldKey in pages && Pinned(c, pages[oldKey]) && newKey < U32
              && (newKey in pages && newKey != oldKey ==> !Pinned(c, pages[newKey]))
            case Truncate(p, limit, order) =>
              NoRepeats(order) && Elements(order) == set k | k in pages && k >= limit
            case Shrink(p, order) => NoRepeats(order) && Elements(order) == Unpinned(c, p)
            case Destroy(p, order) => NoRepeats(order) && Elements(order) == pages.Keys
            case WriteExtra(p, i, extra) => i in pages.Values && Pinned(c, i)
  }

  function Apply(c: Cache, op: Op): Outcome
    requires Allowed(c, op)
  {
    match op
    case Create(p) => Done(SetPages(c, p, map[]), Null)
    case Fetch(p, key, create, victim) => DoFetch(c, p, key, create, victim)
    case Unpin(p, i, discard) => DoUnpin(c, p, i, discard)
    case Rekey(p, oldKey, newKey) => DoRekey(c, p, oldKey, newKey)
    case Truncate(p, _, order) => FreeKeys(c, p, order)
    case Shrink(p, order) => FreeKeys(c, p, order)
    case Destroy(p, order) =>
      var d := FreeKeys(c, p, order);
      if d.Panicked? then d else Done(d.c.(pagers := d.c.pagers - {p}), Null)
    case WriteExtra(p, i, extra) => Done(SetPage(c, i, c.slab[i].(extra := extra)), Null)
  }

  // ----- The invariant -----

  /** The free list, and who owns each page that is not on it. */
  datatype Layout = Layout(free: seq<nat>, owner: map<nat, (PagerId, Key)>)

  function Link(free: seq<nat>, n: nat, k: nat): nat {
    if k < |free| then free[k] else n
  }

  /** From the head, the flag words lead through `free` and end at the number of pages. */
  ghost predicate FreeList(c: Cache, free: seq<nat>) {
    && c.head == Link(free, |c.slab|, 0)
    && NoRepeats(free)
    && forall k | 0 <= k < |free| ::
         && free[k] < |c.slab|
         && c.slab[free[k]] == Page(FreeWord(Link(free, |c.slab|, k + 1)), Zeroed())
  }

  /** Every slab page is on the free list or has an owner, and never both. */
  ghost predicate Partition(n: nat, g: Layout) {
    && (forall i :: i in g.free ==> 0 <= i < n && i !in g.owner)
    && (forall i | 0 <= i < n :: i in g.free || i in g.owner)
    && (forall i | i in g.owner :: i < n)
  }

  /** The pager's page under this key is its own, and a pinned page carries the key. */
  ghost predicate Owns(slab: seq<Page>, owner: map<nat, (PagerId, Key)>, p: PagerId, k: Key, i: nat) {
    && k < U32
    && i < |slab|
    && i in owner && owner[i] == (p, k)
    && (slab[i].flags == PinWord(k) || slab[i].flags == 0)
  }

  ghost predicate Lists(pagers: map<PagerId, map<Key, nat>>, p: PagerId, k: Key, i: nat) {
    p in pagers && k in pagers[p] && pagers[p][k] == i
  }

  /** `owner` is the inverse of the pagers' maps: no page has two owners or two keys. */
  ghost predicate Ownership(slab: seq<Page>, pagers: map<PagerId, map<Key, nat>>, owner: map<nat, (PagerId, Key)>) {
    && (forall i | i in owner :: Lists(pagers, owner[i].0, owner[i].1, i))
    && (forall p, k | p in pagers && k in pagers[p] :: Owns(slab, owner, p, k, pagers[p][k]))
  }

  ghost predicate Inv(c: Cache, g: Layout) {
    && |c.slab| < U32
    && FreeList(c, g.free)
    && Partition(|c.slab|, g)
    && Ownership(c.slab, c.pagers, g.owner)
  }

  // ----- The moves every step is made of -----

  lemma OwnershipWithout(slab: seq<Page>, pagers: map<PagerId, map<Key, nat>>, owner: map<nat, (PagerId, Key)>,
                         p: PagerId, k: Key, page: Page)
    requires Ownership(slab, pagers, owner) && p in pagers && k in pagers[p]
    ensures pagers[p][k] < |slab|
    ensures var i := pagers[p][k]; Ownership(slab[i := page], pagers[p := pagers[p] - {k}], owner - {i})
  {
    var i := pagers[p][k];
    assert Owns(slab, owner, p, k, i);
    var pagers', owner' := pagers[p := pagers[p] - {k}], owner - {i};
    forall j | j in owner' ensures Lists(pagers', owner'[j].0, owner'[j].1, j) {
      assert Lists(pagers, owner[j].0, owner[j].1, j);
    }
    forall q, l | q in pagers' && l in pagers'[q] ensures Owns(slab[i := page], owner', q, l, pagers'[q][l]) {
      assert Owns(slab, owner, q, l, pagers[q][l]);
    }
  }

  lemma OwnershipWith(slab: seq<Page>, pagers: map<PagerId, map<Key, nat>>, owner: map<nat, (PagerId, Key)>,
                      p: PagerId, k: Key, i: nat, page: Page)
    requires Ownership(slab, pagers, owner) && p in pagers && k !in pagers[p] && k < U32
    requires i < |slab| && i !in owner && page.flags in {PinWord(k), 0}
    ensures Ownership(slab[i := page], pagers[p := Put(pagers[p], k, i)], owner[i := (p, k)])
  {
    var pagers', owner' := pagers[p := Put(pagers[p], k, i)], owner[i := (p, k)];
    forall j | j in owner' ensures Lists(pagers', owner'[j].0, owner'[j].1, j) {
      assert j != i ==> Lists(pagers, owner[j].0, owner[j].1, j);
    }
    forall q, l | q in pagers' && l in pagers'[q] ensures Owns(slab[i := page], owner', q, l, pagers'[q][l]) {
      if (q, l) != (p, k) {
        assert Owns(slab, owner, q, l, pagers[q][l]);
      }
    }
  }

  lemma FreeListWith(c: Cache, free: seq<nat>, i: nat)
    requires FreeList(c, free) && i < |c.slab| && i !in free
    ensures FreeList(SetPage(c, i, Page(FreeWord(c.head), Zeroed())).(head := i), [i] + free)
  {
    var d, f := SetPage(c, i, Page(FreeWord(c.head), Zeroed())), [i] + free;
    forall m | 0 <= m < |f|
      ensures f[m] < |d.slab| && d.slab[f[m]] == Page(FreeWord(Link(f, |d.slab|, m + 1)), Zeroed())
    {
      if m > 0 {
        assert f[m] == free[m - 1] && Link(f, |d.slab|, m + 1) == Link(free, |c.slab|, m);
      }
    }
  }

  lemma FreeListAfter(c: Cache, free: seq<nat>, page: Page)
    requires FreeList(c, free) && c.head < |c.slab| < U32
    ensures free != [] && free[0] == c.head && c.head !in free[1..]
    ensures IsFree(c.slab[c.head].flags) && c.slab[c.head].extra == Zeroed()
    ensures FreeList(SetPage(c, c.head, page).(head := Low32(c.slab[c.head].flags)), free[1..])
  {
    Words(Link(free, |c.slab|, 1));
    var f := free[1..];
    forall m | 0 <= m < |f|
      ensures f[m] == free[m + 1] && Link(f, |c.slab|, m + 1) == Link(free, |c.slab|, m + 2) {}
  }

  lemma FreeListElsewhere(c: Cache, free: seq<nat>, i: nat, page: Page)
    requires FreeList(c, free) && i < |c.slab| && i !in free
    ensures FreeList(SetPage(c, i, page), free)
  {
  }

  lemma FreeOwned(c: Cache, g: Layout, p: PagerId, k: Key) returns (h: Layout)
    requires Inv(c, g) && p in c.pagers && k in c.pagers[p]
    ensures InSlab(c)
    ensures var d := Free(SetPages(c, p, c.pagers[p] - {k}), c.pagers[p][k]);
      && d.Done? && Inv(d.c, h)
      && d.c.pagers == c.pagers[p := c.pagers[p] - {k}]
  {
    var i := c.pagers[p][k];
    assert Owns(c.slab, g.owner, p, k, i);
    Words(k);
    h := Layout([i] + g.free, g.owner - {i});
    FreeListWith(c, g.free, i);
    OwnershipWithout(c.slab, c.pagers, g.owner, p, k, Page(FreeWord(c.head), Zeroed()));
  }

  /** Changing a page in place keeps the invariant as long as its word stays the owner's. */
  lemma Rewrite(c: Cache, g: Layout, p: PagerId, k: Key, page: Page)
    requires Inv(c, g) && p in c.pagers && k in c.pagers[p] && page.flags in {PinWord(k), 0}
    ensures c.pagers[p][k] < |c.slab| && Inv(SetPage(c, c.pagers[p][k], page), g)
  {
    var i := c.pagers[p][k];
    assert Owns(c.slab, g.owner, p, k, i);
    FreeListElsewhere(c, g.free, i, page);
    forall q, l | q in c.pagers && l in c.pagers[q] ensures Owns(c.slab[i := page], g.owner, q, l, c.pagers[q][l]) {
      assert Owns(c.slab, g.owner, q, l, c.pagers[q][l]);
    }
  }

  lemma Move(c: Cache, g: Layout, p: PagerId, k: Key, key: Key, extra: seq<nat>) returns (h: Layout)
    requires Inv(c, g) && p in c.pagers && k in c.pagers[p] && key < U32
    requires key in c.pagers[p] ==> key == k
    ensures var i := c.pagers[p][k];
      i < |c.slab| &&
      Inv(SetPages(SetPage(c, i, Page(PinWord(key), extra)), p, Put(c.pagers[p] - {k}, key, i)), h)
  {
    var i, page := c.pagers[p][k], Page(PinWord(key), extra);
    assert Owns(c.slab, g.owner, p, k, i);
    h := g.(owner := g.owner[i := (p, key)]);
    FreeListElsewhere(c, g.free, i, page);
    OwnershipWithout(c.slab, c.pagers, g.owner, p, k, page);
    var pagers := c.pagers[p := c.pagers[p] - {k}];
    OwnershipWith(c.slab[i := page], pagers, g.owner - {i}, p, key, i, page);
    assert c.slab[i := page][i := page] == c.slab[i := page];
    assert (g.owner - {i})[i := (p, key)] == h.owner;
    assert pagers[p := Put(pagers[p], key, i)] == c.pagers[p := Put(c.pagers[p] - {k}, key, i)];
  }

  lemma TakeHead(c: Cache, g: Layout, p: PagerId, key: Key) returns (h: Layout)
    requires Inv(c, g) && p in c.pagers && key !in c.pagers[p] && key < U32 && c.head < |c.slab|
    ensures c.head in g.free && IsFree(c.slab[c.head].flags) && c.slab[c.head].extra == Zeroed()
    ensures var i := c.head;
      Inv(SetPages(SetPage(c, i, Page(PinWord(key), Zeroed())), p, Put(c.pagers[p], key, i))
            .(head := Low32(c.slab[i].flags)), h)
  {
    var i, page := c.head, Page(PinWord(key), Zeroed());
    FreeListAfter(c, g.free, page);
    h := Layout(g.free[1..], g.owner[i := (p, key)]);
    OwnershipWith(c.slab, c.pagers, g.owner, p, key, i, page);
    assert forall j :: j in g.free <==> j == i || j in h.free;
  }

  // ----- Every step keeps the invariant and cannot panic -----

  lemma OwnerOf(c: Cache, g: Layout, p: PagerId, i: nat) returns (k: Key)
    requires Inv(c, g) && p in c.pagers && i in c.pagers[p].Values && InSlab(c) && Pinned(c, i)
    ensures k in c.pagers[p] && c.pagers[p][k] == i && k < U32 && c.slab[i].flags == PinWord(k)
  {
    k :| k in c.pagers[p] && c.pagers[p][k] == i;
    assert Owns(c.slab, g.owner, p, k, i);
    Words(k);
  }

  lemma FetchKeeps(c: Cache, g: Layout, p: PagerId, key: Key, create: bool, victim: Key) returns (h: Layout)
    requires Inv(c, g) && Allowed(c, Fetch(p, key, create, victim))
    ensures DoFetch(c, p, key, create, victim).Done? && Inv(DoFetch(c, p, key, create, victim).c, h)
  {
    h := g;
    if key in c.pagers[p] {
      assert Owns(c.slab, g.owner, p, key, c.pagers[p][key]);
      Rewrite(c, g, p, key, c.slab[c.pagers[p][key]].(flags := PinWord(key)));
    } else if Unpinned(c, p) != {} {
      h := Move(c, g, p, victim, key, Zeroed());
    } else if create && c.head < |c.slab| {
      h := TakeHead(c, g, p, key);
    }
  }

  lemma UnpinKeeps(c: Cache, g: Layout, p: PagerId, i: nat, discard: bool) returns (h: Layout)
    requires Inv(c, g) && Allowed(c, Unpin(p, i, discard))
    ensures DoUnpin(c, p, i, discard).Done? && Inv(DoUnpin(c, p, i, discard).c, h)
  {
    h := g;
    var k := OwnerOf(c, g, p, i);
    Words(k);
    var page := c.slab[i].(flags := 0);
    Rewrite(c, g, p, k, page);
    if discard {
      h := FreeOwned(SetPage(c, i, page), g, p, k);
    }
  }

  /** Freeing the page under the new key before the move or after it makes no difference. */
  lemma FreeThenMove(c: Cache, p: PagerId, oldKey: Key, newKey: Key)
    requires InSlab(c) && p in c.pagers && oldKey in c.pagers[p] && newKey in c.pagers[p] && oldKey != newKey
    requires c.pagers[p][oldKey] != c.pagers[p][newKey]
    requires !Pinned(c, c.pagers[p][newKey]) && !IsFree(c.slab[c.pagers[p][newKey]].flags)
    ensures
      var i, pages := c.pagers[p][oldKey], c.pagers[p];
      var c1 := Free(SetPages(c, p, pages - {newKey}), pages[newKey]).c;
      && c1.slab[i] == c.slab[i]
      && DoRekey(c, p, oldKey, newKey) ==
         Done(SetPages(SetPage(c1, i, Page(PinWord(newKey), c.slab[i].extra)), p, Put(pages - {newKey} - {oldKey}, newKey, i)), Null)
  {
    var i, pages := c.pagers[p][oldKey], c.pagers[p];
    assert Put(pages - {newKey} - {oldKey}, newKey, i) == Put(pages - {oldKey}, newKey, i);
  }

  /** Rekeying onto a key in use frees that page first and moves second, in either order. */
  lemma RekeyKeeps(c: Cache, g: Layout, p: PagerId, oldKey: Key, newKey: Key) returns (h: Layout)
    requires Inv(c, g) && Allowed(c, Rekey(p, oldKey, newKey))
    ensures DoRekey(c, p, oldKey, newKey).Done? && Inv(DoRekey(c, p, oldKey, newKey).c, h)
  {
    var pages := c.pagers[p];
    var i := pages[oldKey];
    var extra := c.slab[i].extra;
    if newKey !in pages || newKey == oldKey {
      h := Move(c, g, p, oldKey, newKey, extra);
    } else {
      assert Owns(c.slab, g.owner, p, oldKey, i) && Owns(c.slab, g.owner, p, newKey, pages[newKey]);
      var h1 := FreeOwned(c, g, p, newKey);
      hide Inv;
      FreeThenMove(c, p, oldKey, newKey);
      hide DoRekey;
      var c1 := Free(SetPages(c, p, pages - {newKey}), pages[newKey]).c;
      h := Move(c1, h1, p, oldKey, newKey, extra);
    }
  }

  lemma InvInSlab(c: Cache, g: Layout)
    requires Inv(c, g)
    ensures InSlab(c)
  {
    forall p, k | p in c.pagers && k in c.pagers[p] ensures c.pagers[p][k] < |c.slab| {
      assert Owns(c.slab, g.owner, p, k, c.pagers[p][k]);
    }
  }

  lemma {:induction false} FreeKeysKeeps(c: Cache, g: Layout, p: PagerId, keys: seq<Key>) returns (h: Layout)
    requires Inv(c, g) && Releasable(c, p, keys)
    ensures FreeKeys(c, p, keys).Done? && Inv(FreeKeys(c, p, keys).c, h)
    decreases keys
  {
    h := g;
    if keys != [] {
      ElementsStep(keys);
      var g1 := FreeOwned(c, g, p, keys[0]);
      var d := Free(SetPages(c, p, c.pagers[p] - {keys[0]}), c.pagers[p][keys[0]]).c;
      InvInSlab(d, g1);
      h := FreeKeysKeeps(d, g1, p, keys[1..]);
    }
  }

  lemma {:induction false} FreeKeysLists(c: Cache, p: PagerId, keys: seq<Key>)
    requires Releasable(c, p, keys)
    requires FreeKeys(c, p, keys).Done?
    ensures FreeKeys(c, p, keys).c.pagers == c.pagers[p := c.pagers[p] - Elements(keys)]
    decreases keys
  {
    if keys == [] {
      assert c.pagers[p] - Elements(keys) == c.pagers[p];
    } else {
      ElementsStep(keys);
      var d := Free(SetPages(c, p, c.pagers[p] - {keys[0]}), c.pagers[p][keys[0]]).c;
      FreeKeysLists(d, p, keys[1..]);
      assert c.pagers[p] - Elements(keys) == c.pagers[p] - {keys[0]} - Elements(keys[1..]);
    }
  }

  lemma StepKeeps(c: Cache, g: Layout, op: Op) returns (h: Layout)
    requires Inv(c, g) && Allowed(c, op)
    ensures Apply(c, op).Done? && Inv(Apply(c, op).c, h)
  {
    h := g;
    match op
    case Create(p) =>
      forall q, k | q in c.pagers[p := map[]] && k in c.pagers[p := map[]][q]
        ensures Owns(c.slab, g.owner, q, k, c.pagers[q][k]) {}
      forall i | i in g.owner ensures Lists(c.pagers[p := map[]], g.owner[i].0, g.owner[i].1, i) {
        assert Lists(c.pagers, g.owner[i].0, g.owner[i].1, i);
      }
    case Fetch(p, key, create, victim) => h := FetchKeeps(c, g, p, key, create, victim);
    case Unpin(p, i, discard) => h := UnpinKeeps(c, g, p, i, discard);
    case Rekey(p, oldKey, newKey) => h := RekeyKeeps(c, g, p, oldKey, newKey);
    case Truncate(p, _, order) => h := FreeKeysKeeps(c, g, p, order);
    case Shrink(p, order) => h := FreeKeysKeeps(c, g, p, order);
    case Destroy(p, order) => h := DestroyKeeps(c, g, p, order);
    case WriteExtra(p, i, extra) =>
      var k := OwnerOf(c, g, p, i);
      Rewrite(c, g, p, k, c.slab[i].(extra := extra));
  }

  /** A pager without pages can go. */
  lemma DropPager(c: Cache, g: Layout, p: PagerId)
    requires Inv(c, g) && p in c.pagers && c.pagers[p] == map[]
    ensures Inv(c.(pagers := c.pagers - {p}), g)
  {
    var pagers := c.pagers - {p};
    forall i | i in g.owner ensures Lists(pagers, g.owner[i].0, g.owner[i].1, i) {
      assert Lists(c.pagers, g.owner[i].0, g.owner[i].1, i);
    }
    forall q, k | q in pagers && k in pagers[q] ensures Owns(c.slab, g.owner, q, k, pagers[q][k]) {
      assert Owns(c.slab, g.owner, q, k, c.pagers[q][k]);
    }
  }

  lemma DestroyKeeps(c: Cache, g: Layout, p: PagerId, order: seq<Key>) returns (h: Layout)
    requires Inv(c, g) && Allowed(c, Destroy(p, order))
    ensures Apply(c, Destroy(p, order)).Done? && Inv(Apply(c, Destroy(p, order)).c, h)
    ensures Apply(c, Destroy(p, order)).c.pagers == c.pagers - {p}
  {
    h := FreeKeysKeeps(c, g, p, order);
    hide Inv;
    FreeKeysLists(c, p, order);
    var d := FreeKeys(c, p, order).c;
    assert d.pagers[p] == map[];
    DropPager(d, h, p);
  }

  // ----- Whole runs -----

  ghost predicate Obeys(c: Cache, ops: seq<Op>)
    decreases ops
  {
    ops == [] || (Allowed(c, ops[0]) && (Apply(c, ops[0]).Done? ==> Obeys(Apply(c, ops[0]).c, ops[1..])))
  }

  ghost function Run(c: Cache, ops: seq<Op>): Outcome
    requires Obeys(c, ops)
    decreases ops
  {
    if ops == [] then Done(c, Null)
    else
      var d := Apply(c, ops[0]);
      if d.Panicked? then Panicked else Run(d.c, ops[1..])
  }

  ghost function Entries(pagers: map<PagerId, map<Key, nat>>): set<(PagerId, Key)> {
    set p, k | p in pagers && k in pagers[p] :: (p, k)
  }

  lemma {:induction false} RunKeeps(c: Cache, g: Layout, ops: seq<Op>) returns (h: Layout)
    requires Inv(c, g) && Obeys(c, ops)
    ensures Run(c, ops).Done? && Inv(Run(c, ops).c, h) && |Run(c, ops).c.slab| == |c.slab|
    decreases ops
  {
    h := g;
    if ops != [] {
      var g1 := StepKeeps(c, g, ops[0]);
      StepSize(c, ops[0]);
      h := RunKeeps(Apply(c, ops[0]).c, g1, ops[1..]);
    }
  }

  lemma {:induction false} FreeKeysSize(c: Cache, p: PagerId, keys: seq<Key>)
    requires Releasable(c, p, keys)
    ensures FreeKeys(c, p, keys).Done? ==> |FreeKeys(c, p, keys).c.slab| == |c.slab|
    decreases keys
  {
    if keys != [] {
      ElementsStep(keys);
      var d := Free(SetPages(c, p, c.pagers[p] - {keys[0]}), c.pagers[p][keys[0]]);
      if d.Done? {
        FreeKeysSize(d.c, p, keys[1..]);
      }
    }
  }

  lemma StepSize(c: Cache, op: Op)
    requires Allowed(c, op)
    ensures Apply(c, op).Done? ==> |Apply(c, op).c.slab| == |c.slab|
  {
    if op.Truncate? || op.Shrink? || op.Destroy? {
      FreeKeysSize(c, op.p, op.order);
    }
  }

  lemma NewList(n: nat) returns (free: seq<nat>)
    requires n < U32
    ensures FreeList(New(n), free) && Partition(n, Layout(free, map[]))
  {
    free := seq(n, i requires i >= 0 => i);
    forall k | 0 <= k < n ensures New(n).slab[k] == Page(FreeWord(k + 1), Zeroed()) && Link(free, n, k + 1) == k + 1 {
      assert (k + 1) % U32 == k + 1;
    }
    forall i | 0 <= i < n ensures i in free {
      assert free[i] == i;
    }
  }

  /** After any sequence of callbacks by any number of pagers nothing has panicked, the free
      list is a chain without repeats that ends at the number of pages, every page is on it or
      belongs to one pager under one key, and no page is lost. */
  lemma RunsAreSafe(n: nat, ops: seq<Op>) returns (g: Layout)
    requires n < U32 && Obeys(New(n), ops)
    ensures Run(New(n), ops).Done?
    ensures var c := Run(New(n), ops).c; Inv(c, g) && |g.free| + |Entries(c.pagers)| == n
  {
    var free := NewList(n);
    g := RunKeeps(New(n), Layout(free, map[]), ops);
    Conservation(Run(New(n), ops).c, g);
  }

  lemma Conservation(c: Cache, g: Layout)
    requires Inv(c, g)
    ensures |g.free| + |Entries(c.pagers)| == |c.slab|
  {
    PartitionSize(|c.slab|, g);
    OneOwnerEach(c.slab, c.pagers, g.owner);
  }

  lemma PartitionSize(n: nat, g: Layout)
    requires Partition(n, g) && NoRepeats(g.free)
    ensures |g.free| + |g.owner| == n
  {
    Numbers(n);
    NoRepeatsSize(g.free);
    assert Below(n) == Elements(g.free) + g.owner.Keys;
    assert Elements(g.free) !! g.owner.Keys;
  }

  lemma OneOwnerEach(slab: seq<Page>, pagers: map<PagerId, map<Key, nat>>, owner: map<nat, (PagerId, Key)>)
    requires Ownership(slab, pagers, owner)
    ensures |owner| == |Entries(pagers)|
  {
    forall e | e in Entries(pagers) ensures e in owner.Values {
      assert Owns(slab, owner, e.0, e.1, pagers[e.0][e.1]);
      assert pagers[e.0][e.1] in owner.Keys;
    }
    forall e | e in owner.Values ensures e in Entries(pagers) {
      var i :| i in owner && owner[i] == e;
      assert Lists(pagers, owner[i].0, owner[i].1, i);
    }
    assert owner.Values == Entries(pagers);
    forall i, j | i in owner && j in owner && owner[i] == owner[j] ensures i == j {
      assert Lists(pagers, owner[i].0, owner[i].1, i) && Lists(pagers, owner[j].0, owner[j].1, j);
    }
    InjectiveSize(owner);
  }

  ghost function Below(n: nat): set<nat> {
    if n == 0 then {} else Below(n - 1) + {n - 1}
  }

  lemma {:induction false} Numbers(n: nat)
    ensures |Below(n)| == n && forall i: nat :: i in Below(n) <==> i < n
  {
    if n > 0 {
      Numbers(n - 1);
    }
  }

  lemma {:induction false} NoRepeatsSize<T>(s: seq<T>)
    requires NoRepeats(s)
    ensures |Elements(s)| == |s|
  {
    if s != [] {
      ElementsStep(s);
      NoRepeatsSize(s[1..]);
    }
  }

  lemma {:induction false} InjectiveSize<K, V>(m: map<K, V>)
    requires forall i, j | i in m && j in m && m[i] == m[j] :: i == j
    ensures |m.Values| == |m|
    decreases |m|
  {
    if m != map[] {
      var k :| k in m;
      var rest := m - {k};
      assert rest.Keys == m.Keys - {k};
      InjectiveSize(rest);
      forall v ensures v in m.Values <==> v in rest.Values || v == m[k] {
        if v in m.Values {
          var j :| j in m && m[j] == v;
          assert j != k ==> j in rest && rest[j] == v;
        }
      }
      assert m[k] !in rest.Values;
      assert m.Values == rest.Values + {m[k]};
    }
  }

  /** A fetched page is listed under its key and pinned with it. A page handed out for a new
      key, reused or taken from the slab, has a zeroed extra area; a cached page keeps its own.
      The fetch fails only if the page is not cached, the pager has no unpinned page, and the
      caller wants no page created or the slab is used up. */
  lemma FetchGives(c: Cache, g: Layout, p: PagerId, key: Key, create: bool, victim: Key)
    requires Inv(c, g) && Allowed(c, Fetch(p, key, create, victim))
    ensures var d := DoFetch(c, p, key, create, victim);
      && d.Done?
      && (d.r.Null? <==> key !in c.pagers[p] && Unpinned(c, p) == {} && (!create || g.free == []))
      && (d.r.Null? ==> d.c == c)
      && (d.r.At? ==>
            && p in d.c.pagers && key in d.c.pagers[p] && d.c.pagers[p][key] == d.r.i
            && d.r.i < |d.c.slab| && d.c.slab[d.r.i].flags == PinWord(key)
            && if key in c.pagers[p] then
                 d.r.i == c.pagers[p][key] && d.c.slab[d.r.i].extra == c.slab[d.r.i].extra
               else d.c.slab[d.r.i].extra == Zeroed())
  {
    var h := FetchKeeps(c, g, p, key, create, victim);
    if c.head < |c.slab| {
      FreeListAfter(c, g.free, Page(0, []));
    }
  }

  /** The same slab except for these pages. */
  ghost predicate SameBut(c: Cache, d: Cache, touched: set<nat>) {
    |d.slab| == |c.slab| && forall j | 0 <= j < |c.slab| && j !in touched :: d.slab[j] == c.slab[j]
  }

  /** An unpinned page stays cached under its key with its contents, and is now one that the pager
      may reuse. A discarded one leaves the cache under its key, and is the next to be allocated. */
  lemma UnpinGives(c: Cache, g: Layout, p: PagerId, i: nat, discard: bool) returns (k: Key)
    requires Inv(c, g) && Allowed(c, Unpin(p, i, discard))
    ensures k in c.pagers[p] && c.pagers[p][k] == i
    ensures var d := DoUnpin(c, p, i, discard);
      && d.Done? && d.r.Null? && SameBut(c, d.c, {i}) && InSlab(d.c)
      && (!discard ==>
            && d.c.pagers == c.pagers && d.c.head == c.head && d.c.slab[i].extra == c.slab[i].extra
            && Unpinned(d.c, p) == Unpinned(c, p) + {k})
      && (discard ==>
            && d.c.pagers == c.pagers[p := c.pagers[p] - {k}] && d.c.head == i
            && IsFree(d.c.slab[i].flags) && Low32(d.c.slab[i].flags) == c.head && d.c.slab[i].extra == Zeroed())
  {
    k := OwnerOf(c, g, p, i);
    Words(k);
    Words(Link(g.free, |c.slab|, 0));
    var h := UnpinKeeps(c, g, p, i, discard);
    InvInSlab(DoUnpin(c, p, i, discard).c, h);
    forall l | l in c.pagers[p] && l != k ensures c.pagers[p][l] != i {
      assert Owns(c.slab, g.owner, p, l, c.pagers[p][l]) && Owns(c.slab, g.owner, p, k, i);
    }
  }

  /** A rekeyed page moves from the old key to the new one with its contents and stays pinned; the
      page that was cached under the new key is the next to be allocated. */
  lemma RekeyGives(c: Cache, g: Layout, p: PagerId, oldKey: Key, newKey: Key)
    requires Inv(c, g) && Allowed(c, Rekey(p, oldKey, newKey))
    ensures
      var d, pages := DoRekey(c, p, oldKey, newKey), c.pagers[p];
      var i := pages[oldKey];
      && d.Done? && d.r.Null?
      && d.c.pagers == c.pagers[p := Put(pages - {oldKey}, newKey, i)]
      && i < |d.c.slab| && Pinned(d.c, i) && Low32(d.c.slab[i].flags) == newKey && d.c.slab[i].extra == c.slab[i].extra
      && if newKey in pages && newKey != oldKey then
           && d.c.head == pages[newKey] && SameBut(c, d.c, {i, pages[newKey]})
           && IsFree(d.c.slab[pages[newKey]].flags) && Low32(d.c.slab[pages[newKey]].flags) == c.head
         else d.c.head == c.head && SameBut(c, d.c, {i})
  {
    var pages := c.pagers[p];
    var i := pages[oldKey];
    Words(newKey);
    Words(Link(g.free, |c.slab|, 0));
    assert Owns(c.slab, g.owner, p, oldKey, i);
    if newKey in pages && newKey != oldKey {
      assert Owns(c.slab, g.owner, p, newKey, pages[newKey]);
      Words(0);
    }
  }

  /** Truncating keeps exactly the keys below the limit, and shrinking exactly the pinned pages. */
  lemma ReleasesExactly(c: Cache, g: Layout, op: Op)
    requires Inv(c, g) && Allowed(c, op) && (op.Truncate? || op.Shrink?)
    ensures Apply(c, op).Done? && op.p in Apply(c, op).c.pagers
    ensures forall k | k in Apply(c, op).c.pagers[op.p] :: k in c.pagers[op.p] && Apply(c, op).c.pagers[op.p][k] == c.pagers[op.p][k]
    ensures forall k | k in c.pagers[op.p] ::
      k in Apply(c, op).c.pagers[op.p] <==> if op.Truncate? then k < op.limit else Pinned(c, c.pagers[op.p][k])
  {
    var h := FreeKeysKeeps(c, g, op.p, op.order);
    FreeKeysLists(c, op.p, op.order);
  }

  // ----- Pinned pages stay where they are -----

  /** The callbacks that are about this page, or about everything the pager has. */
  predicate Concerns(op: Op, k: Key, i: nat) {
    match op
    case Unpin(_, j, _) => j == i
    case Rekey(_, oldKey, _) => oldKey == k
    case Truncate(_, limit, _) => k >= limit
    case Destroy(_, _) => true
    case WriteExtra(_, j, _) => j == i
    case _ => false
  }

  lemma OwnApart(c: Cache, g: Layout, p: PagerId, k: Key, l: Key)
    requires Inv(c, g) && p in c.pagers && k in c.pagers[p] && l in c.pagers[p] && k != l
    ensures c.pagers[p][k] != c.pagers[p][l]
  {
    assert Owns(c.slab, g.owner, p, k, c.pagers[p][k]) && Owns(c.slab, g.owner, p, l, c.pagers[p][l]);
  }

  lemma {:induction false} FreeKeysLeave(c: Cache, g: Layout, p: PagerId, keys: seq<Key>, k: Key)
    requires Inv(c, g) && Releasable(c, p, keys) && k in c.pagers[p] && k !in Elements(keys)
    ensures FreeKeys(c, p, keys).Done?
    ensures var d := FreeKeys(c, p, keys).c;
      && Lists(d.pagers, p, k, c.pagers[p][k]) && c.pagers[p][k] < |d.slab|
      && d.slab[c.pagers[p][k]] == c.slab[c.pagers[p][k]]
    decreases keys
  {
    if keys != [] {
      ElementsStep(keys);
      var g1 := FreeOwned(c, g, p, keys[0]);
      OwnApart(c, g, p, keys[0], k);
      var d := Free(SetPages(c, p, c.pagers[p] - {keys[0]}), c.pagers[p][keys[0]]).c;
      InvInSlab(d, g1);
      FreeKeysLeave(d, g1, p, keys[1..], k);
    }
  }

  /** SQLite keeps pointers to the pages it has pinned. Until it unpins, rekeys, truncates or
      destroys, no callback of the same pager moves such a page or changes it. */
  lemma PinnedStays(c: Cache, g: Layout, op: Op, k: Key)
    requires Inv(c, g) && Allowed(c, op) && op.p in c.pagers && k in c.pagers[op.p]
    requires Pinned(c, c.pagers[op.p][k]) && !Concerns(op, k, c.pagers[op.p][k])
    ensures Apply(c, op).Done?
    ensures
      var d, i := Apply(c, op).c, c.pagers[op.p][k];
      Lists(d.pagers, op.p, k, i) && i < |d.slab| && d.slab[i] == c.slab[i]
  {
    var p, i := op.p, c.pagers[op.p][k];
    assert Owns(c.slab, g.owner, p, k, i);
    Words(0);
    match op
    case Create(_) =>
    case Fetch(_, key, create, victim) => FetchLeaves(c, g, p, key, create, victim, k);
    case Unpin(_, j, discard) =>
      var l := UnpinGives(c, g, p, j, discard);
    case Rekey(_, oldKey, newKey) =>
      RekeyGives(c, g, p, oldKey, newKey);
      OwnApart(c, g, p, oldKey, k);
    case Truncate(_, _, order) => FreeKeysLeave(c, g, p, order, k);
    case Shrink(_, order) => FreeKeysLeave(c, g, p, order, k);
    case Destroy(_, _) =>
    case WriteExtra(_, _, _) =>
  }

  lemma FetchLeaves(c: Cache, g: Layout, p: PagerId, key: Key, create: bool, victim: Key, k: Key)
    requires Inv(c, g) && Allowed(c, Fetch(p, key, create, victim)) && k in c.pagers[p] && Pinned(c, c.pagers[p][k])
    ensures var d, i := DoFetch(c, p, key, create, victim), c.pagers[p][k];
      d.Done? && Lists(d.c.pagers, p, k, i) && i < |d.c.slab| && d.c.slab[i] == c.slab[i]
  {
    var h := FetchKeeps(c, g, p, key, create, victim);
    assert Owns(c.slab, g.owner, p, k, c.pagers[p][k]);
    Words(0);
    if key in c.pagers[p] {
      if key != k {
        OwnApart(c, g, p, key, k);
      }
    } else if Unpinned(c, p) != {} {
      OwnApart(c, g, p, victim, k);
    } else if create && c.head < |c.slab| {
      FreeListAfter(c, g.free, Page(0, []));
    }
  }

  /** A callback of one pager leaves every page of every other pager as it was. */
  ghost predicate Untouched(c: Cache, d: Cache, q: PagerId) {
    && q in c.pagers && q in d.pagers && d.pagers[q] == c.pagers[q]
    && forall k | k in c.pagers[q] ::
         c.pagers[q][k] < |c.slab| && c.pagers[q][k] < |d.slab| && d.slab[c.pagers[q][k]] == c.slab[c.pagers[q][k]]
  }

  lemma Apart(c: Cache, g: Layout, p: PagerId, k: Key, q: PagerId, l: Key)
    requires Inv(c, g) && p != q && p in c.pagers && q in c.pagers && k in c.pagers[p] && l in c.pagers[q]
    ensures c.pagers[p][k] != c.pagers[q][l]
  {
    assert Owns(c.slab, g.owner, p, k, c.pagers[p][k]) && Owns(c.slab, g.owner, q, l, c.pagers[q][l]);
  }

  lemma {:induction false} FreeKeysUntouched(c: Cache, g: Layout, p: PagerId, keys: seq<Key>, q: PagerId)
    requires Inv(c, g) && Releasable(c, p, keys)
    requires p != q && q in c.pagers
    ensures FreeKeys(c, p, keys).Done? && Untouched(c, FreeKeys(c, p, keys).c, q)
    decreases keys
  {
    if keys != [] {
      ElementsStep(keys);
      var g1 := FreeOwned(c, g, p, keys[0]);
      var d := Free(SetPages(c, p, c.pagers[p] - {keys[0]}), c.pagers[p][keys[0]]).c;
      InvInSlab(d, g1);
      FreeKeysUntouched(d, g1, p, keys[1..], q);
      forall l | l in c.pagers[q] ensures c.pagers[p][keys[0]] != c.pagers[q][l] {
        Apart(c, g, p, keys[0], q, l);
      }
    }
  }

  lemma FetchUntouched(c: Cache, g: Layout, p: PagerId, key: Key, create: bool, victim: Key, q: PagerId)
    requires Inv(c, g) && Allowed(c, Fetch(p, key, create, victim)) && q in c.pagers && q != p
    ensures DoFetch(c, p, key, create, victim).Done? ==> Untouched(c, DoFetch(c, p, key, create, victim).c, q)
  {
    forall l | l in c.pagers[q]
      ensures c.pagers[q][l] != c.head
      ensures key in c.pagers[p] ==> c.pagers[q][l] != c.pagers[p][key]
      ensures victim in c.pagers[p] ==> c.pagers[q][l] != c.pagers[p][victim]
    {
      assert Owns(c.slab, g.owner, q, l, c.pagers[q][l]);
      if c.head < |c.slab| {
        FreeListAfter(c, g.free, Page(0, []));
      }
      if key in c.pagers[p] {
        Apart(c, g, p, key, q, l);
      }
      if victim in c.pagers[p] {
        Apart(c, g, p, victim, q, l);
      }
    }
  }

  /** Unpinning and rekeying touch only the pages listed under these two keys. */
  lemma OwnPagesUntouched(c: Cache, g: Layout, p: PagerId, k: Key, k2: Key, q: PagerId, d: Cache)
    requires Inv(c, g) && p in c.pagers && k in c.pagers[p] && k2 in c.pagers[p] && q in c.pagers && q != p
    requires q in d.pagers && d.pagers[q] == c.pagers[q] && |d.slab| == |c.slab|
    requires forall i | 0 <= i < |c.slab| && i != c.pagers[p][k] && i != c.pagers[p][k2] :: d.slab[i] == c.slab[i]
    ensures Untouched(c, d, q)
  {
    forall l | l in c.pagers[q]
      ensures c.pagers[q][l] < |c.slab| && c.pagers[q][l] != c.pagers[p][k] && c.pagers[q][l] != c.pagers[p][k2]
    {
      assert Owns(c.slab, g.owner, q, l, c.pagers[q][l]);
      Apart(c, g, p, k, q, l);
      Apart(c, g, p, k2, q, l);
    }
  }

  lemma UnpinUntouched(c: Cache, g: Layout, p: PagerId, i: nat, discard: bool, q: PagerId)
    requires Inv(c, g) && Allowed(c, Unpin(p, i, discard)) && q in c.pagers && q != p
    ensures DoUnpin(c, p, i, discard).Done? ==> Untouched(c, DoUnpin(c, p, i, discard).c, q)
  {
    var k := OwnerOf(c, g, p, i);
    Words(k);
    if DoUnpin(c, p, i, discard).Done? {
      OwnPagesUntouched(c, g, p, k, k, q, DoUnpin(c, p, i, discard).c);
    }
  }

  lemma RekeyUntouched(c: Cache, g: Layout, p: PagerId, oldKey: Key, newKey: Key, q: PagerId)
    requires Inv(c, g) && Allowed(c, Rekey(p, oldKey, newKey)) && q in c.pagers && q != p
    ensures DoRekey(c, p, oldKey, newKey).Done? ==> Untouched(c, DoRekey(c, p, oldKey, newKey).c, q)
  {
    if DoRekey(c, p, oldKey, newKey).Done? {
      var k2 := if newKey in c.pagers[p] then newKey else oldKey;
      OwnPagesUntouched(c, g, p, oldKey, k2, q, DoRekey(c, p, oldKey, newKey).c);
    }
  }

  /** No callback of one pager changes a page of another, or its place in the other's map. */
  lemma Isolation(c: Cache, g: Layout, op: Op, q: PagerId)
    requires Inv(c, g) && Allowed(c, op) && q in c.pagers && q != op.p
    ensures Apply(c, op).Done? ==> Untouched(c, Apply(c, op).c, q)
  {
    match op
    case Create(p) =>
    case Fetch(p, key, create, victim) => FetchUntouched(c, g, p, key, create, victim, q);
    case Unpin(p, i, discard) => UnpinUntouched(c, g, p, i, discard, q);
    case Rekey(p, oldKey, newKey) => RekeyUntouched(c, g, p, oldKey, newKey, q);
    case Truncate(p, _, order) => FreeKeysUntouched(c, g, p, order, q);
    case Shrink(p, order) => FreeKeysUntouched(c, g, p, order, q);
    case Destroy(p, order) => FreeKeysUntouched(c, g, p, order, q);
    case WriteExtra(p, i, extra) =>
      var k := OwnerOf(c, g, p, i);
      OwnPagesUntouched(c, g, p, k, k, q, SetPage(c, i, c.slab[i].(extra := extra)));
  }

  /** Allocator::new casts each link to 32 bits. The list it builds ends exactly when the
      number of pages fits in 32 bits; with more pages it is a cycle through page 0. */
  lemma NewListEnds(n: nat)
    ensures (exists free :: FreeList(New(n), free)) <==> n < U32
    ensures n >= U32 ==> Low32(New(n).slab[U32 - 1].flags) == 0 == New(n).head
  {
    if n < U32 {
      var free := NewList(n);
    } else {
      Words(0);
    }
    forall free | FreeList(New(n), free) ensures n < U32 {
      ListEndsBelow(n, free);
    }
  }

  lemma ListEndsBelow(n: nat, free: seq<nat>)
    requires FreeList(New(n), free)
    ensures n < U32
  {
    if free != [] {
      var last := |free| - 1;
      assert New(n).slab[free[last]].flags == FreeWord(Link(free, n, last + 1));
      assert New(n).slab[free[last]].flags == FreeWord((free[last] + 1) % U32);
    }
  }
}
