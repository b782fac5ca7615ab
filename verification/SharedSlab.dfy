/** The page cache as it is kept in memory: the slab is one array whose pages are changed in
place, and every callback is proved to do the step of the same name. */
module SharedSlab {
  import opened Collections
  import opened PageCache

  lemma {:induction false} FreeKeysSnoc(c: Cache, p: PagerId, keys: seq<Key>, k: Key)
    requires Releasable(c, p, keys) && Releasable(c, p, keys + [k])
    requires FreeKeys(c, p, keys).Done?
    ensures var d := FreeKeys(c, p, keys).c;
      && p in d.pagers && k in d.pagers[p] && d.pagers[p][k] < |d.slab|
      && FreeKeys(c, p, keys + [k]) == Free(SetPages(d, p, d.pagers[p] - {k}), d.pagers[p][k])
    decreases keys
  {
    if keys == [] {
      assert keys + [k] == [k];
      assert k in Elements([k]);
      var e := Free(SetPages(c, p, c.pagers[p] - {k}), c.pagers[p][k]);
      ElementsStep([k]);
      assert [k][1..] == [];
    } else {
      ElementsStep(keys);
      ElementsStep(keys + [k]);
      assert (keys + [k])[1..] == keys[1..] + [k];
      var e := Free(SetPages(c, p, c.pagers[p] - {keys[0]}), c.pagers[p][keys[0]]).c;
      FreeKeysSnoc(e, p, keys[1..], k);
    }
  }

  lemma OneMore(c: Cache, p: PagerId, order: seq<Key>, k: Key)
    requires Releasable(c, p, order) && k !in Elements(order) && k in c.pagers[p]
    ensures Releasable(c, p, order + [k]) && Elements(order + [k]) == Elements(order) + {k}
  {
    assert forall m | 0 <= m < |order| :: order[m] in Elements(order);
  }

  class Slab {
    const pages: array<Page>
    var head: nat
    var pagers: map<PagerId, map<Key, nat>>
    ghost var layout: Layout

    ghost function View(): Cache
      reads this, pages
    {
      Cache(pages[..], head, pagers)
    }

    ghost predicate Valid()
      reads this, pages
    {
      Inv(View(), layout) && InSlab(View())
    }

    constructor (n: nat)
      ensures View() == New(n) && fresh(pages) && (n < U32 ==> Valid())
    {
      pages := new Page[n](i requires i >= 0 => Page(FreeWord((i + 1) % U32), Zeroed()));
      head := 0;
      pagers := map[];
      ghost var free: seq<nat> := [];
      if n < U32 {
        free := NewList(n);
      }
      layout := Layout(free, map[]);
      new;
      assert pages[..] == New(n).slab;
    }

    /** Allocator::free. */
    method Release(i: nat)
      requires i < pages.Length && !IsFree(pages[i].flags)
      modifies this`head, pages
      ensures View() == Free(old(View()), i).c
    {
      pages[i] := Page(FreeWord(head), Zeroed());
      head := i;
    }

    method CreatePager(p: PagerId)
      requires Valid() && p !in pagers
      modifies this`pagers, this`layout
      ensures Valid() && View() == Apply(old(View()), Create(p)).c
    {
      layout := StepKeeps(View(), layout, Create(p));
      pagers := pagers[p := map[]];
      InvInSlab(View(), layout);
    }

    method FetchInPlace(p: PagerId, key: Key, create: bool, victim: Key) returns (r: Fetched)
      requires InSlab(View()) && p in pagers && (Unpinned(View(), p) != {} ==> victim in Unpinned(View(), p))
      requires DoFetch(View(), p, key, create, victim).Done?
      modifies this`head, this`pagers, pages
      ensures Done(View(), r) == DoFetch(old(View()), p, key, create, victim)
    {
      var mine := pagers[p];
      var unpinned := set k | k in mine && !IsPinned(pages[mine[k]].flags);
      assert unpinned == Unpinned(View(), p);
      if key in mine {
        var i := mine[key];
        pages[i] := pages[i].(flags := PinWord(key));
        r := At(i);
      } else if unpinned != {} {
        var i := mine[victim];
        pages[i] := Page(PinWord(key), Zeroed());
        pagers := pagers[p := Put(mine - {victim}, key, i)];
        r := At(i);
      } else if create && head < pages.Length {
        var i := head;
        head := Low32(pages[i].flags);
        pages[i] := pages[i].(flags := PinWord(key));
        pagers := pagers[p := Put(mine, key, i)];
        r := At(i);
      } else {
        r := Null;
      }
    }

    /** Any unpinned page will do. */
    method PickVictim(p: PagerId) returns (victim: Key)
      requires InSlab(View()) && p in pagers
      ensures Unpinned(View(), p) != {} ==> victim in Unpinned(View(), p)
    {
      victim := 0;
      var mine := pagers[p];
      var unpinned := set k | k in mine && !IsPinned(pages[mine[k]].flags);
      assert unpinned == Unpinned(View(), p);
      if unpinned != {} {
        victim :| victim in unpinned;
      }
    }

    /** xFetch; `victim` is the unpinned page the hash map offered first, when there was one. */
    method FetchPage(p: PagerId, key: Key, create: bool) returns (r: Fetched, victim: Key)
      requires Valid() && p in pagers && key < U32
      modifies this, pages
      ensures Valid() && Allowed(old(View()), Fetch(p, key, create, victim))
      ensures Done(View(), r) == Apply(old(View()), Fetch(p, key, create, victim))
    {
      victim := PickVictim(p);
      layout := FetchKeeps(View(), layout, p, key, create, victim);
      hide Inv;
      hide DoFetch;
      r := FetchInPlace(p, key, create, victim);
      InvInSlab(View(), layout);
    }

    method UnpinInPlace(p: PagerId, i: nat, discard: bool)
      requires InSlab(View()) && p in pagers && i < pages.Length && DoUnpin(View(), p, i, discard).Done?
      modifies this`head, this`pagers, pages
      ensures Done(View(), Null) == DoUnpin(old(View()), p, i, discard)
    {
      var key := Low32(pages[i].flags);
      pages[i] := pages[i].(flags := UnpinWord(pages[i].flags));
      if discard {
        var j := pagers[p][key];
        pagers := pagers[p := pagers[p] - {key}];
        Release(j);
      }
    }

    /** xUnpin. */
    method UnpinPage(p: PagerId, i: nat, discard: bool)
      requires Valid() && Allowed(View(), Unpin(p, i, discard))
      modifies this, pages
      ensures Valid() && Done(View(), Null) == DoUnpin(old(View()), p, i, discard)
    {
      layout := UnpinKeeps(View(), layout, p, i, discard);
      UnpinInPlace(p, i, discard);
      InvInSlab(View(), layout);
    }

    method RekeyInPlace(p: PagerId, oldKey: Key, newKey: Key)
      requires InSlab(View()) && p in pagers && DoRekey(View(), p, oldKey, newKey).Done?
      modifies this`head, this`pagers, pages
      ensures Done(View(), Null) == DoRekey(old(View()), p, oldKey, newKey)
    {
      var i := pagers[p][oldKey];
      var rest := pagers[p] - {oldKey};
      pages[i] := pages[i].(flags := PinWord(newKey));
      pagers := pagers[p := Put(rest, newKey, i)];
      if newKey in rest {
        Release(rest[newKey]);
      }
    }

    /** xRekey. */
    method RekeyPage(p: PagerId, oldKey: Key, newKey: Key)
      requires Valid() && Allowed(View(), Rekey(p, oldKey, newKey))
      modifies this, pages
      ensures Valid() && Done(View(), Null) == DoRekey(old(View()), p, oldKey, newKey)
    {
      layout := RekeyKeeps(View(), layout, p, oldKey, newKey);
      RekeyInPlace(p, oldKey, newKey);
      InvInSlab(View(), layout);
    }

    /** Free one more page of the pager, after those of `order`. */
    method ReleaseKey(ghost c: Cache, p: PagerId, ghost order: seq<Key>, k: Key)
      requires Valid() && Releasable(c, p, order) && Done(View(), Null) == FreeKeys(c, p, order)
      requires k !in Elements(order) && k in c.pagers[p]
      modifies this, pages
      ensures Valid() && Elements(order + [k]) == Elements(order) + {k}
      ensures Releasable(c, p, order + [k]) && Done(View(), Null) == FreeKeys(c, p, order + [k])
    {
      OneMore(c, p, order, k);
      FreeKeysSnoc(c, p, order, k);
      layout := FreeOwned(View(), layout, p, k);
      var i := pagers[p][k];
      pagers := pagers[p := pagers[p] - {k}];
      Release(i);
      InvInSlab(View(), layout);
    }

    /** Take these keys out of the pager's map, in whatever order, and free their pages. */
    method ReleaseKeys(p: PagerId, keys: set<Key>) returns (order: seq<Key>)
      requires Valid() && p in pagers && keys <= pagers[p].Keys
      modifies this, pages
      ensures Valid() && NoRepeats(order) && Elements(order) == keys
      ensures Done(View(), Null) == FreeKeys(old(View()), p, order)
    {
      hide Inv;
      ghost var c := View();
      order := [];
      var todo := keys;
      while todo != {}
        invariant Valid() && todo <= keys && Elements(order) == keys - todo
        invariant Releasable(c, p, order) && Done(View(), Null) == FreeKeys(c, p, order)
        decreases todo
      {
        var k :| k in todo;
        ReleaseKey(c, p, order, k);
        order, todo := order + [k], todo - {k};
      }
    }

    /** xTruncate, pinned pages included. */
    method TruncatePages(p: PagerId, limit: Key) returns (order: seq<Key>)
      requires Valid() && p in pagers
      modifies this, pages
      ensures Valid() && Allowed(old(View()), Truncate(p, limit, order))
      ensures Done(View(), Null) == Apply(old(View()), Truncate(p, limit, order))
    {
      order := ReleaseKeys(p, set k | k in pagers[p] && k >= limit);
    }

    /** xShrink. */
    method ShrinkPages(p: PagerId) returns (order: seq<Key>)
      requires Valid() && p in pagers
      modifies this, pages
      ensures Valid() && Allowed(old(View()), Shrink(p, order))
      ensures Done(View(), Null) == Apply(old(View()), Shrink(p, order))
    {
      ghost var c := View();
      var mine := pagers[p];
      var unpinned := set k | k in mine && !IsPinned(pages[mine[k]].flags);
      assert unpinned == Unpinned(c, p);
      order := ReleaseKeys(p, unpinned);
    }

    /** xDestroy: the pager goes, and all its pages with it. */
    method DestroyPager(p: PagerId) returns (order: seq<Key>)
      requires Valid() && p in pagers
      modifies this, pages
      ensures Valid() && Allowed(old(View()), Destroy(p, order))
      ensures Done(View(), Null) == Apply(old(View()), Destroy(p, order))
    {
      ghost var c, g := View(), layout;
      order := ReleaseKeys(p, pagers[p].Keys);
      pagers := pagers - {p};
      layout := DestroyKeeps(c, g, p, order);
      InvInSlab(View(), layout);
    }
  }
}
