/** What happens in a slab of 2^32 pages or more: its links are cut to 32 bits, so the free list comes
back to page 0, which is in use, and the allocation that meets it there panics. */
module SlabLimit {
  import opened Collections
  import opened PageCache

  function FilledPage(i: nat, k: nat): Page {
    if i < k then Page(PinWord(i), Zeroed()) else Page(FreeWord((i + 1) % U32), Zeroed())
  }

  function Cached(k: nat): (m: map<Key, nat>)
    ensures forall i: nat :: i in m <==> i < k
    ensures forall i | i in m :: m[i] == i
  {
    if k == 0 then map[] else Put(Cached(k - 1), k - 1, k - 1)
  }

  /** The cache after pager 0 has fetched keys 0 to k - 1, beside pager 1. */
  function Filled(n: nat, k: nat): Cache {
    Cache(seq(n, i requires i >= 0 => FilledPage(i, k)), k % U32, map[0 := Cached(k), 1 := map[]])
  }

  /** The fetches still to come, and one by pager 1. */
  function Fetches(k: nat): seq<Op>
    decreases U32 - k
  {
    if k >= U32 then [Fetch(1, 0, true, 0)] else [Fetch(0, k, true, 0)] + Fetches(k + 1)
  }

  lemma FilledPages(n: nat, k: nat)
    requires U32 <= n && k <= U32
    ensures InSlab(Filled(n, k)) && Unpinned(Filled(n, k), 0) == {} && Unpinned(Filled(n, k), 1) == {}
  {
    var c := Filled(n, k);
    forall i | 0 <= i < k ensures Pinned(c, i) {
      Words(i);
    }
  }

  lemma FillOne(n: nat, k: nat)
    requires U32 <= n && k < U32
    ensures Allowed(Filled(n, k), Fetch(0, k, true, 0))
    ensures Apply(Filled(n, k), Fetch(0, k, true, 0)) == Done(Filled(n, k + 1), At(k))
  {
    FilledPages(n, k);
    Words((k + 1) % U32);
    var c, d := Filled(n, k), Filled(n, k + 1);
    assert c.slab[k := Page(PinWord(k), Zeroed())] == d.slab;
    assert c.pagers[0 := Cached(k + 1)] == d.pagers;
  }

  lemma SecondTime(n: nat)
    requires U32 <= n
    ensures Allowed(Filled(n, U32), Fetch(1, 0, true, 0)) && Apply(Filled(n, U32), Fetch(1, 0, true, 0)) == Panicked
  {
    FilledPages(n, U32);
    Words(0);
  }

  lemma {:induction false} FillsUp(n: nat, k: nat)
    requires U32 <= n && k <= U32
    ensures Obeys(Filled(n, k), Fetches(k)) && Run(Filled(n, k), Fetches(k)).Panicked?
    decreases U32 - k
  {
    hide Filled;
    hide Allowed;
    hide Apply;
    if k == U32 {
      SecondTime(n);
    } else {
      FillOne(n, k);
      FillsUp(n, k + 1);
      assert Fetches(k)[1..] == Fetches(k + 1);
    }
  }

  lemma TwoPagers(n: nat)
    ensures Allowed(New(n), Create(0)) && Apply(New(n), Create(0)).Done?
    ensures var c := Apply(New(n), Create(0)).c;
      Allowed(c, Create(1)) && Apply(c, Create(1)).Done? && Apply(c, Create(1)).c == Filled(n, 0)
  {
    assert Cached(0) == map[];
    assert New(n).slab == Filled(n, 0).slab;
  }

  lemma OneOp(c: Cache, op: Op, rest: seq<Op>)
    requires Allowed(c, op) && Apply(c, op).Done? && Obeys(Apply(c, op).c, rest)
    ensures Obeys(c, [op] + rest) && Run(c, [op] + rest) == Run(Apply(c, op).c, rest)
  {
    hide Allowed;
    hide Apply;
    assert ([op] + rest)[1..] == rest;
  }

  lemma ManyPagesPanic(n: nat) returns (ops: seq<Op>)
    requires U32 <= n
    ensures Obeys(New(n), ops) && Run(New(n), ops).Panicked?
  {
    TwoPagers(n);
    FillsUp(n, 0);
    hide Filled;
    hide Allowed;
    hide Apply;
    hide Obeys;
    hide Run;
    hide New;
    OneOp(Apply(New(n), Create(0)).c, Create(1), Fetches(0));
    OneOp(New(n), Create(0), [Create(1)] + Fetches(0));
    ops := [Create(0)] + ([Create(1)] + Fetches(0));
  }

  /** All runs are safe if and only if the slab has fewer than 2^32 pages. */
  lemma SafeExactly(n: nat)
    ensures (forall ops | Obeys(New(n), ops) :: Run(New(n), ops).Done?) <==> n < U32
  {
    hide Obeys;
    hide Run;
    hide New;
    if n < U32 {
      forall ops | Obeys(New(n), ops) ensures Run(New(n), ops).Done? {
        var g := RunsAreSafe(n, ops);
      }
    } else {
      var ops := ManyPagesPanic(n);
      assert !Run(New(n), ops).Done?;
    }
  }
}
