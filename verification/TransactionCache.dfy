/** The pages of one transaction on their way into the database file: in memory up to a limit,
then in a recovery file that an index leads into. What the file system does (whether the
recovery file opens, how many pages can be written to it) is an argument. */
module TransactionCache {
  import opened Collections
  import opened WalLog
  import opened PageFile

  datatype Cache = Memory(pages: Image) | Disk(index: map<PageNo, nat>, file: File)

  function At(ps: nat, file: File, at: nat): Data
    requires at + ps <= |file|
  {
    file[at..at + ps]
  }

  /** The pages the cache stands for. */
  function Stored(ps: nat, c: Cache): Image {
    match c
    case Memory(pages) => pages
    case Disk(index, file) => map p | p in index && index[p] + ps <= |file| :: At(ps, file, index[p])
  }

  /** Every index entry has a page of the recovery file to itself. */
  ghost predicate Apart(ps: nat, index: map<PageNo, nat>, len: nat) {
    && (forall p | p in index :: p > 0 && index[p] + ps <= len)
    && (forall p, q | p in index && q in index && p != q :: index[p] + ps <= index[q] || index[q] + ps <= index[p])
  }

  function Rows(ps: nat, index: map<PageNo, nat>): nat { |index| * ps }

  ghost predicate DiskOk(ps: nat, index: map<PageNo, nat>, file: File) {
    |file| == Rows(ps, index) && Apart(ps, index, |file|)
  }

  ghost predicate CacheOk(ps: nat, c: Cache) {
    match c
    case Memory(pages) => Pages(ps, pages)
    case Disk(index, file) => DiskOk(ps, index, file)
  }

  lemma AppendRows(ps: nat, index: map<PageNo, nat>, p: PageNo, at: nat)
    requires p !in index
    ensures Rows(ps, Put(index, p, at)) == Rows(ps, index) + ps
  {
    assert |Put(index, p, at)| == |index| + 1;
  }

  lemma AppendApart(ps: nat, index: map<PageNo, nat>, len: nat, p: PageNo)
    requires Apart(ps, index, len) && p > 0 && p !in index
    ensures Apart(ps, Put(index, p, len), len + ps)
  {
  }

  lemma AppendAt(ps: nat, file: File, page: Data, at: nat)
    requires (at + ps <= |file| || at == |file|) && |page| == ps
    ensures At(ps, file + page, at) == if at + ps <= |file| && at != |file| then At(ps, file, at) else page
  {
  }

  /** A new page goes to the end of the recovery file. */
  lemma Append(ps: nat, index: map<PageNo, nat>, file: File, p: PageNo, page: Data)
    requires Apart(ps, index, |file|) && p > 0 && p !in index && |page| == ps
    ensures Apart(ps, Put(index, p, |file|), |file + page|)
    ensures Stored(ps, Disk(Put(index, p, |file|), file + page)) == Stored(ps, Disk(index, file))[p := page]
  {
    AppendApart(ps, index, |file|, p);
    assert forall q | q in index :: index[q] + ps <= |file|;
    hide At;
    hide Apart;
    forall q | q in index ensures At(ps, file + page, index[q]) == At(ps, file, index[q]) {
      AppendAt(ps, file, page, index[q]);
    }
    AppendAt(ps, file, page, |file|);
  }

  lemma OverwriteAt(ps: nat, file: File, page: Data, at: nat, other: nat)
    requires at + ps <= |file| && other + ps <= |file| && |page| == ps
    requires at == other || at + ps <= other || other + ps <= at
    ensures |WriteAt(file, at, page)| == |file|
    ensures At(ps, WriteAt(file, at, page), other) == if other == at then page else At(ps, file, other)
    ensures ps == 0 ==> At(ps, WriteAt(file, at, page), other) == At(ps, file, other)
  {
  }

  /** A page already there is overwritten where it is. */
  lemma Overwrite(ps: nat, index: map<PageNo, nat>, file: File, p: PageNo, page: Data)
    requires DiskOk(ps, index, file) && p in index && |page| == ps
    ensures DiskOk(ps, index, WriteAt(file, index[p], page))
    ensures Stored(ps, Disk(index, WriteAt(file, index[p], page))) == Stored(ps, Disk(index, file))[p := page]
  {
    hide At;
    hide WriteAt;
    hide Rows;
    var g := WriteAt(file, index[p], page);
    OverwriteAt(ps, file, page, index[p], index[p]);
    forall q | q in index && q != p ensures At(ps, g, index[q]) == At(ps, file, index[q]) {
      OverwriteAt(ps, file, page, index[p], index[q]);
    }
  }

  lemma TornAt(ps: nat, file: File, part: Data, at: nat, other: nat)
    requires at + ps <= |file| && other + ps <= |file| && |part| <= ps
    requires at + ps <= other || other + ps <= at
    ensures |WriteAt(file, at, part)| == |file|
    ensures At(ps, WriteAt(file, at, part), other) == At(ps, file, other)
  {
  }

  /** Part of a page written over its place spoils no other. */
  lemma TornOverwrite(ps: nat, index: map<PageNo, nat>, file: File, p: PageNo, part: Data)
    requires DiskOk(ps, index, file) && p in index && |part| < ps
    ensures Stored(ps, Disk(index, WriteAt(file, index[p], part))) - {p} == Stored(ps, Disk(index, file)) - {p}
  {
    hide At;
    hide Rows;
    assert |WriteAt(file, index[p], part)| == |file|;
    hide WriteAt;
    forall q | q in index && q != p
      ensures At(ps, WriteAt(file, index[p], part), index[q]) == At(ps, file, index[q])
    {
      TornAt(ps, file, part, index[p], index[q]);
    }
  }

  /** Part of a page at the end of the file is in no place. */
  lemma TornAppend(ps: nat, index: map<PageNo, nat>, file: File, part: Data)
    requires DiskOk(ps, index, file)
    ensures Stored(ps, Disk(index, file + part)) == Stored(ps, Disk(index, file))
  {
    assert forall q | q in index :: index[q] + ps <= |file|;
    hide Rows;
    hide Apart;
    forall q | q in index ensures At(ps, file + part, index[q]) == At(ps, file, index[q]) {}
  }

  lemma StoredPages(ps: nat, c: Cache)
    requires CacheOk(ps, c)
    ensures Pages(ps, Stored(ps, c))
    ensures c.Disk? ==> Stored(ps, c).Keys == c.index.Keys
  {
  }

  /** The pages not in `todo` have been copied to the recovery file. */
  ghost predicate Spilled(ps: nat, pages: Image, todo: set<PageNo>, index: map<PageNo, nat>, file: File) {
    && Pages(ps, pages) && todo <= pages.Keys && DiskOk(ps, index, file)
    && Stored(ps, Disk(index, file)) == pages - todo
  }

  lemma SpillNone(ps: nat, pages: Image)
    requires Pages(ps, pages)
    ensures Spilled(ps, pages, pages.Keys, map[], [])
  {
    assert Stored(ps, Disk(map[], [])) == map[];
  }

  lemma SpillAll(ps: nat, pages: Image, index: map<PageNo, nat>, file: File)
    requires Spilled(ps, pages, {}, index, file)
    ensures CacheOk(ps, Disk(index, file)) && Stored(ps, Disk(index, file)) == pages
  {
  }

  lemma SpillOne(ps: nat, pages: Image, todo: set<PageNo>, index: map<PageNo, nat>, file: File, p: PageNo)
    requires Spilled(ps, pages, todo, index, file) && p in todo
    ensures Spilled(ps, pages, todo - {p}, Put(index, p, |file|), file + pages[p])
  {
    hide Apart;
    hide Stored;
    StoredPages(ps, Disk(index, file));
    assert p !in index;
    Append(ps, index, file, p, pages[p]);
    AppendRows(ps, index, p, |file|);
    assert pages - (todo - {p}) == (pages - todo)[p := pages[p]];
  }

  /** The pages not in `todo` have been written to the database file. */
  ghost predicate Flushed(db: File, ps: nat, pages: Image, todo: set<PageNo>, order: seq<PageNo>, out: File) {
    && Pages(ps, pages) && todo <= pages.Keys && Enumerates(order, pages.Keys - todo)
    && out == WriteInOrder(db, ps, pages, order)
  }

  lemma FlushOne(db: File, ps: nat, pages: Image, todo: set<PageNo>, order: seq<PageNo>, out: File, p: PageNo)
    requires Flushed(db, ps, pages, todo, order, out) && p in todo
    ensures p > 0 && Flushed(db, ps, pages, todo - {p}, order + [p], WritePage(out, ps, p, pages[p]))
  {
    WriteSnoc(db, ps, pages, order, p);
    assert pages.Keys - (todo - {p}) == pages.Keys - todo + {p};
    assert (order + [p])[|order|] == p;
  }

  class TransactionPageCache {
    const swapAfter: nat
    const ps: nat
    var cache: Cache

    constructor (swapAfter: nat, ps: nat)
      ensures Valid() && Contents() == map[] && this.ps == ps && this.swapAfter == swapAfter
    {
      this.swapAfter := swapAfter;
      this.ps := ps;
      cache := Memory(map[]);
    }

    ghost predicate Valid()
      reads this
    {
      CacheOk(ps, cache)
    }

    ghost function Contents(): Image
      reads this
    {
      Stored(ps, cache)
    }

    /** Insert a page, in memory or on disk, spilling first if the memory is full; when the
        spill fails the page stays in memory. Only a failed write to the recovery file of a
        page itself is an error; it can leave that page torn, and no other. */
    method Insert(pgno: PageNo, page: Data, opens: bool, writes: nat, bytes: nat) returns (ok: bool)
      requires Valid() && pgno > 0 && |page| == ps
      modifies this
      ensures ok ==> Valid() && Contents() == old(Contents())[pgno := page]
      ensures !ok ==> bytes < ps && cache.Disk? && Contents() - {pgno} == old(Contents()) - {pgno}
      ensures cache.Disk? ==
        (old(cache.Disk?) ||
         (pgno !in old(Contents()) && |old(Contents())| > swapAfter && opens && writes >= |old(Contents())|))
    {
      ok := true;
      if cache.Memory? && pgno !in cache.pages && |cache.pages| > swapAfter {
        Swap(opens, writes);
      }
      match cache {
        case Memory(pages) => cache := Memory(pages[pgno := page]);
        case Disk(_, _) => ok := Persist(pgno, page, bytes);
      }
    }

    /** `bytes` is how much of the page the file system takes before it fails. */
    method Persist(pgno: PageNo, page: Data, bytes: nat) returns (ok: bool)
      requires Valid() && cache.Disk? && pgno > 0 && |page| == ps
      modifies this
      ensures cache.Disk? && ok == (bytes >= ps)
      ensures ok ==> Valid() && Contents() == old(Contents())[pgno := page]
      ensures !ok ==> Contents() - {pgno} == old(Contents()) - {pgno}
    {
      ok := bytes >= ps;
      var index, file := cache.index, cache.file;
      if !ok {
        PersistPart(pgno, page[..bytes]);
      } else if pgno in index {
        Overwrite(ps, index, file, pgno, page);
        cache := Disk(index, WriteAt(file, index[pgno], page));
      } else {
        var end := |index| * ps;
        Append(ps, index, file, pgno, page);
        AppendRows(ps, index, pgno, end);
        cache := Disk(Put(index, pgno, end), file + page);
      }
    }

    method PersistPart(pgno: PageNo, part: Data)
      requires Valid() && cache.Disk? && |part| < ps
      modifies this
      ensures cache.Disk? && Contents() - {pgno} == old(Contents()) - {pgno}
    {
      var index, file := cache.index, cache.file;
      if pgno in index {
        TornOverwrite(ps, index, file, pgno, part);
        cache := Disk(index, WriteAt(file, index[pgno], part));
      } else {
        TornAppend(ps, index, file, part);
        cache := Disk(index, file + part);
      }
    }

    /** Move everything to the recovery file, or leave everything where it is. */
    method Swap(opens: bool, writes: nat)
      requires Valid()
      modifies this
      ensures Valid() && Contents() == old(Contents())
      ensures cache.Disk? <==> old(cache.Disk?) || (opens && writes >= |old(Contents())|)
    {
      hide Spilled;
      if cache.Disk? || !opens {
        return;
      }
      var pages := cache.pages;
      var index: map<PageNo, nat>, file: File, end: nat := map[], [], 0;
      var todo := pages.Keys;
      var written := 0;
      SpillNone(ps, pages);
      while todo != {}
        invariant cache == old(cache) && Spilled(ps, pages, todo, index, file) && end == |file|
        invariant written + |todo| == |pages| && written <= writes
        decreases todo
      {
        var p :| p in todo;
        if written == writes {
          return;
        }
        SpillOne(ps, pages, todo, index, file, p);
        file, index := file + pages[p], Put(index, p, end);
        end := end + |pages[p]|;
        todo, written := todo - {p}, written + 1;
      }
      SpillAll(ps, pages, index, file);
      cache := Disk(index, file);
    }

    /** Write every page to its place in the database file, from wherever it is kept. */
    method Flush(db: File) returns (out: File, ghost order: seq<PageNo>)
      requires Valid()
      ensures Pages(ps, Contents()) && Enumerates(order, Contents().Keys)
      ensures out == WriteInOrder(db, ps, Contents(), order)
    {
      StoredPages(ps, cache);
      out, order := db, [];
      ghost var pages := Contents();
      var todo := if cache.Memory? then cache.pages.Keys else cache.index.Keys;
      while todo != {}
        invariant Flushed(db, ps, pages, todo, order, out)
        decreases todo
      {
        var p :| p in todo;
        FlushOne(db, ps, pages, todo, order, out, p);
        var page := if cache.Memory? then cache.pages[p] else At(ps, cache.file, cache.index[p]);
        out := WritePage(out, ps, p, page);
        order, todo := order + [p], todo - {p};
      }
      assert pages.Keys - todo == pages.Keys;
    }
  }
}
