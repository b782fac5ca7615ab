/** What the other modules share: bytes and words, optional values, and listings that arrive in pages. */
module Collections {

  const U32: nat := 0x1_0000_0000
  const U64: nat := 0x1_0000_0000_0000_0000

  type Byte = x: nat | x < 256
  type Word32 = x: nat | x < U32

  datatype Option<T> = None | Some(value: T)

  function Put<K, V>(m: map<K, V>, k: K, v: V): map<K, V> { m[k := v] }

  function Flatten<T>(pages: seq<seq<T>>): seq<T> {
    if pages == [] then [] else pages[0] + Flatten(pages[1..])
  }

  lemma {:induction false} FlattenSnoc<T>(pages: seq<seq<T>>, page: seq<T>)
    ensures Flatten(pages + [page]) == Flatten(pages) + page
  {
    if pages == [] {
      assert [page][1..] == [];
    } else {
      assert (pages + [page])[1..] == pages[1..] + [page];
      FlattenSnoc(pages[1..], page);
    }
  }
}
