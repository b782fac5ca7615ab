/** Frames of a write-ahead log, and what writing them does to the pages of a database. */
module WalLog {

  type PageNo = nat
  type Data = seq<nat>
  type Image = map<PageNo, Data>

  /** One page write; `size` is the database size after the transaction, and 0 unless the frame
      is the last of its transaction. */
  datatype Frame = Frame(no: nat, page: PageNo, size: nat, data: Data)

  predicate IsCommit(f: Frame) { f.size != 0 }

  function WriteAll(img: Image, frames: seq<Frame>): Image {
    if frames == [] then img
    else WriteAll(img, frames[..|frames| - 1])[frames[|frames| - 1].page := frames[|frames| - 1].data]
  }

  lemma {:induction false} WriteAllConcat(img: Image, a: seq<Frame>, b: seq<Frame>)
    ensures WriteAll(img, a + b) == WriteAll(WriteAll(img, a), b)
  {
    if b == [] {
      assert a + b == a;
    } else {
      assert (a + b)[..|a + b| - 1] == a + b[..|b| - 1];
      WriteAllConcat(img, a, b[..|b| - 1]);
    }
  }

  ghost predicate Writes(frames: seq<Frame>, p: PageNo) {
    exists k :: 0 <= k < |frames| && frames[k].page == p
  }

  /** What a page holds after the frames depends on the start only if no frame writes it. */
  lemma {:induction false} PageAfter(x: Image, y: Image, frames: seq<Frame>, p: PageNo)
    requires Writes(frames, p) || (p in x && p in y && x[p] == y[p]) || (p !in x && p !in y)
    ensures (p in WriteAll(x, frames)) == (p in WriteAll(y, frames))
    ensures p in WriteAll(x, frames) ==> WriteAll(x, frames)[p] == WriteAll(y, frames)[p]
  {
    if frames != [] {
      var last := |frames| - 1;
      if frames[last].page != p {
        if Writes(frames, p) {
          var k :| 0 <= k < |frames| && frames[k].page == p;
          assert frames[..last][k].page == p;
        }
        PageAfter(x, y, frames[..last], p);
      }
    }
  }

  lemma {:induction false} UntouchedPage(x: Image, frames: seq<Frame>, p: PageNo)
    requires !Writes(frames, p)
    ensures (p in WriteAll(x, frames)) == (p in x)
    ensures p in x ==> WriteAll(x, frames)[p] == x[p]
  {
    if frames != [] {
      var last := |frames| - 1;
      assert frames[last].page != p;
      forall k | 0 <= k < last ensures frames[..last][k].page != p {
        assert frames[k].page != p;
      }
      UntouchedPage(x, frames[..last], p);
    }
  }

  /** Frames whose pages are all written again have no effect. */
  lemma Overwritten(x: Image, q: seq<Frame>, frames: seq<Frame>)
    requires forall k | 0 <= k < |q| :: Writes(frames, q[k].page)
    ensures WriteAll(WriteAll(x, q), frames) == WriteAll(x, frames)
  {
    var y := WriteAll(x, q);
    forall p: PageNo
      ensures (p in WriteAll(y, frames)) == (p in WriteAll(x, frames))
      ensures p in WriteAll(y, frames) ==> WriteAll(y, frames)[p] == WriteAll(x, frames)[p]
    {
      if !Writes(frames, p) {
        UntouchedPage(x, q, p);
      }
      PageAfter(y, x, frames, p);
    }
  }

  // ----- Transactions -----

  ghost predicate NoCommit(log: seq<Frame>, lo: nat, hi: nat) {
    forall k | lo <= k < hi && k < |log| :: !IsCommit(log[k])
  }

  /** Between two transactions: nothing before it is left uncommitted. */
  predicate Boundary(log: seq<Frame>, b: nat) {
    b <= |log| && (b == 0 || IsCommit(log[b - 1]))
  }

  function ImageAt(log: seq<Frame>, b: nat): Image
    requires b <= |log|
  {
    WriteAll(map[], log[..b])
  }

  /** How many frames belong to whole transactions. */
  function CommittedLen(log: seq<Frame>): (n: nat)
    ensures n <= |log| && Boundary(log, n) && NoCommit(log, n, |log|)
  {
    if log == [] then 0
    else if IsCommit(log[|log| - 1]) then |log|
    else
      var n := CommittedLen(log[..|log| - 1]);
      assert forall k | n <= k < |log| - 1 :: log[k] == log[..|log| - 1][k];
      n
  }
}
