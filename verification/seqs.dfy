/** Facts about sequences that the text and JSON proofs share. */
module Seqs {

  lemma ConcatAssoc<T>(a: seq<T>, b: seq<T>, c: seq<T>)
    ensures (a + b) + c == a + (b + c)
  {
  }

  lemma DropLast<T>(s: seq<T>)
    requires |s| > 0
    ensures s == s[..|s| - 1] + [s[|s| - 1]]
  {
  }

  lemma PairConcat<T>(x: T, y: T, z: seq<T>)
    ensures [x] + [y] + z == [x, y] + z
  {
  }

  lemma EmptyLeft<T>(e: seq<T>, x: seq<T>)
    requires |e| == 0
    ensures e + x == x
  {
  }
}
