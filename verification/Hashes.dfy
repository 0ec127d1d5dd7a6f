/** The 32-byte hashes that identify blocks, transactions and cells, and lists of them. */
module Hashes {

  /** A hash as its big-endian number, so that byte order is numeric order. */
  type Hash = x: int | 0 <= x < 0x1_0000_0000_0000_0000_0000_0000_0000_0000_0000_0000_0000_0000_0000_0000_0000_0000

  predicate Distinct(s: seq<Hash>)
  {
    forall i, j :: 0 <= i < j < |s| ==> s[i] != s[j]
  }

  function Elements(s: seq<Hash>): set<Hash>
  {
    set x | x in s
  }

  lemma ElementsAppend(s: seq<Hash>, x: Hash)
    ensures Elements(s + [x]) == Elements(s) + {x}
  {
    forall y ensures y in s + [x] <==> y in s || y == x {}
  }
}
