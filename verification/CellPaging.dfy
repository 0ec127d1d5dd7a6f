/** Enumerating the live cells by outpoint, a page at a time. */
module CellPaging {
  import opened Bytes
  import opened CellEntries
  import opened CellStateTree
  import opened Hashes
  import opened Keyspace
  import opened Outcomes

  /** The derived order of outpoints. */
  predicate Before(a: OutPoint, b: OutPoint)
  {
    a.txHash < b.txHash || (a.txHash == b.txHash && a.index < b.index)
  }

  /** It is the order of the 32 hash bytes, first byte first, and then of the index. */
  lemma BeforeIsByteOrder(a: OutPoint, b: OutPoint)
    ensures Before(a, b) <==>
      LexLt(HashBytes(a.txHash), HashBytes(b.txHash)) || (HashBytes(a.txHash) == HashBytes(b.txHash) && a.index < b.index)
  {
    HashBytesOrder(a.txHash, b.txHash);
    if HashBytes(a.txHash) == HashBytes(b.txHash) { HashBytesInjective(a.txHash, b.txHash); }
  }

  predicate IsLeast(m: OutPoint, s: set<OutPoint>)
  {
    m in s && forall x :: x in s ==> x == m || Before(m, x)
  }

  lemma {:induction false} LeastExists(s: set<OutPoint>)
    requires s != {}
    ensures exists m :: IsLeast(m, s)
  {
    var x :| x in s;
    var rest := s - {x};
    assert forall y :: y in s ==> y == x || y in rest;
    if rest == {} {
      assert IsLeast(x, s);
    } else {
      LeastExists(rest);
      var m :| IsLeast(m, rest);
      assert IsLeast(if Before(x, m) then x else m, s);
    }
  }

  /** The keys of an ordered map in iteration order. */
  function Ascending(s: set<OutPoint>): seq<OutPoint>
  {
    if s == {} then []
    else
      LeastExists(s);
      var m :| IsLeast(m, s);
      [m] + Ascending(s - {m})
  }

  ghost predicate Increasing(q: seq<OutPoint>)
  {
    forall i, j :: 0 <= i < j < |q| ==> Before(q[i], q[j])
  }

  lemma IncreasingCons(m: OutPoint, q: seq<OutPoint>)
    requires Increasing(q) && forall x :: x in q ==> Before(m, x)
    ensures Increasing([m] + q)
  {
  }

  lemma {:induction false} AscendingIsIncreasing(s: set<OutPoint>)
    ensures Increasing(Ascending(s)) && (forall x :: x in Ascending(s) <==> x in s)
  {
    if s != {} {
      var m := Ascending(s)[0];
      var rest := s - {m};
      assert IsLeast(m, s);
      assert forall x :: x in s <==> x == m || x in rest;
      AscendingIsIncreasing(rest);
      IncreasingCons(m, Ascending(rest));
      assert Ascending(s) == [m] + Ascending(rest);
    }
  }

  lemma LeastIsFirst(q: seq<OutPoint>, s: set<OutPoint>, m: OutPoint)
    requires Increasing(q) && (forall x :: x in q <==> x in s) && IsLeast(m, s)
    ensures |q| > 0 && q[0] == m && forall x :: x in q[1..] <==> x in s - {m}
  {
    assert m in q;
    var i :| 0 <= i < |q| && q[i] == m;
    assert q[0] in s;
    forall x ensures x in q[1..] <==> x in s - {m} {
      assert x in q <==> x == q[0] || x in q[1..];
    }
  }

  lemma ListedIsMember(q: seq<OutPoint>, s: set<OutPoint>)
    requires forall x :: x in q <==> x in s
    ensures q != [] ==> s != {}
  {
    if q != [] { assert q[0] in s; }
  }

  lemma AscendingFirst(s: set<OutPoint>) returns (m: OutPoint)
    requires s != {}
    ensures IsLeast(m, s) && Ascending(s) == [m] + Ascending(s - {m})
  {
    m := Ascending(s)[0];
  }

  /** There is one increasing list of a set. */
  lemma {:induction false} IncreasingIsUnique(q: seq<OutPoint>, s: set<OutPoint>)
    requires Increasing(q) && forall x :: x in q <==> x in s
    ensures q == Ascending(s)
  {
    if s == {} {
      ListedIsMember(q, s);
    } else {
      var m := AscendingFirst(s);
      LeastIsFirst(q, s, m);
      IncreasingIsUnique(q[1..], s - {m});
    }
  }

  // ---- iteration from an anchor ----

  function Range(s: set<OutPoint>, from: Option<OutPoint>, skipFirst: bool): set<OutPoint>
  {
    match from
    case None => s
    case Some(a) => set o | o in s && (Before(a, o) || (o == a && !skipFirst))
  }

  type Item = (OutPoint, Hash, CellEntry)

  /** The cells of the listed outpoints; outpoints without a cell are passed over. */
  function Collect(cells: map<Hash, CellEntry>, hashes: map<OutPoint, Hash>, keys: seq<OutPoint>): seq<Item>
    requires forall o :: o in keys ==> o in hashes
  {
    if keys == [] then []
    else
      var h := hashes[keys[0]];
      (if h in cells then [(keys[0], h, cells[h])] else []) + Collect(cells, hashes, keys[1..])
  }

  function IterByOutpointFrom(
    cells: map<Hash, CellEntry>, hashes: map<OutPoint, Hash>, from: Option<OutPoint>, skipFirst: bool): seq<Item>
  {
    var range := Range(hashes.Keys, from, skipFirst);
    AscendingIsIncreasing(range);
    Collect(cells, hashes, Ascending(range))
  }

  ghost predicate AllLive(cells: map<Hash, CellEntry>, hashes: map<OutPoint, Hash>)
  {
    forall o :: o in hashes ==> hashes[o] in cells
  }

  lemma {:induction false} CollectAll(cells: map<Hash, CellEntry>, hashes: map<OutPoint, Hash>, keys: seq<OutPoint>)
    requires AllLive(cells, hashes) && forall o :: o in keys ==> o in hashes
    ensures var items := Collect(cells, hashes, keys);
            && |items| == |keys|
            && forall i :: 0 <= i < |keys| ==> items[i] == (keys[i], hashes[keys[i]], cells[hashes[keys[i]]])
  {
    if keys != [] { CollectAll(cells, hashes, keys[1..]); }
  }

  lemma {:induction false} CollectFrom(
    cells: map<Hash, CellEntry>, hashes: map<OutPoint, Hash>, keys: seq<OutPoint>, n: nat)
    requires AllLive(cells, hashes) && (forall o :: o in keys ==> o in hashes) && n <= |keys|
    ensures |Collect(cells, hashes, keys)| == |keys|
    ensures Collect(cells, hashes, keys[n..]) == Collect(cells, hashes, keys)[n..]
  {
    CollectAll(cells, hashes, keys);
    CollectAll(cells, hashes, keys[n..]);
  }

  /** Every indexed cell from the anchor on, the anchor itself only if it is not skipped, once and in ascending order. */
  lemma IterationIsComplete(
    cells: map<Hash, CellEntry>, hashes: map<OutPoint, Hash>, from: Option<OutPoint>, skipFirst: bool)
    requires AllLive(cells, hashes)
    ensures var items := IterByOutpointFrom(cells, hashes, from, skipFirst);
            && (forall i, j :: 0 <= i < j < |items| ==> Before(items[i].0, items[j].0))
            && (forall i :: 0 <= i < |items| ==>
                 items[i].0 in hashes && items[i].1 == hashes[items[i].0] && items[i].2 == cells[items[i].1])
            && (forall o :: Listed(items, o) <==>
                 o in hashes && (from.None? || Before(from.value, o) || (o == from.value && !skipFirst)))
  {
    var range := Range(hashes.Keys, from, skipFirst);
    var keys := Ascending(range);
    AscendingIsIncreasing(range);
    CollectAll(cells, hashes, keys);
    var items := IterByOutpointFrom(cells, hashes, from, skipFirst);
    assert forall i :: 0 <= i < |items| ==> items[i].0 == keys[i];
    forall o ensures Listed(items, o) <==> o in range { ListedIffKey(items, keys, o); }
  }

  /** The outpoint is among the items. */
  ghost predicate Listed(items: seq<Item>, o: OutPoint)
  {
    exists i :: 0 <= i < |items| && items[i].0 == o
  }

  lemma ListedIffKey(items: seq<Item>, keys: seq<OutPoint>, o: OutPoint)
    requires |items| == |keys| && forall i :: 0 <= i < |items| ==> items[i].0 == keys[i]
    ensures Listed(items, o) <==> o in keys
  {
    if o in keys {
      var i :| 0 <= i < |keys| && keys[i] == o;
      assert items[i].0 == o;
    }
  }

  /** Past the n-th outpoint come exactly the later ones. */
  lemma AscendingAfter(s: set<OutPoint>, n: nat)
    requires 0 < n <= |Ascending(s)|
    ensures Ascending(Range(s, Some(Ascending(s)[n - 1]), true)) == Ascending(s)[n..]
  {
    var q := Ascending(s);
    AscendingIsIncreasing(s);
    var later := Range(s, Some(q[n - 1]), true);
    forall x ensures x in q[n..] <==> x in later {
      if x in later {
        var i :| 0 <= i < |q| && q[i] == x;
        assert i >= n;
        assert x == q[n..][i - n];
      }
    }
    IncreasingIsUnique(q[n..], later);
  }

  /** Continuing after the n-th item yields the rest. */
  lemma IterationContinues(cells: map<Hash, CellEntry>, hashes: map<OutPoint, Hash>, n: nat)
    requires AllLive(cells, hashes)
    requires n <= |IterByOutpointFrom(cells, hashes, None, false)|
    ensures var items := IterByOutpointFrom(cells, hashes, None, false);
            IterByOutpointFrom(cells, hashes, if n == 0 then None else Some(items[n - 1].0), n > 0) == items[n..]
  {
    var keys := Ascending(hashes.Keys);
    AscendingIsIncreasing(hashes.Keys);
    CollectAll(cells, hashes, keys);
    CollectFrom(cells, hashes, keys, n);
    if n > 0 { AscendingAfter(hashes.Keys, n); }
  }

  // ---- pages ----

  function PagedTreeCells(
    cells: map<Hash, CellEntry>, hashes: map<OutPoint, Hash>, from: Option<OutPoint>, chunkSize: nat,
    skipFirst: bool): (page: seq<Item>)
    ensures |page| <= chunkSize
  {
    if chunkSize == 0 then []
    else
      var items := IterByOutpointFrom(cells, hashes, from, skipFirst);
      if |items| <= chunkSize then items else items[..chunkSize]
  }

  function Flatten(pages: seq<seq<Item>>): seq<Item>
  {
    if pages == [] then [] else Flatten(pages[..|pages| - 1]) + pages[|pages| - 1]
  }

  /** The page that follows the first n items. */
  lemma PageAfter(cells: map<Hash, CellEntry>, hashes: map<OutPoint, Hash>, items: seq<Item>, n: nat, chunkSize: nat)
    requires AllLive(cells, hashes) && chunkSize > 0
    requires items == IterByOutpointFrom(cells, hashes, None, false) && n <= |items|
    ensures var page := PagedTreeCells(cells, hashes, if n == 0 then None else Some(items[n - 1].0), chunkSize, n > 0);
            && n + |page| <= |items| && items[..n] + page == items[..n + |page|]
            && (|page| < chunkSize ==> n + |page| == |items|)
            && (|page| > 0 ==> page[|page| - 1] == items[n + |page| - 1])
  {
    IterationContinues(cells, hashes, n);
  }

  /** One request for a page, the n-th item being the last one seen. */
  method NextPage(
    cells: map<Hash, CellEntry>, hashes: map<OutPoint, Hash>, from: Option<OutPoint>, chunkSize: nat, skipFirst: bool,
    ghost items: seq<Item>, ghost n: nat)
    returns (page: seq<Item>)
    requires AllLive(cells, hashes) && chunkSize > 0
    requires items == IterByOutpointFrom(cells, hashes, None, false) && n <= |items|
    requires skipFirst == (n > 0) && from == if n == 0 then None else Some(items[n - 1].0)
    ensures |page| <= chunkSize && n + |page| <= |items| && items[..n] + page == items[..n + |page|]
    ensures |page| < chunkSize ==> n + |page| == |items|
    ensures |page| > 0 ==> page[|page| - 1] == items[n + |page| - 1]
  {
    PageAfter(cells, hashes, items, n, chunkSize);
    page := PagedTreeCells(cells, hashes, from, chunkSize, skipFirst);
  }

  /**
   * The pages sent for a request: full pages and a last shorter one, together every indexed cell
   * once in ascending order.
   */
  method SendPages<G(!new)>(tree: CellStateTree<G>, chunkSize: nat) returns (pages: seq<seq<Item>>)
    requires tree.Valid() && chunkSize > 0
    ensures Flatten(pages) == IterByOutpointFrom(tree.cells, tree.outpointHashes, None, false)
    ensures |pages| > 0 && |pages[|pages| - 1]| < chunkSize
    ensures forall i :: 0 <= i < |pages| - 1 ==> |pages[i]| == chunkSize
  {
    pages := SendAll(tree.cells, tree.outpointHashes, chunkSize);
  }

  method SendAll(
    cells: map<Hash, CellEntry>, hashes: map<OutPoint, Hash>, chunkSize: nat)
    returns (pages: seq<seq<Item>>)
    requires AllLive(cells, hashes) && chunkSize > 0
    ensures Flatten(pages) == IterByOutpointFrom(cells, hashes, None, false)
    ensures |pages| > 0 && |pages[|pages| - 1]| < chunkSize
    ensures forall i :: 0 <= i < |pages| - 1 ==> |pages[i]| == chunkSize
  {
    ghost var items := IterByOutpointFrom(cells, hashes, None, false);
    pages := [];
    var from := None;
    ghost var sent: nat := 0;
    assert items[..0] == [];
    while true
      invariant sent <= |items| && Flatten(pages) == items[..sent]
      invariant (sent > 0 <==> pages != []) && from == (if sent == 0 then None else Some(items[sent - 1].0))
      invariant forall i :: 0 <= i < |pages| ==> |pages[i]| == chunkSize
      decreases |items| - sent
    {
      var page := NextPage(cells, hashes, from, chunkSize, pages != [], items, sent);
      pages := pages + [page];
      sent := sent + |page|;
      if |page| < chunkSize {
        assert items[..sent] == items;
        return;
      }
      from := Some(page[|page| - 1].0);
    }
  }
}
