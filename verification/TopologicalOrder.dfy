/** The deterministic replay order of a block DAG: Kahn's algorithm with a min-heap of ready blocks. */
module TopologicalOrder {
  import opened Hashes
  import opened Outcomes

  /** Parents and children of every known block. */
  datatype Relations = Relations(parents: map<Hash, seq<Hash>>, children: map<Hash, set<Hash>>)

  /** Both maps cover the same blocks, children are known, and the two directions agree. */
  ghost predicate Consistent(g: Relations)
  {
    && g.parents.Keys == g.children.Keys
    && (forall p, c :: p in g.children && c in g.children[p] ==> c in g.children)
    && (forall p, c :: p in g.children && c in g.children ==> (c in g.children[p] <==> p in g.parents[c]))
    && (forall c :: c in g.parents ==> Distinct(g.parents[c]))
  }

  ghost predicate IsPath(g: Relations, path: seq<Hash>)
  {
    && (forall i :: 0 <= i < |path| ==> path[i] in g.children)
    && (forall i :: 0 <= i < |path| - 1 ==> path[i + 1] in g.children[path[i]])
  }

  /** A path from a to b with at least one edge. */
  ghost predicate Connects(g: Relations, path: seq<Hash>, a: Hash, b: Hash)
  {
    |path| >= 2 && IsPath(g, path) && path[0] == a && path[|path| - 1] == b
  }

  /** b is a strict descendant of a. */
  ghost predicate Descends(g: Relations, a: Hash, b: Hash)
  {
    exists path :: Connects(g, path, a, b)
  }

  /** No cycle can be reached from a. */
  ghost predicate AcyclicFrom(g: Relations, a: Hash)
  {
    !Descends(g, a, a) && forall h :: Descends(g, a, h) ==> !Descends(g, h, h)
  }

  lemma ChildDescends(g: Relations, a: Hash, b: Hash)
    requires Consistent(g) && a in g.children && b in g.children[a]
    ensures Descends(g, a, b)
  {
    assert Connects(g, [a, b], a, b);
  }

  lemma DescendsStep(g: Relations, a: Hash, b: Hash, c: Hash)
    requires Consistent(g) && Descends(g, a, b) && c in g.children[b]
    ensures Descends(g, a, c)
  {
    var path :| Connects(g, path, a, b);
    assert Connects(g, path + [c], a, c);
  }

  /** A set that holds a's children and is closed under children holds every descendant of a. */
  lemma {:induction false} ClosedHoldsDescendants(g: Relations, a: Hash, s: set<Hash>, path: seq<Hash>)
    requires |path| >= 2 && IsPath(g, path) && path[0] == a
    requires forall c :: c in g.children[a] ==> c in s
    requires forall p, c :: p in s && p in g.children && c in g.children[p] ==> c in s
    ensures path[|path| - 1] in s
  {
    if |path| > 2 { ClosedHoldsDescendants(g, a, s, path[..|path| - 1]); }
  }

  // ---- a finite acyclic set has a source ----

  ghost predicate HasParentIn(g: Relations, s: set<Hash>, c: Hash)
  {
    exists p :: p in s && p in g.children && c in g.children[p]
  }

  /** Every member has a parent inside s. */
  ghost predicate NoSource(g: Relations, s: set<Hash>)
  {
    s <= g.children.Keys && forall c {:trigger HasParentIn(g, s, c)} :: c in s ==> HasParentIn(g, s, c)
  }

  lemma {:induction false} BackwardPath(g: Relations, s: set<Hash>, n: nat) returns (path: seq<Hash>)
    requires s != {} && NoSource(g, s)
    ensures |path| == n + 1 && IsPath(g, path)
    ensures forall i :: 0 <= i < |path| ==> path[i] in s
  {
    if n == 0 {
      var c :| c in s;
      path := [c];
    } else {
      var tail := BackwardPath(g, s, n - 1);
      var p := SomeParent(g, s, tail[0]);
      PathCons(g, p, tail);
      path := [p] + tail;
    }
  }

  lemma SomeParent(g: Relations, s: set<Hash>, c: Hash) returns (p: Hash)
    requires NoSource(g, s) && c in s
    ensures p in s && p in g.children && c in g.children[p]
  {
    assert HasParentIn(g, s, c);
    p :| p in s && p in g.children && c in g.children[p];
  }

  lemma PathCons(g: Relations, p: Hash, tail: seq<Hash>)
    requires |tail| > 0 && IsPath(g, tail) && p in g.children && tail[0] in g.children[p]
    ensures IsPath(g, [p] + tail)
  {
    var path := [p] + tail;
    forall i | 0 <= i < |path| - 1 ensures path[i + 1] in g.children[path[i]] {
      if i > 0 { assert path[i] == tail[i - 1] && path[i + 1] == tail[i]; }
    }
  }

  lemma PathSlice(g: Relations, path: seq<Hash>, i: nat, j: nat)
    requires IsPath(g, path) && i < j < |path|
    ensures Connects(g, path[i..j + 1], path[i], path[j])
  {
    var q := path[i..j + 1];
    forall k | 0 <= k < |q| - 1 ensures q[k + 1] in g.children[q[k]] {
      assert q[k] == path[i + k] && q[k + 1] == path[i + k + 1];
    }
  }

  lemma {:induction false} DistinctFits(path: seq<Hash>, s: set<Hash>)
    requires Distinct(path) && forall i :: 0 <= i < |path| ==> path[i] in s
    ensures |path| <= |s|
  {
    if |path| > 0 {
      var k := |path| - 1;
      DistinctFits(path[..k], s - {path[k]});
    }
  }

  /** Walking backwards for longer than the set is large must meet a block again. */
  lemma CycleIfNoSource(g: Relations, s: set<Hash>)
    requires s != {} && NoSource(g, s)
    ensures exists h :: h in s && Descends(g, h, h)
  {
    var path := BackwardPath(g, s, |s|);
    if Distinct(path) { DistinctFits(path, s); }
    var i, j :| 0 <= i < j < |path| && path[i] == path[j];
    PathSlice(g, path, i, j);
    assert Descends(g, path[i], path[i]);
  }

  lemma SourceExists(g: Relations, s: set<Hash>)
    requires s != {} && forall c :: c in s ==> c in g.children && !Descends(g, c, c)
    ensures exists c :: c in s && forall p :: p in s ==> c !in g.children[p]
  {
    if NoSource(g, s) { CycleIfNoSource(g, s); }
    var c :| c in s && !HasParentIn(g, s, c);
  }

  // ---- replay orders ----

  /** Each strict descendant of a once, after all its parents that descend from a. */
  ghost predicate IsReplayOrder(g: Relations, a: Hash, s: seq<Hash>)
  {
    && Distinct(s)
    && (forall h :: h in s <==> Descends(g, a, h))
    && (forall i, p :: 0 <= i < |s| && s[i] in g.parents && p in g.parents[s[i]] && Descends(g, a, p) ==> p in s[..i])
  }

  ghost predicate LexLess(s: seq<Hash>, t: seq<Hash>)
  {
    exists i :: 0 <= i < |s| && i < |t| && s[..i] == t[..i] && s[i] < t[i]
  }

  function Inside(parents: seq<Hash>, r: set<Hash>): set<Hash>
  {
    set p | p in parents && p in r
  }

  /** The parents of h that must come before it. */
  function Waiting(g: Relations, r: set<Hash>, h: Hash): set<Hash>
    requires h in g.parents
  {
    Inside(g.parents[h], r)
  }

  /** The blocks that may come next once `done` is out. */
  function ReadySet(g: Relations, r: set<Hash>, done: set<Hash>): set<Hash>
    requires r <= g.parents.Keys
  {
    set h | h in r && h !in done && Waiting(g, r, h) <= done
  }

  /** Every element is the least of the blocks that could have come at its place. */
  ghost predicate Greedy(g: Relations, r: set<Hash>, s: seq<Hash>)
    requires r <= g.parents.Keys
  {
    forall i :: 0 <= i < |s| ==>
      s[i] in ReadySet(g, r, Elements(s[..i])) && forall h :: h in ReadySet(g, r, Elements(s[..i])) ==> s[i] <= h
  }

  lemma {:induction false} FirstDifference(s: seq<Hash>, t: seq<Hash>) returns (i: nat)
    requires |s| == |t| && s != t
    ensures i < |s| && s[..i] == t[..i] && s[i] != t[i]
  {
    i := 0;
    while s[i] == t[i]
      invariant i < |s| && s[..i] == t[..i]
      invariant s[i..] != t[i..]
      decreases |s| - i
    {
      assert s[i..] == [s[i]] + s[i + 1..] && t[i..] == [t[i]] + t[i + 1..];
      assert s[..i + 1] == s[..i] + [s[i]] && t[..i + 1] == t[..i] + [t[i]];
      i := i + 1;
    }
  }

  lemma SameElementsSameLength(s: seq<Hash>, t: seq<Hash>)
    requires Distinct(s) && Distinct(t) && forall h :: h in s <==> h in t
    ensures |s| == |t|
  {
    DistinctFits(s, Elements(t));
    DistinctFits(t, Elements(s));
    DistinctSize(s);
    DistinctSize(t);
  }

  lemma {:induction false} DistinctSize(s: seq<Hash>)
    requires Distinct(s)
    ensures |Elements(s)| == |s|
  {
    if |s| > 0 {
      var k := |s| - 1;
      DistinctSize(s[..k]);
      assert s == s[..k] + [s[k]];
      assert Elements(s) == Elements(s[..k]) + {s[k]};
    }
  }

  /** Taking the least ready block each time gives the lexicographically least order. */
  lemma GreedyIsLeast(g: Relations, a: Hash, r: set<Hash>, s: seq<Hash>, t: seq<Hash>)
    requires Consistent(g) && r <= g.parents.Keys && forall h :: h in r <==> Descends(g, a, h)
    requires IsReplayOrder(g, a, s) && IsReplayOrder(g, a, t) && Greedy(g, r, s)
    ensures s == t || LexLess(s, t)
  {
    SameElementsSameLength(s, t);
    if s != t {
      var i := FirstDifference(s, t);
      assert t[i] in ReadySet(g, r, Elements(s[..i])) by {
        assert t[i] in r && t[i] !in s[..i];
        forall p | p in Waiting(g, r, t[i]) ensures p in Elements(s[..i]) {
          assert p in t[..i];
        }
      }
    }
  }

  // ---- the algorithm ----

  /** Breadth-first search for the strict descendants of the start block. */
  method FindReachable(g: Relations, a: Hash) returns (reachable: set<Hash>)
    requires Consistent(g) && a in g.children
    ensures reachable <= g.children.Keys
    ensures forall h :: h in reachable <==> Descends(g, a, h)
  {
    var queue := [a];
    reachable := {};
    FrontierStart(g, a);
    while |queue| > 0
      invariant reachable <= g.children.Keys && AllDescend(g, a, reachable)
      invariant Frontier(g, a, queue, reachable)
      decreases Unseen(g, reachable), |queue|
    {
      queue, reachable := PopAndVisit(g, a, queue, reachable);
    }
    NothingMissed(g, a, reachable);
  }

  ghost function Unseen(g: Relations, reachable: set<Hash>): nat
  {
    |g.children.Keys - reachable|
  }

  /** One round: take the front of the queue and visit it. */
  method PopAndVisit(g: Relations, ghost a: Hash, queue: seq<Hash>, reachable: set<Hash>)
    returns (queue': seq<Hash>, reachable': set<Hash>)
    requires Consistent(g) && a in g.children && |queue| > 0
    requires reachable <= g.children.Keys && AllDescend(g, a, reachable) && Frontier(g, a, queue, reachable)
    ensures reachable' <= g.children.Keys && AllDescend(g, a, reachable') && Frontier(g, a, queue', reachable')
    ensures Unseen(g, reachable') < Unseen(g, reachable) || (reachable' == reachable && |queue'| < |queue|)
  {
    assert queue[0] in queue;
    queue', reachable' := Visit(g, a, queue[0], queue[1..], reachable);
    FrontierStep(g, a, queue, reachable, queue', reachable');
    FewerUnseen(g, reachable, reachable');
  }

  ghost predicate AllDescend(g: Relations, a: Hash, s: set<Hash>)
  {
    forall h :: h in s ==> Descends(g, a, h)
  }

  /** The queue holds seen blocks, and every seen block not in it has been expanded. */
  ghost predicate Frontier(g: Relations, a: Hash, queue: seq<Hash>, reachable: set<Hash>)
    requires a in g.children && reachable <= g.children.Keys
  {
    && (forall h :: h in queue ==> h == a || h in reachable)
    && (forall p :: p in reachable + {a} ==> p in queue || g.children[p] <= reachable)
  }

  lemma FrontierStart(g: Relations, a: Hash)
    requires a in g.children
    ensures Frontier(g, a, [a], {})
  {
  }

  lemma {:induction false} FrontierStep(
    g: Relations, a: Hash, queue: seq<Hash>, reachable: set<Hash>, queue': seq<Hash>, reachable': set<Hash>)
    requires a in g.children && reachable <= g.children.Keys && reachable' <= g.children.Keys
    requires |queue| > 0 && queue[0] in g.children && Frontier(g, a, queue, reachable)
    requires reachable' == reachable + g.children[queue[0]]
    requires forall h :: h in queue' <==> h in queue[1..] || (h in g.children[queue[0]] && h !in reachable)
    ensures Frontier(g, a, queue', reachable')
  {
    assert forall h :: h in queue <==> h == queue[0] || h in queue[1..];
  }

  lemma NothingMissed(g: Relations, a: Hash, reachable: set<Hash>)
    requires a in g.children && reachable <= g.children.Keys
    requires AllDescend(g, a, reachable) && Frontier(g, a, [], reachable)
    ensures forall h :: h in reachable <==> Descends(g, a, h)
  {
    assert a in reachable + {a};
    forall p | p in reachable ensures g.children[p] <= reachable { assert p in reachable + {a}; }
    forall h | Descends(g, a, h) ensures h in reachable {
      var path :| Connects(g, path, a, h);
      ClosedHoldsDescendants(g, a, reachable, path);
    }
  }

  lemma FewerUnseen(g: Relations, small: set<Hash>, large: set<Hash>)
    requires small <= large <= g.children.Keys
    ensures small == large || Unseen(g, large) < Unseen(g, small)
  {
    var all := g.children.Keys;
    if small != large {
      var x :| x in large && x !in small;
      assert all - large <= all - small - {x};
      SubsetSize(all - large, all - small - {x});
    }
  }

  lemma {:induction false} SubsetSize(x: set<Hash>, y: set<Hash>)
    requires x <= y
    ensures |x| <= |y|
  {
    if x != {} {
      var e :| e in x;
      SubsetSize(x - {e}, y - {e});
    }
  }

  /** Enqueues the children of a block that were not seen before. */
  method Visit(g: Relations, ghost a: Hash, current: Hash, queue: seq<Hash>, reachable: set<Hash>)
    returns (queue': seq<Hash>, reachable': set<Hash>)
    requires Consistent(g) && current in g.children && (current == a || Descends(g, a, current))
    requires reachable <= g.children.Keys && AllDescend(g, a, reachable)
    ensures reachable' == reachable + g.children[current]
    ensures reachable' <= g.children.Keys && AllDescend(g, a, reachable')
    ensures forall h :: h in queue' <==> h in queue || (h in g.children[current] && h !in reachable)
    ensures reachable' == reachable ==> queue' == queue
  {
    queue', reachable' := queue, reachable;
    var todo := g.children[current];
    while todo != {}
      invariant todo <= g.children[current]
      invariant reachable' == reachable + (g.children[current] - todo)
      invariant forall h :: h in queue' <==> h in queue || (h in g.children[current] - todo && h !in reachable)
      invariant reachable' == reachable ==> queue' == queue
    {
      var child :| child in todo;
      todo := todo - {child};
      if child !in reachable' {
        reachable' := reachable' + {child};
        queue' := queue' + [child];
      }
    }
    forall h | h in g.children[current] ensures h in g.children.Keys && Descends(g, a, h) {
      if current == a { ChildDescends(g, a, h); } else { DescendsStep(g, a, current, h); }
    }
  }

  /** How many of the listed parents are reachable and not the start block. */
  function CountReachable(parents: seq<Hash>, a: Hash, r: set<Hash>): nat
  {
    if |parents| == 0 then 0
    else
      var k := |parents| - 1;
      CountReachable(parents[..k], a, r) + if parents[k] != a && parents[k] in r then 1 else 0
  }

  lemma {:induction false} CountIsSize(parents: seq<Hash>, a: Hash, r: set<Hash>)
    requires Distinct(parents)
    ensures CountReachable(parents, a, r) == |Inside(parents, r) - {a}|
  {
    if |parents| > 0 {
      var k := |parents| - 1;
      CountIsSize(parents[..k], a, r);
      assert parents == parents[..k] + [parents[k]];
      InsideAppend(parents[..k], parents[k], a, r);
    }
  }

  lemma InsideAppend(init: seq<Hash>, last: Hash, a: Hash, r: set<Hash>)
    ensures Inside(init + [last], r) - {a} == Inside(init, r) - {a} + if last != a && last in r then {last} else {}
  {
    forall p ensures p in init + [last] <==> p in init || p == last {}
  }

  /** The blocks with a zero counter that are not out yet. */
  ghost function Zeros(left: map<Hash, nat>, done: set<Hash>): set<Hash>
  {
    set h | h in left && h !in done && left[h] == 0
  }

  /** A counter that enters or is lowered changes the zeros by its own block only. */
  lemma ZerosUpdate(left: map<Hash, nat>, done: set<Hash>, h: Hash, n: nat)
    requires h !in done && h !in Zeros(left, done)
    ensures multiset(Zeros(left[h := n], done)) == multiset(Zeros(left, done)) + if n == 0 then multiset{h} else multiset{}
  {
    assert Zeros(left[h := n], done) == Zeros(left, done) + if n == 0 then {h} else {};
  }

  /** Counts the parents of every reachable block; those without any are ready. */
  method CountParents(parents: map<Hash, seq<Hash>>, a: Hash, reachable: set<Hash>)
    returns (remaining: map<Hash, nat>, ready: multiset<Hash>)
    requires reachable <= parents.Keys
    ensures remaining.Keys == reachable
    ensures forall h :: h in reachable ==> remaining[h] == CountReachable(parents[h], a, reachable)
    ensures ready == multiset(Zeros(remaining, {}))
  {
    remaining, ready := map[], multiset{};
    var todo := reachable;
    assert Zeros(remaining, {}) == {};
    while todo != {}
      invariant todo <= reachable
      invariant remaining.Keys == reachable - todo
      invariant forall h :: h in remaining ==> remaining[h] == CountReachable(parents[h], a, reachable)
      invariant ready == multiset(Zeros(remaining, {}))
    {
      var h :| h in todo;
      var count := CountReachable(parents[h], a, reachable);
      ZerosUpdate(remaining, {}, h, count);
      todo := todo - {h};
      remaining := remaining[h := count];
      if count == 0 {
        ready := ready + multiset{h};
      }
    }
  }

  /** Nothing in the heap outside todo is below x. */
  ghost predicate LeastOutside(heap: multiset<Hash>, todo: multiset<Hash>, x: Hash)
  {
    x in heap && forall h :: h in heap ==> x <= h || h in todo
  }

  lemma LeastOfMore(heap: multiset<Hash>, todo: multiset<Hash>, x: Hash, h: Hash)
    requires todo <= heap && h in todo && LeastOutside(heap, todo, x)
    ensures LeastOutside(heap, todo - multiset{h}, if h < x then h else x)
  {
    forall y | y in heap ensures (if h < x then h else x) <= y || y in todo - multiset{h} {}
  }

  /** Takes the least element out of the heap. */
  method PopLeast(ready: multiset<Hash>) returns (least: Hash, rest: multiset<Hash>)
    requires ready != multiset{}
    ensures least in ready && (forall h :: h in ready ==> least <= h)
    ensures rest == ready - multiset{least}
  {
    var todo := ready;
    least :| least in todo;
    while todo != multiset{}
      invariant todo <= ready && LeastOutside(ready, todo, least)
      decreases |todo|
    {
      var h :| h in todo;
      LeastOfMore(ready, todo, least, h);
      todo := todo - multiset{h};
      if h < least { least := h; }
    }
    rest := ready - multiset{least};
  }

  /** The counters after those of the given blocks went down by one. */
  ghost function Lowered(left: map<Hash, nat>, kids: set<Hash>): map<Hash, nat>
  {
    map h | h in left :: if h in kids && left[h] > 0 then left[h] - 1 else left[h]
  }

  /**
   * Lowers the counter of every listed block that has one; those that reach zero become ready. A
   * counter that is zero already underflows, which panics.
   */
  method LowerCounters(kids: set<Hash>, remaining: map<Hash, nat>, ready: multiset<Hash>, ghost done: set<Hash>)
    returns (r: Outcome<(map<Hash, nat>, multiset<Hash>)>)
    requires ready == multiset(Zeros(remaining, done)) && forall h :: h in done && h in remaining ==> remaining[h] == 0
    ensures r.Panicked? <==> exists h :: h in kids && h in remaining && remaining[h] == 0
    ensures r.Returned? ==> r.value == (Lowered(remaining, kids), multiset(Zeros(Lowered(remaining, kids), done)))
  {
    var left, heap := remaining, ready;
    var todo := kids;
    assert Lowered(remaining, kids - todo) == remaining;
    while todo != {}
      invariant todo <= kids && left == Lowered(remaining, kids - todo) && heap == multiset(Zeros(left, done))
      invariant forall h :: h in kids - todo && h in remaining ==> remaining[h] > 0
    {
      var child :| child in todo;
      LoweredOneMore(remaining, kids, todo, child);
      todo := todo - {child};
      if child in left {
        if left[child] == 0 {
          return Panicked;
        }
        ZerosUpdate(left, done, child, left[child] - 1);
        left := left[child := left[child] - 1];
        if left[child] == 0 {
          heap := heap + multiset{child};
        }
      }
    }
    assert kids - {} == kids;
    return Returned((left, heap));
  }

  lemma LoweredOneMore(remaining: map<Hash, nat>, kids: set<Hash>, todo: set<Hash>, child: Hash)
    requires child in todo && todo <= kids
    ensures child in remaining ==> Lowered(remaining, kids - todo)[child] == remaining[child]
    ensures var left := Lowered(remaining, kids - todo);
            Lowered(remaining, kids - (todo - {child})) ==
              if child in left && left[child] > 0 then left[child := left[child] - 1] else left
  {
    assert kids - (todo - {child}) == kids - todo + {child};
  }

  // ---- what the counters mean ----

  /** Among the blocks of r, the parents and the children agree, and no parent is listed twice. */
  ghost predicate Linked(g: Relations, r: set<Hash>)
  {
    && r <= g.parents.Keys && r <= g.children.Keys
    && (forall p, c :: p in r && c in r ==> (c in g.children[p] <==> p in g.parents[c]))
    && (forall c :: c in r ==> Distinct(g.parents[c]))
  }

  /** How many of the listed parents are out. */
  ghost function CountOut(parents: seq<Hash>, done: set<Hash>): nat
  {
    if |parents| == 0 then 0
    else
      var k := |parents| - 1;
      CountOut(parents[..k], done) + if parents[k] in done then 1 else 0
  }

  lemma {:induction false} NoneOut(parents: seq<Hash>)
    ensures CountOut(parents, {}) == 0
  {
    if |parents| > 0 { NoneOut(parents[..|parents| - 1]); }
  }

  lemma {:induction false} OneMoreOut(parents: seq<Hash>, done: set<Hash>, x: Hash)
    requires Distinct(parents) && x !in done
    ensures CountOut(parents, done + {x}) == CountOut(parents, done) + if x in parents then 1 else 0
  {
    if |parents| > 0 {
      var k := |parents| - 1;
      OneMoreOut(parents[..k], done, x);
      assert x in parents <==> x in parents[..k] || x == parents[k];
    }
  }

  /** Unless the start block is reachable, all counted parents are out exactly when none is left to wait for. */
  lemma {:induction false} AllOut(parents: seq<Hash>, a: Hash, r: set<Hash>, done: set<Hash>)
    requires a !in r && done <= r
    ensures CountOut(parents, done) <= CountReachable(parents, a, r)
    ensures CountOut(parents, done) == CountReachable(parents, a, r) <==> Inside(parents, r) <= done
  {
    if |parents| > 0 {
      var k := |parents| - 1;
      AllOut(parents[..k], a, r, done);
      assert forall p :: p in parents <==> p in parents[..k] || p == parents[k];
    }
  }

  /** A reachable start block is not counted but would come out all the same. */
  lemma {:induction false} OneTooMany(parents: seq<Hash>, a: Hash, r: set<Hash>)
    requires a in r
    ensures CountOut(parents, r) >= CountReachable(parents, a, r)
    ensures a in parents ==> CountOut(parents, r) > CountReachable(parents, a, r)
  {
    if |parents| > 0 {
      var k := |parents| - 1;
      OneTooMany(parents[..k], a, r);
      assert a in parents <==> a in parents[..k] || a == parents[k];
    }
  }

  /**
   * A counter plus the parents already out is what it started from: the reachable parents except the
   * start block. The start block is not counted but, when a cycle leads back to it, is taken off.
   */
  ghost predicate Balanced(g: Relations, a: Hash, r: set<Hash>, done: set<Hash>, left: map<Hash, nat>)
    requires r <= g.parents.Keys
  {
    left.Keys == r && forall h :: h in r ==> left[h] + CountOut(g.parents[h], done) == CountReachable(g.parents[h], a, r)
  }

  lemma {:induction false} StartsBalanced(g: Relations, a: Hash, r: set<Hash>, left: map<Hash, nat>)
    requires r <= g.parents.Keys && left.Keys == r
    requires forall h :: h in r ==> left[h] == CountReachable(g.parents[h], a, r)
    ensures Balanced(g, a, r, {}, left)
  {
    forall h | h in r ensures CountOut(g.parents[h], {}) == 0 { NoneOut(g.parents[h]); }
  }

  /** Taking out one block and lowering its children keeps the balance. */
  lemma {:induction false} Released(
    g: Relations, a: Hash, r: set<Hash>, done: set<Hash>, left: map<Hash, nat>, current: Hash)
    requires Linked(g, r) && Balanced(g, a, r, done, left) && current in r - done
    requires forall h :: h in g.children[current] && h in left ==> left[h] > 0
    ensures Balanced(g, a, r, done + {current}, Lowered(left, g.children[current]))
  {
    var kids := g.children[current];
    forall h | h in r
      ensures Lowered(left, kids)[h] + CountOut(g.parents[h], done + {current}) == CountReachable(g.parents[h], a, r)
    {
      OneMoreOut(g.parents[h], done, current);
    }
  }

  /** Where no cycle leads back to the start block, the zeros are the blocks with nothing left to wait for. */
  lemma {:induction false} ZerosAreReady(g: Relations, a: Hash, r: set<Hash>, done: set<Hash>, left: map<Hash, nat>)
    requires r <= g.parents.Keys && Balanced(g, a, r, done, left) && a !in r && done <= r
    ensures Zeros(left, done) == ReadySet(g, r, done)
  {
    forall h | h in r ensures left[h] == 0 <==> Waiting(g, r, h) <= done { AllOut(g.parents[h], a, r, done); }
  }

  /** Then no counter of a child underflows. */
  lemma {:induction false} ChildIsCounted(
    g: Relations, a: Hash, r: set<Hash>, done: set<Hash>, left: map<Hash, nat>, current: Hash, h: Hash)
    requires Linked(g, r) && Balanced(g, a, r, done, left) && a !in r && done <= r
    requires current in r - done && h in g.children[current] && h in r
    ensures left[h] > 0
  {
    assert current in Inside(g.parents[h], r);
    AllOut(g.parents[h], a, r, done);
  }

  /** A cycle through the start block leaves a balance that cannot come out: not every block gets out. */
  lemma {:induction false} NeverAllOut(g: Relations, a: Hash, r: set<Hash>, left: map<Hash, nat>, c: Hash)
    requires Linked(g, r) && a in r && c in r && c in g.children[a]
    ensures !Balanced(g, a, r, r, left)
  {
    OneTooMany(g.parents[c], a, r);
  }

  lemma FirstChild(g: Relations, a: Hash, b: Hash) returns (c: Hash)
    requires Consistent(g) && Descends(g, a, b)
    ensures a in g.children && c in g.children[a] && Descends(g, a, c)
  {
    var path :| Connects(g, path, a, b);
    c := path[1];
    ChildDescends(g, a, c);
  }

  // ---- the main loop ----

  lemma {:induction false} GreedyAppend(g: Relations, r: set<Hash>, s: seq<Hash>, x: Hash)
    requires r <= g.parents.Keys && Greedy(g, r, s)
    requires x in ReadySet(g, r, Elements(s)) && forall h :: h in ReadySet(g, r, Elements(s)) ==> x <= h
    ensures Greedy(g, r, s + [x])
  {
    var t := s + [x];
    forall i | 0 <= i < |t|
      ensures t[i] in ReadySet(g, r, Elements(t[..i])) && forall h :: h in ReadySet(g, r, Elements(t[..i])) ==> t[i] <= h
    {
      assert t[..i] == s[..i];
      if i == |s| { assert t[..i] == s; }
    }
  }

  /** A greedy sequence lists each block after the parents it waits for. */
  lemma GreedyIsOrdered(g: Relations, r: set<Hash>, s: seq<Hash>)
    requires r <= g.parents.Keys && Greedy(g, r, s)
    ensures forall i :: 0 <= i < |s| ==> s[i] in r && forall p :: p in Waiting(g, r, s[i]) ==> p in s[..i]
  {
  }

  /** The counters fit what is out, and the heap holds the zeros among them. */
  ghost predicate Counted(
    g: Relations, a: Hash, r: set<Hash>, done: set<Hash>, left: map<Hash, nat>, heap: multiset<Hash>)
    requires r <= g.parents.Keys
  {
    && done <= r
    && Balanced(g, a, r, done, left)
    && (forall h :: h in done ==> left[h] == 0)
    && heap == multiset(Zeros(left, done))
  }

  /** No block is out twice, and unless a cycle leads back to the start block each came out as the least ready one. */
  ghost predicate Listed(g: Relations, a: Hash, r: set<Hash>, ordered: seq<Hash>)
    requires r <= g.parents.Keys
  {
    Distinct(ordered) && (a !in r ==> Greedy(g, r, ordered))
  }

  /** What holds between two rounds. */
  ghost predicate Progress(
    g: Relations, a: Hash, r: set<Hash>, ordered: seq<Hash>, left: map<Hash, nat>, heap: multiset<Hash>)
    requires r <= g.parents.Keys
  {
    Listed(g, a, r, ordered) && Counted(g, a, r, Elements(ordered), left, heap)
  }

  /** Takes the least ready block until none is left. An underflow happens only on a cycle through the start block. */
  method TakeReady(g: Relations, ghost a: Hash, ghost r: set<Hash>, remaining: map<Hash, nat>, ready: multiset<Hash>)
    returns (out: Outcome<seq<Hash>>, ghost left: map<Hash, nat>)
    requires Linked(g, r) && Progress(g, a, r, [], remaining, ready)
    ensures out.Panicked? ==> a in r
    ensures out.Returned? ==> Progress(g, a, r, out.value, left, multiset{})
  {
    var ordered, counters, heap := [], remaining, ready;
    while heap != multiset{}
      invariant Progress(g, a, r, ordered, counters, heap)
      decreases |r - Elements(ordered)|
    {
      var step := TakeOne(g, a, r, ordered, counters, heap);
      if step.Panicked? {
        return Panicked, counters;
      }
      ordered, counters, heap := step.value.0, step.value.1, step.value.2;
    }
    return Returned(ordered), counters;
  }

  method TakeOne(
    g: Relations, ghost a: Hash, ghost r: set<Hash>, ordered: seq<Hash>, left: map<Hash, nat>, heap: multiset<Hash>)
    returns (step: Outcome<(seq<Hash>, map<Hash, nat>, multiset<Hash>)>)
    requires Linked(g, r) && Progress(g, a, r, ordered, left, heap) && heap != multiset{}
    ensures step.Panicked? ==> a in r
    ensures step.Returned? ==> Progress(g, a, r, step.value.0, step.value.1, step.value.2)
    ensures step.Returned? ==> |r - Elements(step.value.0)| < |r - Elements(ordered)|
  {
    var current, rest := PopLeast(heap);
    ghost var done := Elements(ordered);
    PickedZero(left, done, r, current, heap);
    ElementsAppend(ordered, current);
    var lowered := LowerCounters(g.children[current], left, rest, done + {current});
    if lowered.Panicked? {
      UnderflowMeansCycle(g, a, r, done, left, current);
      return Panicked;
    }
    AdvancedList(g, a, r, ordered, left, current);
    AdvancedCounters(g, a, r, done, left, current);
    return Returned((ordered + [current], lowered.value.0, lowered.value.1));
  }

  /** What is known of the least ready block. */
  lemma {:induction false} PickedZero(
    left: map<Hash, nat>, done: set<Hash>, r: set<Hash>, current: Hash, heap: multiset<Hash>)
    requires left.Keys == r && heap == multiset(Zeros(left, done))
    requires current in heap && forall h :: h in heap ==> current <= h
    ensures current in r - done && left[current] == 0
    ensures forall h :: h in Zeros(left, done) ==> current <= h
    ensures heap - multiset{current} == multiset(Zeros(left, done + {current}))
    ensures |r - (done + {current})| < |r - done|
  {
    PickedIsLeast(Zeros(left, done), current, r, done);
    assert Zeros(left, done) - {current} == Zeros(left, done + {current});
  }

  lemma {:induction false} UnderflowMeansCycle(
    g: Relations, a: Hash, r: set<Hash>, done: set<Hash>, left: map<Hash, nat>, current: Hash)
    requires Linked(g, r) && Balanced(g, a, r, done, left) && done <= r && current in r - done
    requires exists h :: h in g.children[current] && h in left && left[h] == 0
    ensures a in r
  {
    var h :| h in g.children[current] && h in left && left[h] == 0;
    if a !in r { ChildIsCounted(g, a, r, done, left, current, h); }
  }

  lemma {:induction false} AdvancedList(
    g: Relations, a: Hash, r: set<Hash>, ordered: seq<Hash>, left: map<Hash, nat>, current: Hash)
    requires r <= g.parents.Keys && Listed(g, a, r, ordered)
    requires Elements(ordered) <= r && Balanced(g, a, r, Elements(ordered), left)
    requires current in r - Elements(ordered) && left[current] == 0
    requires forall h :: h in Zeros(left, Elements(ordered)) ==> current <= h
    ensures Listed(g, a, r, ordered + [current])
  {
    DistinctAppend(ordered, current);
    if a !in r {
      ZerosAreReady(g, a, r, Elements(ordered), left);
      assert current in Zeros(left, Elements(ordered));
      GreedyAppend(g, r, ordered, current);
    }
  }

  lemma {:induction false} DistinctAppend(s: seq<Hash>, x: Hash)
    requires Distinct(s) && x !in Elements(s)
    ensures Distinct(s + [x])
  {
    assert forall i :: 0 <= i < |s| ==> s[i] in Elements(s);
  }

  lemma {:induction false} AdvancedCounters(
    g: Relations, a: Hash, r: set<Hash>, done: set<Hash>, left: map<Hash, nat>, current: Hash)
    requires Linked(g, r) && done <= r && Balanced(g, a, r, done, left) && forall h :: h in done ==> left[h] == 0
    requires current in r - done && left[current] == 0
    requires forall h :: h in g.children[current] && h in left ==> left[h] > 0
    ensures var left' := Lowered(left, g.children[current]);
            Counted(g, a, r, done + {current}, left', multiset(Zeros(left', done + {current})))
  {
    Released(g, a, r, done, left, current);
  }

  lemma {:induction false} PickedIsLeast(ready: set<Hash>, current: Hash, r: set<Hash>, done: set<Hash>)
    requires current in multiset(ready) && forall h :: h in multiset(ready) ==> current <= h
    requires ready <= r - done
    ensures current in ready && forall h :: h in ready ==> current <= h
    ensures multiset(ready) - multiset{current} == multiset(ready - {current})
    ensures |r - (done + {current})| < |r - done|
  {
    forall h | h in ready ensures current <= h { assert h in multiset(ready); }
    assert r - (done + {current}) == (r - done) - {current};
  }

  // ---- the length assertion ----

  lemma SourceIsReady(g: Relations, r: set<Hash>, done: set<Hash>, c: Hash)
    requires Consistent(g) && r <= g.parents.Keys && c in r - done
    requires forall p :: p in r - done ==> c !in g.children[p]
    ensures c in ReadySet(g, r, done)
  {
    forall p | p in Waiting(g, r, c) ensures p in done {
      assert p in r && c in g.children[p];
    }
  }

  /** While a block is missing and none lies on a cycle, some block is ready. */
  lemma {:induction false} SomethingReady(g: Relations, r: set<Hash>, done: set<Hash>)
    requires Consistent(g) && r <= g.parents.Keys && done <= r && forall h :: h in r ==> !Descends(g, h, h)
    ensures done == r || ReadySet(g, r, done) != {}
  {
    if done != r {
      assert r - done != {} by {
        var h :| h in r && h !in done;
        assert h in r - done;
      }
      SourceExists(g, r - done);
      var c :| c in r - done && forall p :: p in r - done ==> c !in g.children[p];
      SourceIsReady(g, r, done, c);
    }
  }

  /** An order with parents first only rises along a path. */
  lemma {:induction false} PathRises(g: Relations, r: set<Hash>, s: seq<Hash>, path: seq<Hash>) returns (i: nat, j: nat)
    requires Consistent(g) && r <= g.parents.Keys && Greedy(g, r, s) && Distinct(s) && Elements(s) == r
    requires |path| >= 2 && IsPath(g, path) && forall k :: 0 <= k < |path| ==> path[k] in r
    ensures i < j < |s| && s[i] == path[0] && s[j] == path[|path| - 1]
  {
    var n := |path| - 1;
    var m: nat;
    m, j := EdgeRises(g, r, s, path[n - 1], path[n]);
    if n == 1 {
      i := m;
    } else {
      var k: nat;
      i, k := PathRises(g, r, s, path[..n]);
      assert k == m;
    }
  }

  lemma {:induction false} EdgeRises(
    g: Relations, r: set<Hash>, s: seq<Hash>, p: Hash, c: Hash)
    returns (i: nat, j: nat)
    requires Consistent(g) && r <= g.parents.Keys && Greedy(g, r, s) && Elements(s) == r
    requires p in r && c in r && c in g.children[p]
    ensures i < j < |s| && s[i] == p && s[j] == c
  {
    assert c in Elements(s);
    j :| 0 <= j < |s| && s[j] == c;
    GreedyIsOrdered(g, r, s);
    assert p in Waiting(g, r, c);
    i :| 0 <= i < j && s[i] == p;
  }

  lemma {:induction false} OrderForbidsCycle(g: Relations, a: Hash, r: set<Hash>, s: seq<Hash>, h: Hash)
    requires Consistent(g) && r <= g.parents.Keys && forall x :: x in r <==> Descends(g, a, x)
    requires Greedy(g, r, s) && Distinct(s) && Elements(s) == r && h in r
    ensures !Descends(g, h, h)
  {
    if Descends(g, h, h) {
      var path :| Connects(g, path, h, h);
      forall k | 0 <= k < |path| ensures path[k] in r { PathStaysReachable(g, a, path, k); }
      var i, j := PathRises(g, r, s, path);
    }
  }

  lemma {:induction false} PathStaysReachable(g: Relations, a: Hash, path: seq<Hash>, k: nat)
    requires Consistent(g) && IsPath(g, path) && k < |path| && Descends(g, a, path[0])
    ensures Descends(g, a, path[k])
  {
    if k > 0 {
      PathStaysReachable(g, a, path, k - 1);
      DescendsStep(g, a, path[k - 1], path[k]);
    }
  }

  lemma SameSize(x: set<Hash>, y: set<Hash>)
    requires x <= y && |x| == |y|
    ensures x == y
  {
    assert y == x + (y - x);
  }

  /** All blocks are out at the end exactly when no cycle is reachable. */
  lemma {:induction false} AllOutIff(g: Relations, a: Hash, r: set<Hash>, s: seq<Hash>, left: map<Hash, nat>)
    requires Consistent(g) && Linked(g, r) && (forall h :: h in r <==> Descends(g, a, h))
    requires Progress(g, a, r, s, left, multiset{})
    ensures |s| == |r| <==> AcyclicFrom(g, a)
    ensures |s| == |r| ==> Greedy(g, r, s) && Elements(s) == r
  {
    DistinctSize(s);
    if |s| == |r| {
      SameSize(Elements(s), r);
      NoWayBack(g, a, r, left);
      forall h | h in r ensures !Descends(g, h, h) { OrderForbidsCycle(g, a, r, s, h); }
    }
    if AcyclicFrom(g, a) {
      NothingReady(g, a, r, s, left);
      SomethingReady(g, r, Elements(s));
    }
  }

  lemma {:induction false} NoWayBack(g: Relations, a: Hash, r: set<Hash>, left: map<Hash, nat>)
    requires Consistent(g) && Linked(g, r) && (forall h :: h in r <==> Descends(g, a, h)) && Balanced(g, a, r, r, left)
    ensures a !in r
  {
    if a in r {
      var c := FirstChild(g, a, a);
      NeverAllOut(g, a, r, left, c);
    }
  }

  lemma {:induction false} NothingReady(g: Relations, a: Hash, r: set<Hash>, s: seq<Hash>, left: map<Hash, nat>)
    requires r <= g.parents.Keys && a !in r && Progress(g, a, r, s, left, multiset{})
    ensures ReadySet(g, r, Elements(s)) == {}
  {
    ZerosAreReady(g, a, r, Elements(s), left);
    assert forall h :: h in Zeros(left, Elements(s)) ==> h in multiset(Zeros(left, Elements(s)));
  }

  lemma {:induction false} GreedyIsReplay(g: Relations, a: Hash, r: set<Hash>, s: seq<Hash>)
    requires Consistent(g) && r <= g.parents.Keys && forall h :: h in r <==> Descends(g, a, h)
    requires Greedy(g, r, s) && Distinct(s) && Elements(s) == r
    ensures IsReplayOrder(g, a, s)
    ensures forall t :: IsReplayOrder(g, a, t) ==> s == t || LexLess(s, t)
  {
    GreedyIsOrdered(g, r, s);
    forall h ensures h in s <==> Descends(g, a, h) {
      assert h in s <==> h in Elements(s);
    }
    forall i, p | 0 <= i < |s| && s[i] in g.parents && p in g.parents[s[i]] && Descends(g, a, p) ensures p in s[..i] {
      assert p in Waiting(g, r, s[i]);
    }
    forall t | IsReplayOrder(g, a, t) ensures s == t || LexLess(s, t) {
      GreedyIsLeast(g, a, r, s, t);
    }
  }

  /**
   * Every strict descendant of the start block once, parents first, and the least such list. It
   * panics, on a counter or on the final length assertion, exactly when the start block reaches a cycle.
   */
  method TopologicallyOrderedHashes(g: Relations, a: Hash) returns (out: Outcome<seq<Hash>>)
    requires Consistent(g) && a in g.children
    ensures out.Returned? <==> AcyclicFrom(g, a)
    ensures out.Returned? ==> IsReplayOrder(g, a, out.value)
    ensures out.Returned? ==> forall t :: IsReplayOrder(g, a, t) ==> out.value == t || LexLess(out.value, t)
  {
    var reachable := FindReachable(g, a);
    var remaining, ready := CountParents(g.parents, a, reachable);
    StartsBalanced(g, a, reachable, remaining);
    assert Elements([]) == {};
    ghost var left;
    out, left := TakeReady(g, a, reachable, remaining, ready);
    if out.Panicked? {
      return;
    }
    AllOutIff(g, a, reachable, out.value, left);
    if |out.value| != |reachable| {
      return Panicked;
    }
    GreedyIsReplay(g, a, reachable, out.value);
  }
}
