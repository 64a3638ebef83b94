/** The shape of an OCaml heap and the depth-first walk that libs/objsize makes over it. */
module HeapGraph {
  /** A field holds an immediate integer, a pointer out of the heap, or a heap block: only the last
      passes the source's COND_BLOCK. */
  datatype Value = Immediate(n: int) | OutOfHeap(addr: int) | Block(id: nat)

  const NO_SCAN_TAG: nat := 251

  /** What the walk reads and never writes. */
  datatype Graph = Graph(tags: seq<nat>, fields: seq<seq<Value>>)
  {
    ghost predicate Valid() {
      && |tags| == |fields|
      && forall b: nat, i: nat | b < |fields| && i < |fields[b]| && fields[b][i].Block? ::
           fields[b][i].id < |fields|
    }

    ghost function All(): set<nat> {
      set b: nat {:trigger fields[b]} | b < |fields|
    }

    ghost predicate Has(bs: seq<nat>) {
      forall i | 0 <= i < |bs| :: bs[i] < |fields|
    }

    /** The blocks a block points to, left to right; none when its tag says not to scan it. */
    ghost function Children(b: nat): (bs: seq<nat>)
      requires Valid() && b < |fields|
      ensures Has(bs)
    {
      if tags[b] < NO_SCAN_TAG then PointersFrom(b, 0) else []
    }

    ghost function PointersFrom(b: nat, i: nat): (bs: seq<nat>)
      requires Valid() && b < |fields| && i <= |fields[b]|
      ensures Has(bs)
      decreases |fields[b]| - i
    {
      if i == |fields[b]| then []
      else if fields[b][i].Block? then [fields[b][i].id] + PointersFrom(b, i + 1)
      else PointersFrom(b, i + 1)
    }
  }

  /** Some field of b, a block that is scanned, is a pointer to block c. */
  ghost predicate Points(g: Graph, b: nat, c: nat) {
    && b < |g.fields| == |g.tags| && g.tags[b] < NO_SCAN_TAG
    && exists i :: 0 <= i < |g.fields[b]| && g.fields[b][i] == Block(c)
  }

  /** The places of the pointers among the fields from i on, left to right */
  ghost predicate Places(fields: seq<Value>, i: nat, ix: seq<nat>, bs: seq<nat>) {
    && |ix| == |bs|
    && (forall k | 0 <= k < |ix| :: i <= ix[k] < |fields| && fields[ix[k]] == Block(bs[k]))
    && (forall k, l | 0 <= k < l < |ix| :: ix[k] < ix[l])
    && (forall j | i <= j < |fields| && fields[j].Block? :: j in ix)
  }

  lemma PlaceHere(fields: seq<Value>, i: nat, ix: seq<nat>, bs: seq<nat>, c: nat)
    requires i < |fields| && fields[i] == Block(c) && Places(fields, i + 1, ix, bs)
    ensures Places(fields, i, [i] + ix, [c] + bs)
  {
    forall j | i <= j < |fields| && fields[j].Block?
      ensures j in [i] + ix
    {
      if j > i { assert j in ix; }
    }
  }

  lemma PlaceLater(fields: seq<Value>, i: nat, ix: seq<nat>, bs: seq<nat>)
    requires i < |fields| && !fields[i].Block? && Places(fields, i + 1, ix, bs)
    ensures Places(fields, i, ix, bs)
  {
  }

  lemma {:induction false} PointersHavePlaces(g: Graph, b: nat, i: nat) returns (ix: seq<nat>)
    requires g.Valid() && b < |g.fields| && i <= |g.fields[b]|
    ensures Places(g.fields[b], i, ix, g.PointersFrom(b, i))
    decreases |g.fields[b]| - i
  {
    if i == |g.fields[b]| {
      ix := [];
    } else {
      hide Places, Graph.Valid;
      ix := PointersHavePlaces(g, b, i + 1);
      var rest := g.PointersFrom(b, i + 1);
      if g.fields[b][i].Block? {
        PlaceHere(g.fields[b], i, ix, rest, g.fields[b][i].id);
        ix := [i] + ix;
      } else {
        PlaceLater(g.fields[b], i, ix, rest);
      }
    }
  }

  /** The children of a block that is scanned are its fields that are blocks, every one and in the order
      of the fields; a block that is not scanned has none. */
  lemma ChildrenAreFields(g: Graph, b: nat) returns (ix: seq<nat>)
    requires g.Valid() && b < |g.fields|
    ensures g.tags[b] >= NO_SCAN_TAG ==> g.Children(b) == []
    ensures g.tags[b] < NO_SCAN_TAG ==>
              && |ix| == |g.Children(b)|
              && (forall k | 0 <= k < |ix| ::
                    ix[k] < |g.fields[b]| && g.fields[b][ix[k]] == Block(g.Children(b)[k]))
              && (forall k, l | 0 <= k < l < |ix| :: ix[k] < ix[l])
              && (forall i | 0 <= i < |g.fields[b]| && g.fields[b][i].Block? :: i in ix)
  {
    ix := [];
    if g.tags[b] < NO_SCAN_TAG {
      ix := PointersHavePlaces(g, b, 0);
    }
  }

  lemma ChildIffPoints(g: Graph, b: nat, c: nat)
    requires g.Valid() && b < |g.fields|
    ensures c in g.Children(b) <==> Points(g, b, c)
  {
    var ix := ChildrenAreFields(g, b);
    if c in g.Children(b) {
      var k :| 0 <= k < |g.Children(b)| && g.Children(b)[k] == c;
      assert g.fields[b][ix[k]] == Block(c);
    }
    if Points(g, b, c) {
      var i :| 0 <= i < |g.fields[b]| && g.fields[b][i] == Block(c);
      var k :| 0 <= k < |ix| && ix[k] == i;
      assert g.Children(b)[k] == c;
    }
  }

  datatype Visit = Visit(block: nat, depth: nat)

  /** Plain left-to-right depth-first search from the blocks of `todo`, skipping what was seen. */
  ghost function Walk(g: Graph, todo: seq<nat>, depth: nat, seen: set<nat>): (w: seq<Visit>)
    requires g.Valid() && g.Has(todo)
    decreases |g.All() - seen|, |todo|
  {
    if todo == [] then []
    else if todo[0] in seen then Walk(g, todo[1..], depth, seen)
    else
      var b := todo[0];
      Shrinks(g, b, seen, seen + {b});
      var first := [Visit(b, depth)] + Walk(g, g.Children(b), depth + 1, seen + {b});
      assert first[0] in first && b in Blocks(first);
      Shrinks(g, b, seen, seen + Blocks(first));
      first + Walk(g, todo[1..], depth, seen + Blocks(first))
  }

  ghost function Blocks(w: seq<Visit>): set<nat> {
    set v | v in w :: v.block
  }

  lemma BlocksAppend(a: seq<Visit>, b: seq<Visit>)
    ensures Blocks(a + b) == Blocks(a) + Blocks(b)
  {
    forall x | x in Blocks(a) + Blocks(b)
      ensures x in Blocks(a + b)
    {
      var v :| v in a + b && v.block == x;
    }
  }

  lemma BlocksOne(v: Visit)
    ensures Blocks([v]) == {v.block}
  {
    assert v in [v];
  }

  /** A larger set of seen blocks leaves fewer to see. */
  lemma Shrinks(g: Graph, b: nat, small: set<nat>, large: set<nat>)
    requires b < |g.fields| && b !in small && b in large && small <= large
    ensures |g.All() - large| < |g.All() - small|
  {
    Subset(g.All() - large, g.All() - small - {b});
  }

  lemma Subset(a: set<nat>, b: set<nat>)
    requires a <= b
    ensures |a| <= |b|
  {
    assert b == a + (b - a);
  }

  /** The walk that starts with one unseen block. */
  lemma WalkOne(g: Graph, b: nat, depth: nat, seen: set<nat>)
    requires g.Valid() && b < |g.fields| && b !in seen
    ensures Walk(g, [b], depth, seen)
         == [Visit(b, depth)] + Walk(g, g.Children(b), depth + 1, seen + {b})
  {
    var first := [Visit(b, depth)] + Walk(g, g.Children(b), depth + 1, seen + {b});
    assert [b][1..] == [];
    assert Walk(g, [b], depth, seen) == first + [];
  }

  /** The head of a list is walked before the rest of it. */
  lemma WalkHead(g: Graph, b: nat, rest: seq<nat>, depth: nat, seen: set<nat>)
    requires g.Valid() && b < |g.fields| && g.Has(rest)
    ensures g.Has([b] + rest)
    ensures b in seen ==> Walk(g, [b] + rest, depth, seen) == Walk(g, rest, depth, seen)
    ensures b !in seen ==>
              var first := Walk(g, [b], depth, seen);
              Walk(g, [b] + rest, depth, seen) == first + Walk(g, rest, depth, seen + Blocks(first))
  {
    assert ([b] + rest)[1..] == rest;
    if b !in seen {
      WalkOne(g, b, depth, seen);
    }
  }

  // ---------- what the walk visits ----------

  ghost predicate NoRepeats(w: seq<Visit>) {
    forall i, j | 0 <= i < j < |w| :: w[i].block != w[j].block
  }

  /** One unfolding of the walk at an unseen block. */
  lemma WalkCons(g: Graph, todo: seq<nat>, depth: nat, seen: set<nat>)
      returns (first: Visit, below: seq<Visit>, after: seq<Visit>, next: set<nat>)
    requires g.Valid() && g.Has(todo) && todo != [] && todo[0] !in seen
    ensures first == Visit(todo[0], depth) && next == seen + {todo[0]} + Blocks(below)
    ensures below == Walk(g, g.Children(todo[0]), depth + 1, seen + {todo[0]})
    ensures after == Walk(g, todo[1..], depth, next)
    ensures Walk(g, todo, depth, seen) == [first] + below + after
    ensures Blocks(Walk(g, todo, depth, seen)) == {todo[0]} + Blocks(below) + Blocks(after)
    ensures |g.All() - (seen + {todo[0]})| < |g.All() - seen|
    ensures |g.All() - next| < |g.All() - seen|
  {
    var b := todo[0];
    first := Visit(b, depth);
    below := Walk(g, g.Children(b), depth + 1, seen + {b});
    BlocksOne(first);
    BlocksAppend([first], below);
    next := seen + {b} + Blocks(below);
    assert seen + Blocks([first] + below) == next;
    after := Walk(g, todo[1..], depth, next);
    BlocksAppend([first] + below, after);
    Shrinks(g, b, seen, seen + {b});
    Shrinks(g, b, seen, next);
  }

  /** Nothing is visited twice or again. */
  lemma {:induction false} WalkIsFresh(g: Graph, todo: seq<nat>, depth: nat, seen: set<nat>)
    requires g.Valid() && g.Has(todo)
    ensures var w := Walk(g, todo, depth, seen);
            NoRepeats(w) && Blocks(w) !! seen && Blocks(w) <= g.All()
    decreases |g.All() - seen|, |todo|
  {
    if todo == [] {
    } else if todo[0] in seen {
      WalkIsFresh(g, todo[1..], depth, seen);
    } else {
      var first, below, after, next := WalkCons(g, todo, depth, seen);
      WalkIsFresh(g, g.Children(todo[0]), depth + 1, seen + {todo[0]});
      WalkIsFresh(g, todo[1..], depth, next);
      BlocksOne(first);
      BlocksAppend([first], below);
      JoinNoRepeats([first], below);
      JoinNoRepeats([first] + below, after);
    }
  }

  /** Every starting block was seen before or is visited. */
  lemma {:induction false} WalkCovers(g: Graph, todo: seq<nat>, depth: nat, seen: set<nat>)
    requires g.Valid() && g.Has(todo)
    ensures forall i | 0 <= i < |todo| :: todo[i] in seen + Blocks(Walk(g, todo, depth, seen))
    decreases |g.All() - seen|, |todo|
  {
    if todo != [] {
      if todo[0] in seen {
        WalkCovers(g, todo[1..], depth, seen);
      } else {
        var first, below, after, next := WalkCons(g, todo, depth, seen);
        WalkCovers(g, todo[1..], depth, next);
      }
      forall i | 0 < i < |todo|
        ensures todo[i] in seen + Blocks(Walk(g, todo, depth, seen))
      {
        assert todo[i] == todo[1..][i - 1];
      }
    }
  }

  /** Every pointer out of a visited block leads to one that was seen before or is visited too. */
  lemma {:induction false} WalkIsClosed(g: Graph, todo: seq<nat>, depth: nat, seen: set<nat>, b: nat, i: nat)
    requires g.Valid() && g.Has(todo) && b in Blocks(Walk(g, todo, depth, seen))
    requires b < |g.fields| && i < |g.Children(b)|
    ensures g.Children(b)[i] in seen + Blocks(Walk(g, todo, depth, seen))
    decreases |g.All() - seen|, |todo|
  {
    if todo[0] in seen {
      WalkIsClosed(g, todo[1..], depth, seen, b, i);
    } else {
      var first, below, after, next := WalkCons(g, todo, depth, seen);
      if b == todo[0] {
        WalkCovers(g, g.Children(b), depth + 1, seen + {b});
      } else if b in Blocks(below) {
        WalkIsClosed(g, g.Children(todo[0]), depth + 1, seen + {todo[0]}, b, i);
      } else {
        WalkIsClosed(g, todo[1..], depth, next, b, i);
      }
    }
  }

  lemma JoinNoRepeats(a: seq<Visit>, b: seq<Visit>)
    requires NoRepeats(a) && NoRepeats(b) && Blocks(a) !! Blocks(b)
    ensures NoRepeats(a + b)
  {
    forall i, j | 0 <= i < j < |a + b|
      ensures (a + b)[i].block != (a + b)[j].block
    {
      if i < |a| <= j {
        assert a[i] in a && b[j - |a|] in b;
        assert a[i].block in Blocks(a) && b[j - |a|].block in Blocks(b);
      }
    }
  }

  lemma {:induction false} CountBlocks(w: seq<Visit>)
    requires NoRepeats(w)
    ensures |w| == |Blocks(w)|
  {
    if w != [] {
      var init, last := w[..|w| - 1], w[|w| - 1];
      CountBlocks(init);
      assert w == init + [last];
      BlocksAppend(init, [last]);
      BlocksOne(last);
      assert last.block !in Blocks(init);
    }
  }

  // ---------- reachability, without any order ----------

  /** A path of pointers between scanned blocks that stays clear of some blocks. */
  ghost predicate Path(g: Graph, avoid: set<nat>, p: seq<nat>)
    requires g.Valid()
  {
    && p != [] && p[0] < |g.fields| && p[0] !in avoid
    && (|p| > 1 ==> Points(g, p[0], p[1]) && Path(g, avoid, p[1..]))
  }

  ghost predicate PathTo(g: Graph, avoid: set<nat>, from: nat, to: nat, p: seq<nat>)
    requires g.Valid()
  {
    Path(g, avoid, p) && p[0] == from && p[|p| - 1] == to
  }

  ghost function Reach(g: Graph, from: nat, avoid: set<nat>): set<nat>
    requires g.Valid()
  {
    set b | b in g.All() && exists p :: PathTo(g, avoid, from, b, p)
  }

  /** Every path from a walked block stays among the walked blocks. */
  lemma {:induction false} PathsStayInside(g: Graph, from: nat, depth: nat, avoid: set<nat>, p: seq<nat>)
    requires g.Valid() && from < |g.fields| && from !in avoid
    requires Path(g, avoid, p) && p[0] in Blocks(Walk(g, [from], depth, avoid))
    ensures p[|p| - 1] in Blocks(Walk(g, [from], depth, avoid))
  {
    if |p| > 1 {
      ChildIffPoints(g, p[0], p[1]);
      var i :| 0 <= i < |g.Children(p[0])| && g.Children(p[0])[i] == p[1];
      WalkIsClosed(g, [from], depth, avoid, p[0], i);
      assert p[1..][0] == p[1];
      PathsStayInside(g, from, depth, avoid, p[1..]);
    }
  }

  lemma {:induction false} PathAvoidsLess(g: Graph, more: set<nat>, less: set<nat>, p: seq<nat>)
    requires g.Valid() && Path(g, more, p) && less <= more
    ensures Path(g, less, p)
  {
    if |p| > 1 { PathAvoidsLess(g, more, less, p[1..]); }
  }

  /** p leads from a starting block to the visited one in as many steps as the visit is deep. */
  ghost predicate Witness(g: Graph, todo: seq<nat>, depth: nat, avoid: set<nat>, v: Visit, p: seq<nat>)
    requires g.Valid()
  {
    Path(g, avoid, p) && p[0] in todo && p[|p| - 1] == v.block && v.depth == depth + |p| - 1
  }

  ghost predicate AllWitnessed(g: Graph, todo: seq<nat>, depth: nat, avoid: set<nat>, w: seq<Visit>)
    requires g.Valid()
  {
    forall v | v in w :: exists p :: Witness(g, todo, depth, avoid, v, p)
  }

  /** One block further up, every path gains a step. */
  lemma WitnessBelow(g: Graph, todo: seq<nat>, depth: nat, avoid: set<nat>, w: seq<Visit>)
    requires g.Valid() && todo != [] && todo[0] < |g.fields| && todo[0] !in avoid
    requires AllWitnessed(g, g.Children(todo[0]), depth + 1, avoid + {todo[0]}, w)
    ensures AllWitnessed(g, todo, depth, avoid, [Visit(todo[0], depth)] + w)
  {
    var b := todo[0];
    assert Witness(g, todo, depth, avoid, Visit(b, depth), [b]);
    forall v | v in w
      ensures exists p :: Witness(g, todo, depth, avoid, v, p)
    {
      var q :| Witness(g, g.Children(b), depth + 1, avoid + {b}, v, q);
      PathAvoidsLess(g, avoid + {b}, avoid, q);
      ChildIffPoints(g, b, q[0]);
      assert ([b] + q)[1..] == q;
      assert Witness(g, todo, depth, avoid, v, [b] + q);
    }
  }

  lemma WitnessAfter(g: Graph, todo: seq<nat>, depth: nat, more: set<nat>, less: set<nat>, w: seq<Visit>)
    requires g.Valid() && todo != [] && less <= more
    requires AllWitnessed(g, todo[1..], depth, more, w)
    ensures AllWitnessed(g, todo, depth, less, w)
  {
    forall v | v in w
      ensures exists p :: Witness(g, todo, depth, less, v, p)
    {
      var p :| Witness(g, todo[1..], depth, more, v, p);
      PathAvoidsLess(g, more, less, p);
      assert Witness(g, todo, depth, less, v, p);
    }
  }

  /** Each visit is the end of a path from one of the starting blocks, as long as its depth says. */
  lemma {:induction false} VisitsHavePaths(g: Graph, todo: seq<nat>, depth: nat, seen: set<nat>)
    requires g.Valid() && g.Has(todo)
    ensures AllWitnessed(g, todo, depth, seen, Walk(g, todo, depth, seen))
    decreases |g.All() - seen|, |todo|
  {
    if todo == [] {
    } else if todo[0] in seen {
      VisitsHavePaths(g, todo[1..], depth, seen);
      WitnessAfter(g, todo, depth, seen, seen, Walk(g, todo[1..], depth, seen));
    } else {
      var first, below, after, next := WalkCons(g, todo, depth, seen);
      VisitsHavePaths(g, g.Children(todo[0]), depth + 1, seen + {todo[0]});
      WitnessBelow(g, todo, depth, seen, below);
      VisitsHavePaths(g, todo[1..], depth, next);
      WitnessAfter(g, todo, depth, next, seen, after);
    }
  }

  /** The ordered walk visits exactly the reachable blocks. */
  lemma WalkIsReach(g: Graph, from: nat, depth: nat, avoid: set<nat>)
    requires g.Valid() && from < |g.fields| && from !in avoid
    ensures Blocks(Walk(g, [from], depth, avoid)) == Reach(g, from, avoid)
  {
    var w := Walk(g, [from], depth, avoid);
    WalkIsFresh(g, [from], depth, avoid);
    forall b | b in Reach(g, from, avoid)
      ensures b in Blocks(w)
    {
      var p :| PathTo(g, avoid, from, b, p);
      WalkCovers(g, [from], depth, avoid);
      assert [from][0] == from;
      PathsStayInside(g, from, depth, avoid, p);
    }
    forall b | b in Blocks(w)
      ensures b in Reach(g, from, avoid)
    {
      VisitsHavePaths(g, [from], depth, avoid);
      var v :| v in w && v.block == b;
      var p :| Witness(g, [from], depth, avoid, v, p);
      assert PathTo(g, avoid, from, b, p);
    }
  }

  // ---------- counters ----------

  ghost function Words(g: Graph, w: seq<Visit>): nat {
    if w == [] then 0
    else (if w[0].block < |g.fields| then |g.fields[w[0].block]| else 0) + Words(g, w[1..])
  }

  ghost function Deepest(w: seq<Visit>, least: nat): nat {
    if w == [] then least else Deepest(w[1..], if w[0].depth > least then w[0].depth else least)
  }

  lemma {:induction false} CountersAppend(g: Graph, a: seq<Visit>, b: seq<Visit>, least: nat)
    ensures Words(g, a + b) == Words(g, a) + Words(g, b)
    ensures Deepest(a + b, least) == Deepest(b, Deepest(a, least))
    decreases a
  {
    if a == [] {
      assert a + b == b;
    } else {
      assert (a + b)[1..] == a[1..] + b;
      CountersAppend(g, a[1..], b, if a[0].depth > least then a[0].depth else least);
    }
  }

  /** The total size of a set of blocks among the first n, whatever the order. */
  ghost function Weight(g: Graph, bs: set<nat>, n: nat): nat
    requires n <= |g.fields|
  {
    if n == 0 then 0 else Weight(g, bs, n - 1) + if n - 1 in bs then |g.fields[n - 1]| else 0
  }

  lemma {:induction false} WeightInsert(g: Graph, bs: set<nat>, b: nat, n: nat)
    requires n <= |g.fields| && b !in bs
    ensures Weight(g, bs + {b}, n) == Weight(g, bs, n) + if b < n then |g.fields[b]| else 0
  {
    if n > 0 { WeightInsert(g, bs, b, n - 1); }
  }

  lemma {:induction false} WeightNothing(g: Graph, n: nat)
    requires n <= |g.fields|
    ensures Weight(g, {}, n) == 0
  {
    if n > 0 { WeightNothing(g, n - 1); }
  }

  lemma {:induction false} WordsAreWeight(g: Graph, w: seq<Visit>)
    requires NoRepeats(w) && Blocks(w) <= g.All()
    ensures Words(g, w) == Weight(g, Blocks(w), |g.fields|)
  {
    if w == [] {
      WeightNothing(g, |g.fields|);
      assert Blocks(w) == {};
    } else {
      var init, last := w[..|w| - 1], w[|w| - 1];
      assert w == init + [last];
      BlocksAppend(init, [last]);
      BlocksOne(last);
      WordsAreWeight(g, init);
      CountersAppend(g, init, [last], 0);
      assert [last][1..] == [];
      assert last.block in Blocks(w);
      assert last.block !in Blocks(init);
      WeightInsert(g, Blocks(init), last.block, |g.fields|);
    }
  }

  ghost predicate DepthsBetween(w: seq<Visit>, low: nat, high: nat) {
    forall v | v in w :: low <= v.depth < high
  }

  lemma DepthsJoin(first: Visit, below: seq<Visit>, after: seq<Visit>, depth: nat)
    requires first.depth == depth
    requires DepthsBetween(below, depth + 1, depth + 1 + |below|)
    requires DepthsBetween(after, depth, depth + |after|)
    ensures DepthsBetween([first] + below + after, depth, depth + |[first] + below + after|)
  {
  }

  /** A depth is reached only after that many other blocks: no visit is deeper than the count allows. */
  lemma {:induction false} DepthBelowCount(g: Graph, todo: seq<nat>, depth: nat, seen: set<nat>)
    requires g.Valid() && g.Has(todo)
    ensures var w := Walk(g, todo, depth, seen); DepthsBetween(w, depth, depth + |w|)
    decreases |g.All() - seen|, |todo|
  {
    if todo == [] {
    } else if todo[0] in seen {
      DepthBelowCount(g, todo[1..], depth, seen);
    } else {
      var first, below, after, next := WalkCons(g, todo, depth, seen);
      DepthBelowCount(g, g.Children(todo[0]), depth + 1, seen + {todo[0]});
      DepthBelowCount(g, todo[1..], depth, next);
      DepthsJoin(first, below, after, depth);
    }
  }

  lemma {:induction false} DeepestIsMaximum(w: seq<Visit>, least: nat)
    ensures Deepest(w, least) >= least
    ensures forall i | 0 <= i < |w| :: w[i].depth <= Deepest(w, least)
    ensures Deepest(w, least) == least || exists i :: 0 <= i < |w| && w[i].depth == Deepest(w, least)
    decreases w
  {
    if w != [] {
      var next := if w[0].depth > least then w[0].depth else least;
      DeepestIsMaximum(w[1..], next);
      forall i | 0 <= i < |w|
        ensures w[i].depth <= Deepest(w, least)
      {
        if i > 0 { assert w[1..][i - 1] == w[i]; }
      }
      if Deepest(w, least) != next {
        var i :| 0 <= i < |w[1..]| && w[1..][i].depth == Deepest(w, least);
        assert w[i + 1].depth == Deepest(w, least);
      }
    }
  }
}
