/** The heap sizer of libs/objsize/c_objsize.c: paint what is visited blue while writing the old
    colours to a stream, then make the same visits again and paint the colours back. */
module Objsize {
  import opened ColorCodec
  import opened HeaderWord
  import opened HeapGraph
  import opened Optional
  import ColorStream

  function ToSeq(o: Option<nat>): seq<nat> {
    if o.Some? then [o.value] else []
  }

  /** acc_hdrs, acc_data and acc_depth */
  datatype Totals = Totals(hdrs: nat, data: nat, depth: nat)

  /** What a sequence of visits does to the counters. */
  ghost function Tally(g: Graph, t: Totals, w: seq<Visit>): Totals {
    Totals(t.hdrs + |w|, t.data + Words(g, w), Deepest(w, t.depth))
  }

  lemma TallyAppend(g: Graph, t: Totals, a: seq<Visit>, b: seq<Visit>)
    ensures Tally(g, Tally(g, t, a), b) == Tally(g, t, a + b)
  {
    CountersAppend(g, a, b, t.depth);
  }

  /** The original colours of the visited blocks, in order of visit. */
  ghost function Colors(orig: seq<Header>, w: seq<Visit>): (cs: seq<Color>)
    ensures |cs| == |w|
  {
    if w == [] then []
    else [if w[0].block < |orig| then orig[w[0].block].color else 0] + Colors(orig, w[1..])
  }

  lemma {:induction false} ColorsAppend(orig: seq<Header>, a: seq<Visit>, b: seq<Visit>)
    ensures Colors(orig, a + b) == Colors(orig, a) + Colors(orig, b)
  {
    if a == [] {
      assert a + b == b;
    } else {
      assert (a + b)[1..] == a[1..] + b;
      ColorsAppend(orig, a[1..], b);
    }
  }

  /** No block of the set was blue to begin with. */
  ghost predicate Clear(orig: seq<Header>, bs: set<nat>) {
    forall b: nat | b in bs && b < |orig| :: orig[b].color != BLUE
  }

  /** The headers are the original ones, except that the given blocks are blue. */
  ghost predicate Painted(headers: seq<Header>, orig: seq<Header>, blue: set<nat>) {
    && |headers| == |orig|
    && forall b: nat | b < |orig| ::
         headers[b] == if b in blue then Recolor(orig[b], BLUE) else orig[b]
  }

  lemma PaintMore(headers: seq<Header>, orig: seq<Header>, blue: set<nat>, v: nat)
    requires Painted(headers, orig, blue) && v < |orig| && v !in blue
    ensures headers[v] == orig[v]
    ensures Painted(headers[v := Recolor(headers[v], BLUE)], orig, blue + {v})
  {
  }

  /** The headers repeat the tags and sizes of the graph. */
  ghost predicate Agrees(g: Graph, orig: seq<Header>) {
    && g.Valid() && |orig| == |g.fields|
    && forall b: nat | b < |orig| :: orig[b].wosize == |g.fields[b]| && orig[b].tag == g.tags[b]
  }

  lemma TallyOne(g: Graph, t: Totals, w: seq<Visit>, v: Visit)
    requires v.block < |g.fields|
    ensures var u := Tally(g, t, w);
            Tally(g, t, w + [v]) == Totals(u.hdrs + 1, u.data + |g.fields[v.block]|,
                                           if v.depth > u.depth then v.depth else u.depth)
  {
    TallyAppend(g, t, w, [v]);
    assert [v][1..] == [];
    assert Words(g, [v]) == |g.fields[v.block]|;
    var d := Deepest(w, t.depth);
    assert Deepest([v], d) == if v.depth > d then v.depth else d;
  }

  lemma ColorsOne(orig: seq<Header>, w: seq<Visit>, v: Visit)
    requires v.block < |orig|
    ensures Colors(orig, w + [v]) == Colors(orig, w) + [orig[v.block].color]
  {
    ColorsAppend(orig, w, [v]);
    assert [v][1..] == [];
  }

  lemma BlocksSnoc(w: seq<Visit>, v: Visit)
    ensures Blocks(w + [v]) == Blocks(w) + {v.block}
  {
    BlocksAppend(w, [v]);
    BlocksOne(v);
  }

  /** The blocks REC_WALK has still to consider: the deferred one, then the pointers not looked at. */
  ghost function Rest(g: Graph, v: nat, prev: Option<nat>, i: nat): (bs: seq<nat>)
    requires g.Valid() && v < |g.fields| && i <= |g.fields[v]|
    requires prev.Some? ==> prev.value < |g.fields|
    ensures g.Has(bs)
  {
    ToSeq(prev) + g.PointersFrom(v, i)
  }

  /** `all` is what was visited so far followed by what is to be visited from `todo`. */
  ghost predicate Splits(g: Graph, all: seq<Visit>, now: seq<Visit>, todo: seq<nat>, depth: nat, seen: set<nat>)
    requires g.Valid() && g.Has(todo)
  {
    all == now + Walk(g, todo, depth, seen + Blocks(now))
  }

  /** Visiting the head of the list moves its visits across. */
  lemma SplitHead(g: Graph, all: seq<Visit>, now: seq<Visit>, b: nat, rest: seq<nat>, depth: nat, seen: set<nat>)
    requires g.Valid() && b < |g.fields| && g.Has(rest) && g.Has([b] + rest)
    requires Splits(g, all, now, [b] + rest, depth, seen)
    ensures b in seen + Blocks(now) ==> Splits(g, all, now, rest, depth, seen)
    ensures b !in seen + Blocks(now) ==>
      (var first := Walk(g, [b], depth, seen + Blocks(now));
       Splits(g, all, now + first, rest, depth, seen) && now + first <= all && b in Blocks(all))
  {
    WalkHead(g, b, rest, depth, seen + Blocks(now));
    if b !in seen + Blocks(now) {
      var first := Walk(g, [b], depth, seen + Blocks(now));
      WalkOne(g, b, depth, seen + Blocks(now));
      assert Visit(b, depth) == first[0] == all[|now|];
      BlocksAppend(now, first);
      assert seen + Blocks(now + first) == seen + Blocks(now) + Blocks(first);
    }
  }

  lemma ClearPrefix(orig: seq<Header>, some: seq<Visit>, all: seq<Visit>)
    requires some <= all && Clear(orig, Blocks(all))
    ensures Clear(orig, Blocks(some))
  {
    PrefixBlocks(some, all);
  }

  /** Entering a block leaves its children to visit. */
  lemma EnterStep(g: Graph, all: seq<Visit>, now: seq<Visit>, b: nat, depth: nat, seen: set<nat>)
    requires g.Valid() && b < |g.fields| && b !in seen + Blocks(now)
    requires Splits(g, all, now, [b], depth, seen)
    ensures var next := now + [Visit(b, depth)];
            next <= all && b in Blocks(all) && seen + Blocks(next) == seen + Blocks(now) + {b}
    ensures Splits(g, all, now + [Visit(b, depth)], g.Children(b), depth + 1, seen)
    ensures |g.All() - (seen + Blocks(now + [Visit(b, depth)]))| < |g.All() - (seen + Blocks(now))|
  {
    hide Walk, Blocks;
    var visit, below := Visit(b, depth), Walk(g, g.Children(b), depth + 1, seen + Blocks(now) + {b});
    WalkOne(g, b, depth, seen + Blocks(now));
    BlocksSnoc(now, visit);
    assert seen + Blocks(now + [visit]) == seen + Blocks(now) + {b};
    Shrinks(g, b, seen + Blocks(now), seen + Blocks(now) + {b});
    assert now + ([visit] + below) == now + [visit] + below;
    PrefixBlocks(now + [visit], all);
  }

  lemma PrefixBlocks(some: seq<Visit>, all: seq<Visit>)
    requires some <= all
    ensures Blocks(some) <= Blocks(all)
  {
    assert all == some + all[|some|..];
    BlocksAppend(some, all[|some|..]);
  }

  /** More visits leave no more blocks to see. */
  lemma SeenGrows(g: Graph, seen: set<nat>, some: seq<Visit>, all: seq<Visit>)
    requires some <= all
    ensures |g.All() - (seen + Blocks(all))| <= |g.All() - (seen + Blocks(some))|
  {
    PrefixBlocks(some, all);
    Subset(g.All() - (seen + Blocks(all)), g.All() - (seen + Blocks(some)));
  }

  lemma SplitStart(g: Graph, all: seq<Visit>, done: seq<Visit>, v: nat, depth: nat, seen: set<nat>)
    requires g.Valid() && v < |g.fields|
    requires all == done + Walk(g, [v], depth, seen + Blocks(done))
    ensures Splits(g, all, done, [v], depth, seen) && done <= all
  {
  }

  lemma SplitEnd(g: Graph, all: seq<Visit>, now: seq<Visit>, depth: nat, seen: set<nat>)
    requires g.Valid() && Splits(g, all, now, [], depth, seen)
    ensures all == now
  {
  }

  lemma PaintedTag(g: Graph, headers: seq<Header>, orig: seq<Header>, blue: set<nat>, b: nat)
    requires Agrees(g, orig) && Painted(headers, orig, blue) && b < |orig|
    ensures |headers| == |orig| && headers[b].tag == g.tags[b] && headers[b].wosize == |g.fields[b]|
  {
  }

  /** A block whose turn has come is blue exactly if it was seen before. */
  lemma BlueIffSeen(headers: seq<Header>, orig: seq<Header>, seen: set<nat>, all: set<nat>, b: nat)
    requires Painted(headers, orig, seen) && b < |orig|
    requires Clear(orig, all) && (b !in seen ==> b in all)
    ensures headers[b].color == BLUE <==> b in seen
  {
  }

  /** On the way back a block whose turn has come is blue exactly if it was not restored before. */
  lemma BlueIffUnrestored(headers: seq<Header>, orig: seq<Header>, blue: set<nat>, seen: set<nat>,
                          now: seq<Visit>, all: seq<Visit>, b: nat)
    requires Painted(headers, orig, blue - Blocks(now)) && b < |orig|
    requires Blocks(all) <= blue && blue !! seen && Clear(orig, seen) && Clear(orig, blue)
    requires now <= all && (b !in seen + Blocks(now) ==> b in Blocks(all))
    ensures headers[b].color == BLUE <==> b !in seen + Blocks(now)
  {
    PrefixBlocks(now, all);
  }

  lemma UnpaintOne(headers: seq<Header>, orig: seq<Header>, blue: set<nat>, now: seq<Visit>, v: Visit)
    requires Painted(headers, orig, blue - Blocks(now))
    requires v.block < |orig| && v.block in blue && v.block !in Blocks(now)
    ensures Painted(headers[v.block := Recolor(headers[v.block], orig[v.block].color)], orig,
                    blue - Blocks(now + [v]))
  {
    BlocksSnoc(now, v);
  }

  lemma PaintedLength(headers: seq<Header>, orig: seq<Header>, blue: set<nat>)
    requires Painted(headers, orig, blue)
    ensures |headers| == |orig|
  {
  }

  lemma SameHead(a: Color, s: seq<Color>, b: Color, t: seq<Color>)
    requires [a] + s == [b] + t
    ensures a == b && s == t
  {
    assert ([a] + s)[0] == a && ([a] + s)[1..] == s;
  }

  lemma NextColor(orig: seq<Header>, total: seq<Visit>, now: seq<Visit>, v: Visit)
    requires now + [v] <= total && v.block < |orig|
    ensures Colors(orig, total[|now|..]) == [orig[v.block].color] + Colors(orig, total[|now + [v]|..])
  {
    assert total[|now|..][1..] == total[|now + [v]|..] && total[|now|] == v;
  }

  // ---------- the lists of blocks handed to c_objsize ----------

  /** The OCaml list at q holds the blocks xs: two-field cells, ended by a value that is no block. */
  ghost predicate IsList(g: Graph, q: Value, xs: seq<nat>)
    decreases xs
  {
    if xs == [] then !q.Block?
    else
      && q.Block? && q.id < |g.fields| && |g.fields[q.id]| >= 2
      && xs[0] < |g.fields| && g.fields[q.id][0] == Block(xs[0])
      && IsList(g, g.fields[q.id][1], xs[1..])
  }

  /** The k-th cell: field 0 holds the element, field 1 leads to the next cell, and from the last one to
      no block. */
  ghost predicate CellAt(g: Graph, xs: seq<nat>, cells: seq<nat>, k: nat)
    requires k < |xs| == |cells|
  {
    && cells[k] < |g.fields| && |g.fields[cells[k]]| >= 2 && g.fields[cells[k]][0] == Block(xs[k])
    && (k + 1 < |xs| ==> g.fields[cells[k]][1] == Block(cells[k + 1]))
    && (k + 1 == |xs| ==> !g.fields[cells[k]][1].Block?)
  }

  /** A list has one cell for each element. */
  lemma {:induction false} ListCells(g: Graph, q: Value, xs: seq<nat>) returns (cells: seq<nat>)
    requires IsList(g, q, xs)
    ensures |cells| == |xs|
    ensures xs == [] ==> !q.Block?
    ensures xs != [] ==> q == Block(cells[0])
    ensures forall k | 0 <= k < |xs| :: CellAt(g, xs, cells, k)
    decreases xs
  {
    if xs == [] {
      cells := [];
    } else {
      var rest := ListCells(g, g.fields[q.id][1], xs[1..]);
      cells := [q.id] + rest;
      assert CellAt(g, xs, cells, 0);
      forall k | 0 < k < |xs|
        ensures CellAt(g, xs, cells, k)
      {
        assert CellAt(g, xs[1..], rest, k - 1);
      }
    }
  }

  ghost function Elements(xs: seq<nat>): set<nat> {
    set x | x in xs
  }

  /** The blocks of a list, each at its first occurrence. */
  ghost function Firsts(xs: seq<nat>, seen: set<nat>): seq<Visit> {
    if xs == [] then []
    else if xs[0] in seen then Firsts(xs[1..], seen)
    else [Visit(xs[0], 0)] + Firsts(xs[1..], seen + {xs[0]})
  }

  lemma {:induction false} FirstsAreElements(xs: seq<nat>, seen: set<nat>)
    ensures Blocks(Firsts(xs, seen)) == Elements(xs) - seen
    ensures NoRepeats(Firsts(xs, seen))
  {
    if xs == [] {
    } else {
      assert Elements(xs) == {xs[0]} + Elements(xs[1..]);
      if xs[0] in seen {
        FirstsAreElements(xs[1..], seen);
      } else {
        var first, rest := Visit(xs[0], 0), Firsts(xs[1..], seen + {xs[0]});
        FirstsAreElements(xs[1..], seen + {xs[0]});
        BlocksOne(first);
        BlocksAppend([first], rest);
        JoinNoRepeats([first], rest);
      }
    }
  }

  lemma {:induction false} ListInHeap(g: Graph, q: Value, xs: seq<nat>)
    requires IsList(g, q, xs)
    ensures Elements(xs) <= g.All()
    decreases xs
  {
    if xs != [] {
      ListInHeap(g, g.fields[q.id][1], xs[1..]);
      assert Elements(xs) == {xs[0]} + Elements(xs[1..]);
    }
  }

  lemma {:induction false} CountAll(g: Graph, n: nat)
    requires n <= |g.fields|
    ensures |set b: nat {:trigger g.fields[b]} | b < n| == n
  {
    if n > 0 {
      CountAll(g, n - 1);
      assert (set b: nat {:trigger g.fields[b]} | b < n) == (set b: nat {:trigger g.fields[b]} | b < n - 1) + {n - 1};
    }
  }

  lemma NoMoreThanHeap(g: Graph, w: seq<Visit>)
    requires NoRepeats(w) && Blocks(w) <= g.All()
    ensures |w| <= |g.fields|
  {
    CountBlocks(w);
    CountAll(g, |g.fields|);
    Subset(Blocks(w), g.All());
  }

  lemma ScanStart(g: Graph, scan: Value, xs: seq<nat>)
    requires IsList(g, scan, xs)
    ensures Blocks([]) == {} && Blocks(Firsts(xs, {})) == Elements(xs)
    ensures NoRepeats(Firsts(xs, {})) && |Firsts(xs, {})| <= |g.fields|
  {
    FirstsAreElements(xs, {});
    ListInHeap(g, scan, xs);
    NoMoreThanHeap(g, Firsts(xs, {}));
  }

  /** One round of either loop over the scan list. */
  lemma FirstsStep(all: seq<Visit>, sofar: seq<Visit>, xs: seq<nat>)
    requires xs != [] && all == sofar + Firsts(xs, Blocks(sofar))
    ensures xs[0] in Blocks(sofar) ==> all == sofar + Firsts(xs[1..], Blocks(sofar))
    ensures xs[0] !in Blocks(sofar) ==>
      (var next := sofar + [Visit(xs[0], 0)];
       next <= all && all == next + Firsts(xs[1..], Blocks(next)))
  {
    BlocksSnoc(sofar, Visit(xs[0], 0));
    if xs[0] !in Blocks(sofar) {
      var rest := Firsts(xs[1..], Blocks(sofar) + {xs[0]});
      assert sofar + ([Visit(xs[0], 0)] + rest) == sofar + [Visit(xs[0], 0)] + rest;
    }
  }

  // ---------- the result of a whole run ----------

  lemma NothingYet(g: Graph, orig: seq<Header>, bs: set<nat>)
    ensures bs + Blocks([]) == bs && bs - Blocks([]) == bs && Colors(orig, []) == []
    ensures Tally(g, Totals(0, 0, 0), []) == Totals(0, 0, 0)
  {
  }

  lemma VisitFirst(g: Graph, v: Value, scan: set<nat>)
    requires g.Valid() && v.Block? && v.id < |g.fields|
    ensures v.id !in scan ==> v.id in Blocks(Measured(g, v, scan))
  {
    if v.id !in scan {
      WalkOne(g, v.id, 0, scan);
      assert Visit(v.id, 0) in Measured(g, v, scan);
    }
  }

  lemma AllRestored(headers: seq<Header>, orig: seq<Header>, blue: set<nat>, total: seq<Visit>)
    requires Painted(headers, orig, blue - Blocks(total)) && blue <= Blocks(total)
    ensures headers == orig
  {
  }

  /** The first argument of c_objsize: what is measured when it is a block outside the scan list. */
  ghost function Measured(g: Graph, v: Value, scan: set<nat>): seq<Visit>
    requires g.Valid() && (v.Block? ==> v.id < |g.fields|)
  {
    if v.Block? && v.id !in scan then Walk(g, [v.id], 0, scan) else []
  }

  ghost function Reached(g: Graph, v: Value, scan: set<nat>): set<nat>
    requires g.Valid() && (v.Block? ==> v.id < |g.fields|)
  {
    if v.Block? && v.id !in scan then Reach(g, v.id, scan) else {}
  }

  lemma MeasuredIsReached(g: Graph, v: Value, scan: set<nat>)
    requires g.Valid() && (v.Block? ==> v.id < |g.fields|)
    ensures var w := Measured(g, v, scan);
            && Blocks(w) == Reached(g, v, scan) && NoRepeats(w) && Blocks(w) !! scan
            && Blocks(w) <= g.All()
            && Tally(g, Totals(0, 0, 0), w).hdrs == |Reached(g, v, scan)|
            && Tally(g, Totals(0, 0, 0), w).data == Weight(g, Reached(g, v, scan), |g.fields|)
  {
    var w := Measured(g, v, scan);
    if v.Block? && v.id !in scan {
      WalkIsReach(g, v.id, 0, scan);
      WalkIsFresh(g, [v.id], 0, scan);
    }
    CountBlocks(w);
    WordsAreWeight(g, w);
  }

  /** No visit is deeper than the depth counter, which is the length of a path from v. */
  lemma DepthIsReached(g: Graph, v: Value, scan: set<nat>)
    requires g.Valid() && (v.Block? ==> v.id < |g.fields|)
    ensures var w := Measured(g, v, scan);
            && (forall x | x in w :: x.depth <= Deepest(w, 0))
            && (w == [] ==> Deepest(w, 0) == 0)
            && (w != [] ==> exists x :: x in w && x.depth == Deepest(w, 0))
  {
    hide Walk;
    DeepestIsMaximum(Measured(g, v, scan), 0);
  }

  /** The depth counter is the length of a path from v, and each level above it costs a block. */
  lemma DepthMeaning(g: Graph, v: Value, scan: set<nat>)
    requires g.Valid() && (v.Block? ==> v.id < |g.fields|) && Measured(g, v, scan) != []
    ensures var d := Tally(g, Totals(0, 0, 0), Measured(g, v, scan)).depth;
            d < |Reached(g, v, scan)| && exists b, p :: PathTo(g, scan, v.id, b, p) && |p| == d + 1
  {
    hide Walk, Reach, Deepest;
    var w := Measured(g, v, scan);
    DepthIsReached(g, v, scan);
    MeasuredIsReached(g, v, scan);
    DepthBelowCount(g, [v.id], 0, scan);
    VisitsHavePaths(g, [v.id], 0, scan);
    var x :| x in w && x.depth == Deepest(w, 0);
    var p :| Witness(g, [v.id], 0, scan, x, p);
    assert PathTo(g, scan, v.id, x.block, p);
  }

  function PairGraph(): Graph {
    Graph([0, 0, 0], [[Block(1), Block(2)], [Immediate(5)], [Block(1)]])
  }

  lemma PairChildren()
    ensures var g := PairGraph();
            && g.Valid() && |g.fields| == 3
            && |g.fields[0]| == 2 && |g.fields[1]| == 1 && |g.fields[2]| == 1
            && g.Children(0) == [1, 2] && g.Children(1) == [] && g.Children(2) == [1]
  {
    var g := PairGraph();
    assert g.PointersFrom(0, 2) == [] && g.PointersFrom(0, 1) == [2];
    assert g.PointersFrom(1, 1) == [] && g.PointersFrom(2, 1) == [];
  }

  lemma PairWalk()
    ensures PairGraph().Valid() && |PairGraph().fields| == 3
    ensures Walk(PairGraph(), [0], 0, {}) == [Visit(0, 0), Visit(1, 1), Visit(2, 1)]
  {
    PairChildren();
    var g := PairGraph();
    hide PairGraph, Graph.Children, Graph.Valid, Walk;
    WalkOne(g, 0, 0, {});
    WalkHead(g, 1, [2], 1, {0});
    WalkOne(g, 1, 1, {0});
    WalkNothing(g, 2, {0, 1});
    BlocksOne(Visit(1, 1));
    assert [1] + [2] == [1, 2] && {} + {0} == {0} && {0} + {1} == {0, 1};
    WalkOne(g, 2, 1, {0, 1});
    WalkHead(g, 1, [], 2, {0, 1, 2});
    WalkNothing(g, 2, {0, 1, 2});
    assert [1] + [] == [1] && {0, 1} + {2} == {0, 1, 2};
    assert [Visit(1, 1)] + [] == [Visit(1, 1)] && [Visit(2, 1)] + [] == [Visit(2, 1)];
    assert [Visit(0, 0)] + ([Visit(1, 1)] + [Visit(2, 1)]) == [Visit(0, 0), Visit(1, 1), Visit(2, 1)];
  }

  lemma WalkNothing(g: Graph, depth: nat, seen: set<nat>)
    requires g.Valid()
    ensures Walk(g, [], depth, seen) == []
  {
  }

  lemma TallyThree(g: Graph, a: Visit, b: Visit, c: Visit)
    requires a.block < |g.fields| && b.block < |g.fields| && c.block < |g.fields|
    requires a.depth <= b.depth && c.depth <= b.depth
    ensures Tally(g, Totals(0, 0, 0), [a, b, c])
         == Totals(3, |g.fields[a.block]| + |g.fields[b.block]| + |g.fields[c.block]|, b.depth)
  {
    var t := Totals(0, 0, 0);
    NothingYet(g, [], {});
    hide Tally;
    assert [] + [a] == [a] && [a] + [b] == [a, b] && [a, b] + [c] == [a, b, c];
    TallyOne(g, t, [], a);
    TallyOne(g, t, [a], b);
    TallyOne(g, t, [a, b], c);
  }

  lemma PairTally()
    ensures Tally(PairGraph(), Totals(0, 0, 0), [Visit(0, 0), Visit(1, 1), Visit(2, 1)]) == Totals(3, 4, 1)
  {
    PairChildren();
    hide PairGraph, Tally, Graph.Children, Graph.Valid;
    TallyThree(PairGraph(), Visit(0, 0), Visit(1, 1), Visit(2, 1));
  }

  lemma PairBlocks()
    ensures Blocks([Visit(0, 0), Visit(1, 1), Visit(2, 1)]) == {0, 1, 2}
  {
    var a, b, c := Visit(0, 0), Visit(1, 1), Visit(2, 1);
    hide Blocks;
    BlocksOne(a);
    BlocksSnoc([a], b);
    BlocksSnoc([a, b], c);
    assert [a] + [b] == [a, b] && [a, b] + [c] == [a, b, c];
  }

  /** A pair whose second field points to its first: three blocks of four words, and a depth of 1, since
      the first field is walked first. */
  lemma SharedPair()
    ensures var g := PairGraph();
            && g.Valid() && |g.fields| == 3 && Reached(g, Block(0), {}) == {0, 1, 2}
            && Tally(g, Totals(0, 0, 0), Measured(g, Block(0), {})) == Totals(3, 4, 1)
  {
    hide Walk, Tally, Blocks, Reached, PairGraph;
    PairWalk();
    PairTally();
    PairBlocks();
    MeasuredIsReached(PairGraph(), Block(0), {});
  }

  lemma DepthInCount(g: Graph, v: Value, scan: set<nat>)
    requires g.Valid() && (v.Block? ==> v.id < |g.fields|)
    ensures var t := Tally(g, Totals(0, 0, 0), Measured(g, v, scan)); t.hdrs > 0 ==> t.depth < t.hdrs
  {
    hide Measured, Reached;
    MeasuredIsReached(g, v, scan);
    if Measured(g, v, scan) != [] {
      DepthMeaning(g, v, scan);
    }
  }

  /** Both passes fit together: the stream holds one colour for each painted block. */
  lemma WholeRun(g: Graph, orig: seq<Header>, v: Value, q: Value, xs: seq<nat>)
    requires Agrees(g, orig) && IsList(g, q, xs) && (v.Block? ==> v.id < |g.fields|)
    requires Clear(orig, Elements(xs)) && Clear(orig, Reached(g, v, Elements(xs)))
    ensures var sv, w := Firsts(xs, {}), Measured(g, v, Elements(xs));
            && |sv| + |w| <= |g.fields|
            && Blocks(sv) == Elements(xs) && Blocks(sv + w) == Elements(xs) + Blocks(w)
            && Colors(orig, sv + w) == Colors(orig, sv) + Colors(orig, w)
            && Clear(orig, Blocks(w)) && Clear(orig, Blocks(sv + w))
            && Blocks(w) == Reached(g, v, Elements(xs)) && Elements(xs) !! Blocks(w)
  {
    var sv, w := Firsts(xs, {}), Measured(g, v, Elements(xs));
    MeasuredIsReached(g, v, Elements(xs));
    ScanStart(g, q, xs);
    ListInHeap(g, q, xs);
    JoinNoRepeats(sv, w);
    BlocksAppend(sv, w);
    ColorsAppend(orig, sv, w);
    NoMoreThanHeap(g, sv + w);
  }

  class Sizer {
    const graph: Graph
    var stream: ColorStream.Stream
    var headers: seq<Header>
    var accHdrs: nat
    var accData: nat
    var accDepth: nat

    constructor (graph: Graph, headers: seq<Header>)
      ensures this.graph == graph && this.headers == headers
    {
      this.graph, this.headers := graph, headers;
      accHdrs, accData, accDepth := 0, 0, 0;
      stream := new ColorStream.Stream();
    }

    ghost function Acc(): Totals
      reads this
    {
      Totals(accHdrs, accData, accDepth)
    }

    /** The state of the first pass after the visits `done`. */
    ghost predicate Entered(orig: seq<Header>, seen: set<nat>, before: seq<Color>, t: Totals, done: seq<Visit>)
      reads this, stream, stream.colors
    {
      && Painted(headers, orig, seen + Blocks(done))
      && stream.Writing() && stream.Written() == before + Colors(orig, done)
      && Acc() == Tally(graph, t, done)
    }

    /** What c_rec_objsize does to a block on entering it. */
    method EnterBlock(v: nat, depth: nat, ghost orig: seq<Header>, ghost seen: set<nat>,
                      ghost before: seq<Color>, ghost t: Totals, ghost done: seq<Visit>)
      requires Agrees(graph, orig) && Entered(orig, seen, before, t, done)
      requires v < |orig| && v !in seen + Blocks(done) && orig[v].color != BLUE
      requires |before| + |done| < ColorStream.INT_MAX
      modifies `headers, `accHdrs, `accData, `accDepth, stream, stream.colors
      ensures Entered(orig, seen, before, t, done + [Visit(v, depth)])
      ensures stream.colors == old(stream.colors) || fresh(stream.colors)
    {
      hide ColorStream.Stream.Writing, ColorStream.Stream.Written;
      ghost var visit := Visit(v, depth);
      TallyOne(graph, t, done, visit);
      ColorsOne(orig, done, visit);
      BlocksSnoc(done, visit);
      PaintMore(headers, orig, seen + Blocks(done), v);
      assert seen + Blocks(done + [visit]) == seen + Blocks(done) + {v};
      var sz := headers[v].wosize;
      accData := accData + sz;
      accHdrs := accHdrs + 1;
      if depth > accDepth { accDepth := depth; }
      var col := headers[v].color;
      stream.RunBound();
      stream.WriteColor(col);
      headers := headers[v := Recolor(headers[v], BLUE)];
    }

    /** REC_WALK as c_rec_objsize uses it: the test of a block waits until the next one is found, and
        the last block is left to the goto of the caller. */
    method ScanEntering(v: nat, depth: nat, ghost orig: seq<Header>, ghost seen: set<nat>,
                        ghost before: seq<Color>, ghost t: Totals, ghost done: seq<Visit>, ghost all: seq<Visit>)
        returns (tail: Option<nat>, ghost now: seq<Visit>)
      requires Agrees(graph, orig) && Entered(orig, seen, before, t, done) && v < |orig|
      requires Splits(graph, all, done, graph.PointersFrom(v, 0), depth + 1, seen)
      requires Clear(orig, Blocks(all)) && |before| + |all| <= ColorStream.INT_MAX
      modifies `headers, `accHdrs, `accData, `accDepth, stream, stream.colors
      ensures Entered(orig, seen, before, t, now)
      ensures tail.Some? ==> tail.value < |orig| && tail.value !in seen + Blocks(now)
      ensures Splits(graph, all, now, ToSeq(tail), depth + 1, seen)
      ensures done <= now <= all
      ensures stream.colors == old(stream.colors) || fresh(stream.colors)
      decreases |graph.All() - (seen + Blocks(done))|, 1
    {
      hide ColorStream.Stream.Writing, ColorStream.Stream.Written, Walk, Blocks, Tally, Colors;
      var sz := headers[v].wosize;
      var prev: Option<nat> := None;
      now := done;
      var i := 0;
      assert Rest(graph, v, None, 0) == graph.PointersFrom(v, 0);
      while i < sz
        invariant i <= sz == |graph.fields[v]| && (prev.Some? ==> prev.value < |orig|)
        invariant Entered(orig, seen, before, t, now) && done <= now <= all
        invariant Splits(graph, all, now, Rest(graph, v, prev, i), depth + 1, seen)
        invariant stream.colors == old(stream.colors) || fresh(stream.colors)
      {
        var f := graph.fields[v][i];
        if f.Block? {
          ghost var rest := graph.PointersFrom(v, i);
          if prev.Some? {
            SplitHead(graph, all, now, prev.value, rest, depth + 1, seen);
            BlueIffSeen(headers, orig, seen + Blocks(now), Blocks(all), prev.value);
            if headers[prev.value].color != BLUE {
              ghost var first := Walk(graph, [prev.value], depth + 1, seen + Blocks(now));
              ClearPrefix(orig, now + first, all);
              SeenGrows(graph, seen, done, now);
              RecObjsize(prev.value, depth + 1, orig, seen, before, t, now, now + first);
              now := now + first;
            }
          }
          assert Splits(graph, all, now, rest, depth + 1, seen) by {
            assert ToSeq(None) + rest == rest;
          }
          prev := Some(f.id);
          assert Rest(graph, v, prev, i + 1) == rest;
        }
        i := i + 1;
      }
      tail := None;
      assert Rest(graph, v, prev, sz) == ToSeq(prev);
      if prev.Some? {
        assert ToSeq(prev) == [prev.value] + [];
        SplitHead(graph, all, now, prev.value, [], depth + 1, seen);
        BlueIffSeen(headers, orig, seen + Blocks(now), Blocks(all), prev.value);
        if headers[prev.value].color != BLUE {
          tail := prev;
        }
      }
    }

    /** c_rec_objsize */
    method RecObjsize(v: nat, depth: nat, ghost orig: seq<Header>, ghost seen: set<nat>,
                      ghost before: seq<Color>, ghost t: Totals, ghost done: seq<Visit>, ghost all: seq<Visit>)
      requires Agrees(graph, orig) && Entered(orig, seen, before, t, done)
      requires v < |orig| && v !in seen + Blocks(done)
      requires all == done + Walk(graph, [v], depth, seen + Blocks(done))
      requires Clear(orig, Blocks(all)) && |before| + |all| <= ColorStream.INT_MAX
      modifies `headers, `accHdrs, `accData, `accDepth, stream, stream.colors
      ensures Entered(orig, seen, before, t, all)
      ensures stream.colors == old(stream.colors) || fresh(stream.colors)
      decreases |graph.All() - (seen + Blocks(done))|, 0
    {
      hide ColorStream.Stream.Writing, ColorStream.Stream.Written;
      hide Walk, Blocks, Tally, Colors, Splits, Painted;
      var b: nat, d: nat := v, depth;
      ghost var now := done;
      SplitStart(graph, all, done, v, depth, seen);
      while true
        invariant b < |orig| && b !in seen + Blocks(now)
        invariant Entered(orig, seen, before, t, now) && now <= all
        invariant Splits(graph, all, now, [b], d, seen)
        invariant stream.colors == old(stream.colors) || fresh(stream.colors)
        decreases |graph.All() - (seen + Blocks(now))|
      {
        EnterStep(graph, all, now, b, d, seen);
        EnterBlock(b, d, orig, seen, before, t, now);
        now := now + [Visit(b, d)];
        PaintedTag(graph, headers, orig, seen + Blocks(now), b);
        var tail: Option<nat> := None;
        if headers[b].tag < NO_SCAN_TAG {
          ghost var was := now;
          tail, now := ScanEntering(b, d, orig, seen, before, t, now, all);
          SeenGrows(graph, seen, was, now);
        }
        if tail.None? {
          SplitEnd(graph, all, now, d + 1, seen);
          return;
        }
        b, d := tail.value, d + 1;
      }
    }

    /** The state of the second pass after the visits `now` out of `total`. */
    ghost predicate Leaving(orig: seq<Header>, blue: set<nat>, total: seq<Visit>, now: seq<Visit>)
      reads this, stream, stream.colors
    {
      && now <= total
      && Painted(headers, orig, blue - Blocks(now))
      && stream.Reading() && stream.Remaining() == Colors(orig, total[|now|..])
    }

    /** What restore_colors does to a block on entering it. */
    method LeaveBlock(v: nat, ghost depth: nat, ghost orig: seq<Header>, ghost blue: set<nat>,
                      ghost total: seq<Visit>, ghost now: seq<Visit>)
      requires Leaving(orig, blue, total, now) && now + [Visit(v, depth)] <= total
      requires v < |orig| && v in blue && v !in Blocks(now)
      modifies `headers, stream`readIndex, stream`pending, stream`prevColor, stream`repeatCount
      ensures Leaving(orig, blue, total, now + [Visit(v, depth)])
    {
      hide ColorStream.Stream.Reading, ColorStream.Stream.Remaining, Blocks, Colors, Painted;
      NextColor(orig, total, now, Visit(v, depth));
      UnpaintOne(headers, orig, blue, now, Visit(v, depth));
      var col := stream.ReadColor();
      SameHead(col, stream.Remaining(), orig[v].color, Colors(orig, total[|now + [Visit(v, depth)]|..]));
      PaintedLength(headers, orig, blue - Blocks(now));
      headers := headers[v := Recolor(headers[v], col)];
    }

    /** REC_WALK as restore_colors uses it, with the opposite test. */
    method ScanLeaving(v: nat, ghost depth: nat, ghost orig: seq<Header>, ghost seen: set<nat>,
                       ghost blue: set<nat>, ghost total: seq<Visit>, ghost done: seq<Visit>,
                       ghost all: seq<Visit>)
        returns (tail: Option<nat>, ghost now: seq<Visit>)
      requires Agrees(graph, orig) && Leaving(orig, blue, total, done) && v < |orig|
      requires Splits(graph, all, done, graph.PointersFrom(v, 0), depth + 1, seen)
      requires all <= total && Blocks(all) <= blue && blue !! seen
      requires Clear(orig, seen) && Clear(orig, blue)
      modifies `headers, stream`readIndex, stream`pending, stream`prevColor, stream`repeatCount
      ensures Leaving(orig, blue, total, now)
      ensures tail.Some? ==> tail.value < |orig| && tail.value !in seen + Blocks(now)
      ensures Splits(graph, all, now, ToSeq(tail), depth + 1, seen)
      ensures done <= now <= all
      decreases |graph.All() - (seen + Blocks(done))|, 1
    {
      hide ColorStream.Stream.Reading, ColorStream.Stream.Remaining, Walk, Blocks, Colors;
      PaintedTag(graph, headers, orig, blue - Blocks(done), v);
      var sz := headers[v].wosize;
      var prev: Option<nat> := None;
      now := done;
      var i := 0;
      assert Rest(graph, v, None, 0) == graph.PointersFrom(v, 0);
      while i < sz
        invariant i <= sz == |graph.fields[v]| && (prev.Some? ==> prev.value < |orig|)
        invariant Leaving(orig, blue, total, now) && done <= now <= all
        invariant Splits(graph, all, now, Rest(graph, v, prev, i), depth + 1, seen)
      {
        var f := graph.fields[v][i];
        if f.Block? {
          ghost var rest := graph.PointersFrom(v, i);
          if prev.Some? {
            SplitHead(graph, all, now, prev.value, rest, depth + 1, seen);
            BlueIffUnrestored(headers, orig, blue, seen, now, all, prev.value);
            if headers[prev.value].color == BLUE {
              ghost var first := Walk(graph, [prev.value], depth + 1, seen + Blocks(now));
              PrefixBlocks(now + first, all);
              SeenGrows(graph, seen, done, now);
              RestoreColors(prev.value, depth + 1, orig, seen, blue, total, now, now + first);
              now := now + first;
            }
          }
          assert Splits(graph, all, now, rest, depth + 1, seen) by {
            assert ToSeq(None) + rest == rest;
          }
          prev := Some(f.id);
          assert Rest(graph, v, prev, i + 1) == rest;
        }
        i := i + 1;
      }
      tail := None;
      assert Rest(graph, v, prev, sz) == ToSeq(prev);
      if prev.Some? {
        assert ToSeq(prev) == [prev.value] + [];
        SplitHead(graph, all, now, prev.value, [], depth + 1, seen);
        BlueIffUnrestored(headers, orig, blue, seen, now, all, prev.value);
        if headers[prev.value].color == BLUE {
          tail := prev;
        }
      }
    }

    /** restore_colors */
    method RestoreColors(v: nat, ghost depth: nat, ghost orig: seq<Header>, ghost seen: set<nat>,
                         ghost blue: set<nat>, ghost total: seq<Visit>, ghost done: seq<Visit>,
                         ghost all: seq<Visit>)
      requires Agrees(graph, orig) && Leaving(orig, blue, total, done)
      requires v < |orig| && v !in seen + Blocks(done)
      requires all == done + Walk(graph, [v], depth, seen + Blocks(done))
      requires all <= total && Blocks(all) <= blue && blue !! seen
      requires Clear(orig, seen) && Clear(orig, blue)
      modifies `headers, stream`readIndex, stream`pending, stream`prevColor, stream`repeatCount
      ensures Leaving(orig, blue, total, all)
      decreases |graph.All() - (seen + Blocks(done))|, 0
    {
      hide ColorStream.Stream.Reading, ColorStream.Stream.Remaining;
      hide Walk, Blocks, Colors, Splits, Painted;
      var b: nat := v;
      ghost var d: nat, now := depth, done;
      SplitStart(graph, all, done, v, depth, seen);
      while true
        invariant b < |orig| && b !in seen + Blocks(now)
        invariant Leaving(orig, blue, total, now) && now <= all
        invariant Splits(graph, all, now, [b], d, seen)
        decreases |graph.All() - (seen + Blocks(now))|
      {
        EnterStep(graph, all, now, b, d, seen);
        LeaveBlock(b, d, orig, blue, total, now);
        now := now + [Visit(b, d)];
        PaintedTag(graph, headers, orig, blue - Blocks(now), b);
        var tail: Option<nat> := None;
        if headers[b].tag < NO_SCAN_TAG {
          ghost var was := now;
          tail, now := ScanLeaving(b, d, orig, seen, blue, total, now, all);
          SeenGrows(graph, seen, was, now);
        }
        if tail.None? {
          SplitEnd(graph, all, now, d + 1, seen);
          return;
        }
        b, d := tail.value, d + 1;
      }
    }

    /** The first loop of c_objsize: paint the blocks of the scan list. */
    method PaintScan(scan: Value, ghost xs: seq<nat>, ghost orig: seq<Header>)
      requires Agrees(graph, orig) && headers == orig && |orig| <= ColorStream.INT_MAX
      requires IsList(graph, scan, xs) && Clear(orig, Elements(xs))
      requires stream.Writing() && stream.Written() == []
      modifies `headers, stream, stream.colors
      ensures Painted(headers, orig, Elements(xs))
      ensures stream.Writing() && stream.Written() == Colors(orig, Firsts(xs, {}))
      ensures stream.colors == old(stream.colors) || fresh(stream.colors)
    {
      hide ColorStream.Stream.Writing, ColorStream.Stream.Written, Blocks, Colors;
      var head := scan;
      ghost var all, sofar, ys := Firsts(xs, {}), [], xs;
      ScanStart(graph, scan, xs);
      while head.Block?
        invariant Painted(headers, orig, Blocks(sofar)) && sofar <= all
        invariant stream.Writing() && stream.Written() == Colors(orig, sofar)
        invariant all == sofar + Firsts(ys, Blocks(sofar))
        invariant IsList(graph, head, ys) && Elements(ys) <= Elements(xs)
        invariant stream.colors == old(stream.colors) || fresh(stream.colors)
        decreases ys
      {
        FirstsStep(all, sofar, ys);
        var v := graph.fields[head.id][0].id;
        var col := headers[v].color;
        head := graph.fields[head.id][1];
        assert v in Elements(ys);
        if col != BLUE {
          ColorsOne(orig, sofar, Visit(v, 0));
          PaintMore(headers, orig, Blocks(sofar), v);
          BlocksSnoc(sofar, Visit(v, 0));
          stream.RunBound();
          stream.WriteColor(col);
          headers := headers[v := Recolor(headers[v], BLUE)];
          sofar := sofar + [Visit(v, 0)];
        }
        ys := ys[1..];
      }
      assert sofar == all;
    }

    /** The second loop over the scan list: paint the old colours back. */
    method RestoreScan(scan: Value, ghost xs: seq<nat>, ghost orig: seq<Header>, ghost blue: set<nat>,
                       ghost total: seq<Visit>)
      requires Agrees(graph, orig) && IsList(graph, scan, xs)
      requires Leaving(orig, blue, total, []) && Firsts(xs, {}) <= total
      requires Elements(xs) <= blue && Clear(orig, blue)
      modifies `headers, stream`readIndex, stream`pending, stream`prevColor, stream`repeatCount
      ensures Leaving(orig, blue, total, Firsts(xs, {}))
    {
      hide ColorStream.Stream.Reading, ColorStream.Stream.Remaining, Blocks, Colors;
      var head := scan;
      ghost var all, sofar, ys := Firsts(xs, {}), [], xs;
      ScanStart(graph, scan, xs);
      while head.Block?
        invariant Leaving(orig, blue, total, sofar) && sofar <= all
        invariant all == sofar + Firsts(ys, Blocks(sofar))
        invariant IsList(graph, head, ys) && Elements(ys) <= Elements(xs)
        decreases ys
      {
        FirstsStep(all, sofar, ys);
        var v := graph.fields[head.id][0].id;
        head := graph.fields[head.id][1];
        assert v in Elements(ys);
        if headers[v].color == BLUE {
          LeaveBlock(v, 0, orig, blue, total, sofar);
          sofar := sofar + [Visit(v, 0)];
        }
        ys := ys[1..];
      }
      assert sofar == all;
    }

    /** The loop over the reach list: is one of its blocks still blue? */
    method AnyBlue(reach: Value, ghost rs: seq<nat>) returns (reached: bool)
      requires graph.Valid() && |headers| == |graph.fields| && IsList(graph, reach, rs)
      ensures reached <==> exists r :: r in rs && r < |headers| && headers[r].color == BLUE
    {
      reached := false;
      var q := reach;
      ghost var ys: seq<nat>, before: seq<nat> := rs, [];
      while q.Block?
        invariant IsList(graph, q, ys) && rs == before + ys
        invariant forall r | r in before :: r < |headers| && headers[r].color != BLUE
        invariant !reached
        decreases ys
      {
        var v := graph.fields[q.id][0].id;
        if headers[v].color == BLUE {
          assert v in rs;
          reached := true;
          break;
        }
        q := graph.fields[q.id][1];
        before := before + [ys[0]];
        ys := ys[1..];
      }
    }

    /** The first half of c_objsize: paint, count and write. */
    method FirstPass(v: Value, scan: Value, ghost xs: seq<nat>, ghost orig: seq<Header>)
      requires Agrees(graph, orig) && headers == orig && |orig| <= ColorStream.INT_MAX
      requires (v.Block? ==> v.id < |orig|) && IsList(graph, scan, xs)
      requires Clear(orig, Elements(xs)) && Clear(orig, Reached(graph, v, Elements(xs)))
      requires stream.Writing() && stream.Written() == []
      modifies `headers, `accHdrs, `accData, `accDepth, stream, stream.colors
      ensures Painted(headers, orig, Elements(xs) + Reached(graph, v, Elements(xs)))
      ensures stream.Writing()
      ensures stream.Written() == Colors(orig, Firsts(xs, {}) + Measured(graph, v, Elements(xs)))
      ensures Acc() == Tally(graph, Totals(0, 0, 0), Measured(graph, v, Elements(xs)))
      ensures stream.colors == old(stream.colors) || fresh(stream.colors)
    {
      hide ColorStream.Stream.Writing, ColorStream.Stream.Written;
      hide Colors, Walk, Firsts, Reach, Elements, IsList, Words, Deepest;
      ghost var listed := Elements(xs);
      ghost var sv, w := Firsts(xs, {}), Measured(graph, v, listed);
      WholeRun(graph, orig, v, scan, xs);
      PaintScan(scan, xs, orig);
      accData, accHdrs, accDepth := 0, 0, 0;
      NothingYet(graph, orig, listed);
      assert Entered(orig, listed, Colors(orig, sv), Totals(0, 0, 0), []);
      if v.Block? {
        VisitFirst(graph, v, listed);
        BlueIffSeen(headers, orig, listed, Blocks(w), v.id);
        if headers[v.id].color != BLUE {
          RecObjsize(v.id, 0, orig, listed, Colors(orig, sv), Totals(0, 0, 0), [], w);
        }
      }
      assert Entered(orig, listed, Colors(orig, sv), Totals(0, 0, 0), w);
    }

    /** The second half of c_objsize: read, unpaint and compare, and find the stream used up. */
    method SecondPass(v: Value, scan: Value, reach: Value, ghost xs: seq<nat>, ghost rs: seq<nat>,
                      ghost orig: seq<Header>)
        returns (reached: bool)
      requires Agrees(graph, orig) && (v.Block? ==> v.id < |orig|)
      requires IsList(graph, scan, xs) && IsList(graph, reach, rs)
      requires Clear(orig, Elements(xs)) && Clear(orig, Reached(graph, v, Elements(xs)))
      requires Painted(headers, orig, Elements(xs) + Reached(graph, v, Elements(xs)))
      requires stream.Reading()
      requires stream.Remaining() == Colors(orig, Firsts(xs, {}) + Measured(graph, v, Elements(xs)))
      modifies `headers, stream`readIndex, stream`pending, stream`prevColor, stream`repeatCount
      ensures headers == orig
      ensures reached <==>
        (exists r :: r in rs && r < |orig| && (r in Reached(graph, v, Elements(xs)) || orig[r].color == BLUE))
      ensures stream.repeatCount == 0 && stream.readIndex == stream.writeIndex
    {
      hide ColorStream.Stream.Reading, ColorStream.Stream.Remaining;
      hide Colors, Walk, Firsts, Reach, Elements, IsList, Words, Deepest, Blocks;
      ghost var listed := Elements(xs);
      ghost var sv, w := Firsts(xs, {}), Measured(graph, v, listed);
      ghost var total, blue := sv + w, listed + Blocks(w);
      WholeRun(graph, orig, v, scan, xs);
      NothingYet(graph, orig, blue);
      assert total[0..] == total;
      assert Leaving(orig, blue, total, []);
      RestoreScan(scan, xs, orig, blue, total);
      assert blue - Blocks(sv) == Blocks(w) && {} + Blocks(sv) == listed;
      reached := AnyBlue(reach, rs);
      if v.Block? {
        VisitFirst(graph, v, listed);
        BlueIffUnrestored(headers, orig, blue, {}, sv, total, v.id);
        if headers[v.id].color == BLUE {
          RestoreColors(v.id, 0, orig, {}, blue, total, sv, total);
        }
      }
      assert Leaving(orig, blue, total, total);
      assert total[|total|..] == [];
      AllRestored(headers, orig, blue, total);
      stream.ReadFlush();
    }

    /** c_objsize. Blue is the colour the run time keeps for free blocks, so nothing that is listed or
        reached may be blue at the start. */
    method CObjsize(v: Value, scan: Value, reach: Value, ghost xs: seq<nat>, ghost rs: seq<nat>)
        returns (reached: bool, hdrs: nat, data: nat, depth: nat)
      requires Agrees(graph, headers) && |headers| <= ColorStream.INT_MAX
      requires v.Block? ==> v.id < |headers|
      requires IsList(graph, scan, xs) && IsList(graph, reach, rs)
      requires Clear(headers, Elements(xs)) && Clear(headers, Reached(graph, v, Elements(xs)))
      modifies this
      ensures headers == old(headers)
      ensures hdrs == |Reached(graph, v, Elements(xs))|
      ensures data == Weight(graph, Reached(graph, v, Elements(xs)), |graph.fields|)
      ensures depth == Tally(graph, Totals(0, 0, 0), Measured(graph, v, Elements(xs))).depth
      ensures hdrs > 0 ==> depth < hdrs
      ensures reached <==>
        (exists r :: r in rs && r < |headers| && (r in Reached(graph, v, Elements(xs)) || headers[r].color == BLUE))
    {
      hide ColorStream.Stream.Writing, ColorStream.Stream.Written;
      hide ColorStream.Stream.Reading, ColorStream.Stream.Remaining;
      hide Reached, Measured, Painted, Colors, Firsts, Elements, IsList, Clear, Weight, Tally;
      ghost var orig := headers;
      MeasuredIsReached(graph, v, Elements(xs));
      DepthInCount(graph, v, Elements(xs));
      stream := new ColorStream.Stream();
      FirstPass(v, scan, xs, orig);
      hdrs, data, depth := accHdrs, accData, accDepth;
      stream.WriteFlush();
      stream.StartReading();
      reached := SecondPass(v, scan, reach, xs, rs, orig);
    }
  }
}
