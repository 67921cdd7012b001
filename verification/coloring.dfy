/** What the Welsh-Powell colourer promises: a proper colouring with slot
    indices from the palette, where each vertex got the smallest index its
    earlier-coloured neighbours left free. The algorithm itself is
    `Generator.TimetableGenerator.WelshPowellColoring`. */
module Coloring {
  import opened Records
  import opened ConflictGraph

  /** The colouring stage either colours every course or stops at the first
      course whose neighbours already use every slot index. */
  datatype ColoringResult =
    | Colored(colors: map<nat, nat>)
    | CapacityExceeded(course: nat, degree: nat)

  /** No edge joins two courses of the same colour. */
  ghost predicate Proper(graph: Graph, colors: map<nat, nat>) {
    forall u, w :: u in colors && w in colors && 0 <= u < |graph| && w in graph[u] ==> colors[u] != colors[w]
  }

  /** Every course `0 .. n - 1` has a colour, and only those do; every
      colour is a slot index below `slots`. */
  ghost predicate Complete(colors: map<nat, nat>, n: nat, slots: nat) {
    && (forall v: int :: v in colors <==> 0 <= v < n)
    && forall v :: v in colors ==> colors[v] < slots
  }

  /** Colour `c` is used by a neighbour of `order[p]` visited before it. */
  ghost predicate TakenBefore(graph: Graph, order: seq<nat>, colors: map<nat, nat>, p: nat, c: nat) {
    && p < |order|
    && order[p] < |graph|
    && exists q :: 0 <= q < p && order[q] in graph[order[p]] && order[q] in colors && colors[order[q]] == c
  }

  /** Greedy first fit along `order`: every colour below the one a vertex
      got was already taken by an earlier neighbour. */
  ghost predicate FirstFit(graph: Graph, order: seq<nat>, colors: map<nat, nat>) {
    forall p, c :: 0 <= p < |order| && order[p] in colors && 0 <= c < colors[order[p]] ==>
      TakenBefore(graph, order, colors, p, c)
  }

  /** The colouring after the first `p` vertices of `order` are processed:
      exactly those vertices are coloured, with indices below `slots`,
      properly, and each by first fit. */
  ghost predicate PartialColoring(graph: Graph, order: seq<nat>, colors: map<nat, nat>, p: nat, slots: nat) {
    && p <= |order|
    && (forall v: nat :: v in colors <==> v in order[..p])
    && (forall v :: v in colors ==> colors[v] < slots)
    && Proper(graph, colors)
    && forall q, c :: 0 <= q < p && 0 <= c < colors[order[q]] ==> TakenBefore(graph, order, colors, q, c)
  }

  /** Giving `v` an index no neighbour of it uses keeps the colouring
      proper. */
  lemma FreshColourKeepsProper(graph: Graph, colors: map<nat, nat>, v: nat, c: nat)
    requires Undirected(graph) && Proper(graph, colors) && v < |graph|
    requires c !in NeighbourColours(graph[v], colors)
    ensures Proper(graph, colors[v := c])
  {
    var next := colors[v := c];
    forall u, w | u in next && w in next && 0 <= u < |graph| && w in graph[u]
      ensures next[u] != next[w]
    {
      if u == v && w != v {
        assert colors[w] in NeighbourColours(graph[v], colors);
      } else if w == v && u != v {
        assert u in graph[v];
        assert colors[u] in NeighbourColours(graph[v], colors);
      }
    }
  }

  /** Giving `order[p]` the smallest index its coloured neighbours leave
      free extends the partial colouring by one vertex. */
  lemma ColorStep(graph: Graph, order: seq<nat>, colors: map<nat, nat>, p: nat, slots: nat, c: nat)
    requires Undirected(graph)
    requires forall q :: 0 <= q < |order| ==> order[q] < |graph|
    requires forall q1, q2 :: 0 <= q1 < q2 < |order| ==> order[q1] != order[q2]
    requires PartialColoring(graph, order, colors, p, slots) && p < |order|
    requires c < slots && c !in NeighbourColours(graph[order[p]], colors)
    requires forall d :: 0 <= d < c ==> d in NeighbourColours(graph[order[p]], colors)
    ensures PartialColoring(graph, order, colors[order[p] := c], p + 1, slots)
  {
    var v := order[p];
    var next := colors[v := c];
    assert order[..p + 1] == order[..p] + [v];
    forall q | 0 <= q < p ensures order[q] != v {
    }
    assert v !in order[..p];
    FreshColourKeepsProper(graph, colors, v, c);
    forall q, d | 0 <= q < p + 1 && 0 <= d < next[order[q]]
      ensures TakenBefore(graph, order, next, q, d)
    {
      if q < p {
        assert order[q] != v && order[q] in order[..p];
        TakenBeforeKept(graph, order, colors, p, q, d, c);
      } else {
        TakenBeforeNew(graph, order, colors, p, d, c);
      }
    }
  }

  /** A colour taken before an earlier vertex stays taken once `order[p]`
      is coloured. */
  lemma TakenBeforeKept(graph: Graph, order: seq<nat>, colors: map<nat, nat>, p: nat, q: nat, d: nat, c: nat)
    requires q < p < |order| && order[p] !in order[..p]
    requires TakenBefore(graph, order, colors, q, d)
    ensures TakenBefore(graph, order, colors[order[p] := c], q, d)
  {
    var q' :| 0 <= q' < q && order[q'] in graph[order[q]] && order[q'] in colors && colors[order[q']] == d;
    assert order[q'] in order[..p];
  }

  /** Every index below the one chosen for `order[p]` is taken by an earlier
      neighbour. */
  lemma TakenBeforeNew(graph: Graph, order: seq<nat>, colors: map<nat, nat>, p: nat, d: nat, c: nat)
    requires p < |order| && order[p] < |graph| && order[p] !in order[..p]
    requires forall v: nat :: v in colors <==> v in order[..p]
    requires d in NeighbourColours(graph[order[p]], colors)
    ensures TakenBefore(graph, order, colors[order[p] := c], p, d)
  {
    var v := order[p];
    var u :| u in graph[v] && u in colors && colors[u] == d;
    assert u in order[..p];
    var q' :| 0 <= q' < p && order[q'] == u;
    assert u != v;
  }

  /** The greedy is stuck at `order[p]`: the first `p` vertices are
      coloured by first fit, and every index below `slots` is already used
      by a coloured neighbour of `order[p]`. */
  ghost predicate StuckAt(graph: Graph, order: seq<nat>, colors: map<nat, nat>, p: nat, slots: nat) {
    && p < |order|
    && order[p] < |graph|
    && PartialColoring(graph, order, colors, p, slots)
    && forall c :: 0 <= c < slots ==> c in NeighbourColours(graph[order[p]], colors)
  }

  /** The first `n` vertices of `order` are coloured, each by first fit. */
  ghost predicate FirstFitUpTo(graph: Graph, order: seq<nat>, colors: map<nat, nat>, n: nat) {
    && n <= |order|
    && forall q :: 0 <= q < n ==>
         && order[q] < |graph|
         && order[q] in colors
         && forall c :: 0 <= c < colors[order[q]] ==> TakenBefore(graph, order, colors, q, c)
  }

  /** An index below the first-fit index of `order[q]` in `cb` is used by an
      earlier neighbour, so a proper colouring `ca` that agrees with `cb`
      before `order[q]` cannot give it to `order[q]`. */
  lemma TakenIndexAvoided(graph: Graph, order: seq<nat>, ca: map<nat, nat>, cb: map<nat, nat>, n: nat, q: nat, d: nat)
    requires FirstFitUpTo(graph, order, ca, n) && FirstFitUpTo(graph, order, cb, n)
    requires Proper(graph, ca) && q < n
    requires forall r :: 0 <= r < q ==> ca[order[r]] == cb[order[r]]
    requires d < cb[order[q]]
    ensures d != ca[order[q]]
  {
    var v := order[q];
    assert TakenBefore(graph, order, cb, q, d);
    var r :| 0 <= r < q && order[r] in graph[v] && order[r] in cb && cb[order[r]] == d;
    assert ca[order[r]] == d;
  }

  /** Two proper first-fit colourings along the same order that agree on
      the vertices before `order[q]` give it the same index. */
  lemma FirstFitAgreeAt(graph: Graph, order: seq<nat>, c1: map<nat, nat>, c2: map<nat, nat>, n: nat, q: nat)
    requires FirstFitUpTo(graph, order, c1, n) && FirstFitUpTo(graph, order, c2, n)
    requires Proper(graph, c1) && Proper(graph, c2) && q < n
    requires forall r :: 0 <= r < q ==> c1[order[r]] == c2[order[r]]
    ensures c1[order[q]] == c2[order[q]]
  {
    var v := order[q];
    if c1[v] < c2[v] {
      TakenIndexAvoided(graph, order, c1, c2, n, q, c1[v]);
      assert false;
    } else if c2[v] < c1[v] {
      TakenIndexAvoided(graph, order, c2, c1, n, q, c2[v]);
      assert false;
    }
  }

  /** First fit along an order determines the colouring: two proper
      first-fit colourings of the first `q` vertices agree on them. */
  lemma {:induction false} FirstFitAgree(graph: Graph, order: seq<nat>, c1: map<nat, nat>, c2: map<nat, nat>, n: nat, q: nat)
    requires FirstFitUpTo(graph, order, c1, n) && FirstFitUpTo(graph, order, c2, n)
    requires Proper(graph, c1) && Proper(graph, c2) && q <= n
    ensures forall r :: 0 <= r < q ==> c1[order[r]] == c2[order[r]]
    decreases q
  {
    if q > 0 {
      var i := q - 1;
      FirstFitAgree(graph, order, c1, c2, n, i);
      FirstFitAgreeAt(graph, order, c1, c2, n, i);
    }
  }

  /** A complete proper first-fit colouring along `order` is first fit on
      every prefix. */
  lemma CompleteIsFirstFitUpTo(graph: Graph, order: seq<nat>, colors: map<nat, nat>, slots: nat)
    requires forall v: int :: v in order <==> 0 <= v < |graph|
    requires Complete(colors, |graph|, slots) && FirstFit(graph, order, colors)
    ensures FirstFitUpTo(graph, order, colors, |order|)
  {
    forall q | 0 <= q < |order| ensures order[q] < |graph| && order[q] in colors {
      assert order[q] in order;
    }
  }

  /** The colouring the greedy produces along a given order is the only
      complete proper first-fit colouring along it. */
  lemma FirstFitUnique(graph: Graph, order: seq<nat>, c1: map<nat, nat>, c2: map<nat, nat>, slots: nat)
    requires forall v: int :: v in order <==> 0 <= v < |graph|
    requires Complete(c1, |graph|, slots) && Proper(graph, c1) && FirstFit(graph, order, c1)
    requires Complete(c2, |graph|, slots) && Proper(graph, c2) && FirstFit(graph, order, c2)
    ensures c1 == c2
  {
    CompleteIsFirstFitUpTo(graph, order, c1, slots);
    CompleteIsFirstFitUpTo(graph, order, c2, slots);
    FirstFitAgree(graph, order, c1, c2, |order|, |order|);
    forall v | v in c1 ensures v in c2 && c1[v] == c2[v] {
      assert v in order;
      var q :| 0 <= q < |order| && order[q] == v;
    }
    assert c1.Keys == c2.Keys;
  }

  /** When the greedy gets stuck, no complete proper first-fit colouring
      along the same order exists: every complete first-fit colouring gives
      the stuck vertex the index of one of its neighbours. */
  lemma StuckMeansNoColoring(graph: Graph, order: seq<nat>, partial: map<nat, nat>, p: nat, slots: nat, colors: map<nat, nat>)
    requires forall v: int :: v in order <==> 0 <= v < |graph|
    requires StuckAt(graph, order, partial, p, slots)
    ensures Complete(colors, |graph|, slots) && FirstFit(graph, order, colors) ==> !Proper(graph, colors)
  {
    if Complete(colors, |graph|, slots) && FirstFit(graph, order, colors) && Proper(graph, colors) {
      CompleteIsFirstFitUpTo(graph, order, colors, slots);
      forall q | 0 <= q < p ensures order[q] < |graph| && order[q] in partial {
        assert order[q] in order[..p];
        assert order[q] in order;
      }
      FirstFitAgree(graph, order, colors, partial, p, p);
      StuckVertexShares(graph, order, partial, p, slots, colors);
      assert false;
    }
  }

  /** The colouring stage has one possible successful outcome: complete
      proper first-fit colourings along degree orders are all the same. */
  lemma ColoringDetermined(graph: Graph, o1: seq<nat>, o2: seq<nat>, c1: map<nat, nat>, c2: map<nat, nat>, slots: nat)
    requires IsDegreeOrder(graph, o1) && IsDegreeOrder(graph, o2)
    requires Complete(c1, |graph|, slots) && Proper(graph, c1) && FirstFit(graph, o1, c1)
    requires Complete(c2, |graph|, slots) && Proper(graph, c2) && FirstFit(graph, o2, c2)
    ensures c1 == c2
  {
    DegreeOrderUnique(graph, o1, o2);
    DegreeOrderFacts(graph, o1);
    FirstFitUnique(graph, o1, c1, c2, slots);
  }

  /** A complete colouring that agrees with a stuck greedy before the stuck
      vertex gives that vertex the index of one of its neighbours. */
  lemma StuckVertexShares(graph: Graph, order: seq<nat>, partial: map<nat, nat>, p: nat, slots: nat, colors: map<nat, nat>)
    requires forall v: int :: v in order <==> 0 <= v < |graph|
    requires StuckAt(graph, order, partial, p, slots) && Complete(colors, |graph|, slots)
    requires forall r :: 0 <= r < p ==> order[r] in colors && order[r] in partial && colors[order[r]] == partial[order[r]]
    ensures exists u :: u in graph[order[p]] && u in colors && colors[u] == colors[order[p]]
  {
    var v := order[p];
    assert v in order;
    assert colors[v] in NeighbourColours(graph[v], partial);
    var u :| u in graph[v] && u in partial && partial[u] == colors[v];
    assert u in order[..p];
    var r :| 0 <= r < p && order[r] == u;
    assert u in order;
    assert colors[u] == colors[v];
  }

  /** The colouring is complete once every vertex of `order` is processed. */
  lemma PartialColoringDone(graph: Graph, order: seq<nat>, colors: map<nat, nat>, slots: nat)
    requires forall v: int :: v in order <==> 0 <= v < |graph|
    requires PartialColoring(graph, order, colors, |order|, slots)
    ensures Complete(colors, |graph|, slots) && Proper(graph, colors) && FirstFit(graph, order, colors)
  {
    assert order[..|order|] == order;
  }

  /** A course coloured properly in the conflict graph never shares its slot
      with a course of the same teacher or student group. */
  lemma ProperSeparatesClashes(courses: seq<Course>, graph: Graph, colors: map<nat, nat>, a: nat, b: nat)
    requires IsConflictGraph(courses, graph) && Proper(graph, colors)
    requires a < |courses| && b < |courses| && a != b && a in colors && b in colors
    requires Clash(courses[a], courses[b])
    ensures colors[a] != colors[b]
  {
    assert b in graph[a];
  }

  /** With a catalog of pairwise disjoint slots, two clashing courses of a
      proper colouring sit in slots that do not overlap: no teacher and no
      student group is in two places at once. */
  lemma ClashingCoursesApart(courses: seq<Course>, graph: Graph, colors: map<nat, nat>, slots: seq<TimeSlot>, a: nat, b: nat)
    requires IsConflictGraph(courses, graph) && Proper(graph, colors)
    requires Complete(colors, |courses|, |slots|)
    requires forall x, y :: 0 <= x < |slots| && 0 <= y < |slots| && x != y ==> !Overlap(slots[x], slots[y])
    requires a < |courses| && b < |courses| && a != b && Clash(courses[a], courses[b])
    ensures !Overlap(slots[colors[a]], slots[colors[b]])
  {
    ProperSeparatesClashes(courses, graph, colors, a, b);
  }

  /** The colours already given to the vertices of `nbrs`. */
  function NeighbourColours(nbrs: set<nat>, colors: map<nat, nat>): set<nat> {
    set u | u in nbrs && u in colors :: colors[u]
  }

  /** If every index `0 .. T - 1` is in use, at least `T` colours are. */
  lemma {:induction false} PaletteExhausted(used: set<nat>, T: nat)
    requires forall c :: 0 <= c < T ==> c in used
    ensures T <= |used|
    decreases T
  {
    if T > 0 {
      PaletteExhausted(used - {T - 1}, T - 1);
    }
  }

  /** A vertex's neighbours use at most as many colours as it has
      neighbours. */
  lemma {:induction false} NeighbourColoursBound(nbrs: set<nat>, colors: map<nat, nat>)
    ensures |NeighbourColours(nbrs, colors)| <= |nbrs|
    decreases |nbrs|
  {
    if nbrs != {} {
      var x :| x in nbrs;
      var rest := nbrs - {x};
      NeighbourColoursBound(rest, colors);
      var img := NeighbourColours(nbrs, colors);
      var imgRest := NeighbourColours(rest, colors);
      var extra: set<nat> := if x in colors then {colors[x]} else {};
      assert img <= imgRest + extra;
      SubsetCard(img, imgRest + extra);
    }
  }

  lemma {:induction false} SubsetCard(a: set<nat>, b: set<nat>)
    requires a <= b
    ensures |a| <= |b|
    decreases |b|
  {
    if a != {} {
      var x :| x in a;
      SubsetCard(a - {x}, b - {x});
    }
  }

  /** When the colourer finds no free index for a course, that course has
      at least as many neighbours as there are slots. */
  lemma CapacityNeedsDegree(nbrs: set<nat>, colors: map<nat, nat>, slots: nat)
    requires forall c :: 0 <= c < slots ==> c in NeighbourColours(nbrs, colors)
    ensures slots <= |nbrs|
  {
    PaletteExhausted(NeighbourColours(nbrs, colors), slots);
    NeighbourColoursBound(nbrs, colors);
  }
}
