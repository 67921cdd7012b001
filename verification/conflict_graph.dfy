/** The conflict graph over courses, identified by their registration
    position: two distinct courses are adjacent when they share a teacher or
    a student group. Also the order in which the colourer visits vertices:
    by degree, descending, ties in registration order. */
module ConflictGraph {
  import opened Records
  import opened StableSort

  /** Adjacency sets: `graph[i]` holds the positions of the neighbours of
      course `i`. */
  type Graph = seq<set<nat>>

  /** Two courses that may not be taught at the same time. */
  predicate Clash(a: Course, b: Course) {
    a.teacher == b.teacher || a.studentGroup == b.studentGroup
  }

  /** `graph` has exactly one vertex per course and exactly the conflict
      edges between distinct courses. */
  ghost predicate IsConflictGraph(courses: seq<Course>, graph: Graph) {
    && |graph| == |courses|
    && (forall i: nat, j: nat :: i < |graph| && j in graph[i] ==> j < |graph|)
    && forall i, j :: 0 <= i < |courses| && 0 <= j < |courses| ==>
         (j in graph[i] <==> i != j && Clash(courses[i], courses[j]))
  }

  /** A simple undirected graph on the vertices `0 .. |graph| - 1`. */
  ghost predicate Undirected(graph: Graph) {
    && (forall i: nat, j: nat :: i < |graph| && j in graph[i] ==> j < |graph| && j != i)
    && forall i: nat, j: nat :: i < |graph| && j < |graph| && j in graph[i] ==> i in graph[j]
  }

  /** Every edge of `graph` is a conflict edge (the graph may still lack
      some). */
  ghost predicate WithinConflicts(courses: seq<Course>, graph: Graph) {
    && |graph| == |courses|
    && Undirected(graph)
    && forall i, j :: 0 <= i < |graph| && 0 <= j < |graph| && j in graph[i] ==> Clash(courses[i], courses[j])
  }

  /** The conflict graph is undirected and has no self-loops. */
  lemma ConflictGraphIsUndirected(courses: seq<Course>, graph: Graph)
    requires IsConflictGraph(courses, graph)
    ensures Undirected(graph) && WithinConflicts(courses, graph)
  {
    forall i, j | 0 <= i < |graph| && j in graph[i] ensures j < |graph| && j != i && i in graph[j] {
      assert j < |courses|;
      assert Clash(courses[j], courses[i]);
    }
  }

  /** The graph with one more undirected edge `{u, v}`. */
  function AddEdge(graph: Graph, u: nat, v: nat): (g: Graph)
    requires u < |graph| && v < |graph|
    ensures |g| == |graph| && u in g[v] && v in g[u]
    ensures forall w :: 0 <= w < |graph| ==> g[w] == graph[w] + (if w == u then {v} else {}) + (if w == v then {u} else {})
  {
    graph[u := graph[u] + {v}][v := graph[v] + {u}]
  }

  /** Adding the edge between two distinct clashing courses keeps every
      edge a conflict edge. */
  lemma AddEdgeKeepsConflicts(courses: seq<Course>, graph: Graph, u: nat, v: nat)
    requires WithinConflicts(courses, graph)
    requires u < |graph| && v < |graph| && u != v && Clash(courses[u], courses[v])
    ensures WithinConflicts(courses, AddEdge(graph, u, v))
  {
    var g := AddEdge(graph, u, v);
    assert Undirected(graph);
    forall i: nat, j: nat | i < |g| && j in g[i]
      ensures j < |g| && j != i && i in g[j] && Clash(courses[i], courses[j])
    {
      if j in graph[i] {
        assert j < |graph| && j != i && i in graph[j];
        assert graph[j] <= g[j];
      } else {
        assert (i == u && j == v) || (i == v && j == u);
      }
    }
  }

  /** A new course starts as a vertex without edges. */
  lemma AddVertexKeepsConflicts(courses: seq<Course>, graph: Graph, c: Course)
    requires WithinConflicts(courses, graph)
    ensures WithinConflicts(courses + [c], graph + [{}])
  {
    var cs, g := courses + [c], graph + [{}];
    assert Undirected(graph);
    forall i: nat, j: nat | i < |g| && j in g[i]
      ensures j < |g| && j != i && i in g[j] && Clash(cs[i], cs[j])
    {
      assert i < |graph| && g[i] == graph[i] && cs[i] == courses[i];
      assert j in graph[i];
      assert j < |graph| && j != i && i in graph[j];
      assert g[j] == graph[j] && cs[j] == courses[j];
    }
  }

  function Indices(n: nat): (r: seq<nat>)
    ensures |r| == n && forall i :: 0 <= i < n ==> r[i] == i
  {
    seq(n, i => i)
  }

  /** Sorting ascending by this key sorts vertices by degree, descending. */
  function DegreeKey(graph: Graph): nat -> int {
    (v: nat) => if v < |graph| then -|graph[v]| else 0
  }

  /** `order` is the vertex list `0 .. |graph| - 1` stably sorted by
      descending degree. */
  ghost predicate IsDegreeOrder(graph: Graph, order: seq<nat>) {
    StableSortOf(order, Indices(|graph|), DegreeKey(graph))
  }

  /** There is exactly one visiting order: the stable sort by degree has a
      single possible result. */
  lemma DegreeOrderUnique(graph: Graph, o1: seq<nat>, o2: seq<nat>)
    requires IsDegreeOrder(graph, o1) && IsDegreeOrder(graph, o2)
    ensures o1 == o2
  {
    var key := DegreeKey(graph);
    assert forall k :: WithKey(o1, key, k) == WithKey(Indices(|graph|), key, k);
    assert forall k :: WithKey(o2, key, k) == WithKey(Indices(|graph|), key, k);
    StableSortUnique(o1, o2, key);
  }

  lemma {:induction false} WithKeyIncreasing(s: seq<nat>, key: nat -> int, k: int)
    requires forall i, j :: 0 <= i < j < |s| ==> s[i] < s[j]
    ensures forall i, j :: 0 <= i < j < |WithKey(s, key, k)| ==> WithKey(s, key, k)[i] < WithKey(s, key, k)[j]
    decreases |s|
  {
    if s != [] {
      var rest := WithKey(s[1..], key, k);
      WithKeyIncreasing(s[1..], key, k);
      if key(s[0]) == k {
        forall i | 0 <= i < |rest| ensures s[0] < rest[i] {
          WithKeyMembers(s[1..], key, k, rest[i]);
        }
        assert WithKey(s, key, k) == [s[0]] + rest;
      }
    }
  }

  /** The visiting order is a permutation of the vertices, degrees never
      increase along it, and vertices of equal degree keep registration
      order. */
  lemma DegreeOrderFacts(graph: Graph, order: seq<nat>)
    requires IsDegreeOrder(graph, order)
    ensures |order| == |graph|
    ensures forall v: int :: v in order <==> 0 <= v < |graph|
    ensures forall p :: 0 <= p < |order| ==> order[p] < |graph|
    ensures forall p, q :: 0 <= p < q < |order| ==> |graph[order[p]]| >= |graph[order[q]]|
    ensures forall p, q :: 0 <= p < q < |order| && |graph[order[p]]| == |graph[order[q]]| ==> order[p] < order[q]
    ensures forall p, q :: 0 <= p < q < |order| ==> order[p] != order[q]
  {
    var n := |graph|;
    var ix := Indices(n);
    var key := DegreeKey(graph);
    assert multiset(order) == multiset(ix);
    assert |multiset(order)| == |multiset(ix)|;
    forall v: int ensures v in order <==> 0 <= v < n {
      assert v in order <==> v in multiset(order);
      assert v in ix <==> v in multiset(ix);
      if 0 <= v < n { assert ix[v] == v; }
    }
    forall p | 0 <= p < |order| ensures order[p] < n {
      assert order[p] in order;
    }
    forall p, q | 0 <= p < q < |order| && |graph[order[p]]| == |graph[order[q]]|
      ensures order[p] < order[q]
    {
      assert order[p] in order && order[q] in order;
      var k := key(order[p]);
      assert key(order[q]) == k;
      WithKeyAt(order, key, p);
      WithKeyAt(order, key, q);
      WithKeyKeepsOrder(order, key, p, q);
      WithKeyIncreasing(ix, key, k);
      assert WithKey(order, key, k) == WithKey(ix, key, k);
    }
    forall p, q | 0 <= p < q < |order| ensures |graph[order[p]]| >= |graph[order[q]]| {
      assert order[p] in order && order[q] in order;
      assert key(order[p]) <= key(order[q]);
    }
  }
}
