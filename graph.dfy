/**
 The flowchart snapshot the validator reads: nodes and edges as plain
 records, the `filter` the validator applies to them, and the graph notions
 (paths, reachability, cycles) its two depth-first searches are about.
 */
module FlowGraph {

  /** Node and edge identifiers are opaque strings. */
  type Id = string

  /** Only the type strings "start" and "end" are ever compared; every other
      type string behaves alike. */
  datatype Kind = Start | End | Other

  /** `caption` is the node's display label (`label` is a keyword in Dafny). */
  datatype Node = Node(id: Id, kind: Kind, caption: string)

  /** An edge may name ids of nodes that are not in the snapshot. */
  datatype Edge = Edge(id: Id, source: Id, target: Id)

  predicate IsStart(n: Node) { n.kind == Start }

  predicate IsEnd(n: Node) { n.kind == End }

  predicate IsNotEnd(n: Node) { n.kind != End }

  function SourceIs(id: Id): Edge -> bool { (e: Edge) => e.source == id }

  function TargetIs(id: Id): Edge -> bool { (e: Edge) => e.target == id }

  /** The nodes whose id is not in `ids`. */
  function Outside(ids: set<Id>): Node -> bool { (n: Node) => n.id !in ids }

  // ---------------------------------------------------------------------
  // Array.prototype.filter
  // ---------------------------------------------------------------------

  /** The elements of `s` that satisfy `p`, in their order in `s`. */
  function Filter<T(!new)>(s: seq<T>, p: T -> bool): (r: seq<T>)
    ensures |r| <= |s|
    ensures forall x :: x in r <==> x in s && p(x)
  {
    if s == [] then []
    else if p(s[0]) then [s[0]] + Filter(s[1..], p)
    else Filter(s[1..], p)
  }

  /** Filtering distributes over concatenation, so it keeps the order of `s`. */
  lemma {:induction false} FilterConcat<T(!new)>(a: seq<T>, b: seq<T>, p: T -> bool)
    ensures Filter(a + b, p) == Filter(a, p) + Filter(b, p)
  {
    if a == [] {
      assert a + b == b;
    } else {
      assert (a + b)[1..] == a[1..] + b;
      FilterConcat(a[1..], b, p);
    }
  }

  /** Filtering a one-element sequence. */
  lemma FilterSingle<T(!new)>(x: T, p: T -> bool)
    ensures Filter([x], p) == if p(x) then [x] else []
  {
    assert [x][1..] == [];
  }

  /** Filtering by two predicates that agree on `s` gives the same sequence. */
  lemma {:induction false} FilterExt<T(!new)>(s: seq<T>, p: T -> bool, q: T -> bool)
    requires forall x :: x in s ==> p(x) == q(x)
    ensures Filter(s, p) == Filter(s, q)
  {
    if s != [] {
      FilterExt(s[1..], p, q);
    }
  }

  /** A filter that keeps everything is the identity. */
  lemma {:induction false} FilterAll<T(!new)>(s: seq<T>, p: T -> bool)
    requires forall x :: x in s ==> p(x)
    ensures Filter(s, p) == s
  {
    if s != [] {
      FilterAll(s[1..], p);
    }
  }

  /** A filter that keeps nothing is empty. */
  lemma FilterNone<T(!new)>(s: seq<T>, p: T -> bool)
    requires forall x :: x in s ==> !p(x)
    ensures Filter(s, p) == []
  {
    if Filter(s, p) != [] {
      assert Filter(s, p)[0] in Filter(s, p);
    }
  }

  /** A filter keeps nothing exactly when no element satisfies the predicate. */
  lemma FilterEmpty<T(!new)>(s: seq<T>, p: T -> bool)
    ensures Filter(s, p) == [] <==> forall i :: 0 <= i < |s| ==> !p(s[i])
  {
    if exists i :: 0 <= i < |s| && p(s[i]) {
      var i :| 0 <= i < |s| && p(s[i]);
      assert s[i] in Filter(s, p);
    } else {
      FilterNone(s, p);
    }
  }

  /** The first element a filter keeps is the first element of `s` that
      satisfies the predicate. */
  lemma {:induction false} FilterFirst<T(!new)>(s: seq<T>, p: T -> bool)
    requires Filter(s, p) != []
    ensures exists k :: 0 <= k < |s| && p(s[k]) && (forall j :: 0 <= j < k ==> !p(s[j]))
                        && Filter(s, p)[0] == s[k]
  {
    if p(s[0]) {
      assert p(s[0]) && Filter(s, p)[0] == s[0];
    } else {
      FilterFirst(s[1..], p);
      var k :| 0 <= k < |s[1..]| && p(s[1..][k]) && (forall j :: 0 <= j < k ==> !p(s[1..][j]))
               && Filter(s[1..], p)[0] == s[1..][k];
      assert forall j :: 0 <= j < k + 1 ==> !p(s[j]) by {
        forall j | 0 <= j < k + 1 ensures !p(s[j]) {
          if j > 0 { assert s[j] == s[1..][j - 1]; }
        }
      }
      assert p(s[k + 1]) && Filter(s, p)[0] == s[k + 1];
    }
  }

  /** The `id` of each node, in order (`nodes.map((node) => node.id)`). */
  function NodeIds(ns: seq<Node>): seq<Id>
  {
    seq(|ns|, i requires 0 <= i < |ns| => ns[i].id)
  }

  /** The `id` of each edge, in order (`edges.map((edge) => edge.id)`). */
  function EdgeIds(es: seq<Edge>): seq<Id>
  {
    seq(|es|, i requires 0 <= i < |es| => es[i].id)
  }

  /** The edges leaving `id`, in edge order. */
  function Outgoing(edges: seq<Edge>, id: Id): seq<Edge>
  {
    Filter(edges, SourceIs(id))
  }

  /** The edges entering `id`, in edge order. */
  function Incoming(edges: seq<Edge>, id: Id): seq<Edge>
  {
    Filter(edges, TargetIs(id))
  }

  // ---------------------------------------------------------------------
  // `[...new Set(s)]`: duplicates removed, first occurrences kept in order
  // ---------------------------------------------------------------------

  predicate NoDuplicates<T(==)>(s: seq<T>)
  {
    forall i, j :: 0 <= i < j < |s| ==> s[i] != s[j]
  }

  function Dedup<T(==,!new)>(s: seq<T>): (r: seq<T>)
    ensures forall x :: x in r <==> x in s
    ensures NoDuplicates(r)
  {
    if s == [] then []
    else
      var r0 := Dedup(s[..|s| - 1]);
      if s[|s| - 1] in r0 then r0 else r0 + [s[|s| - 1]]
  }

  /** Removing duplicates from a sequence that has none changes nothing. */
  lemma {:induction false} DedupDistinct<T(!new)>(s: seq<T>)
    requires NoDuplicates(s)
    ensures Dedup(s) == s
  {
    if s != [] {
      var init := s[..|s| - 1];
      DedupDistinct(init);
      assert forall i :: 0 <= i < |init| ==> init[i] == s[i];
      assert s[|s| - 1] !in init;
      assert init + [s[|s| - 1]] == s;
    }
  }

  /** The position of the first occurrence of `x` in `s`. */
  ghost function FirstIndex<T>(s: seq<T>, x: T): (k: nat)
    requires x in s
    ensures k < |s| && s[k] == x && x !in s[..k]
  {
    if s[0] == x then 0
    else
      var k := FirstIndex(s[1..], x);
      assert s[..k + 1] == [s[0]] + s[1..][..k];
      k + 1
  }

  /** A position holding `x` with no `x` before it is the first occurrence. */
  lemma FirstIndexUnique<T>(s: seq<T>, x: T, k: nat)
    requires k < |s| && s[k] == x && x !in s[..k]
    ensures FirstIndex(s, x) == k
  {
    var f := FirstIndex(s, x);
    forall t | 0 <= t < |s|
      ensures t < k ==> s[t] in s[..k]
      ensures t < f ==> s[t] in s[..f]
    {
      if t < k { assert s[..k][t] == s[t]; }
      if t < f { assert s[..f][t] == s[t]; }
    }
  }

  /** The elements of `r` occur in `s`, in the order of their first
      occurrences there. */
  ghost predicate InFirstOrder<T>(s: seq<T>, r: seq<T>)
  {
    && (forall x :: x in r ==> x in s)
    && forall i, j :: 0 <= i < j < |r| ==> FirstIndex(s, r[i]) < FirstIndex(s, r[j])
  }

  /** Appending `y` leaves the first occurrences of the earlier elements
      where they were, and puts a new element's first occurrence last. */
  lemma FirstIndexAppend<T>(init: seq<T>, y: T)
    ensures forall x :: x in init ==> FirstIndex(init + [y], x) == FirstIndex(init, x)
    ensures y !in init ==> FirstIndex(init + [y], y) == |init|
  {
    var s := init + [y];
    forall x | x in init
      ensures FirstIndex(s, x) == FirstIndex(init, x)
    {
      var k := FirstIndex(init, x);
      assert s[..k] == init[..k];
      FirstIndexUnique(s, x, k);
    }
    if y !in init {
      assert s[..|init|] == init;
      FirstIndexUnique(s, y, |init|);
    }
  }

  /** The order of first occurrences survives appending to `s`, and to both
      `s` and `r` when the appended element is new. */
  lemma InFirstOrderAppend<T>(init: seq<T>, r: seq<T>, y: T)
    requires InFirstOrder(init, r)
    ensures InFirstOrder(init + [y], r)
    ensures y !in init ==> InFirstOrder(init + [y], r + [y])
  {
    var s := init + [y];
    FirstIndexAppend(init, y);
    if y !in init {
      var r' := r + [y];
      forall i, j | 0 <= i < j < |r'|
        ensures FirstIndex(s, r'[i]) < FirstIndex(s, r'[j])
      {
        assert r'[i] == r[i] && r[i] in init;
        if j < |r| {
          assert r'[j] == r[j];
        }
      }
    }
  }

  /** `[...new Set(s)]` lists the distinct elements of `s` in the order of
      their first occurrences; with `Dedup`'s own contract (same elements, no
      repeats) this fixes the result completely. */
  lemma {:induction false} DedupKeepsFirstOrder<T(!new)>(s: seq<T>)
    ensures InFirstOrder(s, Dedup(s))
  {
    if s != [] {
      var init, last := s[..|s| - 1], s[|s| - 1];
      assert s == init + [last];
      DedupKeepsFirstOrder(init);
      InFirstOrderAppend(init, Dedup(init), last);
    }
  }

  // ---------------------------------------------------------------------
  // Paths, reachability and cycles over edge ids
  // ---------------------------------------------------------------------

  /** Consecutive edges of the input: each edge starts where the previous one ends. */
  ghost predicate IsChain(edges: seq<Edge>, p: seq<Edge>)
  {
    && (forall i :: 0 <= i < |p| ==> p[i] in edges)
    && (forall i :: 0 < i < |p| ==> p[i - 1].target == p[i].source)
  }

  /** Where a walk that starts at `root` and follows `p` ends. */
  function EndOf(root: Id, p: seq<Edge>): Id
  {
    if p == [] then root else p[|p| - 1].target
  }

  ghost predicate IsPathFrom(edges: seq<Edge>, root: Id, p: seq<Edge>)
  {
    IsChain(edges, p) && (p != [] ==> p[0].source == root)
  }

  /** `v` is reached from `root` by following zero or more edges. */
  ghost predicate Reaches(edges: seq<Edge>, root: Id, v: Id)
  {
    exists p :: IsPathFrom(edges, root, p) && EndOf(root, p) == v
  }

  /** A non-empty chain of edges that comes back to where it started. */
  ghost predicate OnCycle(edges: seq<Edge>, v: Id)
  {
    exists q: seq<Edge> :: IsChain(edges, q) && q != [] && q[0].source == v && q[|q| - 1].target == v
  }

  /** Some directed cycle can be entered from `root`. */
  ghost predicate ReachableCycle(edges: seq<Edge>, root: Id)
  {
    exists v :: Reaches(edges, root, v) && OnCycle(edges, v)
  }

  /** The ids the edges of `p` leave from: the nodes a walk along `p` has left. */
  function Sources(p: seq<Edge>): set<Id>
  {
    set i | 0 <= i < |p| :: p[i].source
  }

  /** The ids some edge points at. */
  function Targets(edges: seq<Edge>): set<Id>
  {
    set i | 0 <= i < |edges| :: edges[i].target
  }

  /** A walk from `root` whose last edge enters a node the walk has already left. */
  ghost predicate IsCycleWitness(edges: seq<Edge>, root: Id, p: seq<Edge>)
  {
    IsPathFrom(edges, root, p) && p != [] && p[|p| - 1].target in Sources(p)
  }

  /** Extending a path by an edge that leaves its end. */
  lemma ExtendPath(edges: seq<Edge>, root: Id, p: seq<Edge>, e: Edge)
    requires IsPathFrom(edges, root, p) && e in edges && e.source == EndOf(root, p)
    ensures IsPathFrom(edges, root, p + [e]) && EndOf(root, p + [e]) == e.target
    ensures Sources(p + [e]) == Sources(p) + {e.source}
  {
    var q := p + [e];
    assert forall i :: 0 <= i < |p| ==> q[i] == p[i];
    assert Sources(q) == Sources(p) + {e.source} by {
      forall x | x in Sources(q) ensures x in Sources(p) + {e.source} {
        var i :| 0 <= i < |q| && q[i].source == x;
        if i < |p| { assert p[i].source == x; }
      }
      forall x | x in Sources(p) ensures x in Sources(q) {
        var i :| 0 <= i < |p| && p[i].source == x;
        assert q[i].source == x;
      }
      assert q[|p|].source == e.source;
    }
  }

  /** Following an edge out of a reached node reaches its target. */
  lemma ReachesStep(edges: seq<Edge>, root: Id, e: Edge)
    requires Reaches(edges, root, e.source) && e in edges
    ensures Reaches(edges, root, e.target)
  {
    var p :| IsPathFrom(edges, root, p) && EndOf(root, p) == e.source;
    ExtendPath(edges, root, p, e);
  }

  /** The root reaches itself by the empty path. */
  lemma ReachesRoot(edges: seq<Edge>, root: Id)
    ensures Reaches(edges, root, root)
  {
    assert IsPathFrom(edges, root, []) && EndOf(root, []) == root;
  }

  /** Every edge leaving a node of `from` enters a node of `into`. */
  ghost predicate ClosedFrom(edges: seq<Edge>, from: set<Id>, into: set<Id>)
  {
    forall i :: 0 <= i < |edges| && edges[i].source in from ==> edges[i].target in into
  }

  /** A set closed under following edges that holds `root` holds the end of
      every path from `root`. */
  lemma {:induction false} PathStaysInClosed(edges: seq<Edge>, root: Id, s: set<Id>, p: seq<Edge>)
    requires root in s && ClosedFrom(edges, s, s) && IsPathFrom(edges, root, p)
    ensures EndOf(root, p) in s
  {
    if p != [] {
      var init := p[..|p| - 1];
      assert IsPathFrom(edges, root, init);
      PathStaysInClosed(edges, root, s, init);
      var e := p[|p| - 1];
      assert e.source == EndOf(root, init);
      assert e in edges;
      var k :| 0 <= k < |edges| && edges[k] == e;
    }
  }

  /** Reachability is the least set that holds `root` and is closed under
      following edges. */
  lemma ReachableIsLeast(edges: seq<Edge>, root: Id, s: set<Id>, v: Id)
    requires root in s && ClosedFrom(edges, s, s) && Reaches(edges, root, v)
    ensures v in s
  {
    var p :| IsPathFrom(edges, root, p) && EndOf(root, p) == v;
    PathStaysInClosed(edges, root, s, p);
  }

  /** A cycle witness does contain a directed cycle that `root` reaches:
      the suffix that starts where its last edge comes back to. */
  lemma WitnessHasCycle(edges: seq<Edge>, root: Id, p: seq<Edge>)
    requires IsCycleWitness(edges, root, p)
    ensures ReachableCycle(edges, root)
  {
    var v := p[|p| - 1].target;
    var j :| 0 <= j < |p| && p[j].source == v;
    var prefix, q := p[..j], p[j..];
    assert IsPathFrom(edges, root, prefix);
    assert EndOf(root, prefix) == v;
    assert IsChain(edges, q) && q != [] && q[0].source == v && q[|q| - 1].target == v;
    assert Reaches(edges, root, v) && OnCycle(edges, v);
  }
}
