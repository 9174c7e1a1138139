/** Declared file types and conversions, the depth-first search over them as a function, and what that
    search can and cannot find (Printer Spooler/src/list.c). */
module ConversionGraph {

  import opened Sequences

  datatype Conv = Conv(dest: string, convProg: string, args: Option<string>)

  /** A declared file type with its conversions, both in order of declaration. */
  datatype FileType = FileType(name: string, convs: seq<Conv>)

  type Graph = seq<FileType>

  predicate HasConv(t: FileType, name: string) {
    exists k | 0 <= k < |t.convs| :: t.convs[k].dest == name
  }

  /** The first type at or after position `from` with the given name. */
  function Find(g: Graph, from: nat, name: string): Option<nat>
    requires from <= |g|
    decreases |g| - from
  {
    if from == |g| then None
    else if g[from].name == name then Some(from)
    else Find(g, from + 1, name)
  }

  lemma {:induction false} FindFirst(g: Graph, from: nat, name: string)
    requires from <= |g|
    ensures Find(g, from, name).None? ==> forall i | from <= i < |g| :: g[i].name != name
    ensures Find(g, from, name).Some? ==> var i := Find(g, from, name).value;
      from <= i < |g| && g[i].name == name && forall j | from <= j < i :: g[j].name != name
    decreases |g| - from
  {
    if from < |g| {
      FindFirst(g, from + 1, name);
    }
  }

  /** What add_list and add_conv keep: type names are distinct, conversions lead from a declared type to
      another declared type, and no type declares two conversions to the same destination. */
  ghost predicate WellFormed(g: Graph) {
    && (forall i, j | 0 <= i < j < |g| :: g[i].name != g[j].name)
    && (forall i, k | 0 <= i < |g| && 0 <= k < |g[i].convs| ::
          g[i].convs[k].dest != g[i].name && Find(g, 0, g[i].convs[k].dest).Some?)
    && (forall i, k, m | 0 <= i < |g| && 0 <= k < m < |g[i].convs| :: g[i].convs[k].dest != g[i].convs[m].dest)
  }

  lemma FindUnique(g: Graph, from: nat, i: nat)
    requires WellFormed(g) && from <= |g| && i < |g|
    ensures Find(g, from, g[i].name) == if from <= i then Some(i) else None
  {
    FindFirst(g, from, g[i].name);
  }

  // ---------------------------------------------------------------------------------------------
  // The depth-first search
  // ---------------------------------------------------------------------------------------------

  ghost function Indices(g: Graph): set<nat> {
    set i: nat {:trigger g[i]} | i < |g|
  }

  /** The visited types and the trace after looking at a type. Children are looked up from the type itself,
      not from the head of the list; only the destination is looked up from the head. */
  ghost function Look(g: Graph, visited: set<nat>, trace: seq<nat>, node: Option<nat>, dest: string)
    : (r: (set<nat>, seq<nat>))
    requires node.Some? ==> node.value < |g|
    ensures visited <= r.0
    decreases Indices(g) - visited, 0
  {
    if node.None? || node.value in visited then (visited, trace)
    else
      var n := node.value;
      var v, t := visited + {n}, trace + [n];
      assert n in Indices(g) - visited;
      if g[n].name == dest then (v, t)
      else if HasConv(g[n], dest) then FindFirst(g, 0, dest); Look(g, v, t, Find(g, 0, dest), dest)
      else LookAll(g, v, t, n, 0, dest)
  }

  /** The rest of a type's conversions, from the k-th on. */
  ghost function LookAll(g: Graph, visited: set<nat>, trace: seq<nat>, n: nat, k: nat, dest: string)
    : (r: (set<nat>, seq<nat>))
    requires n < |g| && k <= |g[n].convs|
    ensures visited <= r.0
    decreases Indices(g) - visited, 1 + |g[n].convs| - k
  {
    if k == |g[n].convs| then (visited, trace)
    else
      FindFirst(g, n, g[n].convs[k].dest);
      var (v, t) := Look(g, visited, trace, Find(g, n, g[n].convs[k].dest), dest);
      assert Indices(g) - v <= Indices(g) - visited;
      LookAll(g, v, t, n, k + 1, dest)
  }

  predicate InGraph(g: Graph, s: seq<nat>) {
    forall k | 0 <= k < |s| :: s[k] < |g|
  }

  /** A hop the search can take: forward in the list of declarations, or straight to the destination. */
  ghost predicate Hop(g: Graph, i: nat, j: nat, dest: string)
    requires i < |g| && j < |g|
  {
    g[i].name != dest && HasConv(g[i], g[j].name) && (i < j || g[j].name == dest)
  }

  /** The trace lists each visited type once. */
  ghost predicate Traced(g: Graph, visited: set<nat>, trace: seq<nat>) {
    && InGraph(g, trace)
    && (forall i :: i in visited <==> i in trace)
    && Distinct(trace)
  }

  /** Some earlier entry of the trace hops to entry p. */
  ghost predicate Fed(g: Graph, trace: seq<nat>, p: nat, dest: string)
    requires p < |trace| && InGraph(g, trace)
  {
    exists q: nat | q < p :: Hop(g, trace[q], trace[p], dest)
  }

  /** Nothing is left to look at from i, as far as the visited set goes. */
  ghost predicate Closed(g: Graph, i: nat, visited: set<nat>, dest: string)
    requires i < |g|
  {
    || g[i].name == dest
    || (exists d: nat | d in visited :: d < |g| && g[d].name == dest)
    || (!HasConv(g[i], dest) && forall j: nat | i < j < |g| && HasConv(g[i], g[j].name) :: j in visited)
  }

  /** What a look adds to the search: all the facts the path argument and the closure argument need. */
  ghost predicate Extends(g: Graph, visited: set<nat>, trace: seq<nat>, v: set<nat>, t: seq<nat>,
                          fedFrom: nat, dest: string) {
    && visited <= v
    && trace <= t
    && Traced(g, v, t)
    && (forall p: nat | fedFrom <= p < |t| :: Fed(g, t, p, dest))
    && (forall i | i in v && i !in visited :: Closed(g, i, v, dest))
  }

  lemma ExtendsTwice(g: Graph, v0: set<nat>, t0: seq<nat>, v1: set<nat>, t1: seq<nat>, v2: set<nat>, t2: seq<nat>,
                     f: nat, dest: string)
    requires Extends(g, v0, t0, v1, t1, f, dest)
    requires Extends(g, v1, t1, v2, t2, |t1|, dest)
    ensures Extends(g, v0, t0, v2, t2, f, dest)
  {
    assert t0 <= t2;
    forall p: nat | f <= p < |t2| ensures Fed(g, t2, p, dest) {
      if p < |t1| {
        assert Fed(g, t1, p, dest);
        var q: nat :| q < p && Hop(g, t1[q], t1[p], dest);
        assert Hop(g, t2[q], t2[p], dest);
      }
    }
    forall i | i in v2 && i !in v0 ensures Closed(g, i, v2, dest) {
      if i in v1 {
        assert Closed(g, i, v1, dest);
      }
    }
  }

  /** The first entry a look adds is fed by the type whose conversions are being followed. */
  lemma FeedFirst(g: Graph, v0: set<nat>, t0: seq<nat>, v1: set<nat>, t1: seq<nat>, n: nat, dest: string)
    requires Traced(g, v0, t0) && n in t0
    requires Extends(g, v0, t0, v1, t1, |t0| + 1, dest)
    requires |t1| > |t0| ==> t1[|t0|] < |g| && Hop(g, n, t1[|t0|], dest)
    ensures Extends(g, v0, t0, v1, t1, |t0|, dest)
  {
    if |t1| > |t0| {
      var q: nat :| q < |t0| && t0[q] == n;
      assert Hop(g, t1[q], t1[|t0|], dest);
    }
  }

  /** Looking at an unvisited type n comes down to what is done with n already on the trace. */
  lemma StartWith(g: Graph, visited: set<nat>, trace: seq<nat>, n: nat, v: set<nat>, t: seq<nat>, dest: string)
    requires Traced(g, visited, trace) && n < |g| && n !in visited
    requires Extends(g, visited + {n}, trace + [n], v, t, |trace| + 1, dest)
    requires Closed(g, n, v, dest)
    ensures Extends(g, visited, trace, v, t, |trace| + 1, dest)
    ensures n in v && |t| > |trace| && t[|trace|] == n
  {
    assert (trace + [n])[..|trace|] == trace;
    assert t[|trace|] == (trace + [n])[|trace|];
    assert trace <= t by { assert t[..|trace|] == (trace + [n])[..|trace|]; }
  }

  lemma {:induction false} LookExtends(g: Graph, visited: set<nat>, trace: seq<nat>, node: Option<nat>, dest: string)
    requires WellFormed(g) && Traced(g, visited, trace)
    requires node.Some? ==> node.value < |g|
    ensures var (v, t) := Look(g, visited, trace, node, dest);
      && Extends(g, visited, trace, v, t, |trace| + 1, dest)
      && (node.Some? ==> node.value in v)
      && (|t| > |trace| ==> node.Some? && t[|trace|] == node.value)
    decreases Indices(g) - visited, 0
  {
    if node.Some? && node.value !in visited {
      var n := node.value;
      var v0, t0 := visited + {n}, trace + [n];
      assert n in Indices(g) - visited;
      assert Traced(g, v0, t0);
      var (v, t) := Look(g, visited, trace, node, dest);
      hide Traced, Fed;
      if g[n].name == dest {
      } else if HasConv(g[n], dest) {
        FindFirst(g, 0, dest);
        var k :| 0 <= k < |g[n].convs| && g[n].convs[k].dest == dest;
        var d := Find(g, 0, dest);
        LookExtends(g, v0, t0, d, dest);
        FeedFirst(g, v0, t0, v, t, n, dest);
      } else {
        LookAllExtends(g, v0, t0, n, 0, dest);
        forall j: nat | n < j < |g| && HasConv(g[n], g[j].name) ensures j in v {
          var k :| 0 <= k < |g[n].convs| && g[n].convs[k].dest == g[j].name;
          FindUnique(g, n, j);
        }
      }
      StartWith(g, visited, trace, n, v, t, dest);
    }
  }

  lemma {:induction false} LookAllExtends(g: Graph, visited: set<nat>, trace: seq<nat>, n: nat, k: nat, dest: string)
    requires WellFormed(g) && Traced(g, visited, trace)
    requires n < |g| && k <= |g[n].convs| && n in trace && g[n].name != dest
    ensures var (v, t) := LookAll(g, visited, trace, n, k, dest);
      && Extends(g, visited, trace, v, t, |trace|, dest)
      && (forall m | k <= m < |g[n].convs| :: var c := Find(g, n, g[n].convs[m].dest); c.Some? ==> c.value in v)
    decreases Indices(g) - visited, 1 + |g[n].convs| - k
  {
    if k < |g[n].convs| {
      var name := g[n].convs[k].dest;
      FindFirst(g, n, name);
      var c := Find(g, n, name);
      var (v1, t1) := Look(g, visited, trace, c, dest);
      LookExtends(g, visited, trace, c, dest);
      assert |t1| > |trace| ==> c.Some? && n < c.value && HasConv(g[n], g[c.value].name);
      FeedFirst(g, visited, trace, v1, t1, n, dest);
      assert Indices(g) - v1 <= Indices(g) - visited;
      assert n in t1;
      LookAllExtends(g, v1, t1, n, k + 1, dest);
      var (v2, t2) := LookAll(g, v1, t1, n, k + 1, dest);
      ExtendsTwice(g, visited, trace, v1, t1, v2, t2, |trace|, dest);
    }
  }

  // ---------------------------------------------------------------------------------------------
  // What the search reaches
  // ---------------------------------------------------------------------------------------------

  /** A sequence of declared conversions. */
  ghost predicate ConversionPath(g: Graph, p: seq<nat>) {
    && p != []
    && InGraph(g, p)
    && (forall i | 0 <= i < |p| - 1 :: HasConv(g[p[i]], g[p[i + 1]].name))
  }

  /** Every hop but the last goes to a type declared later. */
  ghost predicate ForwardButLast(p: seq<nat>) {
    forall i | 0 <= i < |p| - 2 :: p[i] < p[i + 1]
  }

  ghost predicate Connects(p: seq<nat>, i: nat, j: nat) {
    p != [] && p[0] == i && p[|p| - 1] == j
  }

  ghost predicate Searchable(g: Graph, i: nat, j: nat) {
    exists p :: ConversionPath(g, p) && ForwardButLast(p) && Connects(p, i, j)
  }

  /** Types in the trace of a search from src are reached along forward conversions, the destination possibly
      with one last hop backward. */
  lemma {:induction false} TracedIsSearchable(g: Graph, t: seq<nat>, p: nat, dest: string) returns (path: seq<nat>)
    requires InGraph(g, t) && Distinct(t) && WellFormed(g)
    requires forall q: nat | 1 <= q < |t| :: Fed(g, t, q, dest)
    requires p < |t|
    ensures ConversionPath(g, path) && ForwardButLast(path) && Connects(path, t[0], t[p])
    ensures g[t[p]].name != dest ==> forall i | 0 <= i < |path| - 1 :: path[i] < path[i + 1]
    decreases p
  {
    if p == 0 {
      path := [t[0]];
    } else {
      assert Fed(g, t, p, dest);
      var q: nat :| q < p && Hop(g, t[q], t[p], dest);
      var before := TracedIsSearchable(g, t, q, dest);
      path := before + [t[p]];
      assert t[q] != t[p];
      assert g[t[q]].name != dest;
      assert forall i | 0 <= i < |before| :: path[i] == before[i];
    }
  }

  /** If the destination was not visited, everything on the way to it would have been, and then it too. */
  lemma {:induction false} SearchableIsVisited(g: Graph, v: set<nat>, path: seq<nat>, dest: nat)
    requires WellFormed(g) && dest < |g|
    requires ConversionPath(g, path) && ForwardButLast(path) && path[|path| - 1] == dest
    requires path[0] in v && forall i | i in v :: i < |g| && Closed(g, i, v, g[dest].name)
    ensures dest in v
    decreases |path|
  {
    if |path| > 1 && path[0] != dest {
      assert Closed(g, path[0], v, g[dest].name);
      assert g[path[0]].name != g[dest].name;
      assert HasConv(g[path[0]], g[path[1]].name);
      if dest !in v {
        assert forall d: nat | d in v && d < |g| && d != dest :: g[d].name != g[dest].name;
        assert path[1] != dest;
        assert |path| > 2 && path[0] < path[1];
        SearchableIsVisited(g, v, path[1..], dest);
      }
    }
  }

  /** The trace of a whole search, from nothing visited. */
  ghost function Search(g: Graph, src: string, dest: string): seq<nat> {
    FindFirst(g, 0, src);
    Look(g, {}, [], Find(g, 0, src), dest).1
  }

  lemma SearchFacts(g: Graph, src: string, dest: string)
    requires WellFormed(g)
    ensures var t := Search(g, src, dest);
      && InGraph(g, t) && Distinct(t)
      && (forall p: nat | 1 <= p < |t| :: Fed(g, t, p, dest))
      && (t != [] <==> Find(g, 0, src).Some?)
      && (t != [] ==> g[t[0]].name == src)
  {
    FindFirst(g, 0, src);
    LookExtends(g, {}, [], Find(g, 0, src), dest);
  }

  /** The search visits the destination exactly when some conversion path leads there whose every hop but the
      last goes to a type declared later. */
  lemma SearchReaches(g: Graph, src: nat, dest: nat)
    requires WellFormed(g) && src < |g| && dest < |g|
    ensures dest in Search(g, g[src].name, g[dest].name) <==> Searchable(g, src, dest)
  {
    var t := Search(g, g[src].name, g[dest].name);
    FindUnique(g, 0, src);
    SearchFacts(g, g[src].name, g[dest].name);
    LookExtends(g, {}, [], Some(src), g[dest].name);
    if dest in t {
      var p: nat :| p < |t| && t[p] == dest;
      var path := TracedIsSearchable(g, t, p, g[dest].name);
    }
    if Searchable(g, src, dest) {
      var path :| ConversionPath(g, path) && ForwardButLast(path) && Connects(path, src, dest);
      SearchableIsVisited(g, Look(g, {}, [], Some(src), g[dest].name).0, path, dest);
    }
  }

  /** When all conversions go to types declared later, the search finds every path there is. */
  lemma ForwardDeclarationsSuffice(g: Graph, src: nat, dest: nat)
    requires WellFormed(g) && src < |g| && dest < |g|
    requires forall i, j | 0 <= i < |g| && 0 <= j < |g| && HasConv(g[i], g[j].name) :: i < j
    ensures dest in Search(g, g[src].name, g[dest].name)
       <==> exists p :: ConversionPath(g, p) && Connects(p, src, dest)
  {
    SearchReaches(g, src, dest);
    if p :| ConversionPath(g, p) && Connects(p, src, dest) {
      forall i | 0 <= i < |p| - 2 ensures p[i] < p[i + 1] {
        assert HasConv(g[p[i]], g[p[i + 1]].name);
      }
    }
  }

  /** In general it does not: with b declared before a, the path a, b, c is not found. */
  lemma BackwardHopIsMissed()
    ensures var g := [FileType("b", [Conv("c", "b2c", None)]), FileType("a", [Conv("b", "a2b", None)]),
                      FileType("c", [])];
      && WellFormed(g)
      && ConversionPath(g, [1, 0, 2]) && Connects([1, 0, 2], 1, 2)
      && 2 !in Search(g, "a", "c")
  {
    var g := [FileType("b", [Conv("c", "b2c", None)]), FileType("a", [Conv("b", "a2b", None)]), FileType("c", [])];
    assert HasConv(g[1], g[0].name) by { assert g[1].convs[0].dest == g[0].name; }
    assert HasConv(g[0], g[2].name) by { assert g[0].convs[0].dest == g[2].name; }
    assert "b" == g[0].name && Find(g, 0, "b") == Some(0);
    assert Find(g, 2, "c") == Some(2);
    assert Find(g, 0, "c") == Find(g, 1, "c") == Find(g, 2, "c");
    assert WellFormed(g);
    forall p | ConversionPath(g, p) && Connects(p, 1, 2) ensures !ForwardButLast(p) {
      assert HasConv(g[p[0]], g[p[1]].name);
      assert p[1] == 0 && |p| > 2;
    }
    SearchReaches(g, 1, 2);
  }

  // ---------------------------------------------------------------------------------------------
  // The path that is reported
  // ---------------------------------------------------------------------------------------------

  /** The scan down the trace from position `at`: whatever converts to the last type found is taken. */
  ghost function Backtrack(g: Graph, t: seq<nat>, at: int, found: seq<nat>): seq<nat>
    requires InGraph(g, t) && -1 <= at < |t|
    requires InGraph(g, found) && found != []
    decreases at
  {
    if at < 0 then found
    else Backtrack(g, t, at - 1, if HasConv(g[t[at]], g[found[|found| - 1]].name) then found + [t[at]] else found)
  }

  /** found is a chain of conversions read backward, drawn from the trace at or above position p, where its
      last member stands. */
  ghost predicate Chain(g: Graph, t: seq<nat>, p: nat, found: seq<nat>)
    requires InGraph(g, t) && InGraph(g, found)
  {
    && p < |t| && found != [] && found[|found| - 1] == t[p]
    && Distinct(found)
    && (forall k | 0 <= k < |found| :: found[k] in t[p..])
    && (forall k | 0 <= k < |found| - 1 :: HasConv(g[found[k + 1]], g[found[k]].name))
  }

  lemma ChainGrows(g: Graph, t: seq<nat>, p: nat, found: seq<nat>, q: nat)
    requires InGraph(g, t) && Distinct(t) && InGraph(g, found) && Chain(g, t, p, found)
    requires q < p && HasConv(g[t[q]], g[t[p]].name)
    ensures Chain(g, t, q, found + [t[q]])
  {
    var more := found + [t[q]];
    forall k | 0 <= k < |found| ensures found[k] in t[q..] && found[k] != t[q] {
      var m :| 0 <= m < |t[p..]| && t[p..][m] == found[k];
      assert t[q..][m + p - q] == found[k];
      assert t[m + p] != t[q];
    }
    assert t[q..][0] == t[q];
  }

  lemma NoSelfConversion(g: Graph, i: nat)
    requires WellFormed(g) && i < |g|
    ensures !HasConv(g[i], g[i].name)
  {
  }

  /** The scan cannot miss: every entry above position 0 is fed by one below it, so it ends at position 0. */
  lemma {:induction false} BacktrackReaches(g: Graph, t: seq<nat>, at: int, found: seq<nat>, p: nat, dest: string)
    requires InGraph(g, t) && Distinct(t) && WellFormed(g) && InGraph(g, found) && found != []
    requires forall q: nat | 1 <= q < |t| :: Fed(g, t, q, dest)
    requires -1 <= at <= p && Chain(g, t, p, found)
    requires forall q | at < q < p :: !HasConv(g[t[q]], g[t[p]].name)
    ensures var r := Backtrack(g, t, at, found);
      && InGraph(g, r) && Chain(g, t, 0, r)
      && r[0] == found[0]
    decreases at
  {
    NoSelfConversion(g, t[p]);
    if at < 0 {
      assert p == 0 || Fed(g, t, p, dest);
    } else if HasConv(g[t[at]], g[t[p]].name) {
      ChainGrows(g, t, p, found, at);
      BacktrackReaches(g, t, at - 1, found + [t[at]], at, dest);
    } else {
      BacktrackReaches(g, t, at - 1, found, p, dest);
    }
  }

  function Reverse(s: seq<nat>): (r: seq<nat>)
    ensures |r| == |s| && forall k | 0 <= k < |s| :: r[k] == s[|s| - 1 - k]
  {
    if s == [] then [] else [s[|s| - 1]] + Reverse(s[..|s| - 1])
  }

  /** A declared conversion path on which no type repeats. */
  ghost predicate SimplePath(g: Graph, path: seq<nat>, src: string, dest: string) {
    && ConversionPath(g, path) && Distinct(path)
    && g[path[0]].name == src && g[path[|path| - 1]].name == dest
  }

  lemma ReversedChain(g: Graph, t: seq<nat>, r: seq<nat>, src: string, dest: string)
    requires InGraph(g, t) && InGraph(g, r) && Chain(g, t, 0, r)
    requires g[t[0]].name == src && g[r[0]].name == dest
    ensures SimplePath(g, Reverse(r), src, dest)
  {
    var path := Reverse(r);
    forall k | 0 <= k < |path| - 1 ensures HasConv(g[path[k]], g[path[k + 1]].name) {
      var m := |r| - 2 - k;
      assert path[k] == r[m + 1] && path[k + 1] == r[m];
    }
  }
}
