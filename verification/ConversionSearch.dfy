/** The conversion search with its tables, trace and result as the program keeps them
    (Printer Spooler/src/list.c). */
module ConversionSearch {
  import opened ConversionGraph
  import opened Sequences

  /** The size of the trace and of the result. */
  const CAPACITY: nat := 128

  ghost function VisitedSet(visited: seq<bool>): set<nat> {
    set i: nat | i < |visited| && visited[i]
  }

  /** The names, in order, of the types in t. */
  ghost predicate Shows(names: seq<string>, g: Graph, t: seq<nat>)
    requires InGraph(g, t)
  {
    |names| == |t| && forall k | 0 <= k < |t| :: names[k] == g[t[k]].name
  }

  lemma FindSome(g: Graph, name: string)
    ensures Find(g, 0, name).Some? <==> exists j | 0 <= j < |g| :: g[j].name == name
  {
    FindFirst(g, 0, name);
  }

  lemma TypeAddedWellFormed(g: Graph, name: string)
    requires WellFormed(g) && Find(g, 0, name).None?
    ensures WellFormed(g + [FileType(name, [])])
  {
    var h := g + [FileType(name, [])];
    FindFirst(g, 0, name);
    forall i, k | 0 <= i < |h| && 0 <= k < |h[i].convs| ensures Find(h, 0, h[i].convs[k].dest).Some? {
      FindFirst(g, 0, g[i].convs[k].dest);
      var j := Find(g, 0, g[i].convs[k].dest).value;
      assert h[j].name == h[i].convs[k].dest;
      FindSome(h, h[i].convs[k].dest);
    }
  }

  lemma ConvAddedWellFormed(g: Graph, i: nat, c: Conv)
    requires WellFormed(g) && i < |g|
    requires c.dest != g[i].name && Find(g, 0, c.dest).Some? && !HasConv(g[i], c.dest)
    ensures WellFormed(g[i := FileType(g[i].name, g[i].convs + [c])])
  {
    var h := g[i := FileType(g[i].name, g[i].convs + [c])];
    forall m, k | 0 <= m < |h| && 0 <= k < |h[m].convs| ensures Find(h, 0, h[m].convs[k].dest).Some? {
      var name := h[m].convs[k].dest;
      assert Find(g, 0, name).Some? by { assert k < |g[m].convs| ==> h[m].convs[k] == g[m].convs[k]; }
      FindFirst(g, 0, name);
      assert h[Find(g, 0, name).value].name == name;
      FindSome(h, name);
    }
  }

  /** Pigeonhole: a list of numbers below n without repeats has at most n members. */
  lemma {:induction false} DistinctFits(t: seq<nat>, n: nat)
    requires Distinct(t) && forall k | 0 <= k < |t| :: t[k] < n
    ensures |t| <= n
  {
    if t != [] {
      var first := t[0];
      if k :| 0 <= k < |t| && t[k] == n - 1 {
        DistinctFits(t[..k] + t[k + 1..], n - 1);
      } else {
        DistinctFits(t, n - 1);
      }
    }
  }

  lemma {:induction false} BacktrackGrows(g: Graph, t: seq<nat>, at: int, found: seq<nat>)
    requires InGraph(g, t) && -1 <= at < |t| && InGraph(g, found) && found != []
    ensures |found| <= |Backtrack(g, t, at, found)|
    decreases at
  {
    if at >= 0 {
      BacktrackGrows(g, t, at - 1, if HasConv(g[t[at]], g[found[|found| - 1]].name) then found + [t[at]] else found);
    }
  }

  lemma ScanEnds(g: Graph, t: seq<nat>, at: int, found: seq<nat>)
    requires InGraph(g, t) && at == -1 && InGraph(g, found) && found != []
    ensures Backtrack(g, t, at, found) == found
  {
  }

  /** The declared types and conversions, with the search's trace (queue, loc) and result (result, resLoc).
      The visited flag of each type is kept beside its declaration. */
  class Conversions {
    var types: Graph
    var visited: seq<bool>
    var queue: array<string>
    var loc: int
    var result: array<string>
    var resLoc: int
    ghost var trace: seq<nat>

    /** What holds throughout. */
    ghost predicate Tables()
      reads this
    {
      && WellFormed(types) && |visited| == |types|
      && queue.Length == CAPACITY && result.Length == CAPACITY && queue != result
      && -1 <= resLoc < CAPACITY
    }

    /** Between searches. */
    ghost predicate Valid()
      reads this
    {
      Tables() && loc == -1
    }

    /** The trace lists the visited types in the order they were reached; loc is at its end or below. */
    ghost predicate Tracing()
      reads this, queue
    {
      && Tables() && |types| <= CAPACITY
      && Traced(types, VisitedSet(visited), trace)
      && -1 <= loc < |trace| <= CAPACITY
      && Shows(queue[..|trace|], types, trace)
    }

    /** During a search, nothing has been taken off the trace yet. */
    ghost predicate Searching()
      reads this, queue
    {
      && Tables() && |types| <= CAPACITY
      && Traced(types, VisitedSet(visited), trace)
      && loc + 1 == |trace| <= CAPACITY
      && Shows(queue[..|trace|], types, trace)
    }

    /** The result holds a simple path of declared conversions. */
    ghost predicate PathReported(src: string, dest: string)
      reads this, result
    {
      && 0 <= resLoc < result.Length
      && exists path :: InGraph(types, path) && path != [] && SimplePath(types, path, src, dest)
                        && Shows(result[..resLoc + 1], types, path)
    }

    constructor ()
      ensures Valid() && types == [] && resLoc == -1
      ensures fresh(queue) && fresh(result)
    {
      types, visited, trace := [], [], [];
      queue, result := new string[CAPACITY](_ => ""), new string[CAPACITY](_ => "");
      loc, resLoc := -1, -1;
    }

    method SearchList(from: nat, name: string) returns (r: Option<nat>)
      requires from <= |types|
      ensures r == Find(types, from, name)
    {
      var i := from;
      while i < |types|
        invariant from <= i <= |types|
        invariant Find(types, from, name) == Find(types, i, name)
      {
        if types[i].name == name {
          return Some(i);
        }
        i := i + 1;
      }
      return None;
    }

    method SearchConv(i: nat, name: string) returns (found: bool)
      requires i < |types|
      ensures found <==> HasConv(types[i], name)
    {
      var k := 0;
      while k < |types[i].convs|
        invariant 0 <= k <= |types[i].convs|
        invariant forall m | 0 <= m < k :: types[i].convs[m].dest != name
      {
        if types[i].convs[k].dest == name {
          return true;
        }
        k := k + 1;
      }
      return false;
    }

    /** Declares a type; a name already taken is refused. */
    method AddList(name: string) returns (added: bool)
      requires Valid()
      modifies this`types, this`visited
      ensures Valid()
      ensures added <==> forall t | t in old(types) :: t.name != name
      ensures types == if added then old(types) + [FileType(name, [])] else old(types)
    {
      var at := SearchList(0, name);
      FindFirst(types, 0, name);
      if at.Some? {
        return false;
      }
      TypeAddedWellFormed(types, name);
      types, visited := types + [FileType(name, [])], visited + [false];
      return true;
    }

    /** Declares a conversion. Naming an undeclared type is an error; declaring a conversion of a type to
        itself, or declaring one twice, changes nothing and is not. */
    method AddConv(from: string, to: string, convProg: string, args: Option<string>) returns (ok: bool)
      requires Valid()
      modifies this`types
      ensures Valid()
      ensures ok <==> from == to || (Find(old(types), 0, from).Some? && Find(old(types), 0, to).Some?)
      ensures types == old(
        var i := Find(types, 0, from);
        if from == to || i.None? || Find(types, 0, to).None? || i.value >= |types| || HasConv(types[i.value], to)
        then types
        else types[i.value := FileType(types[i.value].name, types[i.value].convs + [Conv(to, convProg, args)])])
    {
      if from == to {
        return true;
      }
      var d1 := SearchList(0, from);
      var d2 := SearchList(0, to);
      FindFirst(types, 0, from);
      if d1.None? || d2.None? {
        return false;
      }
      var i := d1.value;
      var declared := SearchConv(i, to);
      if !declared {
        ConvAddedWellFormed(types, i, Conv(to, convProg, args));
        types := types[i := FileType(types[i].name, types[i].convs + [Conv(to, convProg, args)])];
      }
      return true;
    }

    method ResetVisited()
      requires |visited| == |types|
      modifies this`visited
      ensures |visited| == |types| && VisitedSet(visited) == {}
    {
      for i := 0 to |types|
        invariant |visited| == |types|
        invariant forall k | 0 <= k < i :: !visited[k]
      {
        visited := visited[i := false];
      }
    }

    method Look(node: Option<nat>, dest: string)
      requires Searching()
      requires node.Some? ==> node.value < |types|
      modifies this`visited, this`loc, this`trace, queue
      ensures Searching()
      ensures (VisitedSet(visited), trace)
           == ConversionGraph.Look(types, old(VisitedSet(visited)), old(trace), node, dest)
      decreases Indices(types) - VisitedSet(visited), 0
    {
      if node.None? || visited[node.value] {
        return;
      }
      var n := node.value;
      Enter(n);
      if types[n].name == dest {
        return;
      }
      var direct := SearchConv(n, dest);
      if direct {
        var d := SearchList(0, dest);
        FindFirst(types, 0, dest);
        Look(d, dest);
      } else {
        LookChildren(n, dest);
      }
    }

    /** Follows every conversion of a type, in order. */
    method LookChildren(n: nat, dest: string)
      requires Searching() && n < |types|
      modifies this`visited, this`loc, this`trace, queue
      ensures Searching()
      ensures (VisitedSet(visited), trace) == LookAll(types, old(VisitedSet(visited)), old(trace), n, 0, dest)
      decreases Indices(types) - VisitedSet(visited), 1
    {
      ghost var v, t := VisitedSet(visited), trace;
      var k := 0;
      while k < |types[n].convs|
        invariant 0 <= k <= |types[n].convs|
        invariant Searching() && v <= VisitedSet(visited)
        invariant LookAll(types, VisitedSet(visited), trace, n, k, dest) == LookAll(types, v, t, n, 0, dest)
      {
        var c := SearchList(n, types[n].convs[k].dest);
        FindFirst(types, n, types[n].convs[k].dest);
        assert Indices(types) - VisitedSet(visited) <= Indices(types) - v;
        Look(c, dest);
        k := k + 1;
      }
    }

    /** Puts an unvisited type on the trace. */
    method Enter(n: nat)
      requires Searching() && n < |types| && !visited[n]
      modifies this`visited, this`loc, this`trace, queue
      ensures Searching()
      ensures VisitedSet(visited) == old(VisitedSet(visited)) + {n} && trace == old(trace) + [n]
      ensures n in Indices(types) && n !in old(VisitedSet(visited))
    {
      assert n !in VisitedSet(visited);
      ghost var t := trace + [n];
      DistinctFits(t, |types|);
      loc := loc + 1;
      queue[loc] := types[n].name;
      visited := visited[n := true];
      trace := t;
      assert VisitedSet(visited) == old(VisitedSet(visited)) + {n};
    }

    method AppendResult(name: string, ghost all: seq<nat>, ghost n: nat)
      requires InGraph(types, all) && n < |types| && types[n].name == name
      requires resLoc + 1 == |all| < result.Length && Shows(result[..resLoc + 1], types, all)
      modifies this`resLoc, result
      ensures resLoc == old(resLoc) + 1
      ensures InGraph(types, all + [n]) && Shows(result[..resLoc + 1], types, all + [n])
    {
      resLoc := resLoc + 1;
      result[resLoc] := name;
    }

    /** Appends the type at loc to the result if it converts to the last type there. */
    method TryLoc(ghost found: seq<nat>) returns (ghost all: seq<nat>)
      requires Tracing() && loc >= 0 && InGraph(types, found) && found != []
      requires resLoc + 1 == |found| && Shows(result[..resLoc + 1], types, found)
      requires HasConv(types[trace[loc]], types[found[|found| - 1]].name) ==> |found| < CAPACITY
      modifies this`resLoc, result
      ensures all == if HasConv(types[trace[loc]], types[found[|found| - 1]].name) then found + [trace[loc]] else found
      ensures resLoc + 1 == |all| && InGraph(types, all) && Shows(result[..resLoc + 1], types, all)
    {
      all := found;
      ghost var names := queue[..|trace|];
      assert queue[loc] == names[loc];
      FindUnique(types, 0, trace[loc]);
      hide WellFormed, Distinct, HasConv;
      var node := SearchList(0, queue[loc]);
      assert result[resLoc] == result[..resLoc + 1][resLoc];
      var conv := SearchConv(node.value, result[resLoc]);
      if conv {
        AppendResult(queue[loc], all, trace[loc]);
        all := all + [trace[loc]];
      }
    }

    /** Scans the trace down from loc, appending to the result whatever converts to its last type. */
    method Backtrack(ghost found: seq<nat>) returns (ghost all: seq<nat>)
      requires Tracing() && InGraph(types, found) && found != []
      requires resLoc + 1 == |found| && Shows(result[..resLoc + 1], types, found)
      requires |ConversionGraph.Backtrack(types, trace, loc, found)| <= CAPACITY
      modifies this`loc, this`resLoc, result
      ensures loc == -1 && all == ConversionGraph.Backtrack(types, trace, old(loc), found)
      ensures resLoc + 1 == |all| <= CAPACITY && InGraph(types, all) && Shows(result[..resLoc + 1], types, all)
    {
      all := found;
      hide Shows, WellFormed, Distinct, HasConv;
      while loc > -1
        invariant -1 <= loc < |trace| && InGraph(types, all) && all != []
        invariant resLoc + 1 == |all| <= CAPACITY && Shows(result[..resLoc + 1], types, all)
        invariant ConversionGraph.Backtrack(types, trace, loc, all)
               == ConversionGraph.Backtrack(types, trace, old(loc), found)
      {
        if HasConv(types[trace[loc]], types[all[|all| - 1]].name) {
          BacktrackGrows(types, trace, loc - 1, all + [trace[loc]]);
        }
        all := TryLoc(all);
        loc := loc - 1;
      }
      loc := -1;
    }

    /** Reverses result[0..resLoc]. */
    method ReverseResult()
      requires -1 <= resLoc < result.Length
      modifies result
      ensures forall k | 0 <= k <= resLoc :: result[k] == old(result[resLoc - k])
    {
      var i, j := 0, resLoc;
      while i < j
        invariant 0 <= i && i + j == resLoc && i <= j + 1
        invariant forall k | 0 <= k < i || j < k <= resLoc :: result[k] == old(result[resLoc - k])
        invariant forall k | i <= k <= j :: result[k] == old(result[k])
      {
        result[i], result[j] := result[j], result[i];
        i, j := i + 1, j - 1;
      }
    }

    /** So what was found backward is shown forward. */
    method ReverseFound(ghost found: seq<nat>)
      requires InGraph(types, found) && resLoc + 1 == |found| <= result.Length
      requires Shows(result[..resLoc + 1], types, found)
      modifies result
      ensures InGraph(types, Reverse(found)) && Shows(result[..resLoc + 1], types, Reverse(found))
    {
      ghost var backward := result[..resLoc + 1];
      ReverseResult();
      ReversedNames(types, found, backward, result[..resLoc + 1]);
    }

    /** A search from nothing visited; the trace is then that of the whole search. */
    method StartSearch(src: string, dest: string)
      requires Valid() && |types| <= CAPACITY
      modifies this`visited, this`loc, this`trace, queue
      ensures Searching() && trace == Search(types, src, dest)
    {
      ResetVisited();
      trace := [];
      var node := SearchList(0, src);
      FindFirst(types, 0, src);
      Look(node, dest);
    }

    /** Drops the end of the trace down to the destination, or all of it. */
    method FindDest(dest: string)
      requires Searching()
      modifies this`loc
      ensures loc == -1 || Tracing()
      ensures loc >= 0 ==> types[trace[loc]].name == dest
      ensures loc < 0 ==> forall k | 0 <= k < |trace| :: types[trace[k]].name != dest
    {
      while loc > -1
        invariant -1 <= loc <= old(loc)
        invariant forall p | loc < p < |trace| :: types[trace[p]].name != dest
      {
        assert queue[loc] == queue[..|trace|][loc];
        if queue[loc] == dest {
          return;
        }
        loc := loc - 1;
      }
    }

    /** Turns a found destination into the path that leads to it. */
    method Report(src: string, dest: string)
      requires Tracing() && loc > 0
      requires forall q: nat | 1 <= q < |trace| :: Fed(types, trace, q, dest)
      requires types[trace[0]].name == src && types[trace[loc]].name == dest
      requires resLoc == 0 && result[0] == dest
      modifies this`loc, this`resLoc, result
      ensures loc == -1 && resLoc < CAPACITY && PathReported(src, dest)
    {
      ghost var start := [trace[loc]];
      assert Shows(result[..resLoc + 1], types, start);
      assert trace[loc..][0] == trace[loc];
      BacktrackReaches(types, trace, loc, start, loc, dest);
      DistinctFits(ConversionGraph.Backtrack(types, trace, loc, start), |types|);
      ghost var found := Backtrack(start);
      hide WellFormed, Traced, HasConv, Distinct, SimplePath, Shows, ConversionGraph.Backtrack;
      ReversedChain(types, trace, found, src, dest);
      ReverseFound(found);
    }

    /** The search for a path between different types. */
    method BfsBetween(src: string, dest: string)
      requires Valid() && src != dest && |types| <= CAPACITY
      modifies this`visited, this`loc, this`resLoc, this`trace, queue, result
      ensures Valid()
      ensures resLoc >= 0 <==> SearchableByName(types, src, dest)
      ensures resLoc >= 0 ==> PathReported(src, dest)
    {
      resLoc := -1;
      StartSearch(src, dest);
      SearchFacts(types, src, dest);
      FoundIffSearchable(types, src, dest);
      if loc != -1 {
        FindDest(dest);
        if loc > -1 {
          resLoc := resLoc + 1;
          result[resLoc] := dest;
        }
        if loc > 0 {
          Report(src, dest);
        }
      }
    }

    /** The conversion search. For different types it succeeds exactly when some path of declared conversions
        leads from src to dest whose every hop but the last goes to a type declared later, and then the result
        is a simple path of declared conversions. For equal types it appends to whatever the last search
        left. Its two arrays must have room. */
    method Bfs(src: string, dest: string)
      requires Valid()
      requires if src == dest then resLoc + 1 < CAPACITY else |types| <= CAPACITY
      modifies this`visited, this`loc, this`resLoc, this`trace, queue, result
      ensures Valid()
      ensures src == dest ==> resLoc == old(resLoc) + 1 && result[..resLoc + 1] == old(result[..resLoc + 1]) + [src]
      ensures src != dest ==> (resLoc >= 0 <==> SearchableByName(types, src, dest))
      ensures src != dest && resLoc >= 0 ==> PathReported(src, dest)
    {
      if src == dest {
        resLoc := resLoc + 1;
        result[resLoc] := src;
        return;
      }
      BfsBetween(src, dest);
    }
  }

  lemma ReversedNames(g: Graph, found: seq<nat>, backward: seq<string>, forward: seq<string>)
    requires InGraph(g, found) && Shows(backward, g, found)
    requires |forward| == |backward| && forall k | 0 <= k < |forward| :: forward[k] == backward[|backward| - 1 - k]
    ensures InGraph(g, Reverse(found)) && Shows(forward, g, Reverse(found))
  {
  }

  ghost predicate SearchableByName(g: Graph, src: string, dest: string) {
    exists i, j | 0 <= i < |g| && 0 <= j < |g| :: g[i].name == src && g[j].name == dest && Searchable(g, i, j)
  }

  /** The search's verdict in terms of names. */
  lemma FoundIffSearchable(g: Graph, src: string, dest: string)
    requires WellFormed(g)
    ensures (exists k | 0 <= k < |Search(g, src, dest)| ::
               InGraph(g, Search(g, src, dest)) && g[Search(g, src, dest)[k]].name == dest)
       <==> SearchableByName(g, src, dest)
  {
    var t := Search(g, src, dest);
    SearchFacts(g, src, dest);
    if k :| 0 <= k < |t| && g[t[k]].name == dest {
      SearchReaches(g, t[0], t[k]);
    }
    if i, j :| 0 <= i < |g| && 0 <= j < |g| && g[i].name == src && g[j].name == dest && Searchable(g, i, j) {
      SearchReaches(g, i, j);
    }
  }
}
