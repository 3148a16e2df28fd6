/** Ancestry search with fixed-size arrays, and the fast-forward merge built on it (src/merge/merge.c). */
module Merge {
  import opened Bytes
  import opened TreeBuild

  type Oid = bytes

  /** A commit as far as merging looks at it. Ids not in the history cannot be read as commits. */
  datatype Commit = Commit(tree: Oid, parents: seq<Oid>)

  type History = map<Oid, Commit>

  const LIMIT := 256

  function Parents(g: History, c: Oid): seq<Oid> {
    if c in g then g[c].parents else []
  }

  // ----- reachability -----

  ghost predicate IsPath(g: History, p: seq<Oid>) {
    p != [] && forall i | 0 <= i < |p| - 1 :: p[i + 1] in Parents(g, p[i])
  }

  /** anc is desc or one of its ancestors. */
  ghost predicate Reaches(g: History, desc: Oid, anc: Oid) {
    exists p: seq<Oid> :: IsPath(g, p) && p[0] == desc && p[|p| - 1] == anc
  }

  lemma ReachesSelf(g: History, c: Oid)
    ensures Reaches(g, c, c)
  {
    assert IsPath(g, [c]);
  }

  lemma ReachesFurther(g: History, desc: Oid, parent: Oid, anc: Oid)
    requires parent in Parents(g, desc) && Reaches(g, parent, anc)
    ensures Reaches(g, desc, anc)
  {
    var p: seq<Oid> :| IsPath(g, p) && p[0] == parent && p[|p| - 1] == anc;
    var q := [desc] + p;
    forall i | 0 <= i < |q| - 1 ensures q[i + 1] in Parents(g, q[i]) {
      if i > 0 { assert q[i] == p[i - 1] && q[i + 1] == p[i]; }
    }
    assert IsPath(g, q);
  }

  /** No parent leads out of the set. */
  ghost predicate Closed(g: History, s: set<Oid>) {
    forall c <- s, p <- Parents(g, c) :: p in s
  }

  lemma {:induction false} StaysInside(g: History, s: set<Oid>, p: seq<Oid>, i: nat)
    requires Closed(g, s) && IsPath(g, p) && p[0] in s && i < |p|
    ensures p[i] in s
  {
    if i > 0 {
      StaysInside(g, s, p, i - 1);
      assert p[i - 1 + 1] in Parents(g, p[i - 1]);
    }
  }

  lemma NotReached(g: History, s: set<Oid>, desc: Oid, anc: Oid)
    requires Closed(g, s) && desc in s && anc !in s
    ensures !Reaches(g, desc, anc)
  {
    forall p: seq<Oid> | IsPath(g, p) && p[0] == desc ensures p[|p| - 1] != anc {
      StaysInside(g, s, p, |p| - 1);
    }
  }

  // ----- termination on acyclic histories -----

  /** Parents rank below their children. */
  ghost predicate Acyclic(g: History, rank: Oid -> nat) {
    forall c <- g, p <- g[c].parents :: rank(p) < rank(c)
  }

  lemma ParentRank(g: History, rank: Oid -> nat, c: Oid)
    requires Acyclic(g, rank)
    ensures forall p <- Parents(g, c) :: rank(p) < rank(c)
  {
  }

  /** The number of paths that start here. */
  ghost function Paths(g: History, rank: Oid -> nat, c: Oid): (n: nat)
    requires Acyclic(g, rank)
    ensures n >= 1
    decreases rank(c), 1, 0
  {
    ParentRank(g, rank, c);
    1 + PathsAll(g, rank, Parents(g, c), rank(c))
  }

  ghost function PathsAll(g: History, rank: Oid -> nat, cs: seq<Oid>, bound: nat): nat
    requires Acyclic(g, rank) && forall c <- cs :: rank(c) < bound
    decreases bound, 0, |cs|
  {
    if cs == [] then 0 else PathsAll(g, rank, cs[..|cs| - 1], bound) + Paths(g, rank, cs[|cs| - 1])
  }

  /** The sum of path counts over the stack. */
  ghost function StackPaths(g: History, rank: Oid -> nat, stack: seq<Oid>): nat
    requires Acyclic(g, rank)
  {
    if stack == [] then 0 else StackPaths(g, rank, stack[..|stack| - 1]) + Paths(g, rank, stack[|stack| - 1])
  }

  lemma {:induction false} StackAppend(g: History, rank: Oid -> nat, stack: seq<Oid>, cs: seq<Oid>, bound: nat)
    requires Acyclic(g, rank) && forall c <- cs :: rank(c) < bound
    ensures StackPaths(g, rank, stack + cs) == StackPaths(g, rank, stack) + PathsAll(g, rank, cs, bound)
    decreases |cs|
  {
    hide Paths, Acyclic;
    if cs == [] {
      assert stack + cs == stack;
    } else {
      var n := |cs| - 1;
      StackAppend(g, rank, stack, cs[..n], bound);
      assert (stack + cs)[..|stack| + n] == stack + cs[..n];
    }
  }

  lemma {:induction false} FewerPaths(g: History, rank: Oid -> nat, cs: seq<Oid>, k: nat, bound: nat)
    requires Acyclic(g, rank) && (forall c <- cs :: rank(c) < bound) && k <= |cs|
    ensures PathsAll(g, rank, cs[..k], bound) <= PathsAll(g, rank, cs, bound)
    decreases |cs|
  {
    hide Paths, Acyclic;
    if k == |cs| {
      assert cs[..k] == cs;
    } else {
      FewerPaths(g, rank, cs[..|cs| - 1], k, bound);
      assert cs[..|cs| - 1][..k] == cs[..k];
    }
  }

  /** Replacing the top of the stack by some of its parents lowers the sum. */
  lemma Shrinks(g: History, rank: Oid -> nat, stack: seq<Oid>, k: nat)
    requires Acyclic(g, rank) && stack != []
    requires var n := |stack| - 1; k <= |Parents(g, stack[n])|
    ensures var n := |stack| - 1; var cur := stack[n];
      && StackPaths(g, rank, stack[..n]) < StackPaths(g, rank, stack)
      && StackPaths(g, rank, stack[..n] + Parents(g, cur)[..k]) < StackPaths(g, rank, stack)
  {
    hide Acyclic;
    var n := |stack| - 1;
    var cur := stack[n];
    var ps := Parents(g, cur);
    ParentRank(g, rank, cur);
    StackAppend(g, rank, stack[..n], ps[..k], rank(cur));
    FewerPaths(g, rank, ps, k, rank(cur));
  }

  // ----- the search -----

  /** How many parents still fit on the stack. */
  function Room(sp: nat, n: nat): (k: nat)
    ensures k <= n
  {
    if sp + n <= LIMIT then n else if sp < LIMIT then LIMIT - sp else 0
  }

  function Noted(visited: seq<Oid>, cur: Oid): seq<Oid> {
    if |visited| < LIMIT then visited + [cur] else visited
  }

  /** The search from a stack, the ids visited so far being remembered up to the limit. */
  ghost predicate Search(g: History, rank: Oid -> nat, anc: Oid, stack: seq<Oid>, visited: seq<Oid>)
    requires Acyclic(g, rank)
    decreases StackPaths(g, rank, stack)
  {
    if stack == [] then false
    else
      var n := |stack| - 1;
      var cur, rest := stack[n], stack[..n];
      var k := Room(n, |Parents(g, cur)|);
      Shrinks(g, rank, stack, k);
      if cur in visited then Search(g, rank, anc, rest, visited)
      else
        cur == anc || Search(g, rank, anc, rest + Parents(g, cur)[..k], Noted(visited, cur))
  }

  ghost predicate Finds(g: History, rank: Oid -> nat, anc: Oid, desc: Oid)
    requires Acyclic(g, rank)
  {
    anc == desc || Search(g, rank, anc, [desc], [])
  }

  /** is_ancestor, with its two arrays of 256 ids. */
  method IsAncestor(g: History, anc: Oid, desc: Oid, ghost rank: Oid -> nat) returns (r: bool)
    requires Acyclic(g, rank)
    ensures r == Finds(g, rank, anc, desc)
  {
    hide Acyclic, StackPaths, Search, Room, Parents;
    if anc == desc { return true; }
    var stack, visited := new Oid[LIMIT](_ => []), new Oid[LIMIT](_ => []);
    var sp: nat, vc: nat := 1, 0;
    stack[0] := desc;
    assert stack[..1] == [desc] && visited[..0] == [];
    while sp > 0
      invariant sp <= LIMIT && vc <= LIMIT && stack.Length == visited.Length == LIMIT && fresh(stack)
        && fresh(visited) && stack != visited
      invariant Search(g, rank, anc, [desc], []) == Search(g, rank, anc, stack[..sp], visited[..vc])
      decreases StackPaths(g, rank, stack[..sp])
    {
      ghost var before, list := stack[..sp], visited[..vc];
      sp := sp - 1;
      var cur := stack[sp];
      assert before[..sp] == stack[..sp] && before[sp] == cur;
      SearchStep(g, rank, anc, before, list);
      var seen := Listed(visited, vc, cur);
      if seen { continue; }
      if vc < LIMIT {
        visited[vc] := cur;
        vc := vc + 1;
      }
      assert visited[..vc] == Noted(list, cur);
      if cur == anc { return true; }
      if cur !in g { NoParents(g, stack[..sp], cur); continue; }
      ParentsAre(g, cur);
      sp := PushAll(stack, sp, g[cur].parents);
    }
    SearchEnds(g, rank, anc, visited[..vc]);
    assert stack[..0] == [];
    r := false;
  }

  lemma ParentsAre(g: History, c: Oid)
    requires c in g
    ensures Parents(g, c) == g[c].parents
  {
  }

  lemma NoParents(g: History, rest: seq<Oid>, cur: Oid)
    requires cur !in g
    ensures rest + Parents(g, cur)[..Room(|rest|, |Parents(g, cur)|)] == rest
  {
  }

  /** One turn of the search. */
  lemma SearchStep(g: History, rank: Oid -> nat, anc: Oid, stack: seq<Oid>, visited: seq<Oid>)
    requires Acyclic(g, rank) && stack != []
    ensures var n := |stack| - 1; var cur, rest := stack[n], stack[..n];
      var next := rest + Parents(g, cur)[..Room(n, |Parents(g, cur)|)];
      && (cur in visited ==> Search(g, rank, anc, stack, visited) == Search(g, rank, anc, rest, visited))
      && (cur !in visited && cur == anc ==> Search(g, rank, anc, stack, visited))
      && (cur !in visited && cur != anc ==>
            Search(g, rank, anc, stack, visited) == Search(g, rank, anc, next, Noted(visited, cur)))
      && StackPaths(g, rank, rest) < StackPaths(g, rank, stack)
      && StackPaths(g, rank, next) < StackPaths(g, rank, stack)
  {
    hide Acyclic, StackPaths, Room;
    var n := |stack| - 1;
    Shrinks(g, rank, stack, Room(n, |Parents(g, stack[n])|));
  }

  lemma SearchEnds(g: History, rank: Oid -> nat, anc: Oid, visited: seq<Oid>)
    requires Acyclic(g, rank)
    ensures !Search(g, rank, anc, [], visited)
  {
  }

  method Listed(visited: array<Oid>, vc: nat, cur: Oid) returns (seen: bool)
    requires vc <= visited.Length
    ensures seen <==> cur in visited[..vc]
  {
    seen := false;
    var i := 0;
    while i < vc
      invariant i <= vc && cur !in visited[..i]
    {
      if visited[i] == cur { return true; }
      i := i + 1;
    }
  }

  /** Pushes parents while there is room. */
  method PushAll(stack: array<Oid>, from: nat, ps: seq<Oid>) returns (sp: nat)
    requires stack.Length == LIMIT && from <= LIMIT
    modifies stack
    ensures sp <= LIMIT && stack[..sp] == old(stack[..from]) + ps[..Room(from, |ps|)]
  {
    sp := from;
    var i := 0;
    while i < |ps| && sp < LIMIT
      invariant i <= |ps| && sp == from + i <= LIMIT
      invariant stack[..sp] == old(stack[..from]) + ps[..i]
    {
      stack[sp] := ps[i];
      sp := sp + 1;
      i := i + 1;
    }
  }

  /** The search never claims more than is true. */
  lemma {:induction false} SearchSound(g: History, rank: Oid -> nat, anc: Oid, stack: seq<Oid>, visited: seq<Oid>)
    requires Acyclic(g, rank) && Search(g, rank, anc, stack, visited)
    ensures exists c <- stack :: Reaches(g, c, anc)
    decreases StackPaths(g, rank, stack)
  {
    hide Acyclic, StackPaths, Reaches;
    var n := |stack| - 1;
    var cur, rest := stack[n], stack[..n];
    var k := Room(n, |Parents(g, cur)|);
    Shrinks(g, rank, stack, k);
    if cur in visited {
      SearchSound(g, rank, anc, rest, visited);
    } else if cur == anc {
      ReachesSelf(g, cur);
      assert cur in stack;
    } else {
      SearchSound(g, rank, anc, rest + Parents(g, cur)[..k], Noted(visited, cur));
      var c :| c in rest + Parents(g, cur)[..k] && Reaches(g, c, anc);
      if c !in rest {
        ReachesFurther(g, cur, c, anc);
        assert cur in stack;
      }
    }
  }

  lemma FindsSound(g: History, rank: Oid -> nat, anc: Oid, desc: Oid)
    requires Acyclic(g, rank) && Finds(g, rank, anc, desc)
    ensures Reaches(g, desc, anc)
  {
    hide Reaches, Acyclic;
    if anc == desc { ReachesSelf(g, anc); } else { SearchSound(g, rank, anc, [desc], []); }
  }

  // ----- when the search is exact -----

  /** The parent links that start in a set. */
  ghost function Links(g: History, s: set<Oid>): nat
    decreases |s|
  {
    if s == {} then 0 else var c :| c in s; |Parents(g, c)| + Links(g, s - {c})
  }

  lemma {:induction false} LinksWithout(g: History, s: set<Oid>, c: Oid)
    requires c in s
    ensures Links(g, s) == |Parents(g, c)| + Links(g, s - {c})
    decreases |s|
  {
    var d :| d in s && Links(g, s) == |Parents(g, d)| + Links(g, s - {d});
    if d != c {
      LinksWithout(g, s - {d}, c);
      LinksWithout(g, s - {c}, d);
      assert s - {d} - {c} == s - {c} - {d};
    }
  }

  lemma {:induction false} LinksWithin(g: History, s: set<Oid>, t: set<Oid>)
    requires s <= t
    ensures Links(g, s) <= Links(g, t)
    decreases |t|
  {
    if c :| c in t && c !in s {
      LinksWithout(g, t, c);
      LinksWithin(g, s, t - {c});
    } else {
      assert s == t;
    }
  }

  lemma LinksWith(g: History, s: set<Oid>, c: Oid)
    requires c !in s
    ensures Links(g, s + {c}) == Links(g, s) + |Parents(g, c)|
  {
    LinksWithout(g, s + {c}, c);
    assert s + {c} - {c} == s;
  }

  /** The bookkeeping of a search in which nothing was dropped: `done` holds the ids expanded so far. */
  ghost predicate Tracks(g: History, anc: Oid, stack: seq<Oid>, visited: seq<Oid>, done: set<Oid>, s: set<Oid>) {
    && done <= s && (forall x <- stack :: x in s) && anc !in done
    && (forall x <- done, p <- Parents(g, x) :: p in done || p in stack)
    && |done| + |stack| <= 1 + Links(g, done)
    && (stack == [] || (|visited| == |done| && forall x :: x in visited <==> x in done))
  }

  lemma ParentsInside(g: History, s: set<Oid>, c: Oid)
    requires Closed(g, s) && c in s
    ensures forall p <- Parents(g, c) :: p in s
  {
  }

  /** With at most 256 links in reach, no parent is dropped, and the bookkeeping continues. */
  lemma {:induction false} TrackStep(g: History, anc: Oid, stack: seq<Oid>, visited: seq<Oid>, done: set<Oid>,
                                     s: set<Oid>)
    requires Closed(g, s) && Links(g, s) <= LIMIT && Tracks(g, anc, stack, visited, done, s)
    requires stack != []
    ensures var n := |stack| - 1; var cur, rest := stack[n], stack[..n];
      && (cur in visited ==> Tracks(g, anc, rest, visited, done, s))
      && (cur !in visited && cur != anc ==>
            && Room(n, |Parents(g, cur)|) == |Parents(g, cur)|
            && Tracks(g, anc, rest + Parents(g, cur), Noted(visited, cur), done + {cur}, s))
  {
    hide Parents, Links, Closed;
    var n := |stack| - 1;
    var cur, rest := stack[n], stack[..n];
    assert stack == rest + [cur];
    if cur !in visited && cur != anc {
      ParentsInside(g, s, cur);
      assert cur in stack;
      LinksWith(g, done, cur);
      LinksWithin(g, done + {cur}, s);
    }
  }

  /** A failed search leaves a closed set around its start that does not hold the ancestor. */
  lemma {:induction false} NotFound(g: History, rank: Oid -> nat, anc: Oid, stack: seq<Oid>, visited: seq<Oid>,
                                    done: set<Oid>, s: set<Oid>)
    returns (c: set<Oid>)
    requires Acyclic(g, rank) && !Search(g, rank, anc, stack, visited)
    requires Closed(g, s) && Links(g, s) <= LIMIT && Tracks(g, anc, stack, visited, done, s)
    ensures done <= c && (forall x <- stack :: x in c) && Closed(g, c) && anc !in c
    decreases StackPaths(g, rank, stack)
  {
    hide Acyclic, StackPaths, Search, Links, Parents, Room, Noted;
    if stack == [] {
      c := done;
    } else {
      var n := |stack| - 1;
      var cur, rest := stack[n], stack[..n];
      assert stack == rest + [cur];
      SearchStep(g, rank, anc, stack, visited);
      TrackStep(g, anc, stack, visited, done, s);
      if cur in visited {
        c := NotFound(g, rank, anc, rest, visited, done, s);
      } else {
        var ps := Parents(g, cur);
        assert ps[..|ps|] == ps;
        c := NotFound(g, rank, anc, rest + ps, Noted(visited, cur), done + {cur}, s);
      }
    }
  }

  lemma NoLinks(g: History)
    ensures Links(g, {}) == 0
  {
  }

  /** The search is exact whenever at most 256 parent links can be reached. */
  lemma FindsExact(g: History, rank: Oid -> nat, anc: Oid, desc: Oid, s: set<Oid>)
    requires Acyclic(g, rank) && Closed(g, s) && desc in s && Links(g, s) <= LIMIT
    ensures Finds(g, rank, anc, desc) <==> Reaches(g, desc, anc)
  {
    hide Acyclic, Reaches, Links, StackPaths;
    if Finds(g, rank, anc, desc) {
      FindsSound(g, rank, anc, desc);
    } else {
      NoLinks(g);
      var c := NotFound(g, rank, anc, [desc], [], {}, s);
      NotReached(g, c, desc, anc);
    }
  }

  lemma {:induction false} OnlyRoots(g: History, rank: Oid -> nat, anc: Oid, stack: seq<Oid>, visited: seq<Oid>)
    requires Acyclic(g, rank) && forall i | 0 <= i < |stack| :: stack[i] != anc && |Parents(g, stack[i])| == 0
    ensures !Search(g, rank, anc, stack, visited)
    decreases |stack|
  {
    hide Acyclic, StackPaths, Search, Parents;
    if stack == [] {
      SearchEnds(g, rank, anc, visited);
    } else {
      var n := |stack| - 1;
      var cur, rest := stack[n], stack[..n];
      SearchStep(g, rank, anc, stack, visited);
      assert rest + Parents(g, cur)[..Room(n, 0)] == rest;
      if cur in visited {
        OnlyRoots(g, rank, anc, rest, visited);
      } else {
        OnlyRoots(g, rank, anc, rest, Noted(visited, cur));
      }
    }
  }

  /** The bound is tight: the last of the 257 parents of a merge is not found. */
  lemma WideMergeMissed(g: History, rank: Oid -> nat, desc: Oid)
    requires Acyclic(g, rank) && desc in g && |g[desc].parents| == LIMIT + 1
    requires forall p <- g[desc].parents :: Parents(g, p) == []
    requires g[desc].parents[LIMIT] !in g[desc].parents[..LIMIT]
    ensures Reaches(g, desc, g[desc].parents[LIMIT]) && !Finds(g, rank, g[desc].parents[LIMIT], desc)
  {
    hide Acyclic, StackPaths;
    var ps := g[desc].parents;
    var anc := ps[LIMIT];
    assert anc in Parents(g, desc);
    ReachesSelf(g, anc);
    ReachesFurther(g, desc, anc, anc);
    assert anc != desc by { assert Parents(g, desc) != []; }
    var start: seq<Oid>, none: seq<Oid> := [desc], [];
    SearchStep(g, rank, anc, start, none);
    assert start[..0] + Parents(g, desc)[..Room(0, |Parents(g, desc)|)] == ps[..LIMIT];
    forall i | 0 <= i < LIMIT ensures ps[i] != anc && |Parents(g, ps[i])| == 0 {
      assert ps[..LIMIT][i] == ps[i] && ps[i] in ps;
    }
    OnlyRoots(g, rank, anc, ps[..LIMIT], Noted(none, desc));
  }

  // ----- the threshold -----

  function Id(i: nat): (c: Oid)
    requires i < 0x10000
    ensures |c| == 32
  {
    [i / 0x100, i % 0x100] + seq(30, _ => 0)
  }

  lemma IdsDiffer(i: nat, j: nat)
    requires i < 0x10000 && j < 0x10000 && i != j
    ensures Id(i) != Id(j)
  {
    assert Id(i)[0] == i / 0x100 && Id(i)[1] == i % 0x100 && Id(j)[0] == j / 0x100 && Id(j)[1] == j % 0x100;
  }

  const CHILD := Id(0x200)

  /** A merge commit with the parents 0..256, which cannot be read as commits. */
  function WideHistory(): History {
    map[CHILD := Commit(Id(0), WideParents())]
  }

  function WideParents(): (ps: seq<Oid>)
    ensures |ps| == LIMIT + 1 && forall i | 0 <= i <= LIMIT :: ps[i] == Id(i)
  {
    seq(LIMIT + 1, i requires 0 <= i <= LIMIT => Id(i))
  }

  function WideRank(): Oid -> nat {
    c => if c == CHILD then 1 else 0
  }

  lemma {:induction false} NoLinksAmong(g: History, s: set<Oid>)
    requires forall c <- s :: |Parents(g, c)| == 0
    ensures Links(g, s) == 0
    decreases |s|
  {
    if c :| c in s {
      LinksWithout(g, s, c);
      NoLinksAmong(g, s - {c});
    }
  }

  /** That history is acyclic, 257 links can be reached in it, and its last parent is missed. */
  lemma {:induction false} WideExists() returns (g: History, rank: Oid -> nat, s: set<Oid>, anc: Oid)
    ensures Acyclic(g, rank) && Closed(g, s) && CHILD in s && Links(g, s) == LIMIT + 1
    ensures Reaches(g, CHILD, anc) && !Finds(g, rank, anc, CHILD)
  {
    hide Links, Reaches, Finds, Id;
    g, rank, anc := WideHistory(), WideRank(), WideParents()[LIMIT];
    var ps := WideParents();
    forall i | 0 <= i <= LIMIT ensures ps[i] != CHILD && (i < LIMIT ==> ps[i] != anc) {
      IdsDiffer(i, 0x200);
      if i < LIMIT { IdsDiffer(i, LIMIT); }
    }
    forall p <- ps ensures Parents(g, p) == [] && p != CHILD {
    }
    var roots := set p | p in ps;
    assert Acyclic(g, rank);
    assert anc !in ps[..LIMIT];
    WideMergeMissed(g, rank, CHILD);
    NoLinksAmong(g, roots);
    LinksWith(g, roots, CHILD);
    s := roots + {CHILD};
    assert Closed(g, s);
  }

  /** The search is exact on every history in which at most n parent links can be reached. */
  ghost predicate ExactUpTo(n: nat) {
    forall g: History, rank: Oid -> nat, s: set<Oid>, desc: Oid, anc: Oid
      | Acyclic(g, rank) && Closed(g, s) && desc in s && Links(g, s) <= n ::
      Finds(g, rank, anc, desc) <==> Reaches(g, desc, anc)
  }

  /** The threshold: 256 reachable links, and no more. */
  lemma {:induction false} Threshold(n: nat)
    ensures ExactUpTo(n) <==> n <= 256
  {
    hide Links, Reaches, Finds, Acyclic, Closed;
    if n <= LIMIT {
      forall g: History, rank: Oid -> nat, s: set<Oid>, desc: Oid, anc: Oid
        | Acyclic(g, rank) && Closed(g, s) && desc in s && Links(g, s) <= n
        ensures Finds(g, rank, anc, desc) <==> Reaches(g, desc, anc)
      {
        FindsExact(g, rank, anc, desc, s);
      }
    } else {
      var g, rank, s, anc := WideExists();
      assert !(Finds(g, rank, anc, CHILD) <==> Reaches(g, CHILD, anc));
    }
  }

  // ----- the merge -----

  /** HEAD is a commit, unborn (ENOENT), or cannot be resolved. */
  datatype Head = At(oid: Oid) | Unborn | Broken(error: Error)

  /** What the merge changes and what it calls: reading a tree into the index, writing the index, and moving
      HEAD may each fail. */
  class Repository {
    const history: History
    const hasIndex: bool
    const readTree: Oid -> Result<seq<File>>
    const indexWrites: Result<()>
    const headMoves: Result<()>
    var head: Head
    var index: seq<File>

    constructor (history: History, head: Head, hasIndex: bool, readTree: Oid -> Result<seq<File>>,
                 indexWrites: Result<()>, headMoves: Result<()>)
      ensures this.history == history && this.head == head && index == []
    {
      this.history, this.head, this.hasIndex, this.readTree := history, head, hasIndex, readTree;
      this.indexWrites, this.headMoves := indexWrites, headMoves;
      index := [];
    }

    method MoveHead(to: Oid) returns (r: Result<()>)
      modifies this`head
      ensures r == headMoves && head == if r.Ok? then At(to) else old(head)
    {
      r := headMoves;
      if r.Ok? { head := At(to); }
    }

    /** fastgit_merge: fast-forward or nothing. */
    method Merge(their: Oid, ghost rank: Oid -> nat) returns (r: Result<()>)
      requires Acyclic(history, rank) && (head.Broken? ==> head.error != ENOENT)
      modifies this
      ensures r.Ok? ==> head.At? && Reaches(history, head.oid, their)
      ensures r.Ok? && old(head).At? ==> Reaches(history, head.oid, old(head).oid)
      ensures r.Err? ==> head == old(head)
      ensures r == Err(EUNSUPPORTED) && headMoves.Ok? && indexWrites.Ok? && (forall t :: readTree(t).Ok?)
        && !head.Broken?
        ==> (head.At? && index == old(index)
             && !Finds(history, rank, head.oid, their) && !Finds(history, rank, their, head.oid))
      ensures old(head).At? && !Reaches(history, their, old(head).oid) && !Reaches(history, old(head).oid, their) ==>
                r == Err(EUNSUPPORTED) && index == old(index)
      ensures old(head).Unborn? ==>
        r == headMoves && head == (if r.Ok? then At(their) else old(head)) && index == old(index)
      ensures old(head).Broken? ==> r == Err(old(head).error) && head == old(head) && index == old(index)
      ensures old(head).At? ==>
        var mine := old(head).oid;
        if mine != their && Finds(history, rank, mine, their) then Forwarded(their, old(head), old(index), r)
        else
          && head == old(head) && index == old(index)
          && r == if mine == their || Finds(history, rank, their, mine) then Ok(()) else Err(EUNSUPPORTED)
      ensures r.Ok? && old(head).At? && head != old(head) ==> head == At(their) && their in history
      ensures r.Ok? && old(head).At? && head != old(head) && hasIndex ==> readTree(history[head.oid].tree) == Ok(index)
    {
      hide Acyclic, Search, Reaches;
      if head.Unborn? {
        r := MoveHead(their);
        ReachesSelf(history, their);
        return;
      }
      if head.Broken? { return Err(head.error); }
      var mine := head.oid;
      ReachesSelf(history, mine);
      if mine == their { return Ok(()); }
      var ahead := IsAncestor(history, mine, their, rank);
      if ahead {
        FindsSound(history, rank, mine, their);
        r := FastForward(their);
        ReachesSelf(history, their);
        return;
      }
      var behind := IsAncestor(history, their, mine, rank);
      if behind {
        FindsSound(history, rank, their, mine);
        return Ok(());
      }
      r := Err(EUNSUPPORTED);
    }

    /** What a fast-forward leaves: the first of its steps that fails ends it, and HEAD moves last. */
    ghost predicate Forwarded(their: Oid, head0: Head, index0: seq<File>, r: Result<()>)
      reads this
    {
      if their !in history then r == Err(EINVAL) && head == head0 && index == index0
      else
        var files := if hasIndex then readTree(history[their].tree) else Ok(index0);
        if files.Err? then r == Err(files.error) && head == head0 && index == index0
        else
          && index == files.value
          && r == (if hasIndex && indexWrites.Err? then indexWrites else headMoves)
          && head == if r.Ok? then At(their) else head0
    }

    method FastForward(their: Oid) returns (r: Result<()>)
      modifies this
      ensures Forwarded(their, old(head), old(index), r)
      ensures r.Err? ==> head == old(head)
      ensures r.Ok? ==> head == At(their) && their in history
      ensures r.Ok? && hasIndex ==> readTree(history[their].tree) == Ok(index)
      ensures r == Err(EUNSUPPORTED) ==> headMoves.Err? || indexWrites.Err? || exists t :: readTree(t).Err?
    {
      if their !in history { return Err(EINVAL); }
      var tree := history[their].tree;
      if hasIndex {
        var files := readTree(tree);
        if files.Err? { return Err(files.error); }
        index := files.value;
        if indexWrites.Err? { return indexWrites; }
      }
      r := MoveHead(their);
    }
  }

  /** In a history with few links, merging is refused exactly when neither side contains the other. */
  method MergeSmall(repo: Repository, their: Oid, ghost rank: Oid -> nat, ghost s: set<Oid>) returns (r: Result<()>)
    requires Acyclic(repo.history, rank) && repo.head.At?
    requires Closed(repo.history, s) && repo.head.oid in s && their in s && Links(repo.history, s) <= LIMIT
    requires repo.headMoves.Ok? && repo.indexWrites.Ok? && forall t :: repo.readTree(t).Ok?
    modifies repo
    ensures r == Err(EUNSUPPORTED) <==>
      !Reaches(repo.history, their, old(repo.head).oid) && !Reaches(repo.history, old(repo.head).oid, their)
  {
    hide Acyclic, Reaches, Finds, Links;
    FindsExact(repo.history, rank, repo.head.oid, their, s);
    FindsExact(repo.history, rank, their, repo.head.oid, s);
    r := repo.Merge(their, rank);
  }
}
