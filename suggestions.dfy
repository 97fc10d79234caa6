/**
 * The depth-first walk behind `get_suggestions`: from the node of the normalized prefix,
 * pop a node, collect the display titles of the live records it holds when it ends a
 * word, push its children, and stop once the stack is empty or the limit is reached.
 *
 * The walk runs over an arena as `Trie.Valid()` describes it. A ghost `visited` set,
 * with the nodes popped so far, gives termination and the invariants.
 */
module Suggestions {
  import opened Entities
  import opened Sorting
  import opened TrieArena

  /** The suggestions a limit allows: `len(suggestions) < max_suggestions` never holds for a limit below one. */
  function Bound(max: int): (b: nat)
    ensures max > 0 ==> b == max
    ensures max <= 0 ==> b == 0
  {
    if max <= 0 then 0 else max
  }

  /** s is the display title of a live record inserted under a key that extends p. */
  ghost predicate Suggestable(entries: set<(string, int)>, table: map<int, Anime>, p: string, s: string) {
    exists e :: e in entries && p <= e.0 && e.1 in table && s == DisplayTitle(table[e.1])
  }

  /** The node at position b lies in the subtree of the node at position a. */
  ghost predicate Below(paths: seq<string>, a: nat, b: nat) {
    a < |paths| && b < |paths| && paths[a] <= paths[b]
  }

  /**
   * Below(paths, start, m) under its own name, so that the quantifier over the nodes
   * below start is not triggered by every stacked node.
   */
  ghost predicate UnderStart(paths: seq<string>, start: nat, m: nat) {
    Below(paths, start, m)
  }

  /** Every live record inserted under the key of a visited node has its display title in found. */
  ghost predicate Seen(entries: set<(string, int)>, table: map<int, Anime>, index: map<string, nat>,
                       visited: set<nat>, found: set<string>)
  {
    forall e :: e in entries && e.0 in index && index[e.0] in visited && e.1 in table ==>
      DisplayTitle(table[e.1]) in found
  }

  /** The stack holds distinct nodes below start that were never popped, and visited holds positions. */
  ghost predicate FreshStack(nodes: seq<TrieNode>, paths: seq<string>, start: nat, stack: seq<nat>, visited: set<nat>)
    requires |paths| == |nodes| && start < |nodes|
  {
    && (forall m :: m in visited ==> m < |nodes|)
    && (forall k :: 0 <= k < |stack| ==> stack[k] < |nodes| && stack[k] !in visited && Below(paths, start, stack[k]))
    && (forall j, k :: 0 <= j < k < |stack| ==> stack[j] != stack[k])
  }

  /** Every popped or stacked node but start was reached from its popped parent. */
  ghost predicate ParentsVisited(nodes: seq<TrieNode>, parents: seq<nat>, start: nat, stack: seq<nat>, visited: set<nat>)
    requires |parents| == |nodes|
  {
    forall m {:trigger parents[m]} :: 0 <= m < |nodes| && (m in visited || m in stack) && m != start ==> parents[m] in visited
  }

  /** Every node below start is popped or lies below a stacked node. */
  ghost predicate Covered(nodes: seq<TrieNode>, paths: seq<string>, start: nat, stack: seq<nat>, visited: set<nat>)
    requires |paths| == |nodes| && start < |nodes|
  {
    forall m :: 0 <= m < |nodes| && UnderStart(paths, start, m) ==>
      m in visited || exists k :: 0 <= k < |stack| && stack[k] < |nodes| && Below(paths, stack[k], m)
  }

  /** The state of the walk between two pops. */
  ghost predicate Frontier(nodes: seq<TrieNode>, paths: seq<string>, parents: seq<nat>, start: nat,
                           stack: seq<nat>, visited: set<nat>)
    requires |paths| == |nodes| && |parents| == |nodes| && start < |nodes|
  {
    && FreshStack(nodes, paths, start, stack, visited)
    && ParentsVisited(nodes, parents, start, stack, visited)
    && Covered(nodes, paths, start, stack, visited)
  }

  /** The walk starts with start alone on the stack and nothing popped. */
  lemma FrontierStart(nodes: seq<TrieNode>, paths: seq<string>, parents: seq<nat>, start: nat)
    requires |paths| == |nodes| && |parents| == |nodes| && start < |nodes|
    ensures Frontier(nodes, paths, parents, start, [start], {})
  {
    forall m | 0 <= m < |nodes| && UnderStart(paths, start, m)
      ensures exists k :: 0 <= k < |[start]| && [start][k] < |nodes| && Below(paths, [start][k], m)
    {
      assert [start][0] == start;
    }
  }

  /** A set of positions below n has at most n elements. */
  lemma {:induction false} BoundedCard(s: set<nat>, n: nat)
    requires forall m :: m in s ==> m < n
    ensures |s| <= n
    decreases n
  {
    if n > 0 {
      BoundedCard(s - {n - 1}, n - 1);
    }
  }

  /** `current_node.children.items()`: each child once, in an order the model does not fix. */
  method ChildNodes(children: map<char, nat>) returns (kids: seq<nat>, ghost chars: seq<char>)
    ensures |kids| == |chars|
    ensures forall k :: 0 <= k < |kids| ==> chars[k] in children && kids[k] == children[chars[k]]
    ensures forall c :: c in children ==> c in chars
    ensures forall j, k :: 0 <= j < k < |chars| ==> chars[j] != chars[k]
  {
    kids, chars := [], [];
    var rest := children.Keys;
    while rest != {}
      invariant rest <= children.Keys
      invariant |kids| == |chars|
      invariant forall k :: 0 <= k < |kids| ==> chars[k] in children && kids[k] == children[chars[k]] && chars[k] !in rest
      invariant forall c :: c in children ==> c in chars || c in rest
      invariant forall j, k :: 0 <= j < k < |chars| ==> chars[j] != chars[k]
      decreases |rest|
    {
      var c :| c in rest;
      kids, chars := kids + [children[c]], chars + [c];
      rest := rest - {c};
    }
  }

  /** A child of n has n as its parent, and it is neither n nor any node whose path is no longer than n's. */
  lemma ChildOf(nodes: seq<TrieNode>, index: map<string, nat>, paths: seq<string>, parents: seq<nat>, n: nat, c: char)
    requires Shape(nodes, index, paths, parents) && n < |nodes| && c in nodes[n].children
    ensures var kid := nodes[n].children[c];
      && kid < |nodes| && kid != 0 && paths[kid] == paths[n] + [c] && parents[kid] == n
  {
    var kid := nodes[n].children[c];
    assert paths[kid] == paths[n] + [c];
    assert paths[0] == [];
    assert paths[kid][..|paths[kid]| - 1] == paths[n];
    assert index[paths[parents[kid]]] == parents[kid];
  }

  /** The children of a node below start: fresh positions below start, each with n as its parent, all distinct. */
  lemma KidsOf(nodes: seq<TrieNode>, index: map<string, nat>, paths: seq<string>, parents: seq<nat>,
               start: nat, n: nat, kids: seq<nat>, chars: seq<char>)
    requires Shape(nodes, index, paths, parents) && start < |nodes| && n < |nodes| && Below(paths, start, n)
    requires |kids| == |chars|
    requires forall k :: 0 <= k < |kids| ==> chars[k] in nodes[n].children && kids[k] == nodes[n].children[chars[k]]
    requires forall j, k :: 0 <= j < k < |chars| ==> chars[j] != chars[k]
    ensures forall k :: 0 <= k < |kids| ==>
      kids[k] < |nodes| && kids[k] != start && kids[k] != n && parents[kids[k]] == n && Below(paths, start, kids[k])
    ensures forall j, k :: 0 <= j < k < |kids| ==> kids[j] != kids[k]
  {
    forall k | 0 <= k < |kids|
      ensures kids[k] < |nodes| && kids[k] != start && kids[k] != n && parents[kids[k]] == n && Below(paths, start, kids[k])
    {
      ChildOf(nodes, index, paths, parents, n, chars[k]);
      assert |paths[kids[k]]| > |paths[n]| >= |paths[start]|;
    }
    forall j, k | 0 <= j < k < |kids| ensures kids[j] != kids[k] {
      ChildOf(nodes, index, paths, parents, n, chars[j]);
      ChildOf(nodes, index, paths, parents, n, chars[k]);
      assert paths[kids[j]][|paths[n]|] == chars[j];
      assert paths[kids[k]][|paths[n]|] == chars[k];
    }
  }

  /** Every node strictly below n lies below one of n's children. */
  lemma KidsCover(nodes: seq<TrieNode>, index: map<string, nat>, paths: seq<string>, parents: seq<nat>,
                  n: nat, kids: seq<nat>, chars: seq<char>)
    requires Shape(nodes, index, paths, parents) && n < |nodes|
    requires |kids| == |chars|
    requires forall k :: 0 <= k < |kids| ==> chars[k] in nodes[n].children && kids[k] == nodes[n].children[chars[k]]
    requires forall c :: c in nodes[n].children ==> c in chars
    ensures ChildrenCover(nodes, paths, n, kids)
  {
    forall m | 0 <= m < |nodes| && Below(paths, n, m) && m != n
      ensures exists k :: 0 <= k < |kids| && Below(paths, kids[k], m)
    {
      assert paths[m] != paths[n] by {
        assert index[paths[m]] == m && index[paths[n]] == n;
      }
      var q := paths[m][..|paths[n]| + 1];
      var c := paths[m][|paths[n]|];
      assert q == paths[n] + [c];
      PrefixClosed(nodes, index, paths, parents, paths[m], |paths[n]| + 1);
      ChildPath(nodes, index, paths, parents, paths[n], c);
      var j :| 0 <= j < |chars| && chars[j] == c;
      assert paths[kids[j]] == q;
    }
  }

  /** The facts about n's children the step lemmas use. */
  ghost predicate ChildrenOf(nodes: seq<TrieNode>, paths: seq<string>, parents: seq<nat>, start: nat, n: nat, kids: seq<nat>)
    requires |paths| == |nodes| && |parents| == |nodes| && start < |nodes| && n < |nodes|
  {
    && (forall k :: 0 <= k < |kids| ==>
          kids[k] < |nodes| && kids[k] != start && kids[k] != n && parents[kids[k]] == n && Below(paths, start, kids[k]))
    && (forall j, k :: 0 <= j < k < |kids| ==> kids[j] != kids[k])
  }

  /** Every node strictly below n lies below one of the kids. */
  ghost predicate ChildrenCover(nodes: seq<TrieNode>, paths: seq<string>, n: nat, kids: seq<nat>) {
    forall m :: 0 <= m < |nodes| && Below(paths, n, m) && m != n ==>
      exists k :: 0 <= k < |kids| && Below(paths, kids[k], m)
  }

  /** A child of the popped node was never popped nor stacked: its parent was not popped before. */
  lemma KidsUnseen(nodes: seq<TrieNode>, paths: seq<string>, parents: seq<nat>,
                   start: nat, stack: seq<nat>, visited: set<nat>, kids: seq<nat>)
    requires |paths| == |nodes| && |parents| == |nodes| && start < |nodes| && stack != [] && stack[|stack| - 1] < |nodes|
    requires FreshStack(nodes, paths, start, stack, visited) && ParentsVisited(nodes, parents, start, stack, visited)
    requires ChildrenOf(nodes, paths, parents, start, stack[|stack| - 1], kids)
    ensures forall k :: 0 <= k < |kids| ==> kids[k] !in visited && kids[k] !in stack
  {
    var n := stack[|stack| - 1];
    assert n in stack && n !in visited;
    forall k | 0 <= k < |kids| ensures kids[k] !in visited && kids[k] !in stack {
      assert parents[kids[k]] == n;
    }
  }

  lemma FreshStep(nodes: seq<TrieNode>, paths: seq<string>, parents: seq<nat>,
                  start: nat, stack: seq<nat>, visited: set<nat>, kids: seq<nat>)
    requires |paths| == |nodes| && |parents| == |nodes| && start < |nodes| && stack != [] && stack[|stack| - 1] < |nodes|
    requires FreshStack(nodes, paths, start, stack, visited)
    requires ChildrenOf(nodes, paths, parents, start, stack[|stack| - 1], kids)
    requires forall k :: 0 <= k < |kids| ==> kids[k] !in visited && kids[k] !in stack
    ensures FreshStack(nodes, paths, start, stack[..|stack| - 1] + kids, visited + {stack[|stack| - 1]})
  {
    var n := stack[|stack| - 1];
    var rest := stack[..|stack| - 1];
    var stack' := rest + kids;
    var visited' := visited + {n};
    forall k | 0 <= k < |stack'|
      ensures stack'[k] < |nodes| && stack'[k] !in visited' && Below(paths, start, stack'[k])
    {
      if k < |rest| {
        assert stack'[k] == stack[k];
      } else {
        assert stack'[k] == kids[k - |rest|];
      }
    }
    forall j, k | 0 <= j < k < |stack'| ensures stack'[j] != stack'[k] {
      if k < |rest| {
        assert stack'[j] == stack[j] && stack'[k] == stack[k];
      } else if j < |rest| {
        assert stack'[j] == stack[j] && stack'[k] == kids[k - |rest|];
        assert stack[j] in stack;
      } else {
        assert stack'[j] == kids[j - |rest|] && stack'[k] == kids[k - |rest|];
      }
    }
  }

  lemma ParentsStep(nodes: seq<TrieNode>, paths: seq<string>, parents: seq<nat>,
                    start: nat, stack: seq<nat>, visited: set<nat>, kids: seq<nat>)
    requires |paths| == |nodes| && |parents| == |nodes| && start < |nodes| && stack != [] && stack[|stack| - 1] < |nodes|
    requires ParentsVisited(nodes, parents, start, stack, visited)
    requires ChildrenOf(nodes, paths, parents, start, stack[|stack| - 1], kids)
    ensures ParentsVisited(nodes, parents, start, stack[..|stack| - 1] + kids, visited + {stack[|stack| - 1]})
  {
    var n := stack[|stack| - 1];
    var rest := stack[..|stack| - 1];
    var stack' := rest + kids;
    var visited' := visited + {n};
    assert n in stack;
    forall m | 0 <= m < |nodes| && (m in visited' || m in stack') && m != start
      ensures parents[m] in visited'
    {
      if m in stack' && m !in visited' {
        var k :| 0 <= k < |stack'| && stack'[k] == m;
        if k < |rest| {
          assert stack[k] == m;
        } else {
          assert kids[k - |rest|] == m;
        }
      }
    }
  }

  lemma CoveredStep(nodes: seq<TrieNode>, paths: seq<string>, parents: seq<nat>,
                    start: nat, stack: seq<nat>, visited: set<nat>, kids: seq<nat>)
    requires |paths| == |nodes| && |parents| == |nodes| && start < |nodes| && stack != [] && stack[|stack| - 1] < |nodes|
    requires Covered(nodes, paths, start, stack, visited)
    requires ChildrenOf(nodes, paths, parents, start, stack[|stack| - 1], kids)
    requires ChildrenCover(nodes, paths, stack[|stack| - 1], kids)
    ensures Covered(nodes, paths, start, stack[..|stack| - 1] + kids, visited + {stack[|stack| - 1]})
  {
    var n := stack[|stack| - 1];
    var rest := stack[..|stack| - 1];
    var stack' := rest + kids;
    forall m | 0 <= m < |nodes| && UnderStart(paths, start, m) && m !in visited + {n}
      ensures exists k :: 0 <= k < |stack'| && stack'[k] < |nodes| && Below(paths, stack'[k], m)
    {
      var k :| 0 <= k < |stack| && stack[k] < |nodes| && Below(paths, stack[k], m);
      if k < |rest| {
        assert stack'[k] == stack[k];
      } else {
        var j :| 0 <= j < |kids| && Below(paths, kids[j], m);
        assert stack'[|rest| + j] == kids[j];
      }
    }
  }

  /**
   * One `is_end_of_word` node: adds the display title of each live id it holds, and
   * stops as soon as the limit is reached.
   */
  method Visit(node: TrieNode, ghost entries: set<(string, int)>, ghost p: string, ghost prefix: string,
               table: map<int, Anime>, max: int, found: set<string>)
    returns (found': set<string>)
    requires |found| < max
    requires prefix <= p
    requires node.animeIds == Ids(entries, p)
    requires forall s :: s in found ==> Suggestable(entries, table, prefix, s)
    ensures found <= found'
    ensures |found'| <= Bound(max)
    ensures forall s :: s in found' ==> Suggestable(entries, table, prefix, s)
    ensures |found'| < max ==> forall id :: id in node.animeIds && id in table ==> DisplayTitle(table[id]) in found'
  {
    found' := found;
    var ids := node.animeIds;
    while ids != {}
      invariant ids <= node.animeIds
      invariant found <= found' && |found'| < max
      invariant forall s :: s in found' ==> Suggestable(entries, table, prefix, s)
      invariant forall id :: id in node.animeIds && id !in ids && id in table ==> DisplayTitle(table[id]) in found'
      decreases |ids|
    {
      NonEmptyInts(ids);
      var id :| id in ids;
      ids := ids - {id};
      if id in table {
        ghost var e :| e in entries && Reaches(p, e.0) && e.1 == id;
        assert prefix <= e.0 by {
          if p != [] {
            assert e.0[..|prefix|] == p[..|prefix|];
          }
        }
        found' := found' + {DisplayTitle(table[id])};
        if |found'| >= max {
          return;
        }
      }
    }
  }

  lemma KeyIsKey(entries: set<(string, int)>, key: string, id: int)
    requires (key, id) in entries
    ensures IsKey(entries, key)
  {
  }

  /** Popping the top node and pushing its children keeps the walk's state, and one more node is popped. */
  lemma FrontierAdvance(nodes: seq<TrieNode>, index: map<string, nat>, paths: seq<string>, parents: seq<nat>,
                        start: nat, stack: seq<nat>, visited: set<nat>, kids: seq<nat>, chars: seq<char>)
    requires Shape(nodes, index, paths, parents) && start < |nodes|
    requires Frontier(nodes, paths, parents, start, stack, visited) && stack != []
    requires var n := stack[|stack| - 1];
      && n < |nodes|
      && |kids| == |chars|
      && (forall k :: 0 <= k < |kids| ==> chars[k] in nodes[n].children && kids[k] == nodes[n].children[chars[k]])
      && (forall c :: c in nodes[n].children ==> c in chars)
      && (forall j, k :: 0 <= j < k < |chars| ==> chars[j] != chars[k])
    ensures Frontier(nodes, paths, parents, start, stack[..|stack| - 1] + kids, visited + {stack[|stack| - 1]})
    ensures stack[|stack| - 1] !in visited && |visited + {stack[|stack| - 1]}| <= |nodes|
  {
    var n := stack[|stack| - 1];
    assert n in stack;
    KidsOf(nodes, index, paths, parents, start, n, kids, chars);
    KidsCover(nodes, index, paths, parents, n, kids, chars);
    KidsUnseen(nodes, paths, parents, start, stack, visited, kids);
    FreshStep(nodes, paths, parents, start, stack, visited, kids);
    ParentsStep(nodes, paths, parents, start, stack, visited, kids);
    CoveredStep(nodes, paths, parents, start, stack, visited, kids);
    BoundedCard(visited + {n}, |nodes|);
  }

  /** The label of one node, out of the labels of all of them. */
  lemma LabelAt(nodes: seq<TrieNode>, paths: seq<string>, entries: set<(string, int)>, n: nat)
    requires |paths| == |nodes| && n < |nodes| && LabelledUpTo(nodes, paths, entries, |nodes|)
    ensures nodes[n].isEndOfWord == IsKey(entries, paths[n]) && nodes[n].animeIds == Ids(entries, paths[n])
  {
    LabelledUpToAll(nodes, paths, entries, |nodes|);
  }

  /** The titles of the live records held by node n reach found once n is visited below the limit. */
  lemma SeenStep(nodes: seq<TrieNode>, index: map<string, nat>, paths: seq<string>, parents: seq<nat>,
                 entries: set<(string, int)>, table: map<int, Anime>, visited: set<nat>, n: nat, found: set<string>)
    requires Shape(nodes, index, paths, parents) && n < |nodes|
    requires nodes[n].isEndOfWord == IsKey(entries, paths[n]) && nodes[n].animeIds == Ids(entries, paths[n])
    requires Seen(entries, table, index, visited, found)
    requires nodes[n].isEndOfWord ==> forall id :: id in nodes[n].animeIds && id in table ==> DisplayTitle(table[id]) in found
    ensures Seen(entries, table, index, visited + {n}, found)
  {
    forall e | e in entries && e.0 in index && index[e.0] == n && e.1 in table
      ensures DisplayTitle(table[e.1]) in found
    {
      assert paths[n] == e.0;
      KeyIsKey(entries, e.0, e.1);
      assert Reaches(e.0, e.0);
      assert e.1 in Ids(entries, e.0);
    }
  }

  /** Once the stack is empty, every inserted key below start is a visited node. */
  lemma WalkDone(nodes: seq<TrieNode>, index: map<string, nat>, paths: seq<string>, parents: seq<nat>,
                 entries: set<(string, int)>, start: nat, visited: set<nat>)
    requires Shape(nodes, index, paths, parents) && Covers(index, entries) && start < |nodes|
    requires Frontier(nodes, paths, parents, start, [], visited)
    ensures forall e :: e in entries && paths[start] <= e.0 ==> e.0 in index && index[e.0] in visited
  {
    forall e | e in entries && paths[start] <= e.0 ensures e.0 in index && index[e.0] in visited {
      assert e.0[..|e.0|] == e.0;
      assert paths[index[e.0]] == e.0;
      assert UnderStart(paths, start, index[e.0]);
    }
  }

  /** The first half of a turn: the titles of the popped node n, when it ends a word. */
  method CollectAt(nodes: seq<TrieNode>, ghost index: map<string, nat>, ghost paths: seq<string>,
                   ghost parents: seq<nat>, ghost entries: set<(string, int)>,
                   start: nat, n: nat, table: map<int, Anime>, max: int, found: set<string>, ghost visited: set<nat>)
    returns (found': set<string>)
    requires Shape(nodes, index, paths, parents) && start < |nodes| && n < |nodes| && paths[start] <= paths[n]
    requires LabelledUpTo(nodes, paths, entries, |nodes|)
    requires |found| < max
    requires forall s :: s in found ==> Suggestable(entries, table, paths[start], s)
    requires Seen(entries, table, index, visited, found)
    ensures |found'| <= Bound(max)
    ensures forall s :: s in found' ==> Suggestable(entries, table, paths[start], s)
    ensures |found'| < max ==> Seen(entries, table, index, visited + {n}, found')
  {
    LabelAt(nodes, paths, entries, n);
    found' := found;
    if nodes[n].isEndOfWord {
      found' := Visit(nodes[n], entries, paths[n], paths[start], table, max, found);
    }
    if |found'| < max {
      SeenStep(nodes, index, paths, parents, entries, table, visited, n, found');
    }
  }

  /** The second half of a turn: pop n and push its children. */
  method Expand(nodes: seq<TrieNode>, ghost index: map<string, nat>, ghost paths: seq<string>,
                ghost parents: seq<nat>, start: nat, stack: seq<nat>, ghost visited: set<nat>)
    returns (stack': seq<nat>)
    requires Shape(nodes, index, paths, parents) && start < |nodes|
    requires Frontier(nodes, paths, parents, start, stack, visited) && stack != []
    ensures Frontier(nodes, paths, parents, start, stack', visited + {stack[|stack| - 1]})
    ensures stack[|stack| - 1] !in visited && |visited + {stack[|stack| - 1]}| <= |nodes|
  {
    var n := stack[|stack| - 1];
    assert n in stack;
    var kids, chars := ChildNodes(nodes[n].children);
    FrontierAdvance(nodes, index, paths, parents, start, stack, visited, kids, chars);
    stack' := stack[..|stack| - 1] + kids;
  }

  /** One turn of the walk: pop a node, collect its titles when it ends a word, push its children. */
  method WalkStep(nodes: seq<TrieNode>, ghost index: map<string, nat>, ghost paths: seq<string>,
                  ghost parents: seq<nat>, ghost entries: set<(string, int)>,
                  start: nat, table: map<int, Anime>, max: int,
                  stack: seq<nat>, found: set<string>, ghost visited: set<nat>)
    returns (stack': seq<nat>, found': set<string>, ghost visited': set<nat>)
    requires Shape(nodes, index, paths, parents) && start < |nodes|
    requires LabelledUpTo(nodes, paths, entries, |nodes|)
    requires Frontier(nodes, paths, parents, start, stack, visited) && stack != []
    requires |found| < max
    requires forall s :: s in found ==> Suggestable(entries, table, paths[start], s)
    requires Seen(entries, table, index, visited, found)
    ensures Frontier(nodes, paths, parents, start, stack', visited')
    ensures |visited'| <= |nodes| && |visited'| == |visited| + 1
    ensures |found'| <= Bound(max)
    ensures forall s :: s in found' ==> Suggestable(entries, table, paths[start], s)
    ensures |found'| < max ==> Seen(entries, table, index, visited', found')
  {
    var n := stack[|stack| - 1];
    assert n in stack;
    found' := CollectAt(nodes, index, paths, parents, entries, start, n, table, max, found, visited);
    stack' := Expand(nodes, index, paths, parents, start, stack, visited);
    visited' := visited + {n};
  }

  /**
   * The `while stack and len(suggestions) < max_suggestions` loop from the node start:
   * at most the limit of titles, each of a live record below start, and all of them
   * when the walk stops short of the limit.
   */
  method CollectSuggestions(nodes: seq<TrieNode>, ghost index: map<string, nat>, ghost paths: seq<string>,
                            ghost parents: seq<nat>, ghost entries: set<(string, int)>,
                            start: nat, table: map<int, Anime>, max: int)
    returns (found: set<string>)
    requires Shape(nodes, index, paths, parents) && Covers(index, entries) && start < |nodes|
    requires LabelledUpTo(nodes, paths, entries, |nodes|)
    ensures |found| <= Bound(max)
    ensures forall s :: s in found ==> Suggestable(entries, table, paths[start], s)
    ensures |found| < Bound(max) ==>
      forall e :: e in entries && paths[start] <= e.0 && e.1 in table ==> DisplayTitle(table[e.1]) in found
  {
    found := {};
    var stack := [start];
    ghost var visited: set<nat> := {};
    FrontierStart(nodes, paths, parents, start);
    while stack != [] && |found| < max
      invariant Frontier(nodes, paths, parents, start, stack, visited)
      invariant |visited| <= |nodes|
      invariant |found| <= Bound(max)
      invariant forall s :: s in found ==> Suggestable(entries, table, paths[start], s)
      invariant |found| < max ==> Seen(entries, table, index, visited, found)
      decreases |nodes| - |visited|
    {
      stack, found, visited := WalkStep(nodes, index, paths, parents, entries, start, table, max, stack, found, visited);
    }
    if |found| < max {
      WalkDone(nodes, index, paths, parents, entries, start, visited);
    }
  }
}
