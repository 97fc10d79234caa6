/**
 * The prefix tree behind `AnimeTrie` (`TrieNode`, `_add_to_trie`, `_search_in_trie`).
 *
 * The nodes live in an arena: `nodes[0]` is the root, and a node's `children` map
 * characters to arena positions. Ghost state records what the tree means:
 *   index    the path from the root to every node (path -> position),
 *   paths    the inverse of index (position -> path),
 *   entries  every (normalized key, id) pair inserted so far.
 * `Valid()` ties the real nodes to that meaning: the node at path p holds the ids of
 * the entries whose key passes through p, except the root, which holds only the ids
 * of entries whose key is empty (the id is added to the last node reached, and for an
 * empty key that node is the root).
 */
module TrieArena {
  import opened Wrappers
  import opened Text
  import opened Normalization

  datatype TrieNode = TrieNode(children: map<char, nat>, isEndOfWord: bool, animeIds: set<int>)

  /** A node as `TrieNode()` creates it. */
  const EmptyNode := TrieNode(map[], false, {})

  /** The node at path p receives the ids of key: every node on the way, but the root only when key is empty. */
  ghost predicate Reaches(p: string, key: string) {
    if p == [] then key == [] else p <= key
  }

  /** The ids the node at path p holds after the given insertions. */
  ghost function Ids(entries: set<(string, int)>, p: string): set<int> {
    set e | e in entries && Reaches(p, e.0) :: e.1
  }

  /** Whether the node at path p is marked as the end of a word. */
  ghost predicate IsKey(entries: set<(string, int)>, p: string) {
    exists id :: (p, id) in entries
  }

  lemma IdsInsert(entries: set<(string, int)>, key: string, id: int, p: string)
    ensures Ids(entries + {(key, id)}, p) == Ids(entries, p) + (if Reaches(p, key) then {id} else {})
  {
  }

  /** Below the root, extending a prefix can only narrow the ids found. */
  lemma IdsNarrow(entries: set<(string, int)>, p: string, q: string)
    requires p != [] && p <= q
    ensures Ids(entries, q) <= Ids(entries, p)
  {
    forall e | e in entries && Reaches(q, e.0) ensures Reaches(p, e.0) {
      assert e.0[..|p|] == q[..|p|];
    }
  }

  /**
   * The root is the exception: it holds an id only for an empty key, so the empty prefix
   * finds nothing even when a longer one does.
   */
  lemma RootSkipsNonEmptyKeys()
    ensures Ids({("a", 1)}, "a") == {1}
    ensures Ids({("a", 1)}, []) == {}
  {
    assert Reaches("a", ("a", 1).0);
  }

  /**
   * The tree shape: the root, index and paths inverse to each other, every child one
   * character further along than its node, and every other node a child of its parent.
   */
  ghost predicate Shape(nodes: seq<TrieNode>, index: map<string, nat>, paths: seq<string>, parents: seq<nat>) {
    && |nodes| > 0 && |paths| == |nodes| && |parents| == |nodes|
    && [] in index && index[[]] == 0
    && (forall p :: p in index ==> index[p] < |nodes| && paths[index[p]] == p)
    && (forall n :: 0 <= n < |nodes| ==> paths[n] in index && index[paths[n]] == n)
    && (forall n, c :: 0 <= n < |nodes| && c in nodes[n].children ==>
          nodes[n].children[c] < |nodes| && paths[nodes[n].children[c]] == paths[n] + [c])
    && (forall n {:trigger parents[n]} :: 0 < n < |nodes| ==>
          && parents[n] < |nodes| && paths[n] != []
          && paths[parents[n]] == paths[n][..|paths[n]| - 1]
          && paths[n][|paths[n]| - 1] in nodes[parents[n]].children
          && nodes[parents[n]].children[paths[n][|paths[n]| - 1]] == n)
  }

  /** Every prefix of every inserted key has a node. */
  ghost predicate Covers(index: map<string, nat>, entries: set<(string, int)>) {
    forall e, k :: e in entries && 0 <= k <= |e.0| ==> e.0[..k] in index
  }

  /**
   * The labels of the nodes, part way through inserting (key, id): the first i characters
   * of key have been walked, and the nodes on that stretch (bar the root) already hold id.
   */
  ghost predicate Labelled(nodes: seq<TrieNode>, paths: seq<string>, entries: set<(string, int)>,
                           key: string, i: nat, id: int)
    requires i <= |key|
  {
    forall n :: 0 <= n < |nodes| && n < |paths| ==>
      && nodes[n].isEndOfWord == IsKey(entries, paths[n])
      && nodes[n].animeIds == Ids(entries, paths[n]) + (if paths[n] != [] && paths[n] <= key[..i] then {id} else {})
  }

  /** The labels of the first n nodes once no insertion is under way, checked one node at a time. */
  ghost predicate LabelledUpTo(nodes: seq<TrieNode>, paths: seq<string>, entries: set<(string, int)>, n: nat)
    requires n <= |nodes| && n <= |paths|
    decreases n
  {
    n == 0 || (
      && LabelledUpTo(nodes, paths, entries, n - 1)
      && nodes[n - 1].isEndOfWord == IsKey(entries, paths[n - 1])
      && nodes[n - 1].animeIds == Ids(entries, paths[n - 1]))
  }

  lemma {:induction false} LabelledUpToAll(nodes: seq<TrieNode>, paths: seq<string>, entries: set<(string, int)>, n: nat)
    requires n <= |nodes| && n <= |paths|
    ensures LabelledUpTo(nodes, paths, entries, n) <==>
      forall m :: 0 <= m < n ==> nodes[m].isEndOfWord == IsKey(entries, paths[m]) && nodes[m].animeIds == Ids(entries, paths[m])
    decreases n
  {
    if n > 0 {
      LabelledUpToAll(nodes, paths, entries, n - 1);
    }
  }

  /** Node by node, the labels are those of `Labelled` with no insertion under way. */
  lemma LabelledIff(nodes: seq<TrieNode>, paths: seq<string>, entries: set<(string, int)>)
    requires |nodes| == |paths|
    ensures LabelledUpTo(nodes, paths, entries, |nodes|) <==> Labelled(nodes, paths, entries, [], 0, 0)
  {
    LabelledUpToAll(nodes, paths, entries, |nodes|);
    forall n | 0 <= n < |nodes| ensures !(paths[n] != [] && paths[n] <= [][..0]) {
    }
  }

  /** The path of a node's child is the node's path and one character more. */
  lemma {:induction false} ChildPath(nodes: seq<TrieNode>, index: map<string, nat>, paths: seq<string>,
                                     parents: seq<nat>, w: string, c: char)
    requires Shape(nodes, index, paths, parents) && w in index
    ensures w + [c] in index <==> c in nodes[index[w]].children
    ensures w + [c] in index ==> index[w + [c]] == nodes[index[w]].children[c]
  {
    var n := index[w];
    var q := w + [c];
    if c in nodes[n].children {
      var m := nodes[n].children[c];
      assert paths[m] == q;
    }
    if q in index {
      var m := index[q];
      assert paths[m] == q;
      assert paths[0] == [];
      assert m != 0;
      var pm := parents[m];
      assert q[..|q| - 1] == w && q[|q| - 1] == c;
      assert paths[pm] == w;
      assert index[paths[pm]] == pm;
    }
  }

  /** The index is closed under prefixes. */
  lemma {:induction false} PrefixClosed(nodes: seq<TrieNode>, index: map<string, nat>, paths: seq<string>,
                                        parents: seq<nat>, q: string, k: nat)
    requires Shape(nodes, index, paths, parents)
    requires q in index && k <= |q|
    ensures q[..k] in index
    decreases |q| - k
  {
    if k < |q| {
      var m := index[q];
      assert paths[m] == q;
      assert paths[0] == [];
      assert m != 0;
      var parent := paths[parents[m]];
      assert parent == q[..|q| - 1];
      assert parent in index;
      PrefixClosed(nodes, index, paths, parents, parent, k);
      assert parent[..k] == q[..k];
    } else {
      assert q[..k] == q;
    }
  }

  /** Changing a node's labels leaves the shape alone. */
  lemma ShapeIds(nodes: seq<TrieNode>, index: map<string, nat>, paths: seq<string>, parents: seq<nat>, n: nat, id: int)
    requires Shape(nodes, index, paths, parents) && n < |nodes|
    ensures Shape(nodes[n := nodes[n].(animeIds := nodes[n].animeIds + {id})], index, paths, parents)
    ensures Shape(nodes[n := nodes[n].(isEndOfWord := true, animeIds := nodes[n].animeIds + {id})], index, paths, parents)
  {
    var a := nodes[n := nodes[n].(animeIds := nodes[n].animeIds + {id})];
    var b := nodes[n := nodes[n].(isEndOfWord := true, animeIds := nodes[n].animeIds + {id})];
    assert forall m :: 0 <= m < |nodes| ==> a[m].children == nodes[m].children && b[m].children == nodes[m].children;
  }

  /** Adding a fresh child c under the node at path w keeps the shape. */
  lemma ShapeGrow(nodes: seq<TrieNode>, index: map<string, nat>, paths: seq<string>, parents: seq<nat>,
                  w: string, c: char)
    requires Shape(nodes, index, paths, parents) && w in index && c !in nodes[index[w]].children
    ensures w + [c] !in index
    ensures
      var n := index[w];
      var f := |nodes|;
      Shape(nodes[n := nodes[n].(children := nodes[n].children[c := f])] + [EmptyNode],
            index[w + [c] := f], paths + [w + [c]], parents + [n])
  {
    ChildPath(nodes, index, paths, parents, w, c);
    var n := index[w];
    var f := |nodes|;
    var q := w + [c];
    var nodes' := nodes[n := nodes[n].(children := nodes[n].children[c := f])] + [EmptyNode];
    var index' := index[q := f];
    var paths' := paths + [q];
    var parents' := parents + [n];
    assert paths[n] == w;
    forall p | p in index' ensures index'[p] < |nodes'| && paths'[index'[p]] == p {
      if p != q {
        assert index'[p] == index[p];
      }
    }
    forall m | 0 <= m < |nodes'| ensures paths'[m] in index' && index'[paths'[m]] == m {
      if m < f {
        assert paths'[m] == paths[m] && paths[m] in index;
        assert paths[m] != q;
      }
    }
    assert nodes'[f] == EmptyNode;
    forall m, d | 0 <= m < |nodes'| && d in nodes'[m].children
      ensures nodes'[m].children[d] < |nodes'| && paths'[nodes'[m].children[d]] == paths'[m] + [d]
    {
      if m == f {
      } else if m == n && d == c {
      } else {
        assert nodes'[m].children[d] == nodes[m].children[d];
      }
    }
    forall m {:trigger parents'[m]} | 0 < m < |nodes'|
      ensures && parents'[m] < |nodes'| && paths'[m] != []
              && paths'[parents'[m]] == paths'[m][..|paths'[m]| - 1]
              && paths'[m][|paths'[m]| - 1] in nodes'[parents'[m]].children
              && nodes'[parents'[m]].children[paths'[m][|paths'[m]| - 1]] == m
    {
      if m == f {
        assert q[..|q| - 1] == w;
      } else {
        var pm := parents[m];
        assert parents'[m] == pm;
        var last := paths[m][|paths[m]| - 1];
        assert last in nodes[pm].children;
        assert pm == n ==> last != c;
      }
    }
  }

  /** A path with no node is a prefix of no inserted key: its node would hold nothing. */
  lemma FreshPathUnused(index: map<string, nat>, entries: set<(string, int)>, q: string)
    requires Covers(index, entries) && q !in index && q != []
    ensures Ids(entries, q) == {} && !IsKey(entries, q)
  {
    assert forall e :: e in entries && Reaches(q, e.0) ==> e.0[..|q|] == q;
    assert q[..|q|] == q;
  }

  /** The labels survive growing a fresh child under the current node. */
  lemma LabelledGrow(nodes: seq<TrieNode>, index: map<string, nat>, paths: seq<string>, parents: seq<nat>,
                     entries: set<(string, int)>, key: string, i: nat, id: int)
    requires i < |key|
    requires Shape(nodes, index, paths, parents) && Covers(index, entries)
    requires Labelled(nodes, paths, entries, key, i, id)
    requires key[..i] in index && key[i] !in nodes[index[key[..i]]].children
    ensures
      var n := index[key[..i]];
      var f := |nodes|;
      Labelled(nodes[n := nodes[n].(children := nodes[n].children[key[i] := f])] + [EmptyNode],
               paths + [key[..i + 1]], entries, key, i, id)
  {
    var q := key[..i + 1];
    assert q == key[..i] + [key[i]];
    ShapeGrow(nodes, index, paths, parents, key[..i], key[i]);
    FreshPathUnused(index, entries, q);
    assert !(q <= key[..i]);
  }

  /** Walking one more character of key and adding id to the child reached. */
  lemma LabelledStep(nodes: seq<TrieNode>, index: map<string, nat>, paths: seq<string>, parents: seq<nat>,
                     entries: set<(string, int)>, key: string, i: nat, id: int)
    requires i < |key|
    requires Shape(nodes, index, paths, parents) && key[..i + 1] in index
    requires Labelled(nodes, paths, entries, key, i, id)
    ensures
      var n := index[key[..i + 1]];
      Labelled(nodes[n := nodes[n].(animeIds := nodes[n].animeIds + {id})], paths, entries, key, i + 1, id)
  {
    var q := key[..i + 1];
    var n := index[q];
    var nodes' := nodes[n := nodes[n].(animeIds := nodes[n].animeIds + {id})];
    forall m | 0 <= m < |nodes|
      ensures nodes'[m].animeIds == Ids(entries, paths[m]) + (if paths[m] != [] && paths[m] <= key[..i + 1] then {id} else {})
    {
      var p := paths[m];
      if m != n {
        assert p != q;
        if p <= key[..i + 1] {
          assert |p| <= i;
          assert p <= key[..i];
        } else {
          assert !(p <= key[..i]);
        }
      } else {
        assert !(p <= key[..i]);
      }
    }
  }

  /** One node's label after the insertion of (key, id) ends: only the node at key itself changes. */
  lemma FinishLabel(node: TrieNode, p: string, entries: set<(string, int)>, key: string, id: int)
    requires node.isEndOfWord == IsKey(entries, p)
    requires node.animeIds == Ids(entries, p) + (if p != [] && p <= key then {id} else {})
    ensures var node' := if p == key then node.(isEndOfWord := true, animeIds := node.animeIds + {id}) else node;
      node'.isEndOfWord == IsKey(entries + {(key, id)}, p) && node'.animeIds == Ids(entries + {(key, id)}, p)
  {
    IdsInsert(entries, key, id, p);
    if p != key {
      assert IsKey(entries + {(key, id)}, p) == IsKey(entries, p) by {
        if IsKey(entries + {(key, id)}, p) {
          var id' :| (p, id') in entries + {(key, id)};
          assert (p, id') in entries;
        }
      }
    } else {
      assert (key, id) in entries + {(key, id)};
    }
  }

  /** Marking the node at key as a word end and adding id yields the labels of the new entries. */
  lemma LabelledFinish(nodes: seq<TrieNode>, paths: seq<string>, entries: set<(string, int)>, key: string, n: nat, id: int)
    requires |paths| == |nodes| && n < |nodes|
    requires forall m :: 0 <= m < |nodes| ==> (paths[m] == key <==> m == n)
    requires Labelled(nodes, paths, entries, key, |key|, id)
    ensures
      Labelled(nodes[n := nodes[n].(isEndOfWord := true, animeIds := nodes[n].animeIds + {id})],
               paths, entries + {(key, id)}, [], 0, 0)
  {
    var nodes' := nodes[n := nodes[n].(isEndOfWord := true, animeIds := nodes[n].animeIds + {id})];
    assert key[..|key|] == key;
    forall m | 0 <= m < |nodes|
      ensures nodes'[m].isEndOfWord == IsKey(entries + {(key, id)}, paths[m])
      ensures nodes'[m].animeIds == Ids(entries + {(key, id)}, paths[m])
    {
      FinishLabel(nodes[m], paths[m], entries, key, id);
    }
  }

  lemma CoversInsert(index: map<string, nat>, entries: set<(string, int)>, key: string, id: int)
    requires Covers(index, entries)
    requires forall k :: 0 <= k <= |key| ==> key[..k] in index
    ensures Covers(index, entries + {(key, id)})
  {
  }

  /** The state after the last character of key: marking its node gives a valid tree for the new entries. */
  lemma FinishValid(nodes: seq<TrieNode>, index: map<string, nat>, paths: seq<string>, parents: seq<nat>,
                    entries: set<(string, int)>, key: string, id: int)
    requires Shape(nodes, index, paths, parents) && Covers(index, entries)
    requires key in index && Labelled(nodes, paths, entries, key, |key|, id)
    ensures
      var n := index[key];
      var nodes' := nodes[n := nodes[n].(isEndOfWord := true, animeIds := nodes[n].animeIds + {id})];
      && Shape(nodes', index, paths, parents)
      && Covers(index, entries + {(key, id)})
      && Labelled(nodes', paths, entries + {(key, id)}, [], 0, 0)
  {
    assert key[..|key|] == key;
    assert forall m :: 0 <= m < |nodes| ==> (paths[m] == key <==> m == index[key]);
    LabelledFinish(nodes, paths, entries, key, index[key], id);
    ShapeIds(nodes, index, paths, parents, index[key], id);
    forall k | 0 <= k <= |key| ensures key[..k] in index {
      PrefixClosed(nodes, index, paths, parents, key, k);
    }
    CoversInsert(index, entries, key, id);
  }

  /** A node's ids are all in K exactly when every inserted id is. */
  lemma NodeIdsWithin(nodes: seq<TrieNode>, index: map<string, nat>, paths: seq<string>, parents: seq<nat>,
                      entries: set<(string, int)>, keys: set<int>)
    requires Shape(nodes, index, paths, parents) && Covers(index, entries) && Labelled(nodes, paths, entries, [], 0, 0)
    ensures (forall n :: 0 <= n < |nodes| ==> nodes[n].animeIds <= keys) <==> (forall e :: e in entries ==> e.1 in keys)
  {
    if forall n :: 0 <= n < |nodes| ==> nodes[n].animeIds <= keys {
      forall e | e in entries ensures e.1 in keys {
        assert e.0[..|e.0|] == e.0;
        assert e.1 in Ids(entries, e.0);
        assert paths[index[e.0]] == e.0;
        assert nodes[index[e.0]].animeIds <= keys;
      }
    }
    if forall e :: e in entries ==> e.1 in keys {
      forall n | 0 <= n < |nodes| ensures nodes[n].animeIds <= keys {
        assert nodes[n].animeIds == Ids(entries, paths[n]);
      }
    }
  }

  /** Creates the missing child key[i] under the node at key[..i], as `node.children[char] = TrieNode()`. */
  method Grow(nodes: seq<TrieNode>, ghost index: map<string, nat>, ghost paths: seq<string>, ghost parents: seq<nat>,
              ghost entries: set<(string, int)>, key: string, i: nat, node: nat, id: int)
    returns (nodes': seq<TrieNode>, ghost index': map<string, nat>, ghost paths': seq<string>, ghost parents': seq<nat>)
    requires i < |key|
    requires Shape(nodes, index, paths, parents) && Covers(index, entries)
    requires Labelled(nodes, paths, entries, key, i, id)
    requires key[..i] in index && node == index[key[..i]] && key[i] !in nodes[node].children
    ensures Shape(nodes', index', paths', parents') && Covers(index', entries)
    ensures Labelled(nodes', paths', entries, key, i, id)
    ensures key[..i] in index' && node == index'[key[..i]] && key[i] in nodes'[node].children
  {
    var c := key[i];
    assert key[..i + 1] == key[..i] + [c];
    LabelledGrow(nodes, index, paths, parents, entries, key, i, id);
    ShapeGrow(nodes, index, paths, parents, key[..i], c);
    var f := |nodes|;
    nodes' := nodes[node := nodes[node].(children := nodes[node].children[c := f])] + [EmptyNode];
    index' := index[key[..i + 1] := f];
    paths' := paths + [key[..i + 1]];
    parents' := parents + [node];
  }

  /** Moves to the child key[i] of the node at key[..i] and adds the id to it. */
  method Advance(nodes: seq<TrieNode>, ghost index: map<string, nat>, ghost paths: seq<string>, ghost parents: seq<nat>,
                 ghost entries: set<(string, int)>, key: string, i: nat, node: nat, id: int)
    returns (nodes': seq<TrieNode>, node': nat)
    requires i < |key|
    requires Shape(nodes, index, paths, parents)
    requires Labelled(nodes, paths, entries, key, i, id)
    requires key[..i] in index && node == index[key[..i]] && key[i] in nodes[node].children
    ensures Shape(nodes', index, paths, parents)
    ensures Labelled(nodes', paths, entries, key, i + 1, id)
    ensures key[..i + 1] in index && node' == index[key[..i + 1]]
  {
    var c := key[i];
    assert key[..i + 1] == key[..i] + [c];
    ChildPath(nodes, index, paths, parents, key[..i], c);
    node' := nodes[node].children[c];
    LabelledStep(nodes, index, paths, parents, entries, key, i, id);
    nodes' := nodes[node' := nodes[node'].(animeIds := nodes[node'].animeIds + {id})];
    ShapeIds(nodes, index, paths, parents, node', id);
  }

  /** The loop of `_add_to_trie` over the characters of an already normalized key. */
  method InsertKey(nodes: seq<TrieNode>, ghost index: map<string, nat>, ghost paths: seq<string>, ghost parents: seq<nat>,
                   ghost entries: set<(string, int)>, key: string, id: int)
    returns (nodes': seq<TrieNode>, ghost index': map<string, nat>, ghost paths': seq<string>, ghost parents': seq<nat>)
    requires Shape(nodes, index, paths, parents) && Covers(index, entries) && LabelledUpTo(nodes, paths, entries, |nodes|)
    ensures Shape(nodes', index', paths', parents') && Covers(index', entries + {(key, id)})
    ensures LabelledUpTo(nodes', paths', entries + {(key, id)}, |nodes'|)
  {
    LabelledIff(nodes, paths, entries);
    nodes', index', paths', parents' := nodes, index, paths, parents;
    var node := 0;
    var i := 0;
    while i < |key|
      invariant 0 <= i <= |key|
      invariant Shape(nodes', index', paths', parents') && Covers(index', entries)
      invariant Labelled(nodes', paths', entries, key, i, id)
      invariant key[..i] in index' && node == index'[key[..i]]
    {
      if key[i] !in nodes'[node].children {
        nodes', index', paths', parents' := Grow(nodes', index', paths', parents', entries, key, i, node, id);
      }
      nodes', node := Advance(nodes', index', paths', parents', entries, key, i, node, id);
      i := i + 1;
    }
    assert key[..|key|] == key;
    FinishValid(nodes', index', paths', parents', entries, key, id);
    nodes' := nodes'[node := nodes'[node].(isEndOfWord := true, animeIds := nodes'[node].animeIds + {id})];
    LabelledIff(nodes', paths', entries + {(key, id)});
  }

  class Trie {
    var nodes: seq<TrieNode>
    ghost var index: map<string, nat>
    ghost var paths: seq<string>
    ghost var parents: seq<nat>
    ghost var entries: set<(string, int)>

    ghost predicate Valid()
      reads this
    {
      Shape(nodes, index, paths, parents) && Covers(index, entries) && LabelledUpTo(nodes, paths, entries, |nodes|)
    }

    /** `TrieNode()`: a lone root, nothing inserted. */
    constructor ()
      ensures Valid()
      ensures entries == {}
      ensures nodes == [EmptyNode]
    {
      nodes := [EmptyNode];
      index := map[[] := 0];
      paths := [[]];
      parents := [0];
      entries := {};
      new;
      assert IsKey({}, []) == false && Ids({}, []) == {};
    }

    /** Every node holds only ids from K exactly when every inserted id is in K. */
    lemma NodesWithin(keys: set<int>)
      requires Valid()
      ensures (forall n :: 0 <= n < |nodes| ==> nodes[n].animeIds <= keys) <==> (forall e :: e in entries ==> e.1 in keys)
    {
      LabelledIff(nodes, paths, entries);
      NodeIdsWithin(nodes, index, paths, parents, entries, keys);
    }

    /** Walks the path of key from the root: the node reached, or `None` when some character has no child. */
    method Find(key: string) returns (found: Option<nat>)
      requires Valid()
      ensures found.Some? <==> key in index
      ensures found.Some? ==> found.value == index[key] && found.value < |nodes|
    {
      var node := 0;
      var i := 0;
      while i < |key|
        invariant 0 <= i <= |key|
        invariant key[..i] in index && node == index[key[..i]]
      {
        var c := key[i];
        assert key[..i + 1] == key[..i] + [c];
        ChildPath(nodes, index, paths, parents, key[..i], c);
        if c !in nodes[node].children {
          if key in index {
            PrefixClosed(nodes, index, paths, parents, key, i + 1);
          }
          return None;
        }
        node := nodes[node].children[c];
        i := i + 1;
      }
      assert key[..|key|] == key;
      return Some(node);
    }

    /** `_search_in_trie`: the ids at the node of the normalized prefix, none when it has no node. */
    method Search(u: Unicode, prefix: string) returns (ids: set<int>)
      requires Valid()
      ensures ids == Ids(entries, Normalize(u, prefix))
    {
      var key := Normalize(u, prefix);
      LabelledIff(nodes, paths, entries);
      var found := Find(key);
      if found.None? {
        assert forall e :: e in entries && Reaches(key, e.0) ==> e.0[..|key|] == key;
        assert Ids(entries, key) == {};
        return {};
      }
      ids := nodes[found.value].animeIds;
    }

    /** `_add_to_trie`: walks the normalized text from the root, creating missing children. */
    method Insert(u: Unicode, text: string, id: int)
      requires Valid()
      modifies this
      ensures Valid()
      ensures entries == old(entries) + {(Normalize(u, text), id)}
    {
      var key := Normalize(u, text);
      ghost var es := entries;
      var ns;
      ghost var ix, ps, pa;
      ns, ix, ps, pa := InsertKey(nodes, index, paths, parents, es, key, id);
      nodes, index, paths, parents, entries := ns, ix, ps, pa, es + {(key, id)};
    }
  }
}
