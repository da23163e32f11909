/** The mutable tries that hold the include and omit masks. */
module MaskTries {
  import opened Pointers
  import opened Texts

  class MaskNode {
    var whole: bool
    var children: map<Text, MaskNode>

    constructor ()
      ensures !whole && children == map[]
    {
      whole, children := false, map[];
    }
  }

  /** A path of the trie extended by one key. */
  ghost function Below(path: Path, key: Text): Path {
    path + [key]
  }

  /** Some mask starts with `path`. */
  ghost predicate Leads(masks: set<Path>, path: Path) {
    exists m :: m in masks && path <= m
  }

  /** Some mask is a proper prefix of `path`. */
  ghost predicate Passed(masks: set<Path>, path: Path) {
    exists m :: m in masks && m < path
  }

  /** The children of the node at `p` are the nodes one key further, and no others. */
  ghost predicate ChildrenAt(at: map<Path, MaskNode>, p: Path, children: map<Text, MaskNode>) {
    && (forall k :: k in children ==> Below(p, k) in at && children[k] == at[Below(p, k)])
    && (forall k :: Below(p, k) in at ==> k in children)
  }

  ghost predicate Injective(at: map<Path, MaskNode>) {
    forall p, q :: p in at && q in at && at[p] == at[q] ==> p == q
  }

  lemma OneName(at: map<Path, MaskNode>, p: Path)
    requires Injective(at) && p in at
    ensures forall q :: q in at && at[q] == at[p] ==> q == p
  {
  }

  ghost predicate PrefixClosed(at: map<Path, MaskNode>) {
    forall p, k :: Below(p, k) in at ==> p in at
  }

  /** `at` names every node by its path from `root`; `wholes` are the paths of the nodes marked whole. */
  ghost predicate Linked(root: MaskNode, at: map<Path, MaskNode>, wholes: set<Path>, nodes: set<MaskNode>)
    reads nodes
  {
    && (forall p :: p in at ==> at[p] in nodes)
    && [] in at && at[[]] == root
    && Injective(at) && PrefixClosed(at)
    && (forall p :: p in at ==> ChildrenAt(at, p, at[p].children))
    && (forall p :: p in at ==> (at[p].whole <==> p in wholes))
  }

  /** Exactly the paths that lead to some mask without passing one. */
  ghost predicate Reached(paths: set<Path>, masks: set<Path>) {
    forall p :: p in paths <==> (p == [] || Leads(masks, p)) && !Passed(masks, p)
  }

  ghost function Prefixes(path: Path, n: nat): set<Path>
    requires n <= |path|
  {
    set j | 0 <= j <= n :: path[..j]
  }

  /** A mask below an existing one adds nothing. */
  lemma CoveredMask(paths: set<Path>, masks: set<Path>, path: Path, i: nat)
    requires Reached(paths, masks)
    requires i < |path| && path[..i] in masks && path[..i] in paths
    ensures Prefixes(path, i) <= paths
    ensures path !in paths
    ensures Reached(paths, masks + {path})
  {
    var stop := path[..i];
    forall q | q <= path && |q| <= i
      ensures q in paths
    {
      assert q <= stop && Leads(masks, q);
      forall m | m in masks ensures !(m < q) { assert m < q ==> m < stop; }
    }
    assert path[..i] < path && Passed(masks, path);
    forall p
      ensures p in paths <==> (p == [] || Leads(masks + {path}, p)) && !Passed(masks + {path}, p)
    {
      assert forall m :: m in masks ==> m in masks + {path};
      assert path < p ==> path[..i] < p;
      assert p <= path && |p| > i ==> path[..i] < p;
    }
  }

  /** Walking past a node that is not whole passes no mask. */
  lemma NextPrefix(paths: set<Path>, masks: set<Path>, path: Path, i: nat)
    requires Reached(paths, masks)
    requires i < |path|
    requires !Passed(masks, path[..i])
    requires !(path[..i] in paths && path[..i] in masks)
    ensures !Passed(masks, path[..i + 1])
    ensures path[..i + 1] == Below(path[..i], path[i])
    ensures Prefixes(path, i + 1) == Prefixes(path, i) + {path[..i + 1]}
  {
    var walked := path[..i];
    var next := path[..i + 1];
    assert walked in masks ==> Leads(masks, walked);
    forall m | m in masks
      ensures !(m < next)
    {
      assert m < next ==> m == walked || m < walked;
    }
  }

  /** A mask below no existing one adds its own prefixes and takes away what lay below it. */
  lemma NewMask(paths: set<Path>, masks: set<Path>, path: Path)
    requires Reached(paths, masks)
    requires !Passed(masks, path)
    ensures var paths' := set p | p in paths + Prefixes(path, |path|) && !(path < p);
            && Reached(paths', masks + {path})
            && paths' * (masks + {path}) == (set p | p in paths * masks && !(path < p)) + {path}
  {
    forall p
      ensures p in paths + Prefixes(path, |path|) && !(path < p)
              <==> (p == [] || Leads(masks + {path}, p)) && !Passed(masks + {path}, p)
    {
      assert path in masks + {path};
      assert forall m :: m in masks ==> m in masks + {path};
      if p <= path {
        assert p == path[..|p|] && p in Prefixes(path, |path|);
        assert Leads(masks + {path}, p);
        forall m | m in masks ensures !(m < p) { assert m < p ==> m < path; }
      } else {
        assert p !in Prefixes(path, |path|);
      }
    }
  }

  lemma BelowIsInjective(p: Path, k: Text, q: Path, l: Text)
    requires Below(p, k) == Below(q, l)
    ensures p == q && k == l
  {
    assert Below(p, k)[..|p|] == p && Below(q, l)[..|q|] == q;
  }

  lemma PassesBelow(p: Path, q: Path, k: Text)
    ensures p < Below(q, k) <==> p <= q
  {
    if p < Below(q, k) {
      assert p == Below(q, k)[..|p|] == q[..|p|];
    }
  }

  lemma AddedPath(at: map<Path, MaskNode>, p: Path, key: Text, child: MaskNode)
    requires Injective(at) && PrefixClosed(at)
    requires p in at && Below(p, key) !in at && child !in at.Values
    ensures var at' := at[Below(p, key) := child];
            && Injective(at') && PrefixClosed(at')
            && (forall q, k :: Below(q, k) in at' ==> Below(q, k) in at || (q == p && k == key))
  {
    var at' := at[Below(p, key) := child];
    forall q, k | Below(q, k) in at'
      ensures q in at' && (Below(q, k) in at || (q == p && k == key))
    {
      if Below(q, k) == Below(p, key) { BelowIsInjective(q, k, p, key); }
    }
  }

  lemma RemovedPaths(at: map<Path, MaskNode>, p: Path)
    requires Injective(at) && PrefixClosed(at)
    ensures var at' := map q | q in at && !(p < q) :: at[q];
            && Injective(at') && PrefixClosed(at')
            && (forall q, k :: Below(q, k) in at' <==> Below(q, k) in at && !(p <= q))
  {
    forall q, k
      ensures p < Below(q, k) <==> p <= q
    {
      PassesBelow(p, q, k);
    }
  }

  /** The children of a node that stays are those it had, unless everything below it goes. */
  lemma ChildrenAfterRemoval(at: map<Path, MaskNode>, p: Path, q: Path, children: map<Text, MaskNode>)
    requires ChildrenAt(at, q, children) && !(p < q)
    ensures ChildrenAt(map r | r in at && !(p < r) :: at[r], q, if q == p then map[] else children)
  {
    forall k
      ensures p < Below(q, k) <==> p <= q
    {
      PassesBelow(p, q, k);
    }
  }

  lemma ChildrenAfterGrowth(at: map<Path, MaskNode>, p: Path, key: Text, child: MaskNode,
                            q: Path, children: map<Text, MaskNode>)
    requires ChildrenAt(at, q, children) && Below(p, key) !in at
    ensures ChildrenAt(at[Below(p, key) := child], q, if q == p then children[key := child] else children)
  {
    forall k | Below(q, k) == Below(p, key)
      ensures q == p && k == key
    {
      BelowIsInjective(q, k, p, key);
    }
  }

  lemma UnnamedChild(at: map<Path, MaskNode>, p: Path, children: map<Text, MaskNode>, key: Text)
    requires ChildrenAt(at, p, children) && key !in children
    ensures Below(p, key) !in at
  {
  }

  lemma NewIsChildless(at: map<Path, MaskNode>, p: Path, key: Text, child: MaskNode)
    requires PrefixClosed(at) && p in at && Below(p, key) !in at
    ensures ChildrenAt(at[Below(p, key) := child], Below(p, key), map[])
  {
    forall k
      ensures Below(Below(p, key), k) !in at && Below(Below(p, key), k) != Below(p, key)
    {
      assert |Below(Below(p, key), k)| == |Below(p, key)| + 1;
    }
  }

  /** A node is marked whole iff its path is. */
  lemma NodeOfPath(root: MaskNode, at: map<Path, MaskNode>, wholes: set<Path>, nodes: set<MaskNode>, p: Path)
    requires Linked(root, at, wholes, nodes) && p in at
    ensures at[p] in nodes && (at[p].whole <==> p in wholes)
  {
  }

  lemma StartOfWalk(root: MaskNode, at: map<Path, MaskNode>, wholes: set<Path>, nodes: set<MaskNode>,
                    masks: set<Path>, path: Path)
    requires Linked(root, at, wholes, nodes)
    ensures [] in at && at[[]] == root && !Passed(masks, [])
    ensures at.Keys == at.Keys + Prefixes(path, 0)
  {
    assert path[..0] == [];
  }

  class MaskTrie {
    const root: MaskNode
    ghost var at: map<Path, MaskNode>
    ghost var nodes: set<MaskNode>
    ghost var wholes: set<Path>
    ghost var masks: set<Path>

    /** The trie holds the paths towards the shortest masks, and those masks alone are marked whole. */
    ghost predicate Valid()
      reads this, nodes
    {
      && Linked(root, at, wholes, nodes)
      && Reached(at.Keys, masks)
      && wholes == at.Keys * masks
    }

    constructor ()
      ensures Valid() && masks == {}
      ensures fresh(nodes)
    {
      var node := new MaskNode();
      root := node;
      at, nodes := map[[] := node], {node};
      wholes, masks := {}, {};
    }

    /** Creates the child of the node at `p` under `key`. */
    method Grow(node: MaskNode, key: Text, ghost p: Path) returns (child: MaskNode)
      requires Linked(root, at, wholes, nodes) && p in at && at[p] == node
      requires wholes <= at.Keys
      requires key !in node.children
      modifies `at, `nodes, node
      ensures Linked(root, at, wholes, nodes)
      ensures at == old(at)[Below(p, key) := child]
      ensures nodes == old(nodes) + {child} && fresh(child)
    {
      hide ChildrenAt, Injective, PrefixClosed;
      child := new MaskNode();
      ghost var before, next := at, Below(p, key);
      assert next !in before by { UnnamedChild(before, p, node.children, key); }
      AddedPath(before, p, key, child);
      forall q | q in before
        ensures ChildrenAt(before[next := child], q, if q == p then node.children[key := child] else before[q].children)
      {
        ChildrenAfterGrowth(before, p, key, child, q, before[q].children);
      }
      assert ChildrenAt(before[next := child], next, map[]) by { NewIsChildless(before, p, key, child); }
      assert forall q :: q in before && before[q] == node ==> q == p by { OneName(before, p); }
      node.children := node.children[key := child];
      at, nodes := at[next := child], nodes + {child};
    }

    /** Gets or creates the child of the node at `p` under `key`. */
    method Step(node: MaskNode, key: Text, ghost p: Path) returns (child: MaskNode)
      requires Linked(root, at, wholes, nodes) && p in at && at[p] == node
      requires wholes <= at.Keys
      modifies `at, `nodes, node
      ensures Linked(root, at, wholes, nodes)
      ensures at == old(at)[Below(p, key) := child] && at.Keys == old(at.Keys) + {Below(p, key)}
      ensures nodes == old(nodes) + {child} && (child in old(nodes) || fresh(child))
    {
      if key in node.children {
        child := node.children[key];
        assert Below(p, key) in at;
      } else {
        child := Grow(node, key, p);
      }
    }

    /** Marks the node at `p` whole and drops everything below it. */
    method Mark(node: MaskNode, ghost p: Path)
      requires Linked(root, at, wholes, nodes) && p in at && at[p] == node
      modifies `at, `wholes, node
      ensures Linked(root, at, wholes, nodes)
      ensures at == map q | q in old(at) && !(p < q) :: old(at)[q]
      ensures wholes == (set q | q in old(wholes) && !(p < q)) + {p}
    {
      hide ChildrenAt, Injective, PrefixClosed;
      ghost var before := at;
      RemovedPaths(before, p);
      forall q | q in before && !(p < q)
        ensures ChildrenAt(map r | r in before && !(p < r) :: before[r], q,
                           if q == p then map[] else before[q].children)
      {
        ChildrenAfterRemoval(before, p, q, before[q].children);
      }
      assert forall q :: q in before && before[q] == node ==> q == p by { OneName(before, p); }
      node.whole := true;
      node.children := map[];
      at := map q | q in at && !(p < q) :: at[q];
      wholes := (set q | q in wholes && !(p < q)) + {p};
    }

    /** Follows `path`, creating nodes, unless a whole node is met before its end. */
    method Walk(path: Path) returns (current: MaskNode, arrived: bool)
      requires Valid()
      modifies `at, `nodes, nodes
      ensures Linked(root, at, wholes, nodes)
      ensures fresh(nodes - old(nodes))
      ensures !arrived ==> at.Keys == old(at.Keys) && Reached(at.Keys, masks + {path}) && path !in at
      ensures arrived ==> at.Keys == old(at.Keys) + Prefixes(path, |path|)
      ensures arrived ==> path in at && at[path] == current && !Passed(masks, path)
    {
      hide Linked, Reached, Passed, Prefixes;
      current := root;
      ghost var first := at.Keys;
      StartOfWalk(root, at, wholes, nodes, masks, path);
      for i := 0 to |path|
        invariant Linked(root, at, wholes, nodes)
        invariant fresh(nodes - old(nodes))
        invariant path[..i] in at && current == at[path[..i]]
        invariant at.Keys == first + Prefixes(path, i)
        invariant !Passed(masks, path[..i])
      {
        NodeOfPath(root, at, wholes, nodes, path[..i]);
        if current.whole {
          CoveredMask(first, masks, path, i);
          return current, false;
        }
        NextPrefix(first, masks, path, i);
        current := Step(current, path[i], path[..i]);
      }
      assert path[..|path|] == path;
      arrived := true;
    }

    method Insert(path: Path)
      requires Valid()
      modifies this, nodes
      ensures Valid() && masks == old(masks) + {path}
      ensures fresh(nodes - old(nodes))
    {
      var current, arrived := Walk(path);
      if arrived {
        Mark(current, path);
        NewMask(old(at.Keys), masks, path);
      }
      masks := masks + {path};
    }
  }
}
