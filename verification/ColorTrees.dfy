/** The tree that maps colors to palette indices (lodepng.c:2950-3020). */
module ColorTrees {
  import opened Bits

  /** A color with channels of some type. */
  datatype Color<+C> = Rgba(r: C, g: C, b: C, a: C)

  type Rgba = Color<Byte>

  /** Which child a color goes to at one bit of its channels. */
  function Branch(c: Rgba, bit: nat): (i: nat)
    ensures i < 16
  {
    8 * B2N(Bit(c.r, bit)) + 4 * B2N(Bit(c.g, bit)) + 2 * B2N(Bit(c.b, bit)) + B2N(Bit(c.a, bit))
  }

  function Path(c: Rgba, n: nat): (p: seq<nat>)
    ensures |p| == n && forall k :: 0 <= k < n ==> p[k] == Branch(c, k)
  {
    if n == 0 then [] else Path(c, n - 1) + [Branch(c, n - 1)]
  }

  lemma SameChannel(v: Byte, u: Byte)
    requires forall k: nat :: k < 8 ==> Bit(v, k) == Bit(u, k)
    ensures v == u
  {
    forall k: nat | k < 8 ensures LowBits(v, 8)[k] == LowBits(u, 8)[k] {
      LowBitsAt(v, 8, k);
      LowBitsAt(u, 8, k);
    }
    assert LowBits(v, 8) == LowBits(u, 8);
    EightBits();
    ValueOfLowBits(v, 8);
    ValueOfLowBits(u, 8);
  }

  lemma EightBits()
    ensures Pow2(8) == 256
  {
  }

  /** Different colors have different paths. */
  lemma PathInjective(c: Rgba, d: Rgba)
    requires Path(c, 8) == Path(d, 8)
    ensures c == d
  {
    hide Bit;
    forall k: nat | k < 8
      ensures Bit(c.r, k) == Bit(d.r, k) && Bit(c.g, k) == Bit(d.g, k) && Bit(c.b, k) == Bit(d.b, k) && Bit(c.a, k) == Bit(d.a, k)
    {
      assert Path(c, 8)[k] == Path(d, 8)[k];
    }
    SameChannel(c.r, d.r);
    SameChannel(c.g, d.g);
    SameChannel(c.b, d.b);
    SameChannel(c.a, d.a);
  }

  // ---- The tree as a map from paths to nodes ----

  /** Children are where the paths say, every node has one path, and the paths to a node are there with it. */
  ghost predicate Linked(root: ColorTree, nodes: map<seq<nat>, ColorTree>, children: map<seq<nat>, seq<ColorTree?>>) {
    && [] in nodes && nodes[[]] == root && nodes.Keys == children.Keys
    && Rooted(nodes, children) && Chained(nodes, children) && OnePathEach(nodes)
  }

  ghost predicate Rooted(nodes: map<seq<nat>, ColorTree>, children: map<seq<nat>, seq<ColorTree?>>)
    requires nodes.Keys == children.Keys
  {
    forall p :: p in nodes ==> |p| <= 8 && |children[p]| == 16 && (p != [] ==> HasParent(nodes, p))
  }

  ghost predicate Chained(nodes: map<seq<nat>, ColorTree>, children: map<seq<nat>, seq<ColorTree?>>)
    requires nodes.Keys == children.Keys && Rooted(nodes, children)
  {
    forall p, i: nat {:trigger children[p][i]} :: p in nodes && i < 16 ==> ChildAt(nodes, children[p], p, i)
  }

  ghost predicate ChildAt(nodes: map<seq<nat>, ColorTree>, slots: seq<ColorTree?>, p: seq<nat>, i: nat)
    requires |slots| == 16 && i < 16
  {
    if p + [i] in nodes then slots[i] == nodes[p + [i]] else slots[i] == null
  }

  ghost predicate OnePathEach(nodes: map<seq<nat>, ColorTree>) {
    forall p, q :: p in nodes && q in nodes && nodes[p] == nodes[q] ==> p == q
  }

  ghost predicate HasParent(nodes: map<seq<nat>, ColorTree>, p: seq<nat>) { p != [] && p[..|p| - 1] in nodes }

  const NO_CHILDREN: seq<ColorTree?> := seq(16, _ => null)

  /** A new node below one that is there. */
  lemma LinkNew(root: ColorTree, nodes: map<seq<nat>, ColorTree>, children: map<seq<nat>, seq<ColorTree?>>, here: seq<nat>, i: nat,
                node: ColorTree)
    requires Linked(root, nodes, children) && here in nodes && |here| < 8 && i < 16 && here + [i] !in nodes && node !in nodes.Values
    ensures
      && |children[here]| == 16
      && Linked(root, nodes[here + [i] := node], children[here := children[here][i := node]][here + [i] := NO_CHILDREN])
  {
    hide Rooted, Chained, OnePathEach, NO_CHILDREN;
    var below := here + [i];
    RootedNew(nodes, children, here, i, node);
    ChainedNew(nodes, children, here, i, node);
    PathsNew(nodes, below, node);
  }

  lemma RootedNew(nodes: map<seq<nat>, ColorTree>, children: map<seq<nat>, seq<ColorTree?>>, here: seq<nat>, i: nat, node: ColorTree)
    requires nodes.Keys == children.Keys && Rooted(nodes, children)
    requires here in nodes && |here| < 8 && i < 16 && here + [i] !in nodes
    ensures
      var below := here + [i];
      var nodes', children' := nodes[below := node], children[here := children[here][i := node]][below := NO_CHILDREN];
      |children[here]| == 16 && nodes'.Keys == children'.Keys && Rooted(nodes', children')
  {
    var below := here + [i];
    var nodes' := nodes[below := node];
    assert below[..|below| - 1] == here && HasParent(nodes', below);
    forall p | p in nodes && p != [] ensures HasParent(nodes', p) { assert HasParent(nodes, p); }
  }

  lemma ChainedNew(nodes: map<seq<nat>, ColorTree>, children: map<seq<nat>, seq<ColorTree?>>, here: seq<nat>, i: nat, node: ColorTree)
    requires nodes.Keys == children.Keys && Rooted(nodes, children) && Chained(nodes, children)
    requires here in nodes && |here| < 8 && i < 16 && here + [i] !in nodes
    ensures
      var below := here + [i];
      var nodes', children' := nodes[below := node], children[here := children[here][i := node]][below := NO_CHILDREN];
      |children[here]| == 16 && nodes'.Keys == children'.Keys && Rooted(nodes', children') && Chained(nodes', children')
  {
    hide Rooted;
    RootedNew(nodes, children, here, i, node);
    var below := here + [i];
    var nodes', children' := nodes[below := node], children[here := children[here][i := node]][below := NO_CHILDREN];
    SlotsThere(nodes, children);
    SlotsThere(nodes', children');
    forall p, j: nat | p in nodes' && j < 16 ensures ChildAt(nodes', children'[p], p, j) {
      if p == below {
        NothingBelow(nodes, children, below, node, j);
      } else {
        assert children[p][j] == children[p][j];
        SamePlace(p, j, here, i);
      }
    }
  }

  lemma SlotsThere(nodes: map<seq<nat>, ColorTree>, children: map<seq<nat>, seq<ColorTree?>>)
    requires nodes.Keys == children.Keys && Rooted(nodes, children)
    ensures forall p :: p in nodes ==> |children[p]| == 16
  {
  }

  lemma SamePlace(p: seq<nat>, j: nat, here: seq<nat>, i: nat)
    ensures p + [j] == here + [i] ==> p == here && j == i
  {
    if p + [j] == here + [i] {
      assert p == (p + [j])[..|p|] && here == (here + [i])[..|here|];
      assert (p + [j])[|p|] == j && (here + [i])[|here|] == i;
    }
  }

  lemma NothingBelow(nodes: map<seq<nat>, ColorTree>, children: map<seq<nat>, seq<ColorTree?>>, below: seq<nat>, node: ColorTree, j: nat)
    requires nodes.Keys == children.Keys && Rooted(nodes, children) && below !in nodes
    ensures below + [j] !in nodes[below := node]
  {
    assert (below + [j])[..|below|] == below && |below + [j]| != |below|;
    assert below + [j] in nodes ==> HasParent(nodes, below + [j]);
  }

  lemma PathsNew(nodes: map<seq<nat>, ColorTree>, below: seq<nat>, node: ColorTree)
    requires OnePathEach(nodes) && below !in nodes && node !in nodes.Values
    ensures OnePathEach(nodes[below := node])
  {
    var nodes' := nodes[below := node];
    forall p, q | p in nodes' && q in nodes' && nodes'[p] == nodes'[q] ensures p == q {
      if p != below { assert nodes'[p] in nodes.Values; }
      if q != below { assert nodes'[q] in nodes.Values; }
    }
  }

  lemma RootLinked(root: ColorTree, nodes: map<seq<nat>, ColorTree>, children: map<seq<nat>, seq<ColorTree?>>)
    requires nodes == map[[] := root] && children == map[[] := NO_CHILDREN]
    ensures Linked(root, nodes, children)
  {
    forall p, i: nat | p in nodes && i < 16 ensures ChildAt(nodes, children[p], p, i) {
      assert NO_CHILDREN[i] == null && |p + [i]| > 0;
    }
  }

  lemma RootIndexed(index: map<seq<nat>, int>)
    requires index.Keys == {[]}
    ensures Indexed(map[], index, {})
  {
    hide Branch;
    forall c ensures Path(c, 8) !in index { assert |Path(c, 8)| == 8; }
  }

  /** If a path is not in the tree, no longer one is. */
  lemma {:induction false} NoWayDown(root: ColorTree, nodes: map<seq<nat>, ColorTree>, children: map<seq<nat>, seq<ColorTree?>>,
                                     c: Rgba, n: nat, m: nat)
    requires Linked(root, nodes, children) && n <= m && Path(c, n) !in nodes
    ensures Path(c, m) !in nodes
  {
    hide Branch, Chained, OnePathEach;
    if n < m {
      NoWayDown(root, nodes, children, c, n, m - 1);
      assert Path(c, m)[..m - 1] == Path(c, m - 1);
      assert Path(c, m) in nodes ==> HasParent(nodes, Path(c, m));
    }
  }

  /** The indices at the ends of the paths are those of the colors, apart from an exception. */
  ghost predicate Indexed(colors: map<Rgba, nat>, index: map<seq<nat>, int>, except: set<Rgba>) {
    forall c {:trigger Path(c, 8)} :: c !in except ==>
      (c in colors <==> Path(c, 8) in index) && (c in colors ==> index[Path(c, 8)] == colors[c])
  }

  lemma IndexNew(colors: map<Rgba, nat>, index: map<seq<nat>, int>, c: Rgba, n: nat, value: int)
    requires Indexed(colors, index, {c}) && n <= 8
    ensures Indexed(colors, index[Path(c, n) := value], {c})
  {
    forall d | d != c ensures Path(d, 8) != Path(c, n) {
      if Path(d, 8) == Path(c, n) { PathInjective(c, d); }
    }
  }

  lemma IndexSet(colors: map<Rgba, nat>, index: map<seq<nat>, int>, c: Rgba, value: nat)
    requires Indexed(colors, index, {c})
    ensures Indexed(colors[c := value], index[Path(c, 8) := value], {})
  {
    forall d | d != c ensures Path(d, 8) != Path(c, 8) {
      if Path(d, 8) == Path(c, 8) { PathInjective(c, d); }
    }
  }

  lemma SameMap<T>(a: map<seq<nat>, T>, b: map<seq<nat>, T>)
    requires a.Keys == b.Keys && forall p :: p in a ==> a[p] == b[p]
    ensures a == b
  {
  }

  class ColorTree {
    var children: seq<ColorTree?>
    var index: int
    /** Of the root: its nodes by their paths, and the colors with their indices. */
    ghost var nodes: map<seq<nat>, ColorTree>
    ghost var colors: map<Rgba, nat>

    ghost function Children(): (m: map<seq<nat>, seq<ColorTree?>>)
      reads this`nodes, nodes.Values`children
    {
      map p | p in nodes :: nodes[p].children
    }

    ghost function Indices(): map<seq<nat>, int>
      reads this`nodes, nodes.Values`index
    {
      map p | p in nodes :: nodes[p].index
    }

    ghost predicate Tree(except: set<Rgba>)
      reads this, nodes.Values
    {
      Linked(this, nodes, Children()) && Indexed(colors, Indices(), except)
    }

    ghost predicate Valid()
      reads this, nodes.Values
    {
      Tree({})
    }

    /** color_tree_init. */
    constructor ()
      ensures Valid() && colors == map[] && fresh(nodes.Values)
      ensures index == -1 && children == NO_CHILDREN
    {
      children, index, colors := NO_CHILDREN, -1, map[];
      new;
      nodes := map[[] := this];
      RootLinked(this, nodes, Children());
      RootIndexed(Indices());
    }

    lemma NodeAt(p: seq<nat>, except: set<Rgba>)
      requires Tree(except) && p in nodes
      ensures |nodes[p].children| == 16
      ensures forall i: nat :: i < 16 ==> (nodes[p].children[i] == null <==> p + [i] !in nodes)
      ensures forall i: nat :: i < 16 && p + [i] in nodes ==> nodes[p].children[i] == nodes[p + [i]]
    {
      forall i: nat | i < 16 ensures nodes[p].children[i] == Children()[p][i] {}
    }

    /** color_tree_get: the index of a color, -1 if it is not there. */
    method Get(c: Rgba) returns (found: int)
      requires Valid()
      ensures found == if c in colors then colors[c] else -1
    {
      hide Branch, Linked, Indexed;
      RootThere({});
      var tree := this;
      for bit := 0 to 8
        invariant Path(c, bit) in nodes && tree == nodes[Path(c, bit)]
      {
        var i := Branch(c, bit);
        assert Path(c, bit + 1) == Path(c, bit) + [i];
        NodeAt(Path(c, bit), {});
        if tree.children[i] == null {
          NoWayDown(this, nodes, Children(), c, bit + 1, 8);
          ColorAt(c);
          return -1;
        }
        tree := tree.children[i];
      }
      ColorAt(c);
      found := tree.index;
    }

    lemma RootThere(except: set<Rgba>)
      requires Tree(except)
      ensures Path(Rgba(0, 0, 0, 0), 0) == [] && [] in nodes && nodes[[]] == this
    {
    }

    lemma ColorAt(c: Rgba)
      requires Valid()
      ensures c in colors <==> Path(c, 8) in nodes
      ensures c in colors ==> nodes[Path(c, 8)].index == colors[c]
    {
      assert nodes.Keys == Indices().Keys;
    }

    /** Stores a new node in a place that is free. */
    method Attach(parent: ColorTree, i: nat, node: ColorTree, ghost here: seq<nat>)
      requires here in nodes && parent == nodes[here] && |parent.children| == 16 && i < 16 && here + [i] !in nodes
      requires forall q :: q in nodes && nodes[q] == parent ==> q == here
      requires node !in nodes.Values && node.index == -1 && node.children == NO_CHILDREN
      modifies this`nodes, parent`children
      ensures nodes == old(nodes)[here + [i] := node]
      ensures Children() == old(Children())[here := old(parent.children)[i := node]][here + [i] := NO_CHILDREN]
      ensures Indices() == old(Indices())[here + [i] := -1]
    {
      hide Path, Branch, NO_CHILDREN;
      ghost var before, was, indices, below := nodes, Children(), Indices(), here + [i];
      forall q | q in before ensures before[q] != node { assert before[q] in before.Values; }
      parent.children := parent.children[i := node];
      ghost var slots := parent.children;
      nodes := nodes[below := node];
      forall p | p in nodes ensures Children()[p] == was[here := slots][below := NO_CHILDREN][p] {
        if p != here && p != below { assert before[p] != parent; }
      }
      SameMap(Children(), was[here := slots][below := NO_CHILDREN]);
      forall p | p in nodes ensures Indices()[p] == indices[below := -1][p] {}
      SameMap(Indices(), indices[below := -1]);
    }

    /** A new node for the next bit of a color. */
    method Grow(parent: ColorTree, c: Rgba, bit: nat)
      requires Tree({c}) && bit < 8
      requires Path(c, bit) in nodes && parent == nodes[Path(c, bit)] && Path(c, bit + 1) !in nodes
      modifies this`nodes, parent`children
      ensures Tree({c}) && Path(c, bit + 1) in nodes && Path(c, bit) in nodes && nodes[Path(c, bit)] == parent
      ensures fresh(nodes[Path(c, bit + 1)]) && nodes.Values == old(nodes.Values) + {nodes[Path(c, bit + 1)]}
    {
      hide Branch, Linked, Indexed, Children, Indices;
      ghost var here, i := Path(c, bit), Branch(c, bit);
      assert Path(c, bit + 1) == here + [i];
      ghost var before, was, indices := nodes, Children(), Indices();
      NodeAt(here, {c});
      OnePath({c}, here);
      ChildrenAt(here);
      var node := new ColorTree();
      Attach(parent, Branch(c, bit), node, here);
      LinkNew(this, before, was, here, i, node);
      IndexNew(colors, indices, c, bit + 1, -1);
      NewValues(before, here + [i], node);
    }

    lemma ChildrenAt(p: seq<nat>)
      requires p in nodes
      ensures p in Children() && Children()[p] == nodes[p].children
    {
    }

    lemma NewValues(before: map<seq<nat>, ColorTree>, p: seq<nat>, node: ColorTree)
      requires p !in before
      ensures before[p := node].Values == before.Values + {node}
    {
      var after := before[p := node];
      forall v | v in before.Values ensures v in after.Values {
        var q :| q in before && before[q] == v;
        assert after[q] == v;
      }
      assert after[p] == node;
    }

    lemma OnePath(except: set<Rgba>, p: seq<nat>)
      requires Tree(except) && p in nodes
      ensures forall q :: q in nodes && nodes[q] == nodes[p] ==> q == p
    {
    }

    /** color_tree_add; a color that is there already gets the new index. */
    method Add(c: Rgba, newIndex: nat)
      requires Valid()
      modifies this, nodes.Values
      ensures Valid() && colors == old(colors)[c := newIndex]
      ensures fresh(nodes.Values - old(nodes.Values))
    {
      hide Branch, Linked, Indexed;
      RootThere({});
      Excepted(c);
      var tree := this;
      for bit := 0 to 8
        invariant Tree({c}) && colors == old(colors)
        invariant Path(c, bit) in nodes && tree == nodes[Path(c, bit)]
        invariant fresh(nodes.Values - old(nodes.Values))
      {
        var i := Branch(c, bit);
        assert Path(c, bit + 1) == Path(c, bit) + [i];
        NodeAt(Path(c, bit), {c});
        if tree.children[i] == null {
          Grow(tree, c, bit);
          NodeAt(Path(c, bit), {c});
        }
        tree := tree.children[i];
      }
      SetIndex(tree, c, newIndex);
    }

    /** The payload of the last node. */
    method SetIndex(tree: ColorTree, c: Rgba, newIndex: nat)
      requires Tree({c}) && Path(c, 8) in nodes && nodes[Path(c, 8)] == tree
      modifies this`colors, tree`index
      ensures Valid() && colors == old(colors)[c := newIndex]
    {
      hide Branch, Linked, Indexed;
      OnePath({c}, Path(c, 8));
      ghost var indices := Indices();
      IndexSet(colors, indices, c, newIndex);
      tree.index := newIndex;
      colors := colors[c := newIndex];
      assert Indices() == indices[Path(c, 8) := newIndex];
    }

    lemma Excepted(c: Rgba)
      requires Valid()
      ensures Tree({c})
    {
    }
  }
}
