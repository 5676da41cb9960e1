/**
 * tree: node values live in a handle map; a node's tag is its handle. The
 * tree keeps, per tag, the parent's tag (`inactive` for the root) and the
 * list of child tags in insertion order. Nodes are never removed, so the
 * handle map's free list stays empty and tags are 0, 1, 2, ... in order of
 * insertion, the root being 0.
 */
module Trees {
  import opened HandleMaps
  import opened Sequences

  /** The largest value of a 64-bit size_t, marking "no parent". */
  const Inactive: nat := 0xFFFF_FFFF_FFFF_FFFF

  /** The parent and child tables of a tree. */
  ghost predicate Linked(parents: seq<nat>, children: seq<seq<nat>>)
  {
    && |parents| == |children|
    && (forall h :: 0 < h < |parents| ==> parents[h] < h && h in children[parents[h]])
    && (forall p, i :: 0 <= p < |children| && 0 <= i < |children[p]| ==>
          children[p][i] < |parents| && parents[children[p][i]] == p)
    && (forall p, i, j :: 0 <= p < |children| && 0 <= i < j < |children[p]| ==>
          children[p][i] < children[p][j])
  }

  /** A new node below an existing parent keeps the tables linked. */
  lemma InsertedChild(parents: seq<nat>, children: seq<seq<nat>>, parent: nat)
    requires Linked(parents, children) && parent < |parents|
    ensures Linked(parents + [parent], children[parent := children[parent] + [|parents|]] + [[]])
  {
    var tag := |parents|;
    var ps, cs := parents + [parent], children[parent := children[parent] + [tag]] + [[]];
    forall h | 0 < h < |ps| ensures ps[h] < h && h in cs[ps[h]] {
      if h < tag {
        assert ps[h] == parents[h] && h in children[parents[h]];
      } else {
        assert cs[parent] == children[parent] + [tag];
      }
    }
    forall p, i | 0 <= p < |cs| && 0 <= i < |cs[p]| ensures cs[p][i] < |ps| && ps[cs[p][i]] == p {
      if p != parent || i < |children[parent]| {
        assert cs[p][i] == children[p][i];
      }
    }
    forall p, i, j | 0 <= p < |cs| && 0 <= i < j < |cs[p]| ensures cs[p][i] < cs[p][j] {
      if p != parent || j < |children[parent]| {
        assert cs[p][i] == children[p][i] && cs[p][j] == children[p][j];
      } else {
        assert cs[p][i] == children[p][i];
      }
    }
  }

  class Tree<T> {
    const nodes: HandleMap<T>
    var parents: seq<nat>
    var children: seq<seq<nat>>

    /** Number of nodes. */
    function Count(): nat
      reads this
    {
      |parents|
    }

    ghost predicate Valid()
      reads this, nodes
    {
      && nodes.Valid()
      && nodes.free == []
      && |nodes.sparse| == |parents| == |children| >= 1
      && |parents| <= Inactive
      && parents[0] == Inactive
      && Linked(parents, children)
    }

    /** Tree values by tag. */
    ghost function Values(): map<nat, T>
      reads this, nodes
      requires Valid()
    {
      Contents(nodes.State())
    }

    /** Every tag below Count() names a node. */
    lemma AllTagsLive()
      requires Valid()
      ensures forall h :: 0 <= h < Count() ==> h in Values()
    {
      forall h | 0 <= h < Count() ensures h in Values() {
        assert Live(nodes.State(), h);
      }
    }

    /**
     * Both constructors: the root value is inserted (the default constructor
     * passes a value-initialised T), the root's parent is inactive and it has
     * no children.
     */
    constructor (root: T)
      ensures Valid() && fresh(nodes)
      ensures parents == [Inactive] && children == [[]]
      ensures Values() == map[0 := root]
    {
      var hm := new HandleMap<T>();
      var h := hm.Insert(root);
      nodes := hm;
      parents := [Inactive];
      children := [[]];
    }

    /**
     * insert_node: the new value gets the next tag; the tag tables grow to
     * cover it, the new node's parent is recorded and the new tag is appended
     * to the parent's children. The parent must be an existing node (the code
     * indexes the children table with it unchecked).
     */
    method InsertNode(value: T, parent: nat) returns (tag: nat)
      requires Valid() && parent < Count() && Count() < Inactive
      modifies this, nodes
      ensures Valid()
      ensures tag == old(Count())
      ensures parents == old(parents) + [parent]
      ensures children == old(children)[parent := old(children)[parent] + [tag]] + [[]]
      ensures Values() == old(Values())[tag := value]
    {
      ghost var ps, cs := parents, children;
      tag := nodes.Insert(value);
      assert tag == |ps| && nodes.free == [] && |nodes.sparse| == |ps| + 1;
      if tag >= |parents| {
        parents := parents + seq(tag + 1 - |parents|, _ => Inactive);
        children := children + seq(tag + 1 - |children|, _ => []);
      }
      assert parents == ps + [Inactive] && children == cs + [[]];
      parents := parents[tag := parent];
      children := children[parent := children[parent] + [tag]];
      assert parents == ps + [parent];
      assert children == cs[parent := cs[parent] + [tag]] + [[]];
      InsertedChild(ps, cs, parent);
    }

    /** parent_tag: the root has the inactive tag; any other node has an older parent that lists it as a child. */
    function ParentTag(node: nat): (r: nat)
      reads this, nodes
      requires Valid() && node < Count()
      ensures node == 0 ==> r == Inactive
      ensures node > 0 ==> r < node && node in ChildTags(r)
    {
      parents[node]
    }

    /** root_tag: the root is tag 0, the only node without a parent. */
    function RootTag(): (r: nat)
      reads this, nodes
      requires Valid()
      ensures r < Count() && ParentTag(r) == Inactive
      ensures forall h :: 0 <= h < Count() && h != r ==> ParentTag(h) != Inactive
    {
      0
    }

    /**
     * child_tags: exactly the nodes whose parent is `node`, each once, in
     * insertion order.
     */
    function ChildTags(node: nat): (r: seq<nat>)
      reads this, nodes
      requires Valid() && node < Count()
      ensures forall i :: 0 <= i < |r| ==> r[i] < Count() && parents[r[i]] == node
      ensures forall h :: 0 < h < Count() && parents[h] == node ==> h in r
      ensures forall i, j :: 0 <= i < j < |r| ==> r[i] < r[j]
    {
      children[node]
    }

    /** children: the values of the child nodes, in child-tag order. */
    function Children(node: nat): (r: seq<T>)
      reads this, nodes
      requires Valid() && node < Count()
      ensures |r| == |ChildTags(node)|
      ensures forall i :: 0 <= i < |r| ==> ChildTags(node)[i] in Values() && r[i] == Values()[ChildTags(node)[i]]
    {
      ValuesOf(children[node])
    }

    /** The values under a list of tags. */
    function ValuesOf(tags: seq<nat>): (r: seq<T>)
      reads this, nodes
      requires Valid() && forall i :: 0 <= i < |tags| ==> tags[i] < Count()
      ensures |r| == |tags|
      ensures forall i :: 0 <= i < |r| ==> tags[i] in Values() && r[i] == Values()[tags[i]]
    {
      if tags == [] then [] else [Get(tags[0])] + ValuesOf(tags[1..])
    }

    /** operator[]: the value stored under a tag. */
    function Get(node: nat): (v: T)
      reads this, nodes
      requires Valid() && node < Count()
      ensures node in Values() && v == Values()[node]
    {
      AllTagsLive();
      nodes.Get(node)
    }

    /**
     * Following parent tags from any node reaches the root: the path starts
     * at the node, ends at tag 0, and each step goes to the parent.
     */
    ghost function PathToRoot(node: nat): (path: seq<nat>)
      reads this, nodes
      requires Valid() && node < Count()
      ensures |path| >= 1 && path[0] == node && path[|path| - 1] == RootTag()
      ensures forall i :: 0 <= i < |path| ==> path[i] < Count()
      ensures forall i :: 0 <= i < |path| - 1 ==> ParentTag(path[i]) == path[i + 1]
      decreases node
    {
      if node == 0 then [0] else [node] + PathToRoot(parents[node])
    }
  }
}
