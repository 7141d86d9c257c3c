/** Items whose children form chains of items with chains of their own, and the copy of all of them. */
module ItemTree {
  import opened Bytes

  /** The fields of an item that are no links: type, value and, below an object, key. */
  datatype Content = Content(kind: int, valueInt: int32, valueString: Option<CString>, key: Option<CString>)

  class Item {
    var next: Item?
    var prev: Item?
    var child: Item?
    var content: Content

    constructor (content: Content)
      ensures next == null && prev == null && child == null && this.content == content
    {
      next, prev, child := null, null, null;
      this.content := content;
    }
  }

  /** An item with everything below it. */
  datatype Shape = Shape(item: Item, children: seq<Shape>)

  /** What they hold. */
  datatype Tree = Tree(content: Content, children: seq<Tree>)

  ghost function ItemAt(s: seq<Shape>, i: int): Item? {
    if 0 <= i < |s| then s[i].item else null
  }

  ghost function Items(s: seq<Shape>): set<Item> {
    if s == [] then {} else Items(s[..|s| - 1]) + {s[|s| - 1].item} + Items(s[|s| - 1].children)
  }

  /**
    The links below `s.item` have this shape and reach no item twice. The links of `s.item` to its
    neighbours are not looked at: they belong to the chain it is in.
   */
  ghost predicate Laid(s: Shape)
    reads s.item`child, Items(s.children)
  {
    s.item.child == ItemAt(s.children, 0) && s.item !in Items(s.children) && Chained(s.children, null)
  }

  /** The items of `s` are linked to each other, the last one to `after`, and share nothing below them. */
  ghost predicate Chained(s: seq<Shape>, after: Item?)
    reads Items(s)
  {
    s == [] ||
    var last := s[|s| - 1];
    && last.item.next == after
    && last.item.prev == ItemAt(s, |s| - 2)
    && Laid(last)
    && {last.item} + Items(last.children) !! Items(s[..|s| - 1])
    && Chained(s[..|s| - 1], last.item)
  }

  ghost function TreeOf(s: Shape): Tree
    reads s.item`content, Items(s.children)
  {
    Tree(s.item.content, TreesOf(s.children))
  }

  ghost function TreesOf(s: seq<Shape>): (t: seq<Tree>)
    reads Items(s)
    ensures |t| == |s|
  {
    if s == [] then [] else TreesOf(s[..|s| - 1]) + [TreeOf(s[|s| - 1])]
  }

  /** Item `k` of a chain is laid out itself and linked to the next one. */
  lemma {:induction false} ChainedAt(s: seq<Shape>, after: Item?, k: nat)
    requires Chained(s, after) && k < |s|
    ensures Laid(s[k]) && s[k].item.next == (if k == |s| - 1 then after else s[k + 1].item)
    ensures s[k].item in Items(s) && TreesOf(s)[k] == TreeOf(s[k])
  {
    if k < |s| - 1 {
      ChainedAt(s[..|s| - 1], s[|s| - 1].item, k);
    }
  }

  // The definitions unfolded once, for proofs that hide them.

  lemma NothingUnfolds(after: Item?)
    ensures Chained([], after) && Items([]) == {} && TreesOf([]) == []
  {
  }

  lemma ChainedUnfolds(s: seq<Shape>, x: Shape, after: Item?)
    ensures Chained(s + [x], after) <==>
              && x.item.next == after && x.item.prev == ItemAt(s, |s| - 1)
              && Laid(x) && {x.item} + Items(x.children) !! Items(s) && Chained(s, x.item)
  {
    assert (s + [x])[..|s|] == s;
  }

  lemma LaidUnfolds(x: Shape)
    ensures Laid(x) <==>
              x.item.child == ItemAt(x.children, 0) && x.item !in Items(x.children) && Chained(x.children, null)
    ensures TreeOf(x) == Tree(x.item.content, TreesOf(x.children))
  {
  }

  lemma AppendedUnfolds(s: seq<Shape>, x: Shape)
    ensures Items(s + [x]) == Items(s) + {x.item} + Items(x.children)
    ensures TreesOf(s + [x]) == TreesOf(s) + [TreeOf(x)]
  {
    assert (s + [x])[..|s|] == s;
  }

  /** Links a new item behind the last child, or makes it the first one. */
  method Append(parent: Item, last: Item?, item: Item, ghost s: seq<Shape>, ghost x: Shape)
    requires Chained(s, null) && parent.child == ItemAt(s, 0) && last == ItemAt(s, |s| - 1)
    requires x.item == item && Laid(x) && item.next == null && item.prev == null
    requires {item} + Items(x.children) !! Items(s) + {parent}
    requires parent !in Items(s)
    modifies parent`child, Items(s)`next, item`prev
    ensures Chained(s + [x], null) && parent.child == ItemAt(s + [x], 0)
    ensures Items(s + [x]) == Items(s) + {item} + Items(x.children)
    ensures TreesOf(s + [x]) == old(TreesOf(s)) + [old(TreeOf(x))]
  {
    hide Chained, Laid, TreesOf, TreeOf, Items;
    LaidUnfolds(x);
    if last != null {
      ghost var front, y := s[..|s| - 1], s[|s| - 1];
      assert s == front + [y];
      ChainedUnfolds(front, y, null);
      LaidUnfolds(y);
      AppendedUnfolds(front, y);
      last.next := item;
      item.prev := last;
      AppendedUnfolds(front, y);
      ChainedUnfolds(front, y, item);
    } else {
      assert s == [];
      parent.child := item;
      NothingUnfolds(item);
    }
    AppendedUnfolds(s, x);
    ChainedUnfolds(s, x, null);
  }

  /**
    `cJSON_Duplicate`: new items only, laid out and filled like the old ones. Without `recurse` the
    copy has no children.
   */
  method Duplicate(item: Item?, recurse: bool, ghost shape: Shape) returns (copy: Item?, ghost copyShape: Shape)
    requires item != null ==> shape.item == item && Laid(shape)
    ensures copy == null <==> item == null
    ensures copy != null ==>
              && copyShape.item == copy && Laid(copyShape) && copy.next == null && copy.prev == null
              && fresh(copy) && fresh(Items(copyShape.children))
              && TreeOf(copyShape) == if recurse then old(TreeOf(shape)) else Tree(item.content, [])
    decreases shape
  {
    hide Chained, Laid, TreesOf, TreeOf, Items;
    if item == null {
      return null, shape;
    }
    ghost var children := shape.children;
    LaidUnfolds(shape);
    ghost var below :| below == Items(children);
    ghost var trees := TreesOf(children);
    copy := new Item(item.content);
    ghost var copies: seq<Shape>, made: set<Item> := [], {};
    NothingUnfolds(null);
    if !recurse {
      copyShape := Shape(copy, copies);
      LaidUnfolds(copyShape);
      return;
    }
    var child := item.child;
    var last: Item? := null;
    while child != null
      invariant |copies| <= |children| && child == ItemAt(children, |copies|)
      invariant last == ItemAt(copies, |copies| - 1) && copy.child == ItemAt(copies, 0)
      invariant copy.next == null && copy.prev == null && copy.content == item.content
      invariant made == Items(copies) && copy !in made && fresh(made)
      invariant Chained(children, null) && TreesOf(children) == trees
      invariant Chained(copies, null)
      invariant TreesOf(copies) == trees[..|copies|]
      decreases |children| - |copies|
    {
      ghost var k := |copies|;
      ChainedAt(children, null, k);
      var newChild, newShape := Duplicate(child, true, children[k]);
      Append(copy, last, newChild, copies, newShape);
      copies := copies + [newShape];
      made := Items(copies);
      last := newChild;
      child := child.next;
    }
    copyShape := Shape(copy, copies);
    LaidUnfolds(copyShape);
  }
}
