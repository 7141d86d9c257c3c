/** The doubly linked chain of an item's children: head in `child`, both ends closed by null. */
module Chain {
  import opened JsonTree

  class Node {
    var next: Node?
    var prev: Node?
    var content: Member

    constructor (content: Member)
      ensures next == null && prev == null && this.content == content
    {
      next, prev := null, null;
      this.content := content;
    }
  }

  ghost function Only(n: Node?): set<Node> {
    if n == null then {} else {n}
  }

  // ---------- the sequence operations the chain operations stand for

  function Inserted<T>(s: seq<T>, which: int, x: T): (r: seq<T>)
    ensures 0 <= which ==> |r| == |s| + 1
  {
    if which < 0 then s
    else if which >= |s| then s + [x]
    else s[..which] + [x] + s[which..]
  }

  function Removed<T>(s: seq<T>, k: nat): (r: seq<T>)
    requires k < |s|
    ensures |r| == |s| - 1
  {
    s[..k] + s[k + 1..]
  }

  /** Detaching what was just inserted gives the chain back; `k` is where the insertion put it. */
  lemma DetachUndoesInsert<T>(s: seq<T>, which: nat, x: T)
    ensures var k := if which < |s| then which else |s|;
            Inserted(s, which, x)[k] == x && Removed(Inserted(s, which, x), k) == s
  {
    var k := if which < |s| then which else |s|;
    var r := Inserted(s, which, x);
    assert r == s[..k] + [x] + s[k..];
    assert r[..k] == s[..k] && r[k + 1..] == s[k..];
    assert s[..k] + s[k..] == s;
  }

  /** Inserting a detached item where it was gives the chain back. */
  lemma InsertUndoesDetach<T>(s: seq<T>, k: nat)
    requires k < |s|
    ensures Inserted(Removed(s, k), k, s[k]) == s
  {
    var r := Removed(s, k);
    if k == |s| - 1 {
      assert r + [s[k]] == s;
    } else {
      assert r[..k] == s[..k] && r[k..] == s[k + 1..];
      assert s[..k] + [s[k]] + s[k + 1..] == s;
    }
  }

  // ---------- the chain

  function Nth(s: seq<Node>, i: int): Node? {
    if 0 <= i < |s| then s[i] else null
  }

  ghost predicate Distinct(s: seq<Node>) {
    forall i, j :: 0 <= i < j < |s| ==> s[i] != s[j]
  }

  /** Node `i` is linked to its neighbours, or to null at an end. */
  ghost predicate Linked(s: seq<Node>, i: nat)
    requires i < |s|
    reads s
  {
    s[i].next == Nth(s, i + 1) && s[i].prev == Nth(s, i - 1)
  }

  lemma DistinctRemoved(s: seq<Node>, k: nat)
    requires Distinct(s) && k < |s|
    ensures Distinct(Removed(s, k)) && s[k] !in Removed(s, k)
    ensures forall i :: 0 <= i < |s| - 1 ==> Removed(s, k)[i] == s[if i < k then i else i + 1]
  {
  }

  lemma DistinctInserted(s: seq<Node>, k: nat, x: Node)
    requires Distinct(s) && k <= |s| && x !in s
    ensures Distinct(s[..k] + [x] + s[k..])
    ensures var r := s[..k] + [x] + s[k..];
            forall i :: 0 <= i <= |s| ==> r[i] == if i < k then s[i] else if i == k then x else s[i - 1]
  {
  }

  class Parent {
    var child: Node?
    /** The nodes of the chain, first to last. */
    ghost var chain: seq<Node>

    ghost predicate Valid()
      reads this, chain
    {
      && child == Nth(chain, 0)
      && Distinct(chain)
      && forall i :: 0 <= i < |chain| ==> Linked(chain, i)
    }

    constructor ()
      ensures Valid() && chain == []
    {
      child := null;
      chain := [];
    }

    method GetArrayItem(index: nat) returns (item: Node?)
      requires Valid()
      ensures item == Nth(chain, index)
    {
      item := child;
      var left := index;
      while item != null && left > 0
        invariant 0 <= left <= index && item == Nth(chain, index - left)
      {
        assert Linked(chain, index - left);
        left := left - 1;
        item := item.next;
      }
    }

    /** Links a detached node behind the last one, or starts the chain with it. */
    method Attach(last: Node?, item: Node)
      requires Valid() && last == Nth(chain, |chain| - 1)
      requires item !in chain && item.next == null && item.prev == null
      modifies this, chain`next, item`prev
      ensures Valid() && chain == old(chain) + [item]
    {
      ghost var before := chain;
      if last == null {
        child := item;
      } else {
        last.next := item;
        item.prev := last;
      }
      chain := chain + [item];
      forall i | 0 <= i < |chain|
        ensures Linked(chain, i)
      {
        assert i < |before| ==> old(Linked(before, i));
      }
    }

    /** Appends a detached node. */
    method AddItem(item: Node?) returns (ok: bool)
      requires Valid()
      requires item != null ==> item !in chain && item.next == null && item.prev == null
      modifies this, chain`next, Only(item)`prev
      ensures Valid() && ok == (item != null)
      ensures chain == if item == null then old(chain) else old(chain) + [item]
    {
      if item == null {
        return false;
      }
      var last := child;
      if last != null {
        ghost var k := 0;
        assert Linked(chain, 0);
        while last.next != null
          invariant 0 <= k < |chain| && last == chain[k] && Linked(chain, k)
          decreases |chain| - k
        {
          last := last.next;
          k := k + 1;
          assert Linked(chain, k);
        }
      }
      Attach(last, item);
      return true;
    }

    /** Inserts a detached node before the item at `which`, or appends it when there is none. */
    method InsertItem(which: int, newItem: Node)
      requires Valid() && newItem !in chain && newItem.next == null && newItem.prev == null
      modifies this, chain`next, chain`prev, newItem`next, newItem`prev
      ensures Valid() && chain == Inserted(old(chain), which, newItem)
    {
      if which < 0 {
        return;
      }
      var after := GetArrayItem(which);
      if after == null {
        var ok := AddItem(newItem);
        return;
      }
      InsertBefore(after, newItem, which);
    }

    method InsertBefore(after: Node, newItem: Node, ghost k: nat)
      requires Valid() && newItem !in chain && k < |chain| && chain[k] == after
      modifies this, chain`next, chain`prev, newItem`next, newItem`prev
      ensures Valid() && chain == old(chain[..k] + [newItem] + chain[k..])
    {
      ghost var before := chain;
      assert Linked(chain, k);
      newItem.next := after;
      newItem.prev := after.prev;
      after.prev := newItem;
      if after == child {
        child := newItem;
      } else {
        newItem.prev.next := newItem;
      }
      chain := chain[..k] + [newItem] + chain[k..];
      DistinctInserted(before, k, newItem);
      forall i | 0 <= i < |chain|
        ensures Linked(chain, i)
      {
        assert i < k ==> old(Linked(before, i));
        assert i > k ==> old(Linked(before, i - 1));
      }
    }

    /** Takes a node out of the chain; it is linked to nothing afterwards. */
    method DetachItemViaPointer(item: Node?, ghost k: nat) returns (detached: Node?)
      requires Valid() && (item != null ==> k < |chain| && chain[k] == item)
      modifies this, chain`next, chain`prev
      ensures Valid() && detached == item
      ensures chain == if item == null then old(chain) else Removed(old(chain), k)
      ensures item != null ==> item.next == null && item.prev == null && item !in chain
    {
      if item == null {
        return null;
      }
      ghost var before := chain;
      assert Linked(chain, k);
      if item.prev != null {
        item.prev.next := item.next;
      }
      if item.next != null {
        item.next.prev := item.prev;
      }
      if item == child {
        child := item.next;
      }
      item.prev := null;
      item.next := null;
      chain := chain[..k] + chain[k + 1..];
      DistinctRemoved(before, k);
      forall i | 0 <= i < |chain|
        ensures Linked(chain, i)
      {
        assert i < k ==> old(Linked(before, i));
        assert i >= k ==> old(Linked(before, i + 1));
      }
      return item;
    }

    method DetachItemFromArray(which: int) returns (detached: Node?)
      requires Valid()
      modifies this, chain`next, chain`prev
      ensures Valid()
      ensures detached == if 0 <= which < |old(chain)| then old(chain)[which] else null
      ensures chain == if 0 <= which < |old(chain)| then Removed(old(chain), which) else old(chain)
    {
      if which < 0 {
        return null;
      }
      var item := GetArrayItem(which);
      detached := DetachItemViaPointer(item, which);
    }

    /** Puts `replacement` in the place of `item`, whose links are cleared before it is deleted. */
    method ReplaceItemViaPointer(item: Node?, replacement: Node?, ghost k: nat) returns (ok: bool)
      requires Valid() && (item != null ==> k < |chain| && chain[k] == item)
      requires replacement != null && replacement != item ==> replacement !in chain
      modifies this, chain`next, chain`prev, Only(replacement)`next, Only(replacement)`prev
      ensures Valid() && ok == (item != null && replacement != null)
      ensures chain == if ok then old(chain)[k := replacement] else old(chain)
      ensures ok && item != replacement ==> item.next == null && item.prev == null && item !in chain
    {
      if item == null || replacement == null {
        return false;
      }
      if replacement == item {
        assert chain[k := item] == chain;
        return true;
      }
      ghost var before := chain;
      assert Linked(chain, k);
      replacement.next := item.next;
      replacement.prev := item.prev;
      if replacement.next != null {
        replacement.next.prev := replacement;
      }
      if replacement.prev != null {
        replacement.prev.next := replacement;
      }
      if child == item {
        child := replacement;
      }
      item.next := null;
      item.prev := null;
      chain := chain[k := replacement];
      forall i | 0 <= i < |chain|
        ensures Linked(chain, i)
      {
        assert i != k ==> old(Linked(before, i));
      }
      return true;
    }
  }
}
