/** The part of the DOM the slideshow touches: a parent element's child
    list, with `appendChild` and `removeNode` (resources/main.js). */
module Dom {

  /** No node occurs twice in a child list. */
  ghost predicate Distinct<T>(s: seq<T>) {
    forall i, j :: 0 <= i < j < |s| ==> s[i] != s[j]
  }

  /** The child list after `node` is taken out of it; every other child
      keeps its place. A node that is not a child leaves the list alone. */
  function Removed<T(==)>(cs: seq<T>, node: T): (r: seq<T>)
    ensures |r| <= |cs|
    ensures node !in cs ==> r == cs
  {
    if |cs| == 0 then []
    else
      assert cs == [cs[0]] + cs[1..];
      (if cs[0] == node then [] else [cs[0]]) + Removed(cs[1..], node)
  }

  /** The child list after `appendChild(node)`: a node that is already a
      child is moved to the end, any other node is added at the end. */
  function Appended<T(==)>(cs: seq<T>, node: T): (r: seq<T>)
    ensures |r| > 0 && r[|r| - 1] == node
  {
    Removed(cs, node) + [node]
  }

  /** The nodes left after `removeChild` took `node` out are the other children. */
  lemma {:induction false} RemovedMember<T>(cs: seq<T>, node: T, x: T)
    ensures x in Removed(cs, node) <==> x in cs && x != node
  {
    if |cs| > 0 {
      RemovedMember(cs[1..], node, x);
      assert cs == [cs[0]] + cs[1..];
    }
  }

  /** After `appendChild(node)` the children are the old ones and `node`. */
  lemma AppendedMember<T>(cs: seq<T>, node: T, x: T)
    ensures x in Appended(cs, node) <==> x in cs || x == node
  {
    RemovedMember(cs, node, x);
  }

  /** Taking a child out of a list without duplicates closes the gap and
      leaves the other children in order. */
  lemma {:induction false} RemovedSplit<T>(pre: seq<T>, node: T, post: seq<T>)
    requires node !in pre && node !in post
    ensures Removed(pre + [node] + post, node) == pre + post
  {
    var cs := pre + [node] + post;
    if |pre| == 0 {
      assert cs[0] == node && cs[1..] == post;
      assert Removed(cs, node) == Removed(post, node);
    } else {
      assert cs[0] == pre[0] && cs[1..] == pre[1..] + [node] + post;
      RemovedSplit(pre[1..], node, post);
      assert Removed(cs, node) == [pre[0]] + (pre[1..] + post);
      assert pre == [pre[0]] + pre[1..];
    }
  }

  /** In a list without duplicates a node occurs at most once, so it can be
      split around that occurrence. */
  lemma SplitAt<T>(cs: seq<T>, node: T) returns (k: nat)
    requires Distinct(cs) && node in cs
    ensures k < |cs| && cs[k] == node
    ensures cs == cs[..k] + [node] + cs[k + 1..]
    ensures node !in cs[..k] && node !in cs[k + 1..]
  {
    k :| 0 <= k < |cs| && cs[k] == node;
    assert cs == cs[..k] + [node] + cs[k + 1..];
  }

  /** Removing a node keeps a child list free of duplicates and shortens it
      by one exactly when the node was a child. */
  lemma RemovedShrinks<T>(cs: seq<T>, node: T)
    requires Distinct(cs)
    ensures Distinct(Removed(cs, node))
    ensures |Removed(cs, node)| == if node in cs then |cs| - 1 else |cs|
  {
    if node in cs {
      var k := SplitAt(cs, node);
      RemovedSplit(cs[..k], node, cs[k + 1..]);
      var r := cs[..k] + cs[k + 1..];
      forall i, j | 0 <= i < j < |r| ensures r[i] != r[j] {
        var i', j' := if i < k then i else i + 1, if j < k then j else j + 1;
        assert r[i] == cs[i'] && r[j] == cs[j'];
      }
    }
  }

  /** `appendChild` never duplicates a node: appending an existing child
      moves it to the end and keeps the length, appending a new node adds
      one child. */
  lemma AppendedMoves<T>(cs: seq<T>, node: T)
    requires Distinct(cs)
    ensures Distinct(Appended(cs, node))
    ensures |Appended(cs, node)| == if node in cs then |cs| else |cs| + 1
    ensures node in cs ==>
      exists k :: 0 <= k < |cs| && cs[k] == node && Appended(cs, node) == cs[..k] + cs[k + 1..] + [node]
  {
    RemovedShrinks(cs, node);
    var r := Removed(cs, node);
    var a := r + [node];
    RemovedMember(cs, node, node);
    forall i, j | 0 <= i < j < |a| ensures a[i] != a[j] {
      if j == |r| {
        assert a[i] in r;
      } else {
        assert a[i] == r[i] && a[j] == r[j];
      }
    }
    if node in cs {
      var k := SplitAt(cs, node);
      RemovedSplit(cs[..k], node, cs[k + 1..]);
    }
  }

  /** Appending a node to an empty list, or to a list holding just that
      node, leaves exactly that node: re-appending the only child does not
      duplicate it. */
  lemma AppendedSingle<T>(cs: seq<T>, node: T)
    requires cs == [] || cs == [node]
    ensures Appended(cs, node) == [node]
  {
    assert Removed(cs, node) == [];
  }

  /** A parent element and its child list. */
  class Container<T(==)> {
    var children: seq<T>

    /** `createDom("div", ...)`: a new element has no children. */
    constructor ()
      ensures children == []
    {
      children := [];
    }

    /** `parent.appendChild(node)` */
    method AppendChild(node: T)
      modifies this
      ensures children == Appended(old(children), node)
    {
      children := Removed(children, node) + [node];
    }

    /** `removeNode(node)` for a node whose parent, if it has one, is this
        element: the parent removes it with `removeChild`. */
    method RemoveNode(node: T)
      modifies this
      ensures children == Removed(old(children), node)
    {
      if node in children {
        children := Removed(children, node);
      }
    }
  }
}
