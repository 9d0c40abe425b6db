/**
 * A node of the binary search tree: one datum and at most two children,
 * each exclusively owned (no parent links, no sharing, no cycles).
 */
module TreeNodes {

  class BSTreeNode<E> {
    var data: E
    var left: BSTreeNode?<E>
    var right: BSTreeNode?<E>

    /** The nodes of the subtree rooted here. */
    ghost var Repr: set<BSTreeNode<E>>
    /** The data of the subtree rooted here, left subtree first (in-order). */
    ghost var Elems: seq<E>

    /**
     * The subtree rooted here is a finite tree: the children own disjoint
     * parts of Repr that do not contain this node, and Elems lists the
     * in-order visit of the subtree.
     */
    ghost predicate Valid()
      reads this, Repr
      ensures Valid() ==> this in Repr && |Elems| > 0
      decreases Repr
    {
      && this in Repr
      && (left != null ==>
            && left in Repr && left.Repr <= Repr && this !in left.Repr
            && left.Valid())
      && (right != null ==>
            && right in Repr && right.Repr <= Repr && this !in right.Repr
            && right.Valid())
      && (left != null && right != null ==> left.Repr !! right.Repr)
      && Repr == {this} + ReprOf(left) + ReprOf(right)
      && Elems == ElemsOf(left) + [data] + ElemsOf(right)
    }

    /** BSTreeNode(data): a node without children. */
    constructor (data: E)
      ensures this.data == data && left == null && right == null
      ensures Valid() && Repr == {this} && Elems == [data]
    {
      this.data := data;
      left := null;
      right := null;
      Repr := {this};
      Elems := [data];
    }

    /**
     * BSTreeNode(data, left, right): stores exactly the given datum and
     * children; when the children are disjoint valid subtrees, so is the
     * new node.
     */
    constructor WithChildren(data: E, left: BSTreeNode?<E>, right: BSTreeNode?<E>)
      ensures this.data == data && this.left == left && this.right == right
      ensures Linked(left, right) ==> Valid() && Elems == ElemsOf(left) + [data] + ElemsOf(right)
    {
      this.data := data;
      this.left := left;
      this.right := right;
      Repr := {this} + ReprOf(left) + ReprOf(right);
      Elems := ElemsOf(left) + [data] + ElemsOf(right);
    }

    function GetData(): E
      reads this
    {
      data
    }

    function GetLeft(): BSTreeNode?<E>
      reads this
    {
      left
    }

    function GetRight(): BSTreeNode?<E>
      reads this
    {
      right
    }

    /**
     * What the getters of a valid node return: the datum sits between the
     * data of the left and the right subtree, and each child roots a valid
     * subtree owned by this one.
     */
    lemma GettersOfValid()
      requires Valid()
      ensures Elems == ElemsOf(GetLeft()) + [GetData()] + ElemsOf(GetRight())
      ensures GetLeft() != null ==> GetLeft() in Repr && GetLeft().Repr < Repr && GetLeft().Valid()
      ensures GetRight() != null ==> GetRight() in Repr && GetRight().Repr < Repr && GetRight().Valid()
    {
    }

    /**
     * setData: replaces the datum and nothing else; the in-order record of
     * this node is recomputed, and a valid node stays valid.
     */
    method SetData(data: E)
      modifies this
      ensures GetData() == data
      ensures GetLeft() == old(GetLeft()) && GetRight() == old(GetRight())
      ensures Repr == old(Repr) && Elems == old(ElemsOf(left)) + [data] + old(ElemsOf(right))
      ensures old(Valid()) ==> Valid()
    {
      this.data := data;
      Elems := ElemsOf(left) + [data] + ElemsOf(right);
    }

    /**
     * setLeft: replaces the left child and nothing else; the node's record
     * of its subtree is recomputed, and it is a valid subtree whenever its
     * children are disjoint valid subtrees that do not contain it.
     */
    method SetLeft(left: BSTreeNode?<E>)
      modifies this
      ensures GetLeft() == left
      ensures GetData() == old(GetData()) && GetRight() == old(GetRight())
      ensures Repr == {this} + old(ReprOf(left)) + old(ReprOf(right))
      ensures Elems == old(ElemsOf(left)) + [data] + old(ElemsOf(right))
      ensures old(Linked(left, right)) ==> Valid()
    {
      this.left := left;
      Repr := {this} + ReprOf(left) + ReprOf(right);
      Elems := ElemsOf(left) + [data] + ElemsOf(right);
    }

    /**
     * setRight: replaces the right child and nothing else; the node's
     * record of its subtree is recomputed, and it is a valid subtree
     * whenever its children are disjoint valid subtrees that do not
     * contain it.
     */
    method SetRight(right: BSTreeNode?<E>)
      modifies this
      ensures GetRight() == right
      ensures GetData() == old(GetData()) && GetLeft() == old(GetLeft())
      ensures Repr == {this} + old(ReprOf(left)) + old(ReprOf(right))
      ensures Elems == old(ElemsOf(left)) + [data] + old(ElemsOf(right))
      ensures old(Linked(left, right)) ==> Valid()
    {
      this.right := right;
      Repr := {this} + ReprOf(left) + ReprOf(right);
      Elems := ElemsOf(left) + [data] + ElemsOf(right);
    }

    /**
     * Recomputes this node's record of its subtree after a child subtree
     * grew or shrank in place; the children must be disjoint valid
     * subtrees that do not contain this node.
     */
    ghost method Relink()
      requires Linked(left, right)
      modifies this
      ensures data == old(data) && left == old(left) && right == old(right)
      ensures Valid()
      ensures Repr == {this} + old(ReprOf(left)) + old(ReprOf(right))
      ensures Elems == old(ElemsOf(left)) + [data] + old(ElemsOf(right))
    {
      Repr := {this} + ReprOf(left) + ReprOf(right);
      Elems := ElemsOf(left) + [data] + ElemsOf(right);
    }

    /** Two disjoint valid subtrees, neither containing this node, can be its children. */
    ghost predicate Linked(l: BSTreeNode?<E>, r: BSTreeNode?<E>)
      reads l, r
      reads if l == null then {} else l.Repr
      reads if r == null then {} else r.Repr
    {
      && (l != null ==> l.Valid() && this !in l.Repr)
      && (r != null ==> r.Valid() && this !in r.Repr)
      && ReprOf(l) !! ReprOf(r)
    }

    /** hasLeft: a left child exists. */
    predicate HasLeft()
      reads this
      ensures HasLeft() <==> GetLeft() != null
    {
      left != null
    }

    /** hasRight: a right child exists. */
    predicate HasRight()
      reads this
      ensures HasRight() <==> GetRight() != null
    {
      right != null
    }

    /**
     * isLeaf: no child on either side; in a valid subtree that is the
     * same as the subtree holding this node's datum alone.
     */
    predicate IsLeaf()
      reads this, Repr
      ensures IsLeaf() <==> !HasLeft() && !HasRight()
      ensures Valid() ==> (IsLeaf() <==> |Elems| == 1)
    {
      left == null && right == null
    }
  }

  /** The nodes of a possibly empty subtree. */
  ghost function ReprOf<E>(n: BSTreeNode?<E>): set<BSTreeNode<E>>
    reads n
  {
    if n == null then {} else n.Repr
  }

  /** The in-order data of a possibly empty subtree. */
  ghost function ElemsOf<E>(n: BSTreeNode?<E>): seq<E>
    reads n
  {
    if n == null then [] else n.Elems
  }
}
