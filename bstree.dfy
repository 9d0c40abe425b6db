/**
 * The unbalanced binary search tree of word records. Records are ordered
 * by String.compareTo on their keys; a record's key is a constant, so
 * updating a record in place cannot disturb the order.
 */
module Trees {
  import opened Outcomes
  import opened JavaText
  import opened TreeNodes
  import opened Words

  // ---------------------------------------------------------------------
  // Key order on sequences of records
  // ---------------------------------------------------------------------

  /** Strictly ascending keys, hence no key twice. */
  predicate Ascending(ws: seq<Word>)
  {
    forall i, j :: 0 <= i < j < |ws| ==> Less(ws[i].word, ws[j].word)
  }

  /** The keys held. */
  function KeySet(ws: seq<Word>): set<string>
  {
    set w | w in ws :: w.word
  }

  /** Every key of ws is below k. */
  predicate AllBelow(ws: seq<Word>, k: string)
  {
    forall w :: w in ws ==> Less(w.word, k)
  }

  /** Every key of ws is above k. */
  predicate AllAbove(ws: seq<Word>, k: string)
  {
    forall w :: w in ws ==> Less(k, w.word)
  }

  /** An ascending sequence around a record splits into ascending parts on either side of its key. */
  lemma AscendingSplit(a: seq<Word>, w: Word, b: seq<Word>)
    requires Ascending(a + [w] + b)
    ensures Ascending(a) && Ascending(b)
    ensures AllBelow(a, w.word) && AllAbove(b, w.word)
  {
    var s := a + [w] + b;
    assert forall i :: 0 <= i < |a| ==> s[i] == a[i];
    assert forall i :: 0 <= i < |b| ==> s[|a| + 1 + i] == b[i];
    assert s[|a|] == w;
    forall x | x in a
      ensures Less(x.word, w.word)
    {
      var i :| 0 <= i < |a| && a[i] == x;
      assert s[i] == x;
    }
    forall y | y in b
      ensures Less(w.word, y.word)
    {
      var i :| 0 <= i < |b| && b[i] == y;
      assert s[|a| + 1 + i] == y;
    }
  }

  /** Conversely, ascending parts on either side of a key join into an ascending sequence. */
  lemma AscendingJoin(a: seq<Word>, w: Word, b: seq<Word>)
    requires Ascending(a) && Ascending(b)
    requires AllBelow(a, w.word) && AllAbove(b, w.word)
    ensures Ascending(a + [w] + b)
  {
    var s := a + [w] + b;
    forall i, j | 0 <= i < j < |s|
      ensures Less(s[i].word, s[j].word)
    {
      if j < |a| {
        assert s[i] == a[i] && s[j] == a[j];
      } else if i < |a| {
        assert s[i] == a[i] && s[i] in a;
        if j > |a| {
          assert s[j] == b[j - |a| - 1] && s[j] in b;
          LessTransitive(s[i].word, w.word, s[j].word);
        }
      } else if i == |a| {
        assert s[j] == b[j - |a| - 1] && s[j] in b;
      } else {
        assert s[i] == b[i - |a| - 1] && s[j] == b[j - |a| - 1];
      }
    }
  }

  /** A slice of an ascending sequence ascends. */
  lemma AscendingSlice(ws: seq<Word>, lo: int, hi: int)
    requires Ascending(ws) && 0 <= lo <= hi <= |ws|
    ensures Ascending(ws[lo..hi])
  {
    forall i, j | 0 <= i < j < hi - lo
      ensures Less(ws[lo..hi][i].word, ws[lo..hi][j].word)
    {
      assert ws[lo..hi][i] == ws[lo + i] && ws[lo..hi][j] == ws[lo + j];
    }
  }

  /** Without its first record an ascending sequence still ascends. */
  lemma AscendingDropFirst(ws: seq<Word>)
    requires Ascending(ws) && |ws| > 0
    ensures Ascending(ws[1..])
  {
    AscendingSlice(ws, 1, |ws|);
    assert ws[1..|ws|] == ws[1..];
  }

  /** Without its last record an ascending sequence still ascends. */
  lemma AscendingDropLast(ws: seq<Word>)
    requires Ascending(ws) && |ws| > 0
    ensures Ascending(ws[..|ws| - 1])
  {
    AscendingSlice(ws, 0, |ws| - 1);
    assert ws[0..|ws| - 1] == ws[..|ws| - 1];
  }

  /** A key below every key of b is none of them. */
  lemma BelowIsAbsent(k: string, d: string, b: seq<Word>)
    requires Less(k, d) && AllAbove(b, d)
    ensures k != d && k !in KeySet(b)
  {
    LessAsymmetric(k, d);
  }

  /** A key above every key of a is none of them. */
  lemma AboveIsAbsent(k: string, d: string, a: seq<Word>)
    requires Less(d, k) && AllBelow(a, d)
    ensures k != d && k !in KeySet(a)
  {
    LessAsymmetric(d, k);
  }

  /** An ascending sequence holds each key once, so its records and keys are distinct. */
  lemma AscendingDistinct(ws: seq<Word>, i: int, j: int)
    requires Ascending(ws) && 0 <= i < |ws| && 0 <= j < |ws|
    ensures ws[i].word == ws[j].word <==> i == j
  {
    if i < j {
      LessAsymmetric(ws[i].word, ws[j].word);
    } else if j < i {
      LessAsymmetric(ws[j].word, ws[i].word);
    }
  }

  /** The first record of an ascending sequence has the least key, the last the greatest. */
  lemma AscendingEnds(ws: seq<Word>)
    requires Ascending(ws) && |ws| > 0
    ensures forall w :: w in ws[1..] ==> Less(ws[0].word, w.word)
    ensures forall w :: w in ws[..|ws| - 1] ==> Less(w.word, ws[|ws| - 1].word)
    ensures KeySet(ws[1..]) == KeySet(ws) - {ws[0].word}
    ensures KeySet(ws[..|ws| - 1]) == KeySet(ws) - {ws[|ws| - 1].word}
  {
    assert ws == [ws[0]] + ws[1..];
    assert ws == ws[..|ws| - 1] + [ws[|ws| - 1]];
    AscendingSplit([], ws[0], ws[1..]);
    AscendingSplit(ws[..|ws| - 1], ws[|ws| - 1], []);
    forall w | w in ws[1..]
      ensures w.word != ws[0].word
    {
      LessAsymmetric(ws[0].word, w.word);
    }
    forall w | w in ws[..|ws| - 1]
      ensures w.word != ws[|ws| - 1].word
    {
      LessAsymmetric(w.word, ws[|ws| - 1].word);
    }
  }

  /** Inserting a record grows the key set by exactly its key. */
  lemma InsertKeySet(ws: seq<Word>, pos: nat, w: Word)
    requires pos <= |ws|
    ensures KeySet(ws[..pos] + [w] + ws[pos..]) == KeySet(ws) + {w.word}
  {
    var s := ws[..pos] + [w] + ws[pos..];
    assert ws == ws[..pos] + ws[pos..];
    forall x | x in s
      ensures x in ws || x == w
    {
    }
    forall x | x in ws
      ensures x in s
    {
    }
  }

  // ---------------------------------------------------------------------
  // The per-node search-tree property
  // ---------------------------------------------------------------------

  /** Keys left of a node are below its key, keys right of it above, at every node. */
  ghost predicate SearchTree(n: BSTreeNode?<Word>)
    requires n != null ==> n.Valid()
    reads if n == null then {} else {n} + n.Repr
    decreases ReprOf(n)
  {
    n == null ||
    (&& AllBelow(ElemsOf(n.left), n.data.word)
     && AllAbove(ElemsOf(n.right), n.data.word)
     && SearchTree(n.left)
     && SearchTree(n.right))
  }

  /** The per-node property holds exactly when the in-order visit is ascending. */
  lemma {:induction false} SearchTreeIffAscending(n: BSTreeNode?<Word>)
    requires n != null ==> n.Valid()
    ensures SearchTree(n) <==> Ascending(ElemsOf(n))
    decreases ReprOf(n)
  {
    if n != null {
      SearchTreeIffAscending(n.left);
      SearchTreeIffAscending(n.right);
      if Ascending(n.Elems) {
        AscendingSplit(ElemsOf(n.left), n.data, ElemsOf(n.right));
      }
      if SearchTree(n) {
        AscendingJoin(ElemsOf(n.left), n.data, ElemsOf(n.right));
      }
    }
  }

  // ---------------------------------------------------------------------
  // Structural helpers (the private recursive methods of BSTree)
  // ---------------------------------------------------------------------

  function Max(a: int, b: int): int
  {
    if a < b then b else a
  }

  /** getHeight(node): 0 for no node, else one more than the taller child. */
  function Height<E>(n: BSTreeNode?<E>): (h: nat)
    requires n != null ==> n.Valid()
    reads if n == null then {} else {n} + n.Repr
    ensures h == 0 <==> n == null
    ensures h <= |ElemsOf(n)|
    decreases ReprOf(n)
  {
    if n == null then 0 else 1 + Max(Height(n.GetLeft()), Height(n.GetRight()))
  }

  /** A subtree is taller than each of its children, and a single node has height 1. */
  lemma HeightOfChildren<E>(n: BSTreeNode<E>)
    requires n.Valid()
    ensures Height(n) > Height(n.left) && Height(n) > Height(n.right)
    ensures n.IsLeaf() ==> Height(n) == 1
    ensures Height(n) == 1 ==> n.IsLeaf()
  {
  }

  /** search(node, entry): walk left or right by compareTo until the key is met. */
  function SearchFrom(n: BSTreeNode?<Word>, key: string): (r: BSTreeNode?<Word>)
    requires n != null ==> n.Valid()
    reads if n == null then {} else {n} + n.Repr
    ensures r != null ==> r in ReprOf(n) && r.data.word == key && r.Valid()
    decreases ReprOf(n)
  {
    if n == null then null
    else
      var comparison := CompareTo(key, n.GetData().word);
      if comparison == 0 then
        CompareToZeroIffEqual(key, n.data.word);
        n
      else if comparison < 0 then SearchFrom(n.GetLeft(), key)
      else SearchFrom(n.GetRight(), key)
  }

  /** In a search tree the walk finds a node exactly when the key is held, and that node holds a record of the tree. */
  lemma {:induction false} SearchFromFinds(n: BSTreeNode?<Word>, key: string)
    requires n != null ==> n.Valid()
    requires Ascending(ElemsOf(n))
    ensures SearchFrom(n, key) != null <==> key in KeySet(ElemsOf(n))
    ensures SearchFrom(n, key) != null ==> SearchFrom(n, key).data in ElemsOf(n)
    decreases ReprOf(n)
  {
    if n != null {
      var l, r := ElemsOf(n.left), ElemsOf(n.right);
      AscendingSplit(l, n.data, r);
      SearchFromFinds(n.left, key);
      SearchFromFinds(n.right, key);
      var comparison := CompareTo(key, n.data.word);
      CompareToZeroIffEqual(key, n.data.word);
      if comparison == 0 {
        assert n.data in n.Elems;
      } else if comparison < 0 {
        BelowIsAbsent(key, n.data.word, r);
      } else {
        CompareToAntisymmetric(key, n.data.word);
        AboveIsAbsent(key, n.data.word, l);
      }
      if SearchFrom(n, key) != null {
        var m := SearchFrom(n, key);
        assert m.data in n.Elems by {
          assert m.data in l || m.data == n.data || m.data in r;
        }
      }
    }
  }

  /** findMin: follow left links to the node holding the first datum of the in-order visit. */
  method FindMin<E>(node: BSTreeNode<E>) returns (m: BSTreeNode?<E>)
    requires node.Valid()
    ensures m != null && m in node.Repr && m.left == null
    ensures m.data == node.Elems[0]
  {
    m := node;
    while m.GetLeft() != null
      invariant m != null && m in node.Repr && m.Valid()
      invariant m.Elems[0] == node.Elems[0]
      decreases m.Repr
    {
      m := m.GetLeft();
    }
  }

  /** findMax: follow right links to the node holding the last datum of the in-order visit. */
  method FindMax<E>(node: BSTreeNode<E>) returns (m: BSTreeNode?<E>)
    requires node.Valid()
    ensures m != null && m in node.Repr && m.right == null
    ensures m.data == node.Elems[|node.Elems| - 1]
  {
    m := node;
    while m.GetRight() != null
      invariant m != null && m in node.Repr && m.Valid()
      invariant m.Elems[|m.Elems| - 1] == node.Elems[|node.Elems| - 1]
      decreases m.Repr
    {
      m := m.GetRight();
    }
  }

  /** A subtree none of whose nodes changed is still the same valid subtree. */
  twostate lemma SubtreeKept<E>(n: BSTreeNode?<E>)
    requires n != null ==> old(n.Valid()) && unchanged(old(n.Repr))
    ensures n != null ==> n.Valid() && n.Elems == old(n.Elems) && n.Repr == old(n.Repr)
  {
  }

  lemma DropFirst<E>(l: seq<E>, d: E, r: seq<E>)
    requires |l| > 0
    ensures (l + [d] + r)[1..] == l[1..] + [d] + r
  {
  }

  lemma DropLast<E>(l: seq<E>, d: E, r: seq<E>)
    requires |r| > 0
    ensures (l + [d] + r)[..|l + [d] + r| - 1] == l + [d] + r[..|r| - 1]
  {
  }

  /** Regrouping a buffer built in three appends. */
  lemma AppendThree<E>(s: seq<E>, a: seq<E>, b: seq<E>, c: seq<E>)
    ensures s + a + b + c == s + (a + b + c)
  {
  }

  /**
   * removeMin(node): the subtree without its first datum; the leftmost
   * node is replaced by its right child and no datum moves.
   */
  method RemoveMinAt<E>(node: BSTreeNode<E>) returns (m: BSTreeNode?<E>)
    requires node.Valid()
    modifies node.Repr
    ensures m != null ==> m.Valid()
    ensures ReprOf(m) <= old(node.Repr)
    ensures ElemsOf(m) == old(node.Elems)[1..]
    ensures forall x :: x in old(node.Repr) ==> x.data == old(x.data)
    ensures m == if old(node.left) == null then old(node.right) else node
    decreases node.Repr, 1
  {
    if node.GetLeft() == null {
      m := node.GetRight();
    } else {
      m := RemoveMinLeft(node);
    }
  }

  /** removeMin(node) when node has a left child: the minimum is removed from that child. */
  method RemoveMinLeft<E>(node: BSTreeNode<E>) returns (m: BSTreeNode?<E>)
    requires node.Valid() && node.left != null
    modifies node.Repr
    ensures m != null ==> m.Valid()
    ensures ReprOf(m) <= old(node.Repr)
    ensures ElemsOf(m) == old(node.Elems)[1..]
    ensures forall x :: x in old(node.Repr) ==> x.data == old(x.data)
    ensures m == node
    decreases node.Repr, 0
  {
    ghost var left, d, right := node.left.Elems, node.data, ElemsOf(node.right);
    DropFirst(left, d, right);
    var l := RemoveMinAt(node.GetLeft());
    assert ElemsOf(node.right) == right;
    assert node.Linked(l, node.right);
    node.SetLeft(l);
    assert node.Elems == left[1..] + [d] + right;
    m := node;
  }

  /**
   * removeMax(node): the subtree without its last datum; the rightmost
   * node is replaced by its left child and no datum moves.
   */
  method RemoveMaxAt<E>(node: BSTreeNode<E>) returns (m: BSTreeNode?<E>)
    requires node.Valid()
    modifies node.Repr
    ensures m != null ==> m.Valid()
    ensures ReprOf(m) <= old(node.Repr)
    ensures ElemsOf(m) == old(node.Elems)[..|old(node.Elems)| - 1]
    ensures forall x :: x in old(node.Repr) ==> x.data == old(x.data)
    ensures m == if old(node.right) == null then old(node.left) else node
    decreases node.Repr, 1
  {
    if node.GetRight() == null {
      assert node.Elems == ElemsOf(node.left) + [node.data];
      m := node.GetLeft();
    } else {
      m := RemoveMaxRight(node);
    }
  }

  /** removeMax(node) when node has a right child: the maximum is removed from that child. */
  method RemoveMaxRight<E>(node: BSTreeNode<E>) returns (m: BSTreeNode?<E>)
    requires node.Valid() && node.right != null
    modifies node.Repr
    ensures m != null ==> m.Valid()
    ensures ReprOf(m) <= old(node.Repr)
    ensures ElemsOf(m) == old(node.Elems)[..|old(node.Elems)| - 1]
    ensures forall x :: x in old(node.Repr) ==> x.data == old(x.data)
    ensures m == node
    decreases node.Repr, 0
  {
    ghost var left, d, right := ElemsOf(node.left), node.data, node.right.Elems;
    DropLast(left, d, right);
    var r := RemoveMaxAt(node.GetRight());
    assert ElemsOf(node.left) == left;
    assert node.Linked(node.left, r);
    node.SetRight(r);
    assert node.Elems == left + [d] + right[..|right| - 1];
    m := node;
  }

  // ---------------------------------------------------------------------
  // Traversals
  // ---------------------------------------------------------------------

  /** Root, then the left subtree, then the right subtree. */
  ghost function PreOrder<E>(n: BSTreeNode?<E>): seq<E>
    requires n != null ==> n.Valid()
    reads if n == null then {} else {n} + n.Repr
    decreases ReprOf(n)
  {
    if n == null then [] else [n.data] + PreOrder(n.left) + PreOrder(n.right)
  }

  /** The left subtree, then the right subtree, then the root. */
  ghost function PostOrder<E>(n: BSTreeNode?<E>): seq<E>
    requires n != null ==> n.Valid()
    reads if n == null then {} else {n} + n.Repr
    decreases ReprOf(n)
  {
    if n == null then [] else PostOrder(n.left) + PostOrder(n.right) + [n.data]
  }

  /** The pre-order visit lists the in-order data rearranged, the root first. */
  lemma {:induction false} PreOrderPermutes<E>(n: BSTreeNode?<E>)
    requires n != null ==> n.Valid()
    ensures multiset(PreOrder(n)) == multiset(ElemsOf(n))
    decreases ReprOf(n)
  {
    if n != null {
      PreOrderPermutes(n.left);
      PreOrderPermutes(n.right);
      var l, r := PreOrder(n.left), PreOrder(n.right);
      assert PreOrder(n) == [n.data] + l + r;
      assert n.Elems == ElemsOf(n.left) + [n.data] + ElemsOf(n.right);
      RearrangeThree([n.data], l, r, ElemsOf(n.left), ElemsOf(n.right));
    }
  }

  /** The post-order visit lists the in-order data rearranged, the root last. */
  lemma {:induction false} PostOrderPermutes<E>(n: BSTreeNode?<E>)
    requires n != null ==> n.Valid()
    ensures multiset(PostOrder(n)) == multiset(ElemsOf(n))
    decreases ReprOf(n)
  {
    if n != null {
      PostOrderPermutes(n.left);
      PostOrderPermutes(n.right);
      var l, r := PostOrder(n.left), PostOrder(n.right);
      assert PostOrder(n) == l + r + [n.data];
      assert n.Elems == ElemsOf(n.left) + [n.data] + ElemsOf(n.right);
      RearrangeThree([n.data], l, r, ElemsOf(n.left), ElemsOf(n.right));
    }
  }

  /** The pre-order visit of a subtree starts at its root. */
  lemma PreOrderStartsAtRoot<E>(n: BSTreeNode<E>)
    requires n.Valid()
    ensures |PreOrder(n)| > 0 && PreOrder(n)[0] == n.data
  {
  }

  /** The post-order visit of a subtree ends at its root. */
  lemma PostOrderEndsAtRoot<E>(n: BSTreeNode<E>)
    requires n.Valid()
    ensures |PostOrder(n)| > 0 && PostOrder(n)[|PostOrder(n)| - 1] == n.data
  {
  }

  /** Moving the root's datum to the front or the back keeps the multiset. */
  lemma RearrangeThree<E>(d: seq<E>, l: seq<E>, r: seq<E>, l': seq<E>, r': seq<E>)
    requires multiset(l) == multiset(l') && multiset(r) == multiset(r')
    ensures multiset(d + l + r) == multiset(l' + d + r')
    ensures multiset(l + r + d) == multiset(l' + d + r')
  {
  }

  /** inOrderTraversal(node, elements): appends the in-order visit of the subtree. */
  method InOrderTraversal<E>(node: BSTreeNode?<E>, elements: seq<E>) returns (out: seq<E>)
    requires node != null ==> node.Valid()
    ensures out == elements + old(ElemsOf(node))
    decreases ReprOf(node)
  {
    out := elements;
    if node != null {
      var data, left, right := node.GetData(), node.GetLeft(), node.GetRight();
      ghost var l, r := ElemsOf(left), ElemsOf(right);
      assert node.Elems == l + [data] + r;
      out := InOrderTraversal(left, out);
      out := out + [data];
      out := InOrderTraversal(right, out);
      AppendThree(elements, l, [data], r);
    }
  }

  /** preOrderTraversal(node, elements): appends the pre-order visit of the subtree. */
  method PreOrderTraversal<E>(node: BSTreeNode?<E>, elements: seq<E>) returns (out: seq<E>)
    requires node != null ==> node.Valid()
    ensures out == elements + old(PreOrder(node))
    decreases ReprOf(node)
  {
    out := elements;
    if node != null {
      var data, left, right := node.GetData(), node.GetLeft(), node.GetRight();
      ghost var l, r := PreOrder(left), PreOrder(right);
      assert PreOrder(node) == [data] + l + r;
      out := out + [data];
      out := PreOrderTraversal(left, out);
      out := PreOrderTraversal(right, out);
      AppendThree(elements, [data], l, r);
    }
  }

  /** postOrderTraversal(node, elements): appends the post-order visit of the subtree. */
  method PostOrderTraversal<E>(node: BSTreeNode?<E>, elements: seq<E>) returns (out: seq<E>)
    requires node != null ==> node.Valid()
    ensures out == elements + old(PostOrder(node))
    decreases ReprOf(node)
  {
    out := elements;
    if node != null {
      var data, left, right := node.GetData(), node.GetLeft(), node.GetRight();
      ghost var l, r := PostOrder(left), PostOrder(right);
      assert PostOrder(node) == l + r + [data];
      out := PostOrderTraversal(left, out);
      out := PostOrderTraversal(right, out);
      out := out + [data];
      AppendThree(elements, l, r, [data]);
    }
  }

  // ---------------------------------------------------------------------
  // The cursor over a traversal buffer
  // ---------------------------------------------------------------------

  class BSTreeIterator<E> {
    var elements: seq<E>
    var currentIndex: int

    ghost predicate Valid()
      reads this
    {
      0 <= currentIndex <= |elements|
    }

    /** What the cursor has yet to yield. */
    ghost function Remaining(): seq<E>
      reads this
      requires Valid()
    {
      elements[currentIndex..]
    }

    constructor (elements: seq<E>)
      ensures this.elements == elements && currentIndex == 0
      ensures Valid() && Remaining() == elements
    {
      this.elements := elements;
      currentIndex := 0;
    }

    /** hasNext: something remains to be yielded. */
    predicate HasNext()
      reads this
      ensures Valid() ==> (HasNext() <==> Remaining() != [])
    {
      currentIndex < |elements|
    }

    /** next: the next buffered element, or NoSuchElement once the buffer is used up. */
    method Next() returns (r: Result<E>)
      requires Valid()
      modifies this
      ensures Valid() && elements == old(elements)
      ensures r.Err? <==> old(Remaining()) == []
      ensures r.Err? ==> r.error == NoSuchElement && currentIndex == old(currentIndex)
      ensures r.Ok? ==> r.value == old(Remaining())[0] && Remaining() == old(Remaining())[1..]
      ensures r.Ok? ==> currentIndex == old(currentIndex) + 1
    {
      if !HasNext() {
        return Err(NoSuchElement);
      }
      r := Ok(elements[currentIndex]);
      currentIndex := currentIndex + 1;
    }
  }

  // ---------------------------------------------------------------------
  // The tree
  // ---------------------------------------------------------------------

  class BSTree {
    var root: BSTreeNode?<Word>
    var size: int
    /** The nodes of the tree. */
    ghost var Repr: set<BSTreeNode<Word>>

    /** A well-formed tree whose in-order keys ascend and whose size counts its nodes. */
    ghost predicate Valid()
      reads this, Repr
    {
      && (root != null ==> root in Repr)
      && Repr == ReprOf(root)
      && (root != null ==> root.Valid())
      && size == |ElemsOf(root)|
      && Ascending(ElemsOf(root))
    }

    /** The records in in-order. */
    ghost function Elements(): seq<Word>
      reads this, Repr
      requires Valid()
    {
      ElemsOf(root)
    }

    /** BSTree(): the empty tree. */
    constructor ()
      ensures Valid() && Elements() == [] && Repr == {}
    {
      root := null;
      size := 0;
      Repr := {};
    }

    /** getRoot: the root node, or EmptyTree when there is none. */
    function GetRoot(): (r: Result<BSTreeNode<Word>>)
      reads this, Repr
      requires Valid()
      ensures r.Err? <==> Elements() == []
      ensures r.Err? ==> r.error == EmptyTree
      ensures r.Ok? ==> r.value in Repr && r.value.Valid() && r.value.Elems == Elements()
    {
      if root == null then Err(EmptyTree) else Ok(root)
    }

    /** getHeight: the height of the whole tree, 0 exactly when it is empty. */
    function GetHeight(): (h: nat)
      reads this, Repr
      requires Valid()
      ensures h == 0 <==> Elements() == []
      ensures h <= Size()
    {
      Height(root)
    }

    /** size: the number of records. */
    function Size(): (n: int)
      reads this, Repr
      requires Valid()
      ensures n == |Elements()|
    {
      size
    }

    /** isEmpty: no root node, exactly when there are no records. */
    predicate IsEmpty()
      reads this, Repr
      requires Valid()
      ensures IsEmpty() <==> |Elements()| == 0
      ensures IsEmpty() <==> Size() == 0
    {
      root == null
    }

    /** clear: drop every node. */
    method Clear()
      modifies this
      ensures Valid() && Elements() == [] && Size() == 0
    {
      root := null;
      size := 0;
      Repr := {};
    }

    /** search(entry): the node holding the entry's key, null when absent; NullEntry on a null entry. */
    function Search(entry: Word?): (r: Result<BSTreeNode?<Word>>)
      reads this, Repr
      requires Valid()
      ensures r.Err? <==> entry == null
      ensures r.Err? ==> r.error == NullEntry
      ensures r.Ok? ==> (r.value != null <==> entry.word in KeySet(Elements()))
      ensures r.Ok? && r.value != null ==> r.value in Repr && r.value.data in Elements() && r.value.data.word == entry.word
    {
      if entry == null then Err(NullEntry)
      else
        SearchFromFinds(root, entry.word);
        Ok(SearchFrom(root, entry.word))
    }

    /** contains(entry): whether the entry's key is held; NullEntry on a null entry. */
    function Contains(entry: Word?): (r: Result<bool>)
      reads this, Repr
      requires Valid()
      ensures r.Err? <==> entry == null
      ensures r.Err? ==> r.error == NullEntry
      ensures r.Ok? ==> (r.value <==> entry.word in KeySet(Elements()))
    {
      if entry == null then Err(NullEntry) else Ok(Search(entry).value != null)
    }

    /**
     * add(node, newEntry): compare with the node's key; a key already
     * present is refused, a smaller one goes to the left subtree and a
     * greater one to the right subtree. The ghost flag held says whether
     * the key is already in the subtree; when it is, the method may modify
     * nothing, so a refused add leaves every node as it was.
     */
    method AddAt(node: BSTreeNode<Word>, newEntry: Word, ghost held: bool) returns (added: bool, ghost pos: nat)
      requires node.Valid() && Ascending(node.Elems)
      requires held == (newEntry.word in KeySet(node.Elems))
      modifies if held then {} else {this} + node.Repr
      ensures node.Valid() && Ascending(node.Elems)
      ensures old(node.Repr) <= node.Repr && forall n :: n in node.Repr ==> n in old(node.Repr) || fresh(n)
      ensures root == old(root)
      ensures Inserted(old(node.Elems), node.Elems, newEntry, added, pos)
      ensures size == old(size) + if added then 1 else 0
      ensures node.data == old(node.data)
      decreases node.Repr, 2
    {
      var comparison := newEntry.CompareTo(node.GetData());
      CompareToZeroIffEqual(newEntry.word, node.data.word);
      if comparison == 0 {
        assert node.data in node.Elems;
        added, pos := false, 0;
      } else if comparison < 0 {
        added, pos := AddLeft(node, newEntry, held);
      } else {
        CompareToAntisymmetric(newEntry.word, node.data.word);
        added, pos := AddRight(node, newEntry, held);
      }
    }

    /**
     * The smaller-key branch of add(node, newEntry): a new leaf becomes
     * the missing left child, or the entry goes down the left subtree.
     */
    method AddLeft(node: BSTreeNode<Word>, newEntry: Word, ghost held: bool) returns (added: bool, ghost pos: nat)
      requires node.Valid() && Ascending(node.Elems) && Less(newEntry.word, node.data.word)
      requires held == (newEntry.word in KeySet(node.Elems))
      modifies if held then {} else {this, node} + ReprOf(node.left)
      ensures node.Valid() && Ascending(node.Elems)
      ensures old(node.Repr) <= node.Repr && forall n :: n in node.Repr ==> n in old(node.Repr) || fresh(n)
      ensures root == old(root)
      ensures Inserted(old(node.Elems), node.Elems, newEntry, added, pos)
      ensures size == old(size) + if added then 1 else 0
      ensures node.data == old(node.data) && node.right == old(node.right)
      decreases node.Repr, 1
    {
      if node.GetLeft() == null {
        ghost var before := node.Elems;
        assert before == [] + [node.data] + ElemsOf(node.right);
        HeldBelow([], node.data, ElemsOf(node.right), newEntry.word);
        HangLeft(node, newEntry);
        added, pos := true, 0;
        InsertLeftOrdered([], node.data, ElemsOf(node.right), newEntry, added, pos, [newEntry], before, node.Elems);
      } else {
        added, pos := AddIntoLeft(node, newEntry, held);
      }
    }

    /** add(node.left, newEntry), with the node's record of its subtree brought up to date. */
    method AddIntoLeft(node: BSTreeNode<Word>, newEntry: Word, ghost held: bool) returns (added: bool, ghost pos: nat)
      requires node.Valid() && node.left != null
      requires Ascending(node.Elems) && Less(newEntry.word, node.data.word)
      requires held == (newEntry.word in KeySet(node.Elems))
      modifies if held then {} else {this, node} + ReprOf(node.left)
      ensures node.Valid() && Ascending(node.Elems)
      ensures old(node.Repr) <= node.Repr && forall n :: n in node.Repr ==> n in old(node.Repr) || fresh(n)
      ensures root == old(root)
      ensures Inserted(old(node.Elems), node.Elems, newEntry, added, pos)
      ensures size == old(size) + if added then 1 else 0
      ensures node.data == old(node.data) && node.right == old(node.right)
      decreases node.Repr, 0
    {
      ghost var l, r := node.left.Elems, ElemsOf(node.right);
      ghost var before := node.Elems;
      assert before == l + [node.data] + r;
      AscendingLeftPart(l, node.data, r);
      HeldBelow(l, node.data, r, newEntry.word);
      var child := node.GetLeft();
      ghost var sibling := node.right;
      ghost var childRepr, siblingRepr, nodeRepr := child.Repr, ReprOf(sibling), node.Repr;
      added, pos := AddAt(child, newEntry, held);
      if added {
        ghost var l', grown := child.Elems, child.Repr;
        assert node.left == child && node.right == sibling;
        assert sibling != null ==> sibling.Valid() && sibling.Elems == r && sibling.Repr == siblingRepr;
        node.Relink();
        ReprGrowth(node, childRepr, grown, siblingRepr, siblingRepr, nodeRepr, node.Repr);
        assert node.Elems == l' + [node.data] + r;
        InsertLeftOrdered(l, node.data, r, newEntry, added, pos, l', before, node.Elems);
      }
    }

    /**
     * The greater-key branch of add(node, newEntry): a new leaf becomes
     * the missing right child, or the entry goes down the right subtree.
     */
    method AddRight(node: BSTreeNode<Word>, newEntry: Word, ghost held: bool) returns (added: bool, ghost pos: nat)
      requires node.Valid() && Ascending(node.Elems) && Less(node.data.word, newEntry.word)
      requires held == (newEntry.word in KeySet(node.Elems))
      modifies if held then {} else {this, node} + ReprOf(node.right)
      ensures node.Valid() && Ascending(node.Elems)
      ensures old(node.Repr) <= node.Repr && forall n :: n in node.Repr ==> n in old(node.Repr) || fresh(n)
      ensures root == old(root)
      ensures Inserted(old(node.Elems), node.Elems, newEntry, added, pos)
      ensures size == old(size) + if added then 1 else 0
      ensures node.data == old(node.data) && node.left == old(node.left)
      decreases node.Repr, 1
    {
      if node.GetRight() == null {
        ghost var l := ElemsOf(node.left);
        ghost var before := node.Elems;
        assert before == l + [node.data] + [];
        HeldAbove(l, node.data, [], newEntry.word);
        HangRight(node, newEntry);
        added, pos := true, |l| + 1;
        InsertRightOrdered(l, node.data, [], newEntry, added, 0, [newEntry], pos, before, node.Elems);
      } else {
        added, pos := AddIntoRight(node, newEntry, held);
      }
    }

    /** add(node.right, newEntry), with the node's record of its subtree brought up to date. */
    method AddIntoRight(node: BSTreeNode<Word>, newEntry: Word, ghost held: bool) returns (added: bool, ghost pos: nat)
      requires node.Valid() && node.right != null
      requires Ascending(node.Elems) && Less(node.data.word, newEntry.word)
      requires held == (newEntry.word in KeySet(node.Elems))
      modifies if held then {} else {this, node} + ReprOf(node.right)
      ensures node.Valid() && Ascending(node.Elems)
      ensures old(node.Repr) <= node.Repr && forall n :: n in node.Repr ==> n in old(node.Repr) || fresh(n)
      ensures root == old(root)
      ensures Inserted(old(node.Elems), node.Elems, newEntry, added, pos)
      ensures size == old(size) + if added then 1 else 0
      ensures node.data == old(node.data) && node.left == old(node.left)
      decreases node.Repr, 0
    {
      ghost var l, r := ElemsOf(node.left), node.right.Elems;
      ghost var before := node.Elems;
      assert before == l + [node.data] + r;
      AscendingRightPart(l, node.data, r);
      HeldAbove(l, node.data, r, newEntry.word);
      var child := node.GetRight();
      ghost var sibling := node.left;
      ghost var childRepr, siblingRepr, nodeRepr := child.Repr, ReprOf(sibling), node.Repr;
      ghost var p;
      added, p := AddAt(child, newEntry, held);
      pos := |l| + 1 + p;
      if added {
        ghost var r', grown := child.Elems, child.Repr;
        assert node.right == child && node.left == sibling;
        assert sibling != null ==> sibling.Valid() && sibling.Elems == l && sibling.Repr == siblingRepr;
        node.Relink();
        ReprGrowth(node, siblingRepr, siblingRepr, childRepr, grown, nodeRepr, node.Repr);
        assert node.Elems == l + [node.data] + r';
        InsertRightOrdered(l, node.data, r, newEntry, added, p, r', pos, before, node.Elems);
      }
    }

    /** A new leaf holding the entry fills the missing left child, and the size grows by one. */
    method HangLeft(node: BSTreeNode<Word>, newEntry: Word)
      requires node.Valid() && node.left == null
      modifies this, node
      ensures node.Valid() && node.left != null && fresh(node.left)
      ensures node.data == old(node.data) && node.right == old(node.right)
      ensures node.Repr == old(node.Repr) + {node.left}
      ensures ElemsOf(node.left) == [newEntry] && ElemsOf(node.right) == old(ElemsOf(node.right))
      ensures node.Elems == [newEntry] + [node.data] + ElemsOf(node.right)
      ensures root == old(root) && size == old(size) + 1
    {
      size := size + 1;
      var leaf := new BSTreeNode(newEntry);
      assert node.Linked(leaf, node.right);
      node.SetLeft(leaf);
    }

    /** A new leaf holding the entry fills the missing right child, and the size grows by one. */
    method HangRight(node: BSTreeNode<Word>, newEntry: Word)
      requires node.Valid() && node.right == null
      modifies this, node
      ensures node.Valid() && node.right != null && fresh(node.right)
      ensures node.data == old(node.data) && node.left == old(node.left)
      ensures node.Repr == old(node.Repr) + {node.right}
      ensures ElemsOf(node.right) == [newEntry] && ElemsOf(node.left) == old(ElemsOf(node.left))
      ensures node.Elems == ElemsOf(node.left) + [node.data] + [newEntry]
      ensures root == old(root) && size == old(size) + 1
    {
      size := size + 1;
      var leaf := new BSTreeNode(newEntry);
      assert node.Linked(node.left, leaf);
      node.SetRight(leaf);
    }

    /**
     * add(newEntry): NullEntry on a null entry; true and one more record,
     * inserted at its place in key order, when the key is new; false and
     * no change when it is already held.
     */
    method Add(newEntry: Word?) returns (r: Result<bool>, ghost pos: nat)
      requires Valid()
      modifies this, Repr
      ensures Valid()
      ensures fresh(Repr - old(Repr))
      ensures newEntry == null ==> r == Err(NullEntry) && Elements() == old(Elements())
      ensures newEntry != null ==> r.Ok? && (r.value <==> newEntry.word !in KeySet(old(Elements())))
      ensures r == Ok(true) ==> pos <= |old(Elements())| && size == old(size) + 1 &&
                                Elements() == old(Elements())[..pos] + [newEntry] + old(Elements())[pos..]
      ensures r == Ok(false) ==> Elements() == old(Elements()) && size == old(size)
      ensures r != Ok(true) ==> unchanged(this) && unchanged(old(Repr))
    {
      pos := 0;
      if newEntry == null {
        return Err(NullEntry), pos;
      }
      if root == null {
        root := new BSTreeNode(newEntry);
        size := size + 1;
        Repr := root.Repr;
        return Ok(true), pos;
      }
      var added;
      added, pos := AddAt(root, newEntry, newEntry.word in KeySet(root.Elems));
      Repr := root.Repr;
      r := Ok(added);
    }

    /** The tree's fields once a subtree has been detached: root names it and size counts it. */
    method Reroot(rest: BSTreeNode?<Word>, newSize: int)
      requires rest != null ==> rest.Valid()
      requires newSize == |ElemsOf(rest)| && Ascending(ElemsOf(rest))
      modifies this
      ensures Valid() && root == rest && size == newSize
      ensures Repr == old(ReprOf(rest)) && Elements() == old(ElemsOf(rest))
    {
      label detached:
      root, size, Repr := rest, newSize, ReprOf(rest);
      SubtreeKept@detached(rest);
    }

    /** removeMin: null on an empty tree, else the node of the least key, which leaves the tree. */
    method RemoveMin() returns (r: BSTreeNode?<Word>)
      requires Valid()
      modifies this, Repr
      ensures Valid() && Repr <= old(Repr)
      ensures old(Elements()) == [] ==> r == null && Elements() == [] && size == old(size)
      ensures old(Elements()) != [] ==> r != null && r.data == old(Elements())[0] &&
                                        Elements() == old(Elements())[1..] && size == old(size) - 1
    {
      if root == null {
        return null;
      }
      ghost var before := Elements();
      AscendingDropFirst(before);
      var minNode := FindMin(root);
      var rest := RemoveMinAt(root);
      ghost var elems := ElemsOf(rest);
      assert elems == before[1..] && Ascending(elems) && |elems| == size - 1;
      assert minNode.data == before[0] && ReprOf(rest) <= old(Repr);
      // The remainder becomes the root, and the size drops by one when a minimum was found.
      Reroot(rest, if minNode != null then size - 1 else size);
      r := minNode;
    }

    /** removeMax: null on an empty tree, else the node of the greatest key, which leaves the tree. */
    method RemoveMax() returns (r: BSTreeNode?<Word>)
      requires Valid()
      modifies this, Repr
      ensures Valid() && Repr <= old(Repr)
      ensures old(Elements()) == [] ==> r == null && Elements() == [] && size == old(size)
      ensures old(Elements()) != [] ==> r != null && r.data == old(Elements())[|old(Elements())| - 1] &&
                                        Elements() == old(Elements())[..|old(Elements())| - 1] &&
                                        size == old(size) - 1
    {
      if root == null {
        return null;
      }
      ghost var before := Elements();
      AscendingDropLast(before);
      var maxNode := FindMax(root);
      var rest := RemoveMaxAt(root);
      ghost var elems := ElemsOf(rest);
      assert elems == before[..|before| - 1] && Ascending(elems) && |elems| == size - 1;
      assert maxNode.data == before[|before| - 1] && ReprOf(rest) <= old(Repr);
      // The remainder becomes the root, and the size drops by one when a maximum was found.
      Reroot(rest, if maxNode != null then size - 1 else size);
      r := maxNode;
    }

    /** inorderIterator: a cursor over the records in ascending key order. */
    method InorderIterator() returns (it: BSTreeIterator<Word>)
      requires Valid()
      ensures fresh(it) && it.Valid() && it.currentIndex == 0 && it.elements == Elements()
    {
      var elements := InOrderTraversal(root, []);
      it := new BSTreeIterator(elements);
    }

    /** preorderIterator: a cursor over the records, each node before its subtrees. */
    method PreorderIterator() returns (it: BSTreeIterator<Word>)
      requires Valid()
      ensures fresh(it) && it.Valid() && it.currentIndex == 0 && it.elements == PreOrder(root)
    {
      var elements := PreOrderTraversal(root, []);
      it := new BSTreeIterator(elements);
    }

    /** postorderIterator: a cursor over the records, each node after its subtrees. */
    method PostorderIterator() returns (it: BSTreeIterator<Word>)
      requires Valid()
      ensures fresh(it) && it.Valid() && it.currentIndex == 0 && it.elements == PostOrder(root)
    {
      var elements := PostOrderTraversal(root, []);
      it := new BSTreeIterator(elements);
    }
  }

  /** The in-order records of a valid tree: ascending, one per key, as many as size. */
  lemma InOrderIsSorted(t: BSTree)
    requires t.Valid()
    ensures Ascending(t.Elements()) && SearchTree(t.root)
    ensures |t.Elements()| == t.Size() == |KeySet(t.Elements())|
  {
    SearchTreeIffAscending(t.root);
    AscendingKeyCount(t.Elements());
  }

  /** An ascending sequence has as many keys as records. */
  lemma {:induction false} AscendingKeyCount(ws: seq<Word>)
    requires Ascending(ws)
    ensures |KeySet(ws)| == |ws|
  {
    if |ws| > 0 {
      var init := ws[..|ws| - 1];
      assert ws == init + [ws[|ws| - 1]];
      AscendingEnds(ws);
      AscendingKeyCount(init);
    }
  }

  /**
   * Growing the parts of a node's footprint grows the whole by exactly what
   * the parts gained.
   */
  lemma ReprGrowth<T>(n: T, left: set<T>, left': set<T>, right: set<T>, right': set<T>, before: set<T>, after: set<T>)
    requires before == {n} + left + right && after == {n} + left' + right'
    requires left <= left' && right <= right'
    ensures before <= after && after - before <= (left' - left) + (right' - right)
  {
  }

  /** A key below a record's key is held by the whole exactly when it is held by the part left of it. */
  lemma HeldBelow(l: seq<Word>, d: Word, r: seq<Word>, key: string)
    requires Ascending(l + [d] + r) && Less(key, d.word)
    ensures key in KeySet(l + [d] + r) <==> key in KeySet(l)
  {
    AscendingSplit(l, d, r);
    BelowIsAbsent(key, d.word, r);
    assert KeySet(l + [d] + r) == KeySet(l) + {d.word} + KeySet(r);
  }

  /** A key above a record's key is held by the whole exactly when it is held by the part right of it. */
  lemma HeldAbove(l: seq<Word>, d: Word, r: seq<Word>, key: string)
    requires Ascending(l + [d] + r) && Less(d.word, key)
    ensures key in KeySet(l + [d] + r) <==> key in KeySet(r)
  {
    AscendingSplit(l, d, r);
    AboveIsAbsent(key, d.word, l);
    assert KeySet(l + [d] + r) == KeySet(l) + {d.word} + KeySet(r);
  }

  /**
   * after is before with w inserted at pos exactly when w's key was new to
   * before, and before unchanged otherwise.
   */
  ghost predicate Inserted(before: seq<Word>, after: seq<Word>, w: Word, added: bool, pos: nat)
  {
    && (added <==> w.word !in KeySet(before))
    && (added ==> pos <= |before| && after == before[..pos] + [w] + before[pos..])
    && (!added ==> after == before)
  }

  /** An insertion into the left part is an insertion into the whole at the same place. */
  lemma SpliceLeft<E>(l: seq<E>, d: E, r: seq<E>, pos: nat, w: E)
    requires pos <= |l|
    ensures (l[..pos] + [w] + l[pos..]) + [d] + r ==
            (l + [d] + r)[..pos] + [w] + (l + [d] + r)[pos..]
  {
    assert (l + [d] + r)[..pos] == l[..pos];
    assert (l + [d] + r)[pos..] == l[pos..] + [d] + r;
  }

  /** An insertion into the right part is an insertion into the whole past the left part and the datum. */
  lemma SpliceRight<E>(l: seq<E>, d: E, r: seq<E>, p: nat, w: E)
    requires p <= |r|
    ensures l + [d] + (r[..p] + [w] + r[p..]) ==
            (l + [d] + r)[..|l| + 1 + p] + [w] + (l + [d] + r)[|l| + 1 + p..]
  {
    assert (l + [d] + r)[..|l| + 1 + p] == l + [d] + r[..p];
    assert (l + [d] + r)[|l| + 1 + p..] == r[p..];
  }

  /** The part left of a record in an ascending sequence ascends. */
  lemma AscendingLeftPart(l: seq<Word>, d: Word, r: seq<Word>)
    requires Ascending(l + [d] + r)
    ensures Ascending(l)
  {
    AscendingSlice(l + [d] + r, 0, |l|);
    assert (l + [d] + r)[0..|l|] == l;
  }

  /** The part right of a record in an ascending sequence ascends. */
  lemma AscendingRightPart(l: seq<Word>, d: Word, r: seq<Word>)
    requires Ascending(l + [d] + r)
    ensures Ascending(r)
  {
    AscendingSlice(l + [d] + r, |l| + 1, |l + [d] + r|);
    assert (l + [d] + r)[|l| + 1..|l + [d] + r|] == r;
  }

  /**
   * The ordering side of inserting a key below a node's key into the left
   * part: the whole stays ascending, the key was new to the whole exactly
   * when it was new to the left part, and the insertion lands at the same
   * place in the whole.
   */
  lemma {:induction false} InsertLeftOrdered(l: seq<Word>, d: Word, r: seq<Word>, w: Word,
                                             added: bool, pos: nat, l': seq<Word>,
                                             before: seq<Word>, after: seq<Word>)
    requires before == l + [d] + r && after == l' + [d] + r
    requires Ascending(before) && Less(w.word, d.word) && Ascending(l')
    requires Inserted(l, l', w, added, pos)
    ensures Ascending(after)
    ensures Inserted(before, after, w, added, pos)
  {
    AscendingSplit(l, d, r);
    BelowIsAbsent(w.word, d.word, r);
    InsertBelow(l, pos, w, d, added, l');
    AscendingJoin(l', d, r);
    assert KeySet(l + [d] + r) == KeySet(l) + {d.word} + KeySet(r);
    if added {
      SpliceLeft(l, d, r, pos, w);
    }
  }

  /**
   * The ordering side of inserting a key above a node's key into the right
   * part, which lands past the left part and the node's record.
   */
  lemma {:induction false} InsertRightOrdered(l: seq<Word>, d: Word, r: seq<Word>, w: Word,
                                              added: bool, p: nat, r': seq<Word>, pos: nat,
                                              before: seq<Word>, after: seq<Word>)
    requires before == l + [d] + r && after == l + [d] + r'
    requires Ascending(before) && Less(d.word, w.word) && Ascending(r')
    requires Inserted(r, r', w, added, p)
    requires pos == |l| + 1 + p
    ensures Ascending(after)
    ensures Inserted(before, after, w, added, pos)
  {
    AscendingSplit(l, d, r);
    AboveIsAbsent(w.word, d.word, l);
    InsertAbove(r, p, w, d, added, r');
    AscendingJoin(l, d, r');
    assert KeySet(l + [d] + r) == KeySet(l) + {d.word} + KeySet(r);
    if added {
      SpliceRight(l, d, r, p, w);
    }
  }

  /** Sub-step of an insertion below a node's key: the grown left part stays below the key. */
  lemma InsertBelow(l: seq<Word>, pos: nat, w: Word, d: Word, added: bool, l': seq<Word>)
    requires AllBelow(l, d.word) && Less(w.word, d.word)
    requires added ==> pos <= |l| && l' == l[..pos] + [w] + l[pos..]
    requires !added ==> l' == l
    ensures AllBelow(l', d.word)
  {
    if added {
      assert l == l[..pos] + l[pos..];
      forall x | x in l'
        ensures Less(x.word, d.word)
      {
        assert x in l || x == w;
      }
    }
  }

  /** Sub-step of an insertion above a node's key: the grown right part stays above the key. */
  lemma InsertAbove(r: seq<Word>, pos: nat, w: Word, d: Word, added: bool, r': seq<Word>)
    requires AllAbove(r, d.word) && Less(d.word, w.word)
    requires added ==> pos <= |r| && r' == r[..pos] + [w] + r[pos..]
    requires !added ==> r' == r
    ensures AllAbove(r', d.word)
  {
    if added {
      assert r == r[..pos] + r[pos..];
      forall x | x in r'
        ensures Less(d.word, x.word)
      {
        assert x in r || x == w;
      }
    }
  }
}
