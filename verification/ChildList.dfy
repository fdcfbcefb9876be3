/**
  The doubly linked child lists of marsksim/comm/tinyxml2.cc (XMLNode::Unlink, InsertEndChild,
  InsertFirstChild, InsertAfterChild).  Nodes are addresses, 0 is the null pointer, and each
  link field of the nodes is a map; an absent entry is a null field.
 */
module ChildLists {

  type Node = nat

  const NULL: Node := 0

  datatype Links = Links(parent: map<Node, Node>, first: map<Node, Node>, last: map<Node, Node>,
                         prev: map<Node, Node>, next: map<Node, Node>)

  function Get(m: map<Node, Node>, n: Node): Node {
    if n in m then m[n] else NULL
  }

  // ---------- what the links represent ----------

  ghost predicate Distinct(s: seq<Node>) {
    forall i, j :: 0 <= i < j < |s| ==> s[i] != s[j]
  }

  ghost function Before(s: seq<Node>, i: int): Node {
    if 0 < i <= |s| then s[i - 1] else NULL
  }

  ghost function After(s: seq<Node>, i: int): Node {
    if -1 <= i < |s| - 1 then s[i + 1] else NULL
  }

  /** The i-th child is linked to its parent and to both neighbours. */
  ghost predicate LinkedAt(l: Links, p: Node, s: seq<Node>, i: int) {
    0 <= i < |s| ==> Get(l.parent, s[i]) == p && Get(l.prev, s[i]) == Before(s, i) && Get(l.next, s[i]) == After(s, i)
  }

  /** The links below p spell out the sequence s, forwards and backwards. */
  ghost predicate ListOk(l: Links, p: Node, s: seq<Node>) {
    && NULL !in s && Distinct(s)
    && Get(l.first, p) == After(s, -1) && Get(l.last, p) == Before(s, |s|)
    && forall i :: LinkedAt(l, p, s, i)
  }

  type Kids = map<Node, seq<Node>>

  /** Every node's child list is intact, and every node with a parent is in that parent's list. */
  ghost predicate Represents(l: Links, kids: Kids) {
    && NULL !in kids
    && (forall p :: p in kids ==> ListOk(l, p, kids[p]))
    && (forall c :: Get(l.parent, c) != NULL ==> Get(l.parent, c) in kids && c in kids[Get(l.parent, c)])
  }

  lemma ListMember(l: Links, p: Node, s: seq<Node>, c: Node) returns (k: nat)
    requires ListOk(l, p, s) && c in s
    ensures k < |s| && s[k] == c && Get(l.parent, c) == p && Get(l.prev, c) == Before(s, k)
      && Get(l.next, c) == After(s, k)
  {
    k :| 0 <= k < |s| && s[k] == c;
    assert LinkedAt(l, p, s, k);
  }

  ghost predicate SameAt(l: Links, l': Links, n: Node) {
    Get(l'.parent, n) == Get(l.parent, n) && Get(l'.prev, n) == Get(l.prev, n) && Get(l'.next, n) == Get(l.next, n)
  }

  /** Links that did not change keep their list. */
  lemma ListFrame(l: Links, l': Links, p: Node, s: seq<Node>)
    requires ListOk(l, p, s)
    requires Get(l'.first, p) == Get(l.first, p) && Get(l'.last, p) == Get(l.last, p)
    requires forall i :: 0 <= i < |s| ==> SameAt(l, l', s[i])
    ensures ListOk(l', p, s)
  {
    forall i
      ensures LinkedAt(l', p, s, i)
    {
      assert LinkedAt(l, p, s, i);
    }
  }

  // ---------- removing ----------

  ghost function RemoveAt(s: seq<Node>, k: nat): seq<Node>
    requires k < |s|
  {
    s[..k] + s[k + 1..]
  }

  /** The fields after Unlink. */
  function Unlinked(l: Links, p: Node, child: Node): Links {
    var before, after := Get(l.prev, child), Get(l.next, child);
    Links(l.parent[child := NULL],
          if child == Get(l.first, p) then l.first[p := after] else l.first,
          if child == Get(l.last, p) then l.last[p := before] else l.last,
          if after != NULL then l.prev[after := before] else l.prev,
          if before != NULL then l.next[before := after] else l.next)
  }

  /** What Unlink does to the fields of any node n. */
  lemma UnlinkedEffect(l: Links, p: Node, child: Node, n: Node)
    ensures var l', before, after := Unlinked(l, p, child), Get(l.prev, child), Get(l.next, child);
            && Get(l'.parent, n) == (if n == child then NULL else Get(l.parent, n))
            && Get(l'.prev, n) == (if n == after != NULL then before else Get(l.prev, n))
            && Get(l'.next, n) == (if n == before != NULL then after else Get(l.next, n))
            && Get(l'.first, n) == (if n == p && child == Get(l.first, p) then after else Get(l.first, n))
            && Get(l'.last, n) == (if n == p && child == Get(l.last, p) then before else Get(l.last, n))
  {
    var before, after := Get(l.prev, child), Get(l.next, child);
    GetUpdate(l.parent, child, NULL, n);
    GetUpdate(l.prev, after, before, n);
    GetUpdate(l.next, before, after, n);
    GetUpdate(l.first, p, after, n);
    GetUpdate(l.last, p, before, n);
  }

  lemma GetUpdate(m: map<Node, Node>, k: Node, v: Node, n: Node)
    ensures Get(m[k := v], n) == if n == k then v else Get(m, n)
  {
  }

  lemma UnlinkedList(l: Links, p: Node, s: seq<Node>, k: nat)
    requires ListOk(l, p, s) && k < |s|
    ensures ListOk(Unlinked(l, p, s[k]), p, RemoveAt(s, k))
  {
    var l', t := Unlinked(l, p, s[k]), RemoveAt(s, k);
    assert LinkedAt(l, p, s, k);
    forall i
      ensures LinkedAt(l', p, t, i)
    {
      if 0 <= i < |t| {
        var j := if i < k then i else i + 1;
        assert t[i] == s[j] && LinkedAt(l, p, s, j);
        UnlinkedEffect(l, p, s[k], t[i]);
      }
    }
    UnlinkedEffect(l, p, s[k], p);
  }

  /** Unlinking takes exactly the child out of its parent's list and leaves all others alone. */
  lemma UnlinkRepresents(l: Links, kids: Kids, p: Node, child: Node) returns (k: nat)
    requires Represents(l, kids) && child != NULL && p != NULL && Get(l.parent, child) == p
    ensures p in kids && k < |kids[p]| && kids[p][k] == child
    ensures Represents(Unlinked(l, p, child), kids[p := RemoveAt(kids[p], k)])
  {
    k := ListMember(l, p, kids[p], child);
    UnlinkedList(l, p, kids[p], k);
    UnlinkedOthers(l, kids, p, k);
    UnlinkedParents(l, kids, p, k);
  }

  lemma UnlinkedOthers(l: Links, kids: Kids, p: Node, k: nat)
    requires Represents(l, kids) && p in kids && k < |kids[p]|
    ensures forall q :: q in kids && q != p ==> ListOk(Unlinked(l, p, kids[p][k]), q, kids[q])
  {
    var s := kids[p];
    var l' := Unlinked(l, p, s[k]);
    assert LinkedAt(l, p, s, k);
    forall q | q in kids && q != p
      ensures ListOk(l', q, kids[q])
    {
      OtherListsDisjoint(l, kids, p, q);
      forall i | 0 <= i < |kids[q]|
        ensures SameAt(l, l', kids[q][i])
      {
        UnlinkedEffect(l, p, s[k], kids[q][i]);
      }
      UnlinkedEffect(l, p, s[k], q);
      ListFrame(l, l', q, kids[q]);
    }
  }

  lemma UnlinkedParents(l: Links, kids: Kids, p: Node, k: nat)
    requires Represents(l, kids) && p in kids && k < |kids[p]|
    ensures var l', kids' := Unlinked(l, p, kids[p][k]), kids[p := RemoveAt(kids[p], k)];
            forall c :: Get(l'.parent, c) != NULL ==> Get(l'.parent, c) in kids' && c in kids'[Get(l'.parent, c)]
  {
    var s := kids[p];
    var l', kids' := Unlinked(l, p, s[k]), kids[p := RemoveAt(s, k)];
    assert LinkedAt(l, p, s, k);
    forall c | Get(l'.parent, c) != NULL
      ensures Get(l'.parent, c) in kids' && c in kids'[Get(l'.parent, c)]
    {
      UnlinkedEffect(l, p, s[k], c);
      if Get(l.parent, c) == p {
        var i := ListMember(l, p, s, c);
        assert c == RemoveAt(s, k)[if i < k then i else i - 1];
      }
    }
  }

  lemma OtherListsDisjoint(l: Links, kids: Kids, p: Node, q: Node)
    requires Represents(l, kids) && p in kids && q in kids && p != q
    ensures forall i, j :: 0 <= i < |kids[p]| && 0 <= j < |kids[q]| ==> kids[p][i] != kids[q][j]
  {
    forall i, j | 0 <= i < |kids[p]| && 0 <= j < |kids[q]|
      ensures kids[p][i] != kids[q][j]
    {
      assert LinkedAt(l, p, kids[p], i) && LinkedAt(l, q, kids[q], j);
    }
  }

  // ---------- inserting ----------

  ghost function InsertAt(s: seq<Node>, k: nat, x: Node): seq<Node>
    requires k <= |s|
  {
    s[..k] + [x] + s[k..]
  }

  /** l' is l with the node x linked in before position k of p's list s. */
  ghost predicate Inserted(l: Links, l': Links, p: Node, s: seq<Node>, k: nat, x: Node)
    requires k <= |s|
  {
    forall n :: InsertedFields(l, l', p, s, k, x, n)
  }

  ghost predicate InsertedFields(l: Links, l': Links, p: Node, s: seq<Node>, k: nat, x: Node, n: Node)
    requires k <= |s|
  {
    var before, after := Before(s, k), After(s, k - 1);
    && Get(l'.parent, n) == (if n == x then p else Get(l.parent, n))
    && Get(l'.prev, n) == (if n == x then before else if n == after != NULL then x else Get(l.prev, n))
    && Get(l'.next, n) == (if n == x then after else if n == before != NULL then x else Get(l.next, n))
    && Get(l'.first, n) == (if n == p && k == 0 then x else Get(l.first, n))
    && Get(l'.last, n) == (if n == p && k == |s| then x else Get(l.last, n))
  }

  /** The neighbours in a list with x inserted at k, told by the list without it. */
  lemma InsertNeighbours(s: seq<Node>, k: nat, x: Node, i: nat)
    requires k <= |s| && i <= |s|
    ensures var t := InsertAt(s, k, x);
            && |t| == |s| + 1
            && (i < k ==> t[i] == s[i] && Before(t, i) == Before(s, i))
            && (i < k ==> After(t, i) == if i + 1 == k then x else After(s, i))
            && (i == k ==> t[i] == x && Before(t, i) == Before(s, k) && After(t, i) == After(s, k - 1))
            && (i > k ==> t[i] == s[i - 1] && After(t, i) == After(s, i - 1))
            && (i > k ==> Before(t, i) == if i - 1 == k then x else Before(s, i - 1))
  {
  }

  lemma InsertedElement(l: Links, l': Links, p: Node, s: seq<Node>, k: nat, x: Node, i: int)
    requires ListOk(l, p, s) && k <= |s| && x !in s && Inserted(l, l', p, s, k, x)
    ensures LinkedAt(l', p, InsertAt(s, k, x), i)
  {
    if 0 <= i <= |s| {
      InsertNeighbours(s, k, x, i);
      assert InsertedFields(l, l', p, s, k, x, InsertAt(s, k, x)[i]);
      if i != k {
        assert LinkedAt(l, p, s, if i < k then i else i - 1);
      }
    }
  }

  lemma InsertedList(l: Links, l': Links, p: Node, s: seq<Node>, k: nat, x: Node)
    requires ListOk(l, p, s) && k <= |s| && x != NULL && x !in s && Inserted(l, l', p, s, k, x)
    ensures ListOk(l', p, InsertAt(s, k, x))
  {
    forall i
      ensures LinkedAt(l', p, InsertAt(s, k, x), i)
    {
      InsertedElement(l, l', p, s, k, x, i);
    }
    assert InsertedFields(l, l', p, s, k, x, p);
  }

  /** Linking a node without a parent puts it at position k of p's list and leaves all other
      lists alone. */
  lemma InsertRepresents(l: Links, l': Links, kids: Kids, p: Node, k: nat, x: Node)
    requires Represents(l, kids) && p in kids && k <= |kids[p]| && x != NULL && Get(l.parent, x) == NULL
    requires Inserted(l, l', p, kids[p], k, x)
    ensures Represents(l', kids[p := InsertAt(kids[p], k, x)])
  {
    var s := kids[p];
    var kids' := kids[p := InsertAt(s, k, x)];
    Orphan(l, kids, p, x);
    InsertedList(l, l', p, s, k, x);
    forall q | q in kids && q != p
      ensures ListOk(l', q, kids[q])
    {
      InsertedOther(l, l', kids, p, k, x, q);
    }
    forall c | Get(l'.parent, c) != NULL
      ensures Get(l'.parent, c) in kids' && c in kids'[Get(l'.parent, c)]
    {
      assert InsertedFields(l, l', p, s, k, x, c);
      if c == x {
        assert InsertAt(s, k, x)[k] == x;
      } else if Get(l.parent, c) == p {
        var i := ListMember(l, p, s, c);
        assert InsertAt(s, k, x)[if i < k then i else i + 1] == c;
      }
    }
  }

  lemma Orphan(l: Links, kids: Kids, p: Node, x: Node)
    requires Represents(l, kids) && p in kids && Get(l.parent, x) == NULL
    ensures x !in kids[p]
  {
    if x in kids[p] {
      var k := ListMember(l, p, kids[p], x);
      assert false;
    }
  }

  lemma InsertedOther(l: Links, l': Links, kids: Kids, p: Node, k: nat, x: Node, q: Node)
    requires Represents(l, kids) && p in kids && k <= |kids[p]| && x != NULL && Get(l.parent, x) == NULL
    requires Inserted(l, l', p, kids[p], k, x) && q in kids && q != p
    ensures ListOk(l', q, kids[q])
  {
    OtherListsDisjoint(l, kids, p, q);
    Orphan(l, kids, q, x);
    forall i | 0 <= i < |kids[q]|
      ensures SameAt(l, l', kids[q][i])
    {
      assert InsertedFields(l, l', p, kids[p], k, x, kids[q][i]);
    }
    assert InsertedFields(l, l', p, kids[p], k, x, q);
    ListFrame(l, l', q, kids[q]);
  }

  function LinkedLast(l: Links, p: Node, x: Node): Links {
    var l1 :=
      if Get(l.last, p) != NULL then
        var last := Get(l.last, p);
        l.(next := l.next[last := x][x := NULL], prev := l.prev[x := last], last := l.last[p := x])
      else
        l.(first := l.first[p := x], last := l.last[p := x], prev := l.prev[x := NULL], next := l.next[x := NULL]);
    l1.(parent := l1.parent[x := p])
  }

  function LinkedFirst(l: Links, p: Node, x: Node): Links {
    var l1 :=
      if Get(l.first, p) != NULL then
        var first := Get(l.first, p);
        l.(prev := l.prev[first := x][x := NULL], next := l.next[x := first], first := l.first[p := x])
      else
        l.(first := l.first[p := x], last := l.last[p := x], prev := l.prev[x := NULL], next := l.next[x := NULL]);
    l1.(parent := l1.parent[x := p])
  }

  function LinkedAfter(l: Links, p: Node, after: Node, x: Node): Links {
    var following := Get(l.next, after);
    l.(prev := l.prev[x := after][following := x], next := l.next[x := following][after := x],
      parent := l.parent[x := p])
  }

  lemma LinkedLastInserts(l: Links, p: Node, s: seq<Node>, x: Node)
    requires ListOk(l, p, s) && x != NULL && x !in s
    ensures Inserted(l, LinkedLast(l, p, x), p, s, |s|, x)
  {
    forall n
      ensures InsertedFields(l, LinkedLast(l, p, x), p, s, |s|, x, n)
    {
      LinkedLastFields(l, p, s, x, n);
    }
  }

  lemma LinkedLastFields(l: Links, p: Node, s: seq<Node>, x: Node, n: Node)
    requires ListOk(l, p, s) && x != NULL && x !in s
    ensures InsertedFields(l, LinkedLast(l, p, x), p, s, |s|, x, n)
  {
    var other := Get(l.last, p);
    GetUpdate(l.parent, x, p, n);
    GetUpdate(l.first, p, x, n);
    GetUpdate(l.last, p, x, n);
    GetUpdate(l.next, x, NULL, n);
    GetUpdate(l.prev, x, NULL, n);
    GetUpdate(l.next, x, other, n);
    GetUpdate(l.prev, x, other, n);
    GetUpdate(l.next[other := x], x, NULL, n);
    GetUpdate(l.prev[other := x], x, NULL, n);
    GetUpdate(l.next, other, x, n);
    GetUpdate(l.prev, other, x, n);
  }

  lemma LinkedFirstInserts(l: Links, p: Node, s: seq<Node>, x: Node)
    requires ListOk(l, p, s) && x != NULL && x !in s
    ensures Inserted(l, LinkedFirst(l, p, x), p, s, 0, x)
  {
    forall n
      ensures InsertedFields(l, LinkedFirst(l, p, x), p, s, 0, x, n)
    {
      LinkedFirstFields(l, p, s, x, n);
    }
  }

  lemma LinkedFirstFields(l: Links, p: Node, s: seq<Node>, x: Node, n: Node)
    requires ListOk(l, p, s) && x != NULL && x !in s
    ensures InsertedFields(l, LinkedFirst(l, p, x), p, s, 0, x, n)
  {
    var other := Get(l.first, p);
    GetUpdate(l.parent, x, p, n);
    GetUpdate(l.first, p, x, n);
    GetUpdate(l.last, p, x, n);
    GetUpdate(l.next, x, NULL, n);
    GetUpdate(l.prev, x, NULL, n);
    GetUpdate(l.next, x, other, n);
    GetUpdate(l.prev, x, other, n);
    GetUpdate(l.next[other := x], x, NULL, n);
    GetUpdate(l.prev[other := x], x, NULL, n);
    GetUpdate(l.next, other, x, n);
    GetUpdate(l.prev, other, x, n);
  }

  lemma LinkedAfterInserts(l: Links, p: Node, s: seq<Node>, k: nat, x: Node)
    requires ListOk(l, p, s) && x != NULL && x !in s && k + 1 < |s|
    ensures Inserted(l, LinkedAfter(l, p, s[k], x), p, s, k + 1, x)
  {
    assert LinkedAt(l, p, s, k);
  }

  // ---------- when inserting behind a child goes wrong ----------

  /** The source writes through after->_next after unlinking x, so x must not be what that pointer
      relied on: when x is already a child of p it may not be `after` itself, nor the last child
      right behind it, unless `after` is the last child, where the call is InsertEndChild. */
  predicate InsertAfterSafe(l: Links, p: Node, after: Node, x: Node) {
    Get(l.parent, after) == p == Get(l.parent, x) && Get(l.next, after) != NULL
    ==> x != after && (Get(l.next, after) == x ==> Get(l.next, x) != NULL)
  }

  /** The other calls all fail: a node put behind itself is linked to itself, so the fields represent
      no child lists at all, and the last child put behind its neighbour is written through a null
      pointer. */
  lemma UnsafeInsertFails(l: Links, kids: Kids, p: Node, after: Node, x: Node)
    requires Represents(l, kids) && p in kids && after != NULL && x != NULL && !InsertAfterSafe(l, p, after, x)
    ensures x == after ==> forall k :: !Represents(LinkedAfter(Unlinked(l, p, x), p, after, x), k)
    ensures x != after ==> Get(Unlinked(l, p, x).next, after) == NULL
  {
    if x == after {
      forall k
        ensures !Represents(LinkedAfter(Unlinked(l, p, x), p, after, x), k)
      {
        SelfLinked(LinkedAfter(Unlinked(l, p, x), p, after, x), k, p, x);
      }
    } else {
      var i := ListMember(l, p, kids[p], after);
      var j := ListMember(l, p, kids[p], x);
      UnlinkedEffect(l, p, x, after);
    }
  }

  lemma SelfLinked(l: Links, kids: Kids, p: Node, x: Node)
    requires p != NULL && x != NULL && Get(l.parent, x) == p && Get(l.next, x) == x
    ensures !Represents(l, kids)
  {
    if Represents(l, kids) {
      var k := ListMember(l, p, kids[p], x);
      assert false;
    }
  }

  // ---------- the operations ----------

  ghost function Without(s: seq<Node>, x: Node): seq<Node> {
    if x in s then
      var k :| 0 <= k < |s| && s[k] == x;
      RemoveAt(s, k)
    else s
  }

  /** x taken out of whatever list it is in. */
  ghost function Detached(kids: Kids, x: Node): Kids {
    map q | q in kids :: Without(kids[q], x)
  }

  lemma DetachedFromParent(l: Links, kids: Kids, p: Node, k: nat)
    requires Represents(l, kids) && p in kids && k < |kids[p]|
    ensures Detached(kids, kids[p][k]) == kids[p := RemoveAt(kids[p], k)]
  {
    var x := kids[p][k];
    forall q | q in kids && q != p
      ensures Without(kids[q], x) == kids[q]
    {
      OtherListsDisjoint(l, kids, p, q);
    }
  }

  lemma DetachedOrphan(l: Links, kids: Kids, x: Node)
    requires Represents(l, kids) && Get(l.parent, x) == NULL
    ensures Detached(kids, x) == kids
  {
    forall q | q in kids
      ensures Without(kids[q], x) == kids[q]
    {
      Orphan(l, kids, q, x);
    }
  }

  /** x placed right behind `after`, or at the end when `after` is no longer there. */
  ghost function PutAfter(s: seq<Node>, after: Node, x: Node): seq<Node> {
    if after in s then
      var k :| 0 <= k < |s| && s[k] == after;
      InsertAt(s, k + 1, x)
    else s + [x]
  }

  lemma PutAfterAt(s: seq<Node>, k: nat, x: Node)
    requires Distinct(s) && k < |s|
    ensures PutAfter(s, s[k], x) == InsertAt(s, k + 1, x)
  {
  }

  lemma WithoutCases(s: seq<Node>, x: Node) returns (j: nat)
    requires Distinct(s)
    ensures if x in s then j < |s| && s[j] == x && Without(s, x) == RemoveAt(s, j) else Without(s, x) == s
  {
    if x in s {
      j :| 0 <= j < |s| && s[j] == x;
    } else {
      j := 0;
    }
  }

  lemma LastStaysLast(l: Links, kids: Kids, p: Node, i: nat, x: Node)
    requires Represents(l, kids) && p in kids && i == |kids[p]| - 1
    ensures PutAfter(Without(kids[p], x), kids[p][i], x) == Without(kids[p], x) + [x]
  {
    var s := kids[p];
    var j := WithoutCases(s, x);
    var t := Without(s, x);
    if x != s[i] {
      assert t[|t| - 1] == s[i];
      PutAfterLast(t, x);
    }
  }

  lemma PutAfterLast(t: seq<Node>, x: Node)
    requires Distinct(t) && t != []
    ensures PutAfter(t, t[|t| - 1], x) == t + [x]
  {
    PutAfterAt(t, |t| - 1, x);
    assert InsertAt(t, |t|, x) == t + [x];
  }

  lemma NeighbourStays(l: Links, kids: Kids, p: Node, i: nat, x: Node) returns (k: nat)
    requires Represents(l, kids) && p in kids && i + 1 < |kids[p]|
    requires x in kids[p] ==> x != kids[p][i] && (kids[p][i + 1] == x ==> i + 2 < |kids[p]|)
    ensures var t := Without(kids[p], x); k + 1 < |t| && t[k] == kids[p][i]
  {
    var j := WithoutCases(kids[p], x);
    k := if x in kids[p] && j < i then i - 1 else i;
  }

  class Document {
    var links: Links
    ghost var kids: Kids  // the child sequence of every node of this document

    ghost predicate Valid()
      reads this
    {
      Represents(links, kids)
    }

    constructor ()
      ensures Valid() && kids == map[]
    {
      links := Links(map[], map[], map[], map[], map[]);
      kids := map[];
    }

    /** XMLNode's constructor: a node with no parent and no children. */
    method NewNode(n: Node)
      requires Valid() && n != NULL && n !in kids && Get(links.parent, n) == NULL
      modifies this
      ensures Valid() && kids == old(kids)[n := []]
    {
      links := Fresh(links, n);
      kids := kids[n := []];
      NewNodeRepresents(old(links), old(kids), n);
    }

    method Unlink(p: Node, child: Node)
      requires Valid() && child != NULL && p != NULL && Get(links.parent, child) == p
      modifies this
      ensures Valid() && kids == Detached(old(kids), child) && links == Unlinked(old(links), p, child)
    {
      ghost var k := UnlinkRepresents(links, kids, p, child);
      DetachedFromParent(links, kids, p, k);
      ghost var i := ListMember(links, p, kids[p], child);
      if child == Get(links.first, p) {
        links := links.(first := links.first[p := Get(links.next, Get(links.first, p))]);
      }
      if child == Get(links.last, p) {
        links := links.(last := links.last[p := Get(links.prev, Get(links.last, p))]);
      }
      if Get(links.prev, child) != NULL {
        links := links.(next := links.next[Get(links.prev, child) := Get(links.next, child)]);
      }
      if Get(links.next, child) != NULL {
        links := links.(prev := links.prev[Get(links.next, child) := Get(links.prev, child)]);
      }
      links := links.(parent := links.parent[child := NULL]);
      kids := kids[p := RemoveAt(kids[p], k)];
    }

    /** InsertChildPreamble: a node that has a parent is unlinked from it first. */
    method Preamble(x: Node)
      requires Valid() && x != NULL
      modifies this
      ensures Valid() && kids == Detached(old(kids), x) && Get(links.parent, x) == NULL
    {
      if Get(links.parent, x) != NULL {
        Unlink(Get(links.parent, x), x);
      } else {
        DetachedOrphan(links, kids, x);
      }
    }

    method InsertEndChild(p: Node, x: Node)
      requires Valid() && p in kids && x in kids
      modifies this
      ensures Valid()
      ensures var d := Detached(old(kids), x); kids == d[p := d[p] + [x]]
    {
      Preamble(x);
      ghost var s := kids[p];
      Orphan(links, kids, p, x);
      LinkedLastInserts(links, p, s, x);
      InsertRepresents(links, LinkedLast(links, p, x), kids, p, |s|, x);
      assert InsertAt(s, |s|, x) == s + [x];
      links := LinkedLast(links, p, x);
      kids := kids[p := s + [x]];
    }

    /** InsertAfterChild: refused when `after` is not a child of p. */
    method InsertAfterChild(p: Node, after: Node, x: Node) returns (ok: bool)
      requires Valid() && p in kids && x in kids && after != NULL
      requires InsertAfterSafe(links, p, after, x)
      modifies this
      ensures Valid() && (ok <==> Get(old(links).parent, after) == p)
      ensures !ok ==> kids == old(kids)
      ensures ok ==> var d := Detached(old(kids), x); kids == d[p := PutAfter(d[p], after, x)]
    {
      if Get(links.parent, after) != p {
        return false;
      }
      ghost var i := ListMember(links, p, kids[p], after);
      if Get(links.next, after) == NULL {
        LastStaysLast(links, kids, p, i, x);
        InsertEndChild(p, x);
        return true;
      }
      if x in kids[p] {
        ghost var _ := ListMember(links, p, kids[p], x);
      }
      ghost var k := NeighbourStays(links, kids, p, i, x);
      Preamble(x);
      LinkBehind(p, after, x, k);
      return true;
    }

    method LinkBehind(p: Node, after: Node, x: Node, ghost k: nat)
      requires Valid() && p in kids && k + 1 < |kids[p]| && kids[p][k] == after
      requires x != NULL && Get(links.parent, x) == NULL
      modifies this
      ensures Valid() && kids == old(kids)[p := PutAfter(old(kids)[p], after, x)]
    {
      Orphan(links, kids, p, x);
      LinkedAfterInserts(links, p, kids[p], k, x);
      InsertRepresents(links, LinkedAfter(links, p, after, x), kids, p, k + 1, x);
      PutAfterAt(kids[p], k, x);
      links := LinkedAfter(links, p, after, x);
      kids := kids[p := InsertAt(kids[p], k + 1, x)];
    }

    /** for (node = _firstChild; node; node = node->_next) visits the children in order. */
    method Forward(p: Node) returns (seen: seq<Node>)
      requires Valid() && p in kids
      ensures seen == kids[p]
    {
      seen := [];
      var node := Get(links.first, p);
      while node != NULL
        invariant |seen| <= |kids[p]| && seen == kids[p][..|seen|]
        invariant node == After(kids[p], |seen| - 1)
        decreases |kids[p]| - |seen|
      {
        assert LinkedAt(links, p, kids[p], |seen|);
        seen := seen + [node];
        node := Get(links.next, node);
      }
    }

    /** for (node = _lastChild; node; node = node->_prev) visits them in reverse. */
    method Backward(p: Node) returns (seen: seq<Node>)
      requires Valid() && p in kids
      ensures |seen| == |kids[p]| && forall i :: 0 <= i < |seen| ==> seen[i] == kids[p][|seen| - 1 - i]
    {
      seen := [];
      var node := Get(links.last, p);
      while node != NULL
        invariant |seen| <= |kids[p]| && forall i :: 0 <= i < |seen| ==> seen[i] == kids[p][|kids[p]| - 1 - i]
        invariant node == Before(kids[p], |kids[p]| - |seen|)
        decreases |kids[p]| - |seen|
      {
        assert LinkedAt(links, p, kids[p], |kids[p]| - 1 - |seen|);
        seen := seen + [node];
        node := Get(links.prev, node);
      }
    }

    method InsertFirstChild(p: Node, x: Node)
      requires Valid() && p in kids && x in kids
      modifies this
      ensures Valid()
      ensures var d := Detached(old(kids), x); kids == d[p := [x] + d[p]]
    {
      Preamble(x);
      ghost var s := kids[p];
      Orphan(links, kids, p, x);
      LinkedFirstInserts(links, p, s, x);
      InsertRepresents(links, LinkedFirst(links, p, x), kids, p, 0, x);
      assert InsertAt(s, 0, x) == [x] + s;
      links := LinkedFirst(links, p, x);
      kids := kids[p := [x] + s];
    }
  }

  /** A new node's own links are null. */
  function Fresh(l: Links, n: Node): Links {
    l.(first := l.first[n := NULL], last := l.last[n := NULL], prev := l.prev[n := NULL], next := l.next[n := NULL])
  }

  lemma NewNodeRepresents(l: Links, kids: Kids, n: Node)
    requires Represents(l, kids) && n != NULL && n !in kids && Get(l.parent, n) == NULL
    ensures Represents(Fresh(l, n), kids[n := []])
  {
    var l' := Fresh(l, n);
    forall p | p in kids
      ensures ListOk(l', p, kids[p])
    {
      Orphan(l, kids, p, n);
      ListFrame(l, l', p, kids[p]);
    }
  }
}
