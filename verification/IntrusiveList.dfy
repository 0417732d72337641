/**
  The intrusive doubly linked lists of libco (stTimeoutItem_t on stTimeoutItemLink_t),
  proved to refine sequences of nodes.

  A node carries its own links and a pointer to the list that owns it, so it is on
  at most one list, and different lists never share a node.
 */
module IntrusiveList {

  /** stTimeoutItem_t: the links, the deadline that the timing wheel files it under, and a name for it. */
  class Node {
    var prev: Node?
    var next: Node?
    var link: List?
    const expire: nat
    const id: int

    constructor (id: int, expire: nat)
      ensures link == null && this.id == id && this.expire == expire
    {
      prev, next, link := null, null, null;
      this.id, this.expire := id, expire;
    }
  }

  /** The neighbours of position `i`; there is none before the first or after the last. */
  ghost function Before(s: seq<Node>, i: int): Node?
    requires 0 <= i < |s|
  {
    if i == 0 then null else s[i - 1]
  }

  ghost function After(s: seq<Node>, i: int): Node?
    requires 0 <= i < |s|
  {
    if i == |s| - 1 then null else s[i + 1]
  }

  /** The nodes of `s` are chained to each other and owned by `list`. */
  ghost predicate Chain(list: List, s: seq<Node>)
    reads s
  {
    && (forall k {:trigger s[k].link} | 0 <= k < |s| :: s[k].link == list)
    && (forall k {:trigger s[k].prev} | 0 <= k < |s| :: s[k].prev == Before(s, k))
    && (forall k {:trigger s[k].next} | 0 <= k < |s| :: s[k].next == After(s, k))
  }

  /** stTimeoutItemLink_t. */
  class List {
    var head: Node?
    var tail: Node?

    /** The nodes from head to tail. */
    ghost var contents: seq<Node>

    ghost predicate Valid()
      reads this, contents
    {
      && (if contents == [] then head == null && tail == null
          else head == contents[0] && tail == contents[|contents| - 1])
      && Chain(this, contents)
    }

    constructor ()
      ensures Valid() && contents == []
    {
      head, tail, contents := null, null, [];
    }
  }

  /** No node belongs to two valid lists. */
  lemma ListsAreDisjoint(a: List, b: List)
    requires a.Valid() && b.Valid() && a != b
    ensures forall n :: n in a.contents ==> n !in b.contents
  {
    forall n | n in a.contents
      ensures n !in b.contents
    {
      assert n.link == a;
    }
  }

  /** A list stays valid while it and its nodes are left alone. */
  twostate lemma StaysValid(list: List)
    requires old(list.Valid()) && unchanged(list)
    requires forall node <- list.contents :: unchanged(node)
    ensures list.Valid()
  {
    var s := list.contents;
    forall k | 0 <= k < |s|
      ensures unchanged(s[k])
    {
      assert s[k] in s;
    }
  }

  /** The links alone make a node's position unique: equal nodes have equal predecessors, down to the head. */
  lemma {:induction false} PositionIsUnique(list: List, i: nat, j: nat)
    requires list.Valid() && i <= j < |list.contents| && list.contents[i] == list.contents[j]
    ensures i == j
  {
    var s := list.contents;
    assert s[i].prev == Before(s, i) && s[j].prev == Before(s, j);
    if i == 0 {
    } else {
      PositionIsUnique(list, i - 1, j - 1);
    }
  }

  /** PositionIsUnique for one position against all others. */
  lemma OnlyAt(list: List, i: nat)
    requires list.Valid() && i < |list.contents|
    ensures forall k | 0 <= k < |list.contents| && k != i :: list.contents[k] != list.contents[i]
  {
    forall k: nat | k < |list.contents| && list.contents[k] == list.contents[i]
      ensures k == i
    {
      PositionIsUnique(list, if k < i then k else i, if k < i then i else k);
    }
  }

  /** AddTail: append, unless the node already is on some list. */
  method AddTail(list: List, node: Node)
    requires list.Valid()
    modifies list, list.tail, node
    ensures list.Valid()
    ensures list.contents == old(list.contents) + if old(node.link) == null then [node] else []
    ensures node.link == if old(node.link) == null then list else old(node.link)
    ensures old(node.link) != null ==> unchanged(list) && unchanged(list.contents) && unchanged(node)
  {
    if node.link != null {
      return;
    }
    assert node !in list.contents;
    if list.contents != [] {
      OnlyAt(list, |list.contents| - 1);
    }
    if list.tail != null {
      list.tail.next := node;
      node.next := null;
      node.prev := list.tail;
      list.tail := node;
    } else {
      list.head := node;
      list.tail := node;
      node.next := null;
      node.prev := null;
    }
    node.link := list;
    list.contents := list.contents + [node];
  }

  /** PopHead: drop the first node, if there is one. */
  method PopHead(list: List)
    requires list.Valid()
    modifies list, list.contents
    ensures list.Valid()
    ensures list.contents == if old(list.contents) == [] then [] else old(list.contents)[1..]
    ensures old(list.contents) != [] ==> old(list.head).link == null
    ensures forall n :: n in old(list.contents) && n != old(list.head) ==> n.link == list
  {
    if list.head == null {
      return;
    }
    ghost var before := list.contents;
    OnlyAt(list, 0);
    if |before| > 1 {
      OnlyAt(list, 1);
    }
    var node := list.head;
    if list.head == list.tail {
      list.head := null;
      list.tail := null;
    } else {
      list.head := list.head.next;
    }
    node.prev := null;
    node.next := null;
    node.link := null;
    if list.head != null {
      list.head.prev := null;
    }
    list.contents := before[1..];
  }

  /** A list whose links bypass position `i` of `s` is the list without that position. */
  lemma Bridged(list: List, s: seq<Node>, i: int)
    requires 0 <= i < |s| && list.contents == s[..i] + s[i + 1..]
    requires list.head == (if i == 0 then After(s, 0) else s[0])
    requires list.tail == (if i == |s| - 1 then Before(s, i) else s[|s| - 1])
    requires forall k {:trigger s[k].link} | 0 <= k < |s| && k != i :: s[k].link == list
    requires forall k {:trigger s[k].prev} | 0 <= k < |s| && k != i ::
               s[k].prev == if k == i + 1 then Before(s, i) else Before(s, k)
    requires forall k {:trigger s[k].next} | 0 <= k < |s| && k != i ::
               s[k].next == if k == i - 1 then After(s, i) else After(s, k)
    ensures list.Valid()
  {
    var t := list.contents;
    forall k | 0 <= k < |t|
      ensures t[k].link == list && t[k].prev == Before(t, k) && t[k].next == After(t, k)
    {
      assert t[k] == s[if k < i then k else k + 1];
    }
  }

  /** RemoveFromLink: take the node off the list that owns it, wherever it stands in it. */
  method RemoveFromLink(node: Node)
    requires node.link != null ==> node.link.Valid() && node in node.link.contents
    modifies node, node.link, if node.link == null then [] else node.link.contents
    ensures node.link == null
    ensures old(node.link) == null ==> unchanged(node)
    ensures old(node.link) != null ==>
              old(node.link).Valid() && exists i ::
                && 0 <= i < |old(node.link.contents)| && old(node.link.contents)[i] == node
                && old(node.link).contents == old(node.link.contents)[..i] + old(node.link.contents)[i + 1..]
  {
    var list := node.link;
    if list == null {
      return;
    }
    ghost var s := list.contents;
    ghost var i :| 0 <= i < |s| && s[i] == node;
    OnlyAt(list, i);
    if i > 0 {
      OnlyAt(list, i - 1);
    }
    if i < |s| - 1 {
      OnlyAt(list, i + 1);
    }
    if node == list.head {
      list.head := node.next;
      if list.head != null {
        list.head.prev := null;
      }
    } else if node.prev != null {
      node.prev.next := node.next;
    }
    if node == list.tail {
      list.tail := node.prev;
      if list.tail != null {
        list.tail.next := null;
      }
    } else {
      node.next.prev := node.prev;
    }
    node.prev := null;
    node.next := null;
    node.link := null;
    list.contents := s[..i] + s[i + 1..];
    Bridged(list, s, i);
  }

  /** The loop of Join: every node of `other` gets a new owner, and nothing else changes. */
  method Adopt(list: List, other: List)
    requires other.Valid() && list != other
    modifies other.contents`link
    ensures forall n :: n in other.contents ==> n.link == list
  {
    ghost var t := other.contents;
    var node := other.head;
    ghost var i := 0;
    while node != null
      invariant 0 <= i <= |t|
      invariant node == if i < |t| then t[i] else null
      invariant forall k {:trigger t[k].next} | 0 <= k < |t| :: t[k].next == After(t, k)
      invariant forall k | 0 <= k < i :: t[k].link == list
      decreases |t| - i
    {
      node.link := list;
      node := node.next;
      i := i + 1;
    }
  }

  /** The end of Join: tie the two chains together. */
  method Tie(list: List, other: List, ghost s: seq<Node>, ghost t: seq<Node>)
    requires list != other && t != [] && Chain(list, s) && Chain(list, t)
    requires list.tail == if s == [] then null else s[|s| - 1]
    requires s != [] ==> list.head == s[0]
    requires other.head == t[0] && other.tail == t[|t| - 1]
    requires forall k | 0 <= k < |s| - 1 :: s[k] != s[|s| - 1]
    requires forall k | 1 <= k < |t| :: t[k] != t[0]
    requires forall k | 0 <= k < |s| :: s[k] != t[0]
    requires s != [] ==> forall k | 0 <= k < |t| :: t[k] != s[|s| - 1]
    modifies list, other, list.tail, t[0]
    ensures list.Valid() && other.Valid() && list.contents == s + t && other.contents == []
  {
    var node := other.head;
    if list.tail != null {
      list.tail.next := node;
      node.prev := list.tail;
      list.tail := other.tail;
    } else {
      list.head := other.head;
      list.tail := other.tail;
    }
    other.head := null;
    other.tail := null;
    list.contents := s + t;
    other.contents := [];
    Spliced(list, s, t);
  }

  /** Join: move every node of `other` to the end of `list`. */
  method Join(list: List, other: List)
    requires list.Valid() && other.Valid() && list != other
    modifies list, other, list.tail, other.contents
    ensures list.Valid() && other.Valid()
    ensures list.contents == old(list.contents) + old(other.contents) && other.contents == []
  {
    if other.head == null {
      return;
    }
    ghost var s, t := list.contents, other.contents;
    ListsAreDisjoint(list, other);
    OnlyAt(other, 0);
    if s != [] {
      OnlyAt(list, |s| - 1);
    }
    assert forall k | 0 <= k < |s| :: s[k] in s;
    assert forall k | 0 <= k < |t| :: t[k] in t;
    Adopt(list, other);
    Tie(list, other, s, t);
  }

  /** Two chains of links whose ends have been tied together are one chain. */
  lemma Spliced(list: List, s: seq<Node>, t: seq<Node>)
    requires t != [] && list.contents == s + t
    requires list.head == (s + t)[0] && list.tail == t[|t| - 1]
    requires forall k | 0 <= k < |s| :: s[k].link == list && s[k].prev == Before(s, k)
                                        && s[k].next == if k == |s| - 1 then t[0] else After(s, k)
    requires forall k | 0 <= k < |t| :: t[k].link == list && t[k].next == After(t, k)
                                        && t[k].prev == if k == 0 && s != [] then s[|s| - 1] else Before(t, k)
    ensures list.Valid()
  {
    var u := list.contents;
    forall k | 0 <= k < |u|
      ensures u[k].link == list && u[k].prev == Before(u, k) && u[k].next == After(u, k)
    {
      if k < |s| {
        assert u[k] == s[k];
      } else {
        assert u[k] == t[k - |s|];
      }
    }
  }
}
