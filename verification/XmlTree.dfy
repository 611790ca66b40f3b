/** The nodes of a TinyXML document: child lists linked through the nodes themselves, insertion, removal and
    replacement in them, and deep copies. */
module XmlTree {
  import XmlAttributes
  import opened Slices

  /** What a node is, with what its kind adds to every node. */
  datatype Kind =
    | Document(tabsize: int, microsoftBom: bool, errorId: int)
    | Element(attributes: seq<XmlAttributes.Pair>)
    | Comment
    | Unknown
    | Text(cdata: bool)
    | Declaration(version: string, encoding: string, standalone: string)

  datatype Info = Info(value: string, userData: int, row: int, column: int)

  // ---------------------------------------------------------------- snapshots of the nodes

  /** What the fields of a node hold. */
  datatype Record = Record(
    kind: Kind, info: Info, kids: seq<Node>,
    parent: Node?, firstChild: Node?, lastChild: Node?, prev: Node?, next: Node?)

  type View = map<Node, Record>

  ghost function Snapped(s: set<Node>): (v: View)
    reads s
    ensures v.Keys == s
  {
    map n | n in s :: Record(n.kind, n.info, n.children, n.parent, n.firstChild, n.lastChild, n.prev, n.next)
  }

  function KidOrNull(c: seq<Node>, i: int): Node? {
    if 0 <= i < |c| then c[i] else null
  }

  /** The i-th child of p points at p and at its neighbours. A document is never a child. */
  ghost predicate KidOk(v: View, p: Node, i: nat) {
    && p in v && i < |v[p].kids|
    && var c := v[p].kids;
       && c[i] in v && !v[c[i]].kind.Document?
       && v[c[i]].parent == p && v[c[i]].prev == KidOrNull(c, i - 1) && v[c[i]].next == KidOrNull(c, i + 1)
  }

  /** The child list of p, by its links and its two ends. */
  ghost predicate ListOk(v: View, p: Node) {
    && p in v
    && var c := v[p].kids;
       && v[p].firstChild == KidOrNull(c, 0) && v[p].lastChild == KidOrNull(c, |c| - 1)
       && (forall i, j :: 0 <= i < j < |c| ==> c[i] != c[j])
       && (forall i: nat {:trigger KidOk(v, p, i)} :: i < |c| ==> KidOk(v, p, i))
  }

  /** A node with a parent is one of its parent's children. */
  ghost predicate Rooted(v: View, n: Node) {
    n in v && (v[n].parent != null ==> v[n].parent in v && n in v[v[n].parent].kids)
  }

  /** All child lists are in order, and every node but loose is on its parent's list. */
  ghost predicate Forest(v: View, loose: Node?) {
    && (forall p {:trigger ListOk(v, p)} :: p in v ==> ListOk(v, p))
    && (forall n {:trigger Rooted(v, n)} :: n in v && n != loose ==> Rooted(v, n))
  }

  class Node {
    var kind: Kind
    var info: Info
    var parent: Node?
    var firstChild: Node?
    var lastChild: Node?
    var prev: Node?
    var next: Node?
    ghost var children: seq<Node>

    constructor (kind: Kind, info: Info)
      ensures this.kind == kind && this.info == info && children == []
      ensures parent == null && firstChild == null && lastChild == null && prev == null && next == null
    {
      this.kind, this.info, children := kind, info, [];
      parent, firstChild, lastChild, prev, next := null, null, null, null, null;
    }

    method SetParent(n: Node?, ghost live: set<Node>)
      requires this in live
      modifies this`parent
      ensures parent == n && Snapped(live) == Put(old(Snapped(live)), this, ParentTo(n))
    {
      parent := n;
    }

    method SetFirst(n: Node?, ghost live: set<Node>)
      requires this in live
      modifies this`firstChild
      ensures firstChild == n && Snapped(live) == Put(old(Snapped(live)), this, FirstTo(n))
    {
      firstChild := n;
    }

    method SetLast(n: Node?, ghost live: set<Node>)
      requires this in live
      modifies this`lastChild
      ensures lastChild == n && Snapped(live) == Put(old(Snapped(live)), this, LastTo(n))
    {
      lastChild := n;
    }

    method SetPrev(n: Node?, ghost live: set<Node>)
      requires this in live
      modifies this`prev
      ensures prev == n && Snapped(live) == Put(old(Snapped(live)), this, PrevTo(n))
    {
      prev := n;
    }

    method SetNext(n: Node?, ghost live: set<Node>)
      requires this in live
      modifies this`next
      ensures next == n && Snapped(live) == Put(old(Snapped(live)), this, NextTo(n))
    {
      next := n;
    }

    ghost method SetKids(c: seq<Node>, live: set<Node>)
      requires this in live
      modifies this`children
      ensures Snapped(live) == Put(old(Snapped(live)), this, KidsTo(c))
    {
      children := c;
    }

    /** LinkEndChild. The node is on no list yet; a parser may already have set its parent. A document is
        deleted with everything below it, which takes this node along. Another node becomes the last child,
        and this node then holds its tree exactly when this node was not below it. */
    method LinkEndChild(node: Node, ghost live: set<Node>, ghost s: Tree, ghost t: Tree)
      returns (r: Node?, ghost live': set<Node>)
      requires this in live && node in live && Forest(Snapped(live), node)
      requires LinkAllowed(Snapped(live), this, node)
      requires if node.kind.Document? then Holds(Snapped(live), node, t) else node != this && node !in children
      modifies live
      ensures if old(node.kind).Document?
              then r == null && live' == live - old(Below(Snapped(live), node, t)) && this !in live'
                   && Snapped(live) == old(Snapped(live)) && Forest(Snapped(live'), null)
              else r == node && live' == live && children == old(children) + [node]
                   && Snapped(live) == old(InsertedAt(Snapped(live), this, |children|, node))
                   && Forest(Snapped(live), null)
      ensures r == node && old(Holds(Snapped(live), this, s)) && old(Holds(Snapped(live), node, t)) ==>
                (Holds(Snapped(live), this, s.(kids := s.kids + [t])) <==> !old(Under(Snapped(live), node, t, this)))
    {
      hide Snapped, Forest, ListOk, InsertedAt, EndWrites, Holds, Under, LinkAllowed;
      ghost var v := Snapped(live);
      SnapAt(live, this);
      SnapAt(live, node);
      if node.kind.Document? {
        DocumentGone(v, this, node, t);
        live' := live - Below(v, node, t);
        SnapCut(live, Below(v, node, t));
        return null, live';
      }
      AllowedParent(v, this, node);
      ListAt(v, node, this);
      InsertOk(v, this, |children|, node);
      EndWritten(v, this, node);
      EndLinks(node, live);
      SnapAt(live, this);
      InsertedFields(v, this, |v[this].kids|, node);
      AtEnd(v[this].kids, node);
      if Holds(v, this, s) && Holds(v, node, t) {
        LinkedTree(v, Snapped(live), this, node, s, t);
      }
      return node, live;
    }

    method EndLinks(node: Node, ghost live: set<Node>)
      requires this in live && node in live && (lastChild != null ==> lastChild in live)
      requires Snapped(live)[this].lastChild == lastChild
      modifies live
      ensures Snapped(live) == old(EndWrites(Snapped(live), this, node, children + [node]))
    {
      ghost var c := children + [node];
      hide Snapped;
      node.SetParent(this, live);
      node.SetPrev(lastChild, live);
      node.SetNext(null, live);
      if lastChild != null {
        lastChild.SetNext(node, live);
      } else {
        SetFirst(node, live);
      }
      SetLast(node, live);
      SetKids(c, live);
    }

    /** Clone: a new node of the same kind, and, for elements and documents, copies of the children linked
        to it one after the other. All nodes of the copy are new. */
    method Clone(ghost live: set<Node>, ghost t: Tree) returns (r: Node, ghost d: set<Node>)
      requires this in live && Forest(Snapped(live), null) && Holds(Snapped(live), this, t) && Cloneable(t)
      ensures fresh(d) && r in d && Forest(Snapped(d), null) && Snapped(d)[r].parent == null
      ensures Holds(Snapped(d), r, Copied(t))
      decreases t, 0
    {
      hide Snapped, Forest, Holds, Cloneable, InsertedAt, Copied, CopySoFar;
      ghost var v := Snapped(live);
      HoldsRoot(v, this, t);
      SnapAt(live, this);
      r := new Node(CopiedKind(kind), info);
      d := {r};
      NewAlone(r, t);
      ghost var ts: seq<Tree> := [];
      if kind.Element? || kind.Document? {
        ListAt(v, null, this);
        var node := firstChild;
        ghost var i := 0;
        while node != null
          invariant i <= |children| && node == KidOrNull(children, i) && Snapped(live) == v
          invariant fresh(d) && r in d && Forest(Snapped(d), null)
          invariant CopySoFar(Snapped(d), r, t, ts)
          invariant |ts| == i && forall j :: 0 <= j < i ==> ts[j] == Copied(t.kids[j])
          decreases |children| - i
        {
          HoldsKid(v, this, t, i);
          CloneableKid(t, i);
          assert KidOk(v, this, i);
          d := r.LinkCopy(node, live, d, t, t.kids[i], ts);
          ts := ts + [Copied(t.kids[i])];
          SnapAt(live, node);
          node := node.next;
          i := i + 1;
        }
      }
      CopyDone(Snapped(d), r, t, ts);
    }

    /** The copy of one child of the original t becomes the last child here. */
    method LinkCopy(node: Node, ghost live: set<Node>, ghost d: set<Node>, ghost t: Tree, ghost u: Tree,
                    ghost ts: seq<Tree>)
      returns (ghost e: set<Node>)
      requires node in live && Forest(Snapped(live), null) && Holds(Snapped(live), node, u) && Cloneable(u)
      requires !Snapped(live)[node].kind.Document?
      requires this in d && d !! live && Forest(Snapped(d), null) && CopySoFar(Snapped(d), this, t, ts)
      modifies d
      ensures d <= e && fresh(e - d) && Forest(Snapped(e), null) && CopySoFar(Snapped(e), this, t, ts + [Copied(u)])
      decreases u, 1
    {
      hide Snapped, Forest, Holds, Cloneable, InsertedAt, Copied, CopySoFar;
      ghost var v := Snapped(d);
      HoldsRoot(Snapped(live), node, u);
      CopiedRoot(u);
      var k, c := node.Clone(live, u);
      SnapAt(d, this);
      SnapAt(c, k);
      SnapJoin(d, c);
      JoinOk(v, Snapped(c));
      Loosen(v + Snapped(c), k);
      CopyGrows(v, Snapped(c), this, k, t, ts, Copied(u));
      e := d + c;
      ghost var e';
      var linked;
      linked, e' := LinkEndChild(k, e, t, u);
    }

    /** InsertBeforeChild: null, and nothing changed, unless beforeThis is a child here and addThis no
        document. Otherwise a copy of addThis stands before beforeThis; c is the copy before it was linked. */
    method InsertBeforeChild(beforeThis: Node?, addThis: Node, ghost live: set<Node>, ghost t: Tree)
      returns (r: Node?, ghost k: nat, ghost c: View)
      requires this in live && addThis in live && (beforeThis != null ==> beforeThis in live)
      requires Forest(Snapped(live), null) && Holds(Snapped(live), addThis, t) && Cloneable(t)
      modifies live
      ensures if old(beforeThis == null || beforeThis.parent != this || addThis.kind.Document?)
              then r == null && Snapped(live) == old(Snapped(live))
              else r != null && k < |old(children)| && old(children[k]) == beforeThis && fresh(c.Keys)
                   && children == old(children[..k]) + [r] + old(children[k..])
                   && Grafted(old(Snapped(live)), c, Snapped(live + c.Keys), this, k, r, t)
    {
      hide Snapped, Forest, Holds, Cloneable, InsertedAt, BeforeWrites, Copied, Grafted;
      k, c := 0, map[];
      if beforeThis == null || beforeThis.parent != this {
        return null, k, c;
      }
      if addThis.kind.Document? {
        return null, k, c;
      }
      ghost var v := Snapped(live);
      k := KidIndex(v, this, beforeThis, live);
      SnapAt(live, addThis);
      HoldsRoot(v, addThis, t);
      ghost var d;
      r, d := addThis.Clone(live, t);
      c := Snapped(d);
      GraftReady(v, c, this, k, r, t, live, d);
      BeforeWritten(v + c, this, k, r);
      BeforeLinks(r, beforeThis, live + d, children[..k] + [r] + children[k..]);
      SnapAt(live + d, this);
      InsertedFields(v + c, this, k, r);
    }

    method BeforeLinks(node: Node, before: Node, ghost live: set<Node>, ghost c: seq<Node>)
      requires this in live && node in live && before in live && (before.prev != null ==> before.prev in live)
      requires Snapped(live)[before].prev == before.prev && before != node
      modifies live
      ensures Snapped(live) == old(BeforeWrites(Snapped(live), this, node, before, c))
    {
      hide Snapped;
      node.SetParent(this, live);
      node.SetNext(before, live);
      node.SetPrev(before.prev, live);
      if before.prev != null {
        before.prev.SetNext(node, live);
      } else {
        SetFirst(node, live);
      }
      before.SetPrev(node, live);
      SetKids(c, live);
    }

    /** InsertAfterChild: the same behind afterThis. */
    method InsertAfterChild(afterThis: Node?, addThis: Node, ghost live: set<Node>, ghost t: Tree)
      returns (r: Node?, ghost k: nat, ghost c: View)
      requires this in live && addThis in live && (afterThis != null ==> afterThis in live)
      requires Forest(Snapped(live), null) && Holds(Snapped(live), addThis, t) && Cloneable(t)
      modifies live
      ensures if old(afterThis == null || afterThis.parent != this || addThis.kind.Document?)
              then r == null && Snapped(live) == old(Snapped(live))
              else r != null && k < |old(children)| && old(children[k]) == afterThis && fresh(c.Keys)
                   && children == old(children[..k + 1]) + [r] + old(children[k + 1..])
                   && Grafted(old(Snapped(live)), c, Snapped(live + c.Keys), this, k + 1, r, t)
    {
      hide Snapped, Forest, Holds, Cloneable, InsertedAt, AfterWrites, Copied, Grafted;
      k, c := 0, map[];
      if afterThis == null || afterThis.parent != this {
        return null, k, c;
      }
      if addThis.kind.Document? {
        return null, k, c;
      }
      ghost var v := Snapped(live);
      k := KidIndex(v, this, afterThis, live);
      SnapAt(live, addThis);
      HoldsRoot(v, addThis, t);
      ghost var d;
      r, d := addThis.Clone(live, t);
      c := Snapped(d);
      GraftReady(v, c, this, k + 1, r, t, live, d);
      AfterWritten(v + c, this, k, r);
      AfterLinks(r, afterThis, live + d, children[..k + 1] + [r] + children[k + 1..]);
      SnapAt(live + d, this);
      InsertedFields(v + c, this, k + 1, r);
    }

    method AfterLinks(node: Node, after: Node, ghost live: set<Node>, ghost c: seq<Node>)
      requires this in live && node in live && after in live && (after.next != null ==> after.next in live)
      requires Snapped(live)[after].next == after.next && after != node
      modifies live
      ensures Snapped(live) == old(AfterWrites(Snapped(live), this, node, after, c))
    {
      hide Snapped;
      node.SetParent(this, live);
      node.SetPrev(after, live);
      node.SetNext(after.next, live);
      if after.next != null {
        after.next.SetPrev(node, live);
      } else {
        SetLast(node, live);
      }
      after.SetNext(node, live);
      SetKids(c, live);
    }

    /** RemoveChild: false, and nothing changed, unless removeThis is a child here. Otherwise it leaves the
        list, and it and the nodes below it are deleted: they are no longer live. */
    method RemoveChild(removeThis: Node?, ghost live: set<Node>, ghost t: Tree)
      returns (ok: bool, ghost k: nat, ghost live': set<Node>)
      requires this in live && (removeThis != null ==> removeThis in live)
      requires Forest(Snapped(live), null) && Holds(Snapped(live), this, t)
      modifies live
      ensures ok == old(removeThis != null && removeThis.parent == this)
      ensures !ok ==> live' == live && Snapped(live) == old(Snapped(live))
      ensures ok ==> k < |old(children)| && old(children[k]) == removeThis
                     && children == old(children[..k]) + old(children[k + 1..])
                     && Pruned(old(Snapped(live)), Snapped(live'), this, k, t)
    {
      hide Snapped, Forest, Holds, RemovedAt, RemoveWrites, Pruned;
      k, live' := 0, live;
      if removeThis == null {
        return false, k, live';
      }
      if removeThis.parent != this {
        return false, k, live';
      }
      ghost var v := Snapped(live);
      k := KidIndex(v, this, removeThis, live);
      Around(v, this, k);
      RemoveWritten(v, this, k);
      PruneReady(v, this, k, t);
      RemoveLinks(removeThis, live, children[..k] + children[k + 1..]);
      SnapAt(live, this);
      RemovedKeeps(v, this, k);
      live' := live - Below(v, removeThis, t.kids[k]);
      SnapCut(live, Below(v, removeThis, t.kids[k]));
      ok := true;
    }

    method RemoveLinks(removeThis: Node, ghost live: set<Node>, ghost c: seq<Node>)
      requires this in live && removeThis in live
      requires removeThis.prev != null ==> removeThis.prev in live && removeThis.prev != removeThis
      requires removeThis.next != null ==> removeThis.next in live && removeThis.next != removeThis
      requires Snapped(live)[removeThis].prev == removeThis.prev && Snapped(live)[removeThis].next == removeThis.next
      modifies live
      ensures Snapped(live) == old(RemoveWrites(Snapped(live), this, removeThis, c))
    {
      hide Snapped;
      if removeThis.next != null {
        removeThis.next.SetPrev(removeThis.prev, live);
      } else {
        SetLast(removeThis.prev, live);
      }
      if removeThis.prev != null {
        removeThis.prev.SetNext(removeThis.next, live);
      } else {
        SetFirst(removeThis.next, live);
      }
      SetKids(c, live);
    }

    /** ReplaceChild: a copy of withThis takes the place of replaceThis, which is deleted with all below it. */
    method ReplaceChild(replaceThis: Node?, withThis: Node, ghost live: set<Node>, ghost s: Tree, ghost t: Tree)
      returns (r: Node?, ghost k: nat, ghost c: View, ghost live': set<Node>)
      requires this in live && withThis in live && (replaceThis != null ==> replaceThis in live)
      requires Forest(Snapped(live), null) && Holds(Snapped(live), this, s)
      requires Holds(Snapped(live), withThis, t) && Cloneable(t)
      modifies live
      ensures if old(replaceThis == null || replaceThis.parent != this || withThis.kind.Document?)
              then r == null && live' == live && Snapped(live) == old(Snapped(live))
              else r != null && k < |old(children)| && old(children[k]) == replaceThis && fresh(c.Keys)
                   && children == old(children)[k := r]
                   && Replaced(old(Snapped(live)), c, Snapped(live'), this, k, r, s, t)
    {
      hide Snapped, Forest, Holds, Cloneable, InsertedAt, RemovedAt, ReplaceWrites, Copied, Replaced, ListOk;
      k, c, live' := 0, map[], live;
      if replaceThis == null || replaceThis.parent != this {
        return null, k, c, live';
      }
      if withThis.kind.Document? {
        return null, k, c, live';
      }
      ghost var v := Snapped(live);
      k := KidIndex(v, this, replaceThis, live);
      SnapAt(live, withThis);
      HoldsRoot(v, withThis, t);
      HoldsRoot(v, this, s);
      ghost var d;
      r, d := withThis.Clone(live, t);
      c := Snapped(d);
      SnapJoin(live, d);
      ghost var out := Below(v, replaceThis, s.kids[k]);
      ReplaceReady(v, c, this, k, r, s, t);
      ReplaceLinks(r, replaceThis, live + d, children[..k] + [r] + children[k + 1..]);
      live' := live + d - out;
      SnapCut(live + d, out);
      ReplacedKids(v, c, Snapped(live'), this, k, r, s, t);
      SnapAt(live', this);
    }

    method ReplaceLinks(node: Node, replaceThis: Node, ghost live: set<Node>, ghost c: seq<Node>)
      requires this in live && node in live && replaceThis in live && node != replaceThis
      requires replaceThis.prev != null ==> replaceThis.prev in live && replaceThis.prev != replaceThis
      requires replaceThis.next != null ==> replaceThis.next in live && replaceThis.next != replaceThis
      requires Snapped(live)[replaceThis].prev == replaceThis.prev
      requires Snapped(live)[replaceThis].next == replaceThis.next
      modifies live
      ensures Snapped(live) == old(ReplaceWrites(Snapped(live), this, node, replaceThis, c))
    {
      hide Snapped;
      node.SetNext(replaceThis.next, live);
      node.SetPrev(replaceThis.prev, live);
      if replaceThis.next != null {
        replaceThis.next.SetPrev(node, live);
      } else {
        SetLast(node, live);
      }
      if replaceThis.prev != null {
        replaceThis.prev.SetNext(node, live);
      } else {
        SetFirst(node, live);
      }
      SetKids(c, live);
      node.SetParent(this, live);
    }

    /** FirstChild and NextSibling run through the children in order. */
    method Forward(ghost live: set<Node>) returns (c: seq<Node>)
      requires this in live && Forest(Snapped(live), null)
      ensures c == children
    {
      hide Snapped, Forest;
      ghost var v := Snapped(live);
      SnapAt(live, this);
      ListAt(v, null, this);
      c := [];
      var node := firstChild;
      while node != null
        invariant |c| <= |children| && c == children[..|c|] && node == KidOrNull(children, |c|)
        decreases |children| - |c|
      {
        assert KidOk(v, this, |c|);
        SnapAt(live, node);
        c := c + [node];
        node := node.next;
      }
    }

    /** LastChild and PreviousSibling run through them in the reverse order. */
    method Backward(ghost live: set<Node>) returns (c: seq<Node>)
      requires this in live && Forest(Snapped(live), null)
      ensures |c| == |children| && forall i :: 0 <= i < |c| ==> c[i] == children[|c| - 1 - i]
    {
      hide Snapped, Forest;
      ghost var v := Snapped(live);
      SnapAt(live, this);
      ListAt(v, null, this);
      c := [];
      var node := lastChild;
      while node != null
        invariant |c| <= |children| && c == Reversed(children)[..|c|]
        invariant node == KidOrNull(children, |children| - 1 - |c|)
        decreases |children| - |c|
      {
        assert KidOk(v, this, |children| - 1 - |c|);
        SnapAt(live, node);
        c := c + [node];
        node := node.prev;
      }
    }
  }

  function Reversed<T>(s: seq<T>): (r: seq<T>)
    ensures |r| == |s|
  {
    seq(|s|, i requires 0 <= i < |s| => s[|s| - 1 - i])
  }

  // ---------------------------------------------------------------- the writes of the operations

  datatype Change =
    | ParentTo(n: Node?) | FirstTo(n: Node?) | LastTo(n: Node?) | PrevTo(n: Node?) | NextTo(n: Node?)
    | KidsTo(c: seq<Node>)

  ghost function Changed(f: Record, c: Change): Record {
    match c
    case ParentTo(n) => f.(parent := n)
    case FirstTo(n) => f.(firstChild := n)
    case LastTo(n) => f.(lastChild := n)
    case PrevTo(n) => f.(prev := n)
    case NextTo(n) => f.(next := n)
    case KidsTo(k) => f.(kids := k)
  }

  ghost function Put(v: View, n: Node, c: Change): (w: View)
    requires n in v
    ensures w.Keys == v.Keys
  {
    v[n := Changed(v[n], c)]
  }

  lemma SnapAt(live: set<Node>, n: Node)
    requires n in live
    ensures Snapped(live)[n]
         == Record(n.kind, n.info, n.children, n.parent, n.firstChild, n.lastChild, n.prev, n.next)
  {
  }

  /** LinkEndChild: the new child points at the last one, the last one at it, and it becomes the last. */
  ghost function EndWrites(v: View, p: Node, node: Node, c: seq<Node>): (w': View)
    requires p in v && node in v && (v[p].lastChild == null || v[p].lastChild in v)
    ensures w'.Keys == v.Keys
  {
    var z := v[p].lastChild;
    var w := Put(Put(Put(v, node, ParentTo(p)), node, PrevTo(z)), node, NextTo(null));
    var x := if z != null then Put(w, z, NextTo(node)) else Put(w, p, FirstTo(node));
    Put(Put(x, p, LastTo(node)), p, KidsTo(c))
  }

  lemma EndWritten(v: View, p: Node, node: Node)
    requires p in v && node in v && ListOk(v, p) && node !in v[p].kids && node != p
    ensures v[p].lastChild == null || v[p].lastChild in v
    ensures EndWrites(v, p, node, v[p].kids + [node]) == InsertedAt(v, p, |v[p].kids|, node)
  {
    var c := v[p].kids;
    assert c[..|c|] + [node] + c[|c|..] == c + [node];
    if c != [] {
      assert KidOk(v, p, |c| - 1);
    }
    forall n | n in v
      ensures EndWrites(v, p, node, c + [node])[n] == InsertedAt(v, p, |c|, node)[n]
    {
      EndWrittenAt(v, p, node, n);
    }
    hide EndWrites, InsertedAt, ListOk, KidOk;
  }

  lemma EndWrittenAt(v: View, p: Node, node: Node, n: Node)
    requires p in v && node in v && node !in v[p].kids && node != p && n in v
    requires v[p].lastChild == KidOrNull(v[p].kids, |v[p].kids| - 1) && (v[p].lastChild == null || v[p].lastChild in v)
    ensures var c := v[p].kids; EndWrites(v, p, node, c + [node])[n] == InsertedAt(v, p, |c|, node)[n]
  {
    var c := v[p].kids;
    assert c[..|c|] + [node] + c[|c|..] == c + [node];
  }

  // ---------------------------------------------------------------- the list operations on a snapshot

  /** node comes in as child k of p. */
  ghost function InsertedAt(v: View, p: Node, k: nat, node: Node): (w: View)
    requires p in v && k <= |v[p].kids|
    ensures w.Keys == v.Keys
  {
    var c := v[p].kids;
    var l, r := KidOrNull(c, k - 1), KidOrNull(c, k);
    map n | n in v ::
      var f := v[n];
      if n == node then f.(parent := p, prev := l, next := r)
      else
        var g := if n != p then f
                 else f.(kids := c[..k] + [node] + c[k..],
                         firstChild := if k == 0 then node else f.firstChild,
                         lastChild := if k == |c| then node else f.lastChild);
        g.(next := if n == l then node else g.next, prev := if n == r then node else g.prev)
  }

  /** Child k of p goes out; its own fields stay. */
  ghost function RemovedAt(v: View, p: Node, k: nat): (w: View)
    requires p in v && k < |v[p].kids|
    ensures w.Keys == v.Keys
  {
    var c := v[p].kids;
    var l, r := KidOrNull(c, k - 1), KidOrNull(c, k + 1);
    map n | n in v ::
      var f := v[n];
      var g := if n != p then f
               else f.(kids := c[..k] + c[k + 1..],
                       firstChild := if k == 0 then r else f.firstChild,
                       lastChild := if k == |c| - 1 then l else f.lastChild);
      if n == c[k] then g
      else g.(next := if n == l then r else g.next, prev := if n == r then l else g.prev)
  }

  lemma ListAt(v: View, loose: Node?, p: Node)
    requires Forest(v, loose) && p in v
    ensures ListOk(v, p)
  {
  }

  /** A child of p is a child of no other node. */
  lemma OneParent(v: View, loose: Node?, p: Node, i: nat, q: Node, j: nat)
    requires Forest(v, loose) && p in v && q in v && i < |v[p].kids| && j < |v[q].kids| && v[p].kids[i] == v[q].kids[j]
    ensures p == q && i == j
  {
    assert ListOk(v, p) && ListOk(v, q);
    assert KidOk(v, p, i) && KidOk(v, q, j);
  }

  lemma InsertedKid(v: View, p: Node, k: nat, node: Node, i: nat)
    requires p in v && node in v && k <= |v[p].kids| && ListOk(v, p) && node !in v[p].kids
    requires node != p && i <= |v[p].kids| && !v[node].kind.Document?
    ensures KidOk(InsertedAt(v, p, k, node), p, i)
  {
    WithAt(v[p].kids, k, node);
    if i < k {
      assert KidOk(v, p, i);
    } else if i > k {
      assert KidOk(v, p, i - 1);
    }
  }

  lemma InsertedList(v: View, p: Node, k: nat, node: Node)
    requires p in v && node in v && k <= |v[p].kids| && ListOk(v, p) && node !in v[p].kids
    requires node != p && !v[node].kind.Document?
    ensures ListOk(InsertedAt(v, p, k, node), p)
  {
    var w, c := InsertedAt(v, p, k, node), v[p].kids;
    WithAt(c, k, node);
    forall i: nat | i <= |c|
      ensures KidOk(w, p, i)
    {
      InsertedKid(v, p, k, node, i);
    }
    hide KidOk;
  }

  /** What changes outside the list of p: nothing. */
  lemma InsertedOther(v: View, p: Node, k: nat, node: Node, q: Node)
    requires Forest(v, node) && p in v && q in v && node in v && k <= |v[p].kids| && node !in v[p].kids
    requires v[node].parent == null || v[node].parent == p
    requires q != p && node != p
    ensures ListOk(InsertedAt(v, p, k, node), q)
  {
    var w, c := InsertedAt(v, p, k, node), v[q].kids;
    assert ListOk(v, q) && ListOk(v, p);
    forall i: nat | i < |c|
      ensures KidOk(w, q, i)
    {
      assert KidOk(v, q, i);
      if k > 0 {
        assert KidOk(v, p, k - 1);
      }
      if k < |v[p].kids| {
        assert KidOk(v, p, k);
      }
    }
  }

  lemma InsertedRooted(v: View, p: Node, k: nat, node: Node, n: Node)
    requires Forest(v, node) && p in v && n in v && node in v && k <= |v[p].kids| && node != p
    ensures Rooted(InsertedAt(v, p, k, node), n)
  {
    var w, c := InsertedAt(v, p, k, node), v[p].kids;
    var d := c[..k] + [node] + c[k..];
    assert d[k] == node;
    if n != node {
      assert Rooted(v, n);
      if v[n].parent == p {
        var i :| 0 <= i < |c| && c[i] == n;
        assert d[if i < k then i else i + 1] == n;
      }
    }
  }

  /** Linking in a node that was on no list makes it child k of p and leaves all other lists as they were. */
  lemma InsertOk(v: View, p: Node, k: nat, node: Node)
    requires Forest(v, node) && p in v && node in v && k <= |v[p].kids| && node !in v[p].kids
    requires (v[node].parent == null || v[node].parent == p) && node != p && !v[node].kind.Document?
    ensures Forest(InsertedAt(v, p, k, node), null)
  {
    var w := InsertedAt(v, p, k, node);
    forall q | q in w
      ensures ListOk(w, q)
    {
      if q == p {
        InsertedList(v, p, k, node);
      } else {
        InsertedOther(v, p, k, node, q);
      }
    }
    forall n | n in w
      ensures Rooted(w, n)
    {
      InsertedRooted(v, p, k, node, n);
    }
  }

  // ---------------------------------------------------------------- removing

  /** Place i of the list c without its k-th node, and the places next to it. */
  lemma CutNeighbours(c: seq<Node>, k: nat, i: nat)
    requires k < |c| && i + 1 < |c|
    ensures var d, j := c[..k] + c[k + 1..], if i < k then i else i + 1;
            && d[i] == c[j]
            && KidOrNull(d, i - 1) == KidOrNull(c, if i == k then k - 1 else j - 1)
            && KidOrNull(d, i + 1) == KidOrNull(c, if i == k - 1 then k + 1 else j + 1)
  {
  }

  lemma NeighboursOnly(c: seq<Node>, k: nat, j: nat)
    requires k < |c| && j < |c| && j != k
    requires forall x, y :: 0 <= x < y < |c| ==> c[x] != c[y]
    ensures c[j] != c[k] && (c[j] == KidOrNull(c, k - 1) <==> j == k - 1)
            && (c[j] == KidOrNull(c, k + 1) <==> j == k + 1)
  {
  }

  lemma RemovedKid(v: View, p: Node, k: nat, i: nat)
    requires p in v && k < |v[p].kids| && ListOk(v, p) && i + 1 < |v[p].kids|
    ensures KidOk(RemovedAt(v, p, k), p, i)
  {
    var c, j := v[p].kids, if i < k then i else i + 1;
    assert KidOk(v, p, j);
    NeighboursOnly(c, k, j);
    CutNeighbours(c, k, i);
    hide RemovedAt, ListOk, KidOrNull;
    RemovedField(v, p, k, c[j]);
    RemovedField(v, p, k, p);
  }

  lemma RemovedList(v: View, p: Node, k: nat)
    requires p in v && k < |v[p].kids| && ListOk(v, p)
    ensures ListOk(RemovedAt(v, p, k), p)
  {
    var w, c := RemovedAt(v, p, k), v[p].kids;
    CutAt(c, k);
    forall i: nat | i + 1 < |c|
      ensures KidOk(w, p, i)
    {
      RemovedKid(v, p, k, i);
    }
    hide KidOk;
  }

  lemma RemovedOther(v: View, p: Node, k: nat, q: Node)
    requires Forest(v, null) && p in v && q in v && k < |v[p].kids| && q != p
    ensures ListOk(RemovedAt(v, p, k), q)
  {
    var w, c, d := RemovedAt(v, p, k), v[q].kids, v[p].kids;
    assert ListOk(v, q) && ListOk(v, p);
    Around(v, p, k);
    RemovedField(v, p, k, q);
    hide RemovedAt;
    forall i: nat | i < |c|
      ensures KidOk(w, q, i)
    {
      assert KidOk(v, q, i) && KidOk(v, p, k);
      if k > 0 {
        assert KidOk(v, p, k - 1);
      }
      if k + 1 < |d| {
        assert KidOk(v, p, k + 1);
      }
      RemovedField(v, p, k, c[i]);
    }
  }

  lemma RemovedRooted(v: View, p: Node, k: nat, n: Node)
    requires Forest(v, null) && p in v && n in v && k < |v[p].kids| && n != v[p].kids[k]
    ensures Rooted(RemovedAt(v, p, k), n)
  {
    var c := v[p].kids;
    var d := c[..k] + c[k + 1..];
    assert Rooted(v, n);
    if v[n].parent == p {
      var i :| 0 <= i < |c| && c[i] == n;
      assert d[if i < k then i else i - 1] == n;
    }
  }

  /** Unlinking child k of p leaves all other nodes on their lists. */
  lemma RemoveOk(v: View, p: Node, k: nat)
    requires Forest(v, null) && p in v && k < |v[p].kids|
    ensures Forest(RemovedAt(v, p, k), v[p].kids[k])
  {
    var w := RemovedAt(v, p, k);
    forall q | q in w
      ensures ListOk(w, q)
    {
      assert ListOk(v, q);
      if q == p {
        RemovedList(v, p, k);
      } else {
        RemovedOther(v, p, k, q);
      }
    }
    forall n | n in w && n != v[p].kids[k]
      ensures Rooted(w, n)
    {
      RemovedRooted(v, p, k, n);
    }
  }

  // ---------------------------------------------------------------- trees

  datatype Tree = Tree(kind: Kind, info: Info, kids: seq<Tree>)

  /** Below n stand the nodes of t. */
  ghost predicate Holds(v: View, n: Node, t: Tree)
    decreases t
  {
    && n in v && v[n].kind == t.kind && v[n].info == t.info && |v[n].kids| == |t.kids|
    && forall i :: 0 <= i < |t.kids| ==> Holds(v, v[n].kids[i], t.kids[i])
  }

  /** m is n, or a node below it. */
  ghost predicate Under(v: View, n: Node, t: Tree, m: Node)
    decreases t
  {
    m == n || (n in v && exists i :: 0 <= i < |t.kids| && i < |v[n].kids| && Under(v, v[n].kids[i], t.kids[i], m))
  }

  lemma {:induction false} UnderHeld(v: View, n: Node, t: Tree, m: Node)
    requires Holds(v, n, t) && Under(v, n, t, m)
    ensures m in v
    decreases t
  {
    if m != n {
      var i :| 0 <= i < |t.kids| && Under(v, v[n].kids[i], t.kids[i], m);
      UnderHeld(v, v[n].kids[i], t.kids[i], m);
    }
  }

  /** The children of a node below n are below n. */
  lemma {:induction false} UnderDown(v: View, n: Node, t: Tree, m: Node, k: nat)
    requires Holds(v, n, t) && Under(v, n, t, m) && m in v && k < |v[m].kids|
    ensures Under(v, n, t, v[m].kids[k])
    decreases t
  {
    if m == n {
      assert Under(v, v[n].kids[k], t.kids[k], v[n].kids[k]);
    } else {
      var i :| 0 <= i < |t.kids| && Under(v, v[n].kids[i], t.kids[i], m);
      UnderDown(v, v[n].kids[i], t.kids[i], m, k);
    }
  }

  /** Below n every node but n has its parent below n. */
  lemma {:induction false} UnderUp(v: View, loose: Node?, n: Node, t: Tree, m: Node)
    requires Forest(v, loose) && Holds(v, n, t) && Under(v, n, t, m) && m != n
    ensures m in v && v[m].parent != null && Under(v, n, t, v[m].parent)
    decreases t
  {
    var i :| 0 <= i < |t.kids| && Under(v, v[n].kids[i], t.kids[i], m);
    var k := v[n].kids[i];
    ListAt(v, loose, n);
    assert KidOk(v, n, i);
    if m == k {
    } else {
      UnderUp(v, loose, k, t.kids[i], m);
    }
  }

  /** A tree stays where the nodes of it keep kind, info and children. */
  lemma {:induction false} HoldsSame(v: View, w: View, n: Node, t: Tree)
    requires Holds(v, n, t)
    requires forall m :: Under(v, n, t, m) && m in v ==>
               m in w && w[m].kind == v[m].kind && w[m].info == v[m].info && w[m].kids == v[m].kids
    ensures Holds(w, n, t)
    decreases t
  {
    assert Under(v, n, t, n);
    forall i | 0 <= i < |t.kids|
      ensures Holds(w, w[n].kids[i], t.kids[i])
    {
      forall m | Under(v, v[n].kids[i], t.kids[i], m) && m in v
        ensures m in w && w[m].kind == v[m].kind && w[m].info == v[m].info && w[m].kids == v[m].kids
      {
        assert Under(v, n, t, m);
      }
      HoldsSame(v, w, v[n].kids[i], t.kids[i]);
    }
  }

  /** The nodes below n. */
  ghost function Below(v: View, n: Node, t: Tree): (d: set<Node>)
    ensures d <= v.Keys
  {
    set m | m in v && Under(v, n, t, m)
  }

  /** Without a tree whose root is on no list, the rest is a forest. */
  lemma DropOk(v: View, n: Node, t: Tree)
    requires Forest(v, n) && Holds(v, n, t)
    requires forall p, i :: p in v && 0 <= i < |v[p].kids| ==> v[p].kids[i] != n
    ensures Forest(v - Below(v, n, t), null)
  {
    var d := Below(v, n, t);
    var w := v - d;
    forall p | p in w
      ensures ListOk(w, p)
    {
      ListAt(v, n, p);
      forall i: nat | i < |v[p].kids|
        ensures KidOk(w, p, i)
      {
        assert KidOk(v, p, i);
        if v[p].kids[i] in d {
          UnderUp(v, n, n, t, v[p].kids[i]);
        }
      }
    }
    forall m | m in w
      ensures Rooted(w, m)
    {
      assert Under(v, n, t, n);
      assert Rooted(v, m);
      var q := v[m].parent;
      if q != null && q in d {
        var i :| 0 <= i < |v[q].kids| && v[q].kids[i] == m;
        UnderDown(v, n, t, q, i);
      }
    }
  }

  /** Forests over different nodes make up one forest. */
  lemma JoinOk(v: View, w: View)
    requires Forest(v, null) && Forest(w, null) && v.Keys !! w.Keys
    ensures Forest(v + w, null)
  {
    var x := v + w;
    forall p | p in x
      ensures ListOk(x, p)
    {
      if p in w {
        ListAt(w, null, p);
        forall i: nat | i < |w[p].kids|
          ensures KidOk(x, p, i)
        {
          assert KidOk(w, p, i);
        }
      } else {
        ListAt(v, null, p);
        forall i: nat | i < |v[p].kids|
          ensures KidOk(x, p, i)
        {
          assert KidOk(v, p, i);
        }
      }
    }
    forall n | n in x
      ensures Rooted(x, n)
    {
      assert Rooted(if n in w then w else v, n);
    }
  }

  // ---------------------------------------------------------------- copies

  /** Only elements and documents copy their children. */
  predicate CopiesKids(k: Kind) {
    k.Element? || k.Document?
  }

  /** The attributes a copy gets are those its iteration sees, set one after the other. */
  function CopiedKind(k: Kind): Kind {
    match k
    case Element(a) => Element(XmlAttributes.UpdatedAll([], XmlAttributes.Visible(a)))
    case _ => k
  }

  function Copied(t: Tree): Tree {
    Tree(CopiedKind(t.kind), t.info,
         if CopiesKids(t.kind) then seq(|t.kids|, i requires 0 <= i < |t.kids| => Copied(t.kids[i])) else [])
  }

  /** No assertion of the attribute lists fails while t is copied. */
  predicate Cloneable(t: Tree) {
    && (t.kind.Element? ==> XmlAttributes.CanCopy([], XmlAttributes.Visible(t.kind.attributes)))
    && forall i :: 0 <= i < |t.kids| ==> Cloneable(t.kids[i])
  }

  lemma RootNotUnder(v: View, loose: Node?, r: Node, n: Node, t: Tree)
    requires Forest(v, loose) && r in v && v[r].parent == null && Holds(v, n, t) && n != r
    ensures !Under(v, n, t, r)
  {
    if Under(v, n, t, r) {
      UnderUp(v, loose, n, t, r);
    }
  }

  /** An insertion changes the children of p only, and no kind. */
  lemma InsertedFields(v: View, p: Node, k: nat, node: Node)
    requires p in v && k <= |v[p].kids| && node != p
    ensures var x := InsertedAt(v, p, k, node);
            && (forall n :: n in v ==> x[n].kind == v[n].kind && x[n].info == v[n].info)
            && (forall n :: n in v && n != p ==> x[n].kids == v[n].kids)
            && (forall n :: n in v && n != node ==> x[n].parent == v[n].parent)
            && x[p].kids == v[p].kids[..k] + [node] + v[p].kids[k..]
  {
  }

  /** A new child of r, taken from another forest, leaves the trees of r's children in place. */
  lemma KidGrafted(v: View, w: View, r: Node, k: Node, ts: seq<Tree>, u: Tree)
    requires Forest(v, null) && Forest(w, null) && v.Keys !! w.Keys
    requires r in v && v[r].parent == null && |v[r].kids| == |ts|
    requires forall j :: 0 <= j < |ts| ==> Holds(v, v[r].kids[j], ts[j])
    requires Holds(w, k, u) && k in w
    ensures var x := InsertedAt(v + w, r, |ts|, k);
            && x[r].kids == v[r].kids + [k] && x[r].parent == null && x[r].kind == v[r].kind && x[r].info == v[r].info
            && forall j :: 0 <= j <= |ts| ==> Holds(x, x[r].kids[j], (ts + [u])[j])
  {
    var x, c := InsertedAt(v + w, r, |ts|, k), v[r].kids;
    InsertedFields(v + w, r, |ts|, k);
    hide InsertedAt, Holds, Under, Forest;
    assert c[..|c|] + [k] + c[|c|..] == c + [k];
    forall j | 0 <= j <= |ts|
      ensures Holds(x, x[r].kids[j], (ts + [u])[j])
    {
      if j == |ts| {
        HoldsSame(w, x, k, u);
      } else {
        ListAt(v, null, r);
        assert KidOk(v, r, j);
        RootNotUnder(v, null, r, c[j], ts[j]);
        HoldsSame(v, x, c[j], ts[j]);
      }
    }
  }

  lemma SnapJoin(d: set<Node>, e: set<Node>)
    ensures Snapped(d + e) == Snapped(d) + Snapped(e)
  {
  }

  lemma Loosen(v: View, n: Node?)
    requires Forest(v, null)
    ensures Forest(v, n)
  {
  }

  lemma HoldsRoot(v: View, n: Node, t: Tree)
    requires Holds(v, n, t)
    ensures n in v && v[n].kind == t.kind && v[n].info == t.info && |v[n].kids| == |t.kids|
  {
  }

  lemma HoldsFrom(v: View, n: Node, t: Tree)
    requires n in v && v[n].kind == t.kind && v[n].info == t.info && |v[n].kids| == |t.kids|
    requires forall i :: 0 <= i < |t.kids| ==> Holds(v, v[n].kids[i], t.kids[i])
    ensures Holds(v, n, t)
  {
  }

  lemma HoldsKid(v: View, n: Node, t: Tree, i: nat)
    requires Holds(v, n, t) && i < |t.kids|
    ensures n in v && i < |v[n].kids| && Holds(v, v[n].kids[i], t.kids[i])
  {
  }

  lemma CloneableKid(t: Tree, i: nat)
    requires Cloneable(t) && i < |t.kids|
    ensures Cloneable(t.kids[i])
  {
  }

  lemma CopiedRoot(t: Tree)
    ensures Copied(t).kind.Document? == t.kind.Document?
  {
  }

  lemma NewAlone(r: Node, t: Tree)
    requires r.parent == null && r.firstChild == null && r.lastChild == null && r.children == []
    requires r.kind == CopiedKind(t.kind) && r.info == t.info
    ensures Forest(Snapped({r}), null) && CopySoFar(Snapped({r}), r, t, [])
  {
    var v := Snapped({r});
    assert ListOk(v, r) && Rooted(v, r);
  }

  /** A copy of t under construction: the children linked so far hold the trees ts. */
  ghost predicate CopySoFar(v: View, r: Node, t: Tree, ts: seq<Tree>) {
    && r in v && v[r].kind == CopiedKind(t.kind) && v[r].info == t.info && v[r].parent == null
    && |v[r].kids| == |ts| && forall j :: 0 <= j < |ts| ==> Holds(v, v[r].kids[j], ts[j])
  }

  lemma CopyGrows(v: View, w: View, r: Node, k: Node, t: Tree, ts: seq<Tree>, u: Tree)
    requires Forest(v, null) && Forest(w, null) && v.Keys !! w.Keys
    requires CopySoFar(v, r, t, ts) && Holds(w, k, u)
    ensures r in v && k in w && k != r && |v[r].kids| == |ts| && k !in v[r].kids && w[k].kind == u.kind
    ensures CopySoFar(InsertedAt(v + w, r, |ts|, k), r, t, ts + [u])
  {
    hide Holds, InsertedAt, Forest;
    HoldsRoot(w, k, u);
    KidGrafted(v, w, r, k, ts, u);
    ListAt(v, null, r);
    forall i | 0 <= i < |v[r].kids|
      ensures v[r].kids[i] != k
    {
      assert KidOk(v, r, i);
    }
  }

  lemma CopyDone(v: View, r: Node, t: Tree, ts: seq<Tree>)
    requires CopySoFar(v, r, t, ts)
    requires |ts| == if CopiesKids(t.kind) then |t.kids| else 0
    requires forall j :: 0 <= j < |ts| ==> ts[j] == Copied(t.kids[j])
    ensures Holds(v, r, Copied(t)) && v[r].parent == null
  {
    assert Copied(t).kids == ts;
  }

  // ---------------------------------------------------------------- insertion before and after a child

  ghost function BeforeWrites(v: View, p: Node, node: Node, before: Node, c: seq<Node>): (w': View)
    requires p in v && node in v && before in v && (v[before].prev == null || v[before].prev in v)
    ensures w'.Keys == v.Keys
  {
    var l := v[before].prev;
    var w := Put(Put(Put(v, node, ParentTo(p)), node, NextTo(before)), node, PrevTo(l));
    var x := if l != null then Put(w, l, NextTo(node)) else Put(w, p, FirstTo(node));
    Put(Put(x, before, PrevTo(node)), p, KidsTo(c))
  }

  ghost function AfterWrites(v: View, p: Node, node: Node, after: Node, c: seq<Node>): (w': View)
    requires p in v && node in v && after in v && (v[after].next == null || v[after].next in v)
    ensures w'.Keys == v.Keys
  {
    var r := v[after].next;
    var w := Put(Put(Put(v, node, ParentTo(p)), node, PrevTo(after)), node, NextTo(r));
    var x := if r != null then Put(w, r, PrevTo(node)) else Put(w, p, LastTo(node));
    Put(Put(x, after, NextTo(node)), p, KidsTo(c))
  }

  ghost function RemoveWrites(v: View, p: Node, gone: Node, c: seq<Node>): (w': View)
    requires p in v && gone in v
    requires (v[gone].prev == null || v[gone].prev in v) && (v[gone].next == null || v[gone].next in v)
    ensures w'.Keys == v.Keys
  {
    var l, r := v[gone].prev, v[gone].next;
    var w := if r != null then Put(v, r, PrevTo(l)) else Put(v, p, LastTo(l));
    var x := if l != null then Put(w, l, NextTo(r)) else Put(w, p, FirstTo(r));
    Put(x, p, KidsTo(c))
  }

  ghost function ReplaceWrites(v: View, p: Node, node: Node, gone: Node, c: seq<Node>): (w': View)
    requires p in v && node in v && gone in v
    requires (v[gone].prev == null || v[gone].prev in v) && (v[gone].next == null || v[gone].next in v)
    ensures w'.Keys == v.Keys
  {
    var l, r := v[gone].prev, v[gone].next;
    var w := Put(Put(v, node, NextTo(r)), node, PrevTo(l));
    var x := if r != null then Put(w, r, PrevTo(node)) else Put(w, p, LastTo(node));
    var y := if l != null then Put(x, l, NextTo(node)) else Put(x, p, FirstTo(node));
    Put(Put(y, p, KidsTo(c)), node, ParentTo(p))
  }

  /** The neighbours of child k. */
  lemma Around(v: View, p: Node, k: nat)
    requires p in v && ListOk(v, p) && k < |v[p].kids|
    ensures var c := v[p].kids;
            && c[k] in v && v[c[k]].parent == p
            && v[c[k]].prev == KidOrNull(c, k - 1) && v[c[k]].next == KidOrNull(c, k + 1)
            && (k > 0 ==> c[k - 1] in v && c[k - 1] != c[k]) && (k + 1 < |c| ==> c[k + 1] in v && c[k + 1] != c[k])
            && (0 < k < |c| - 1 ==> c[k - 1] != c[k + 1])
            && v[p].firstChild == c[0] && v[p].lastChild == c[|c| - 1]
  {
    assert KidOk(v, p, k);
    if k > 0 {
      assert KidOk(v, p, k - 1);
    }
    if k + 1 < |v[p].kids| {
      assert KidOk(v, p, k + 1);
    }
  }

  lemma BeforeWritten(v: View, p: Node, k: nat, node: Node)
    requires p in v && node in v && ListOk(v, p) && node !in v[p].kids && node != p && k < |v[p].kids|
    ensures var c := v[p].kids;
            && c[k] in v && (v[c[k]].prev == null || v[c[k]].prev in v)
            && BeforeWrites(v, p, node, c[k], c[..k] + [node] + c[k..]) == InsertedAt(v, p, k, node)
  {
    hide ListOk, BeforeWrites, InsertedAt;
    var c := v[p].kids;
    Around(v, p, k);
    forall n | n in v
      ensures BeforeWrites(v, p, node, c[k], c[..k] + [node] + c[k..])[n] == InsertedAt(v, p, k, node)[n]
    {
      BeforeWrittenAt(v, p, k, node, n);
    }
  }

  lemma BeforeWrittenAt(v: View, p: Node, k: nat, node: Node, n: Node)
    requires p in v && node in v && ListOk(v, p) && node !in v[p].kids && node != p && k < |v[p].kids| && n in v
    requires var c := v[p].kids;
             c[k] in v && (v[c[k]].prev == null || v[c[k]].prev in v) && (v[c[k]].next == null || v[c[k]].next in v)
    ensures var c := v[p].kids;
            BeforeWrites(v, p, node, c[k], c[..k] + [node] + c[k..])[n] == InsertedAt(v, p, k, node)[n]
  {
    Around(v, p, k);
    hide ListOk;
  }

  lemma AfterWritten(v: View, p: Node, k: nat, node: Node)
    requires p in v && node in v && ListOk(v, p) && node !in v[p].kids && node != p && k < |v[p].kids|
    ensures var c := v[p].kids;
            && c[k] in v && (v[c[k]].next == null || v[c[k]].next in v)
            && AfterWrites(v, p, node, c[k], c[..k + 1] + [node] + c[k + 1..]) == InsertedAt(v, p, k + 1, node)
  {
    hide ListOk, AfterWrites, InsertedAt;
    var c := v[p].kids;
    Around(v, p, k);
    forall n | n in v
      ensures AfterWrites(v, p, node, c[k], c[..k + 1] + [node] + c[k + 1..])[n] == InsertedAt(v, p, k + 1, node)[n]
    {
      AfterWrittenAt(v, p, k, node, n);
    }
  }

  lemma AfterField(v: View, p: Node, node: Node, after: Node, c: seq<Node>, n: Node)
    requires p in v && node in v && after in v && (v[after].next == null || v[after].next in v)
    requires node != p && node != after && node != v[after].next && n in v
    ensures var r, f := v[after].next, v[n];
            AfterWrites(v, p, node, after, c)[n]
            == if n == node then f.(parent := p, prev := after, next := r)
               else Record(f.kind, f.info, if n == p then c else f.kids, f.parent, f.firstChild,
                           if n == p && r == null then node else f.lastChild,
                           if n == r then node else f.prev, if n == after then node else f.next)
  {
  }

  lemma AfterWrittenAt(v: View, p: Node, k: nat, node: Node, n: Node)
    requires p in v && node in v && ListOk(v, p) && node !in v[p].kids && node != p && k < |v[p].kids| && n in v
    requires var c := v[p].kids;
             c[k] in v && (v[c[k]].prev == null || v[c[k]].prev in v) && (v[c[k]].next == null || v[c[k]].next in v)
    ensures var c := v[p].kids;
            AfterWrites(v, p, node, c[k], c[..k + 1] + [node] + c[k + 1..])[n] == InsertedAt(v, p, k + 1, node)[n]
  {
    hide ListOk, AfterWrites, InsertedAt;
    var c := v[p].kids;
    Around(v, p, k);
    InsertedField(v, p, k + 1, node, n);
    AfterField(v, p, node, c[k], c[..k + 1] + [node] + c[k + 1..], n);
  }

  lemma RemoveWritten(v: View, p: Node, k: nat)
    requires p in v && ListOk(v, p) && k < |v[p].kids|
    ensures var c := v[p].kids;
            && c[k] in v && (v[c[k]].prev == null || v[c[k]].prev in v) && (v[c[k]].next == null || v[c[k]].next in v)
            && RemoveWrites(v, p, c[k], c[..k] + c[k + 1..]) == RemovedAt(v, p, k)
  {
    hide ListOk, RemoveWrites, RemovedAt;
    var c := v[p].kids;
    Around(v, p, k);
    forall n | n in v
      ensures RemoveWrites(v, p, c[k], c[..k] + c[k + 1..])[n] == RemovedAt(v, p, k)[n]
    {
      RemoveWrittenAt(v, p, k, n);
    }
  }

  lemma RemoveWrittenAt(v: View, p: Node, k: nat, n: Node)
    requires p in v && ListOk(v, p) && k < |v[p].kids| && n in v
    requires var c := v[p].kids;
             c[k] in v && (v[c[k]].prev == null || v[c[k]].prev in v) && (v[c[k]].next == null || v[c[k]].next in v)
    ensures var c := v[p].kids; RemoveWrites(v, p, c[k], c[..k] + c[k + 1..])[n] == RemovedAt(v, p, k)[n]
  {
    hide RemoveWrites, RemovedAt, ListOk;
    var c := v[p].kids;
    Around(v, p, k);
    RemovedField(v, p, k, n);
    RemoveWritesField(v, p, c[k], c[..k] + c[k + 1..], n);
  }

  lemma RemovedField(v: View, p: Node, k: nat, n: Node)
    requires p in v && k < |v[p].kids| && n in v
    ensures var c := v[p].kids;
            var l, r, f := KidOrNull(c, k - 1), KidOrNull(c, k + 1), v[n];
            RemovedAt(v, p, k)[n]
            == Record(f.kind, f.info, if n == p then c[..k] + c[k + 1..] else f.kids, f.parent,
                      if n == p && k == 0 then r else f.firstChild,
                      if n == p && k == |c| - 1 then l else f.lastChild,
                      if n == r && n != c[k] then l else f.prev, if n == l && n != c[k] then r else f.next)
  {
  }

  lemma RemoveWritesField(v: View, p: Node, gone: Node, c: seq<Node>, n: Node)
    requires p in v && gone in v && n in v
    requires (v[gone].prev == null || v[gone].prev in v) && (v[gone].next == null || v[gone].next in v)
    ensures var l, r, f := v[gone].prev, v[gone].next, v[n];
            RemoveWrites(v, p, gone, c)[n]
            == Record(f.kind, f.info, if n == p then c else f.kids, f.parent,
                      if n == p && l == null then r else f.firstChild,
                      if n == p && r == null then l else f.lastChild,
                      if n == r then l else f.prev, if n == l then r else f.next)
  {
  }

  /** Replacing is removing, and inserting at the same place, up to the fields of the node that goes. */
  lemma ReplaceWritten(v: View, p: Node, k: nat, node: Node, d: set<Node>)
    requires p in v && node in v && ListOk(v, p) && node !in v[p].kids && node != p && k < |v[p].kids|
    requires v[p].kids[k] in d && p !in d && node !in d
    ensures var c := v[p].kids;
            && c[k] in v && (v[c[k]].prev == null || v[c[k]].prev in v) && (v[c[k]].next == null || v[c[k]].next in v)
            && var u := RemovedAt(v, p, k) - d;
               && k <= |u[p].kids|
               && ReplaceWrites(v, p, node, c[k], c[..k] + [node] + c[k + 1..]) - d == InsertedAt(u, p, k, node)
  {
    hide ListOk, ReplaceWrites, InsertedAt;
    var c := v[p].kids;
    Around(v, p, k);
    var u := RemovedAt(v, p, k) - d;
    CutInserted(c, k, node);
    forall n | n in u
      ensures ReplaceWrites(v, p, node, c[k], c[..k] + [node] + c[k + 1..])[n] == InsertedAt(u, p, k, node)[n]
    {
      ReplaceWrittenAt(v, p, k, node, u, n);
    }
    hide RemovedAt;
  }

  lemma CutInserted<T>(c: seq<T>, k: nat, node: T)
    requires k < |c|
    ensures var d := c[..k] + c[k + 1..];
            d[..k] == c[..k] && d[k..] == c[k + 1..] && d[..k] + [node] + d[k..] == c[k := node]
  {
  }

  lemma ReplaceWrittenAt(v: View, p: Node, k: nat, node: Node, u: View, n: Node)
    requires p in v && node in v && ListOk(v, p) && node !in v[p].kids && node != p && k < |v[p].kids| && n in v
    requires var c := v[p].kids;
             c[k] in v && (v[c[k]].prev == null || v[c[k]].prev in v) && (v[c[k]].next == null || v[c[k]].next in v)
    requires n in u && p in u && v[p].kids[k] !in u && forall m :: m in u ==> m in v && u[m] == RemovedAt(v, p, k)[m]
    ensures var c := v[p].kids;
            && k <= |u[p].kids|
            && ReplaceWrites(v, p, node, c[k], c[..k] + [node] + c[k + 1..])[n] == InsertedAt(u, p, k, node)[n]
  {
    hide ReplaceWrites, InsertedAt, RemovedAt, ListOk;
    var c := v[p].kids;
    Around(v, p, k);
    CutInserted(c, k, node);
    RemovedFields(v, p, k, n);
    RemovedEnds(v, p, k);
    var l, r := KidOrNull(c, k - 1), KidOrNull(c, k + 1);
    assert KidOrNull(u[p].kids, k - 1) == l && KidOrNull(u[p].kids, k) == r;
    InsertedField(u, p, k, node, n);
    ReplacedField(v, p, node, c[k], c[..k] + [node] + c[k + 1..], n);
  }

  lemma InsertedField(v: View, p: Node, k: nat, node: Node, n: Node)
    requires p in v && k <= |v[p].kids| && node != p && n in v
    ensures var c := v[p].kids;
            var l, r, f := KidOrNull(c, k - 1), KidOrNull(c, k), v[n];
            InsertedAt(v, p, k, node)[n]
            == if n == node then f.(parent := p, prev := l, next := r)
               else Record(f.kind, f.info, if n == p then c[..k] + [node] + c[k..] else f.kids, f.parent,
                           if n == p && k == 0 then node else f.firstChild,
                           if n == p && k == |c| then node else f.lastChild,
                           if n == r then node else f.prev, if n == l then node else f.next)
  {
  }

  lemma ReplacedField(v: View, p: Node, node: Node, gone: Node, c: seq<Node>, n: Node)
    requires p in v && node in v && gone in v && node != p && n in v
    requires (v[gone].prev == null || v[gone].prev in v) && (v[gone].next == null || v[gone].next in v)
    requires v[gone].prev != node && v[gone].next != node
    ensures var l, r, f := v[gone].prev, v[gone].next, v[n];
            ReplaceWrites(v, p, node, gone, c)[n]
            == if n == node then f.(parent := p, prev := l, next := r)
               else Record(f.kind, f.info, if n == p then c else f.kids, f.parent,
                           if n == p && l == null then node else f.firstChild,
                           if n == p && r == null then node else f.lastChild,
                           if n == r then node else f.prev, if n == l then node else f.next)
  {
  }

  lemma RemovedEnds(v: View, p: Node, k: nat)
    requires p in v && k < |v[p].kids| && v[p].kids[k] != p
    ensures var c := v[p].kids;
            var f := RemovedAt(v, p, k)[p];
            && f.firstChild == (if k == 0 then KidOrNull(c, 1) else v[p].firstChild)
            && f.lastChild == (if k == |c| - 1 then KidOrNull(c, k - 1) else v[p].lastChild)
            && f.kids == c[..k] + c[k + 1..]
  {
  }

  lemma RemovedFields(v: View, p: Node, k: nat, n: Node)
    requires p in v && k < |v[p].kids| && n in v && n != v[p].kids[k]
    ensures var c := v[p].kids;
            var f := RemovedAt(v, p, k)[n];
            && f.kind == v[n].kind && f.info == v[n].info && f.parent == v[n].parent
            && (n != p ==> f.kids == v[n].kids && f.firstChild == v[n].firstChild && f.lastChild == v[n].lastChild)
            && f.next == (if n == KidOrNull(c, k - 1) then KidOrNull(c, k + 1) else v[n].next)
            && f.prev == (if n == KidOrNull(c, k + 1) then KidOrNull(c, k - 1) else v[n].prev)
  {
  }

  // ---------------------------------------------------------------- what an insertion gives

  /** w is the forest v with the copy c, whose root is r, linked in as child k of p; r holds a copy of t. */
  ghost predicate Grafted(v: View, c: View, w: View, p: Node, k: nat, r: Node, t: Tree) {
    && p in v && k <= |v[p].kids| && v.Keys !! c.Keys && r in c
    && w == InsertedAt(v + c, p, k, r) && Forest(w, null) && Holds(w, r, Copied(t))
  }

  lemma KidIndex(v: View, p: Node, n: Node, live: set<Node>) returns (k: nat)
    requires v == Snapped(live) && p in live && n in live && Forest(v, null) && n.parent == p
    ensures k < |p.children| && p.children[k] == n && v[p].kids == p.children && ListOk(v, p)
    ensures v[n].prev == n.prev && v[n].next == n.next
  {
    SnapAt(live, n);
    SnapAt(live, p);
    ListAt(v, null, p);
    assert Rooted(v, n);
    k :| 0 <= k < |v[p].kids| && v[p].kids[k] == n;
  }

  lemma GraftOk(v: View, c: View, p: Node, k: nat, r: Node, t: Tree)
    requires Forest(v, null) && Forest(c, null) && v.Keys !! c.Keys
    requires p in v && k <= |v[p].kids| && r in c && c[r].parent == null
    requires Holds(c, r, Copied(t)) && !t.kind.Document?
    ensures p != r && r !in (v + c)[p].kids && (v + c)[p].kids == v[p].kids
    ensures ListOk(v + c, p) && Grafted(v, c, InsertedAt(v + c, p, k, r), p, k, r, t)
  {
    JoinOk(v, c);
    Loosen(v + c, r);
    ListAt(v + c, null, p);
    ListAt(v, null, p);
    forall i | 0 <= i < |v[p].kids|
      ensures v[p].kids[i] != r
    {
      assert KidOk(v, p, i);
    }
    HoldsRoot(c, r, Copied(t));
    hide Holds, Under, Forest, Copied, InsertedAt, ListOk;
    CopiedRoot(t);
    InsertOk(v + c, p, k, r);
    InsertedFields(v + c, p, k, r);
    HoldsSame(c, InsertedAt(v + c, p, k, r), r, Copied(t));
  }

  lemma GraftReady(v: View, c: View, p: Node, k: nat, r: Node, t: Tree, live: set<Node>, d: set<Node>)
    requires v == Snapped(live) && c == Snapped(d) && live !! d
    requires Forest(v, null) && Forest(c, null) && p in v && k <= |v[p].kids| && r in c && c[r].parent == null
    requires Holds(c, r, Copied(t)) && !t.kind.Document?
    ensures v + c == Snapped(live + d) && c.Keys == d && p != r && r !in (v + c)[p].kids && (v + c)[p].kids == v[p].kids
    ensures ListOk(v + c, p) && Grafted(v, c, InsertedAt(v + c, p, k, r), p, k, r, t)
  {
    SnapJoin(live, d);
    GraftOk(v, c, p, k, r, t);
  }

  /** The tree at p gets the copy as its k-th subtree and keeps the others. */
  lemma GraftedTree(v: View, c: View, w: View, p: Node, k: nat, r: Node, s: Tree, t: Tree)
    requires Forest(v, null) && Grafted(v, c, w, p, k, r, t) && Holds(v, p, s)
    ensures k <= |s.kids| && Holds(w, p, s.(kids := s.kids[..k] + [Copied(t)] + s.kids[k..]))
  {
    hide InsertedAt, Forest, Under, Copied, Holds;
    HoldsRoot(v, p, s);
    InsertedFields(v + c, p, k, r);
    WithAt(v[p].kids, k, r);
    WithAt(s.kids, k, Copied(t));
    var d, ts := v[p].kids[..k] + [r] + v[p].kids[k..], s.kids[..k] + [Copied(t)] + s.kids[k..];
    forall j | 0 <= j < |ts|
      ensures Holds(w, d[j], ts[j])
    {
      if j != k {
        KidStays(v, c, w, p, k, r, s, if j < k then j else j - 1);
      }
    }
    HoldsFrom(w, p, s.(kids := ts));
  }

  lemma KidStays(v: View, c: View, w: View, p: Node, k: nat, r: Node, s: Tree, i: nat)
    requires p in v && k <= |v[p].kids| && v.Keys !! c.Keys && r in c && w == InsertedAt(v + c, p, k, r)
    requires Holds(v, p, s) && i < |s.kids|
    ensures i < |v[p].kids| && Holds(w, v[p].kids[i], s.kids[i])
  {
    HoldsKid(v, p, s, i);
    NotUnderKid(v, p, s, i);
    InsertedFields(v + c, p, k, r);
    hide InsertedAt, Holds, Under;
    HoldsSame(v, w, v[p].kids[i], s.kids[i]);
  }

  // ---------------------------------------------------------------- what a removal gives

  lemma {:induction false} HoldsUnique(v: View, n: Node, s: Tree, t: Tree)
    requires Holds(v, n, s) && Holds(v, n, t)
    ensures s == t
    decreases s
  {
    forall i | 0 <= i < |s.kids|
      ensures s.kids[i] == t.kids[i]
    {
      HoldsUnique(v, v[n].kids[i], s.kids[i], t.kids[i]);
    }
  }

  function Height(t: Tree): nat
  {
    1 + Highest(t.kids)
  }

  function Highest(ts: seq<Tree>): nat {
    if ts == [] then 0
    else
      var h, r := Height(ts[0]), Highest(ts[1..]);
      if h > r then h else r
  }

  lemma {:induction false} KidLower(ts: seq<Tree>, i: nat)
    requires i < |ts|
    ensures Height(ts[i]) <= Highest(ts)
    decreases |ts|
  {
    if i > 0 {
      assert ts[1..][i - 1] == ts[i];
      KidLower(ts[1..], i - 1);
    }
  }

  /** A node below n holds a part of n's tree. */
  lemma {:induction false} UnderTree(v: View, n: Node, t: Tree, m: Node) returns (s: Tree)
    requires Holds(v, n, t) && Under(v, n, t, m)
    ensures Holds(v, m, s) && Height(s) <= Height(t)
    decreases t
  {
    s := t;
    if m != n {
      var i :| 0 <= i < |t.kids| && Under(v, v[n].kids[i], t.kids[i], m);
      s := UnderTree(v, v[n].kids[i], t.kids[i], m);
      KidLower(t.kids, i);
    }
  }

  /** No node is below its own child. */
  lemma NotUnderKid(v: View, p: Node, t: Tree, k: nat)
    requires Holds(v, p, t) && k < |t.kids|
    ensures p in v && k < |v[p].kids| && !Under(v, v[p].kids[k], t.kids[k], p)
  {
    if Under(v, v[p].kids[k], t.kids[k], p) {
      var s := UnderTree(v, v[p].kids[k], t.kids[k], p);
      HoldsUnique(v, p, s, t);
      KidLower(t.kids, k);
    }
  }

  /** w is the forest v after child k of p, and everything below it, went out; p holds the rest of t. */
  ghost predicate Pruned(v: View, w: View, p: Node, k: nat, t: Tree) {
    && p in v && k < |v[p].kids| == |t.kids| && p in w
    && w == RemovedAt(v, p, k) - Below(v, v[p].kids[k], t.kids[k]) && Forest(w, null)
    && Holds(w, p, t.(kids := t.kids[..k] + t.kids[k + 1..]))
  }

  lemma SnapCut(live: set<Node>, d: set<Node>)
    ensures Snapped(live - d) == Snapped(live) - d
  {
  }

  /** Where two trees share a node, one root is below the other. */
  lemma {:induction false} SharedUnder(v: View, a: Node, s: Tree, b: Node, t: Tree, m: Node)
    requires Forest(v, null) && Holds(v, a, s) && Holds(v, b, t) && Under(v, a, s, m) && Under(v, b, t, m)
    ensures Under(v, b, t, a) || Under(v, a, s, b)
    decreases s
  {
    if m != a {
      var i :| 0 <= i < |s.kids| && Under(v, v[a].kids[i], s.kids[i], m);
      var k := v[a].kids[i];
      SharedUnder(v, k, s.kids[i], b, t, m);
      ListAt(v, null, a);
      assert KidOk(v, a, i);
      if Under(v, b, t, k) && k != b {
        UnderUp(v, null, b, t, k);
      } else if k == b {
        assert Under(v, k, s.kids[i], b);
      }
    }
  }

  /** The trees of two children share no node. */
  lemma SiblingsApart(v: View, p: Node, t: Tree, i: nat, k: nat, m: Node)
    requires Forest(v, null) && Holds(v, p, t) && i < |t.kids| && k < |t.kids| && i != k
    ensures p in v && i < |v[p].kids| && k < |v[p].kids|
    ensures !(Under(v, v[p].kids[i], t.kids[i], m) && Under(v, v[p].kids[k], t.kids[k], m))
  {
    NotUnderKid(v, p, t, i);
    NotUnderKid(v, p, t, k);
    ListAt(v, null, p);
    assert KidOk(v, p, i) && KidOk(v, p, k);
    var a, b := v[p].kids[i], v[p].kids[k];
    if Under(v, a, t.kids[i], m) && Under(v, b, t.kids[k], m) {
      SharedUnder(v, a, t.kids[i], b, t.kids[k], m);
      if Under(v, b, t.kids[k], a) {
        UnderUp(v, null, b, t.kids[k], a);
      } else {
        UnderUp(v, null, a, t.kids[i], b);
      }
    }
  }

  lemma {:induction false} UnderSame(v: View, w: View, n: Node, t: Tree, m: Node)
    requires Holds(v, n, t) && Holds(w, n, t)
    requires forall x :: Under(v, n, t, x) && x in v ==> x in w && w[x].kids == v[x].kids
    ensures Under(v, n, t, m) <==> Under(w, n, t, m)
    decreases t
  {
    assert Under(v, n, t, n);
    forall i | 0 <= i < |t.kids|
      ensures Under(v, v[n].kids[i], t.kids[i], m) <==> Under(w, w[n].kids[i], t.kids[i], m)
    {
      forall x | Under(v, v[n].kids[i], t.kids[i], x) && x in v
        ensures x in w && w[x].kids == v[x].kids
      {
        assert Under(v, n, t, x);
      }
      UnderSame(v, w, v[n].kids[i], t.kids[i], m);
    }
  }

  lemma RemovedKeeps(v: View, p: Node, k: nat)
    requires p in v && k < |v[p].kids|
    ensures var w := RemovedAt(v, p, k);
            && w[p].kids == v[p].kids[..k] + v[p].kids[k + 1..]
            && (forall n :: n in v ==> w[n].kind == v[n].kind && w[n].info == v[n].info && w[n].parent == v[n].parent)
            && (forall n :: n in v && n != p ==> w[n].kids == v[n].kids)
  {
  }

  /** The tree of the removed child is still whole, and on no list. */
  lemma RemovedTree(v: View, p: Node, k: nat, t: Tree)
    requires Forest(v, null) && Holds(v, p, t) && p in v && k < |v[p].kids| == |t.kids|
    ensures var n, w := v[p].kids[k], RemovedAt(v, p, k);
            && Holds(w, n, t.kids[k]) && Below(w, n, t.kids[k]) == Below(v, n, t.kids[k])
            && forall q, i :: q in w && 0 <= i < |w[q].kids| ==> w[q].kids[i] != n
  {
    var n, w := v[p].kids[k], RemovedAt(v, p, k);
    HoldsKid(v, p, t, k);
    NotUnderKid(v, p, t, k);
    RemovedKeeps(v, p, k);
    CutAt(v[p].kids, k);
    ListAt(v, null, p);
    hide RemovedAt, Holds, Under, Forest;
    HoldsSame(v, w, n, t.kids[k]);
    forall m | m in v
      ensures Under(v, n, t.kids[k], m) <==> Under(w, n, t.kids[k], m)
    {
      UnderSame(v, w, n, t.kids[k], m);
    }
    forall q, i | q in w && 0 <= i < |w[q].kids|
      ensures w[q].kids[i] != n
    {
      if q != p && v[q].kids[i] == n {
        OneParent(v, null, p, k, q, i);
      }
    }
  }

  lemma PrunedTree(v: View, p: Node, k: nat, t: Tree)
    requires Forest(v, null) && Holds(v, p, t) && p in v && k < |v[p].kids| == |t.kids|
    ensures var w := RemovedAt(v, p, k) - Below(v, v[p].kids[k], t.kids[k]);
            p in w && Holds(w, p, t.(kids := t.kids[..k] + t.kids[k + 1..]))
  {
    hide RemovedAt, Forest, Under;
    var c, n := v[p].kids, v[p].kids[k];
    var w := RemovedAt(v, p, k) - Below(v, n, t.kids[k]);
    var d, ts := c[..k] + c[k + 1..], t.kids[..k] + t.kids[k + 1..];
    HoldsRoot(v, p, t);
    NotUnderKid(v, p, t, k);
    RemovedKeeps(v, p, k);
    forall j | 0 <= j < |ts|
      ensures Holds(w, d[j], ts[j])
    {
      var i := if j < k then j else j + 1;
      KidKept(v, w, p, k, t, i);
    }
  }

  lemma KidKept(v: View, w: View, p: Node, k: nat, t: Tree, i: nat)
    requires Forest(v, null) && Holds(v, p, t) && p in v && k < |v[p].kids| == |t.kids| && i < |t.kids| && i != k
    requires forall n :: n in v && n != p && n !in Below(v, v[p].kids[k], t.kids[k]) ==>
               n in w && w[n].kind == v[n].kind && w[n].info == v[n].info && w[n].kids == v[n].kids
    ensures Holds(w, v[p].kids[i], t.kids[i])
  {
    HoldsKid(v, p, t, i);
    NotUnderKid(v, p, t, i);
    hide Holds, Under, Forest;
    forall m | Under(v, v[p].kids[i], t.kids[i], m) && m in v
      ensures m in w && w[m].kind == v[m].kind && w[m].info == v[m].info && w[m].kids == v[m].kids
    {
      SiblingsApart(v, p, t, i, k, m);
    }
    HoldsSame(v, w, v[p].kids[i], t.kids[i]);
  }

  lemma PruneReady(v: View, p: Node, k: nat, t: Tree)
    requires Forest(v, null) && Holds(v, p, t) && p in v && k < |v[p].kids|
    ensures k < |t.kids|
    ensures Pruned(v, RemovedAt(v, p, k) - Below(v, v[p].kids[k], t.kids[k]), p, k, t)
  {
    HoldsRoot(v, p, t);
    hide Holds, Under, Forest, RemovedAt, Below;
    RemoveOk(v, p, k);
    RemovedTree(v, p, k, t);
    DropOk(RemovedAt(v, p, k), v[p].kids[k], t.kids[k]);
    PrunedTree(v, p, k, t);
  }

  // ---------------------------------------------------------------- what a replacement gives

  /** w is v after child k of p went out with all below it and the copy c, whose root is r, came in there. */
  ghost predicate Replaced(v: View, c: View, w: View, p: Node, k: nat, r: Node, s: Tree, t: Tree) {
    && p in v && k < |v[p].kids| == |s.kids| && p in w
    && var u := RemovedAt(v, p, k) - Below(v, v[p].kids[k], s.kids[k]);
       && p in u && Grafted(u, c, w, p, k, r, t)
       && w[p].kids == v[p].kids[k := r] && Holds(w, p, s.(kids := s.kids[k := Copied(t)]))
  }

  lemma ReplacedKids(v: View, c: View, w: View, p: Node, k: nat, r: Node, s: Tree, t: Tree)
    requires Replaced(v, c, w, p, k, r, s, t)
    ensures k < |v[p].kids| && p in w && w[p].kids == v[p].kids[k := r]
  {
  }

  lemma RemovedJoin(v: View, c: View, p: Node, k: nat)
    requires p in v && k < |v[p].kids| && v.Keys !! c.Keys && ListOk(v, p)
    ensures RemovedAt(v + c, p, k) == RemovedAt(v, p, k) + c
  {
    hide ListOk, RemovedAt;
    Around(v, p, k);
    forall n | n in v + c
      ensures RemovedAt(v + c, p, k)[n] == (RemovedAt(v, p, k) + c)[n]
    {
      RemovedField(v + c, p, k, n);
      if n in v {
        RemovedField(v, p, k, n);
      }
    }
  }

  lemma JoinCut(u: View, c: View, d: set<Node>)
    requires c.Keys !! d
    ensures (u + c) - d == (u - d) + c
  {
  }

  lemma ReplaceReady(v: View, c: View, p: Node, k: nat, r: Node, s: Tree, t: Tree)
    requires Forest(v, null) && Forest(c, null) && v.Keys !! c.Keys && r in c && c[r].parent == null
    requires p in v && k < |v[p].kids| && Holds(v, p, s) && Holds(c, r, Copied(t)) && !t.kind.Document?
    ensures |s.kids| == |v[p].kids|
    ensures var l := v[p].kids;
            var d := Below(v, l[k], s.kids[k]);
            && p in v + c && r in v + c && l[k] in v && r != l[k]
            && v[l[k]].prev == KidOrNull(l, k - 1) && v[l[k]].next == KidOrNull(l, k + 1)
            && (v[l[k]].prev == null || (v[l[k]].prev in v && v[l[k]].prev != l[k]))
            && (v[l[k]].next == null || (v[l[k]].next in v && v[l[k]].next != l[k]))
            && Replaced(v, c, ReplaceWrites(v + c, p, r, l[k], l[..k] + [r] + l[k + 1..]) - d, p, k, r, s, t)
  {
    hide Holds, Under, Forest, RemovedAt, InsertedAt, ReplaceWrites, Below, ListOk, Copied, Grafted;
    HoldsRoot(v, p, s);
    ListAt(v, null, p);
    var l := v[p].kids;
    Around(v, p, k);
    RemovedJoin(v, c, p, k);
    PruneReady(v, p, k, s);
    var d := Below(v, l[k], s.kids[k]);
    var u := RemovedAt(v, p, k) - d;
    JoinCut(RemovedAt(v, p, k), c, d);
    RemovedKeeps(v, p, k);
    KidIn(v, l[k], s.kids[k]);
    GraftOk(v, c, p, k, r, t);
    CutInserted(l, k, r);
    CutInserted(s.kids, k, Copied(t));
    GraftOk(u, c, p, k, r, t);
    InsertedFields(u + c, p, k, r);
    ReplaceWritten(v + c, p, k, r, d);
    GraftedTree(u, c, InsertedAt(u + c, p, k, r), p, k, r, s.(kids := s.kids[..k] + s.kids[k + 1..]), t);
  }

  lemma KidIn(v: View, n: Node, t: Tree)
    requires n in v
    ensures n in Below(v, n, t)
  {
  }

  // ---------------------------------------------------------------- what LinkEndChild gives

  /** The document found within k steps upwards from n, and null where there is none. */
  ghost function DocumentOf(v: View, n: Node?, k: nat): Node? {
    if n == null || n !in v then null
    else if v[n].kind.Document? then n
    else if k == 0 then null
    else DocumentOf(v, v[n].parent, k - 1)
  }

  /** The assertions of LinkEndChild: the node has no parent but p, and no document but p's. */
  ghost predicate LinkAllowed(v: View, p: Node, node: Node) {
    && p in v && node in v && (v[node].parent == null || v[node].parent == p)
    && (v[node].kind.Document? ==> exists k: nat :: DocumentOf(v, p, k) == node)
  }

  lemma AllowedParent(v: View, p: Node, node: Node)
    requires LinkAllowed(v, p, node)
    ensures v[node].parent == null || v[node].parent == p
  {
  }

  /** A document is found only from the nodes below it. */
  lemma {:induction false} DocumentOwns(v: View, node: Node, t: Tree, n: Node?, k: nat)
    requires Forest(v, node) && Holds(v, node, t) && DocumentOf(v, n, k) == node
    ensures n != null && Under(v, node, t, n)
    decreases k
  {
    if n != node {
      DocumentOwns(v, node, t, v[n].parent, k - 1);
      assert Rooted(v, n);
      var p := v[n].parent;
      var i :| 0 <= i < |v[p].kids| && v[p].kids[i] == n;
      UnderDown(v, node, t, p, i);
    }
  }

  /** The assertions let a document through only to a node below it, which is deleted with it. */
  lemma DocumentGone(v: View, p: Node, node: Node, t: Tree)
    requires Forest(v, node) && Holds(v, node, t) && LinkAllowed(v, p, node) && v[node].kind.Document?
    ensures p in Below(v, node, t) && Forest(v - Below(v, node, t), null)
  {
    var k: nat :| DocumentOf(v, p, k) == node;
    DocumentOwns(v, node, t, p, k);
    forall q, i | q in v && 0 <= i < |v[q].kids|
      ensures v[q].kids[i] != node
    {
      ListAt(v, node, q);
      assert KidOk(v, q, i);
    }
    DropOk(v, node, t);
  }

  /** From v to w the children of p changed and nothing else of what a tree is made of. */
  ghost predicate Relinked(v: View, w: View, p: Node) {
    && p in v && p in w
    && forall n :: n in v ==>
         n in w && w[n].kind == v[n].kind && w[n].info == v[n].info && (n != p ==> w[n].kids == v[n].kids)
  }

  lemma {:induction false} UnderMoves(v: View, w: View, n: Node, t: Tree, p: Node, u: Tree)
    requires Holds(v, n, t) && Holds(w, n, u) && Relinked(v, w, p) && Under(v, n, t, p)
    ensures Under(w, n, u, p)
    decreases t
  {
    if p != n {
      var i :| 0 <= i < |t.kids| && Under(v, v[n].kids[i], t.kids[i], p);
      UnderMoves(v, w, v[n].kids[i], t.kids[i], p, u.kids[i]);
    }
  }

  /** With a node above p among the children of p, there is no tree at p. */
  lemma NoTree(v: View, w: View, p: Node, node: Node, t: Tree, u: Tree)
    requires Holds(v, node, t) && Relinked(v, w, p) && node in w[p].kids && Under(v, node, t, p)
    ensures !Holds(w, p, u)
  {
    if Holds(w, p, u) {
      var i :| 0 <= i < |w[p].kids| && w[p].kids[i] == node;
      HoldsKid(w, p, u, i);
      UnderMoves(v, w, node, t, p, u.kids[i]);
      NotUnderKid(w, p, u, i);
    }
  }

  lemma TreeAway(v: View, w: View, p: Node, n: Node, t: Tree)
    requires Holds(v, n, t) && Relinked(v, w, p) && !Under(v, n, t, p)
    ensures Holds(w, n, t)
  {
    HoldsSame(v, w, n, t);
  }

  /** A node linked as the last child of p brings its tree along exactly when p is not below it. */
  lemma LinkedTree(v: View, w: View, p: Node, node: Node, s: Tree, t: Tree)
    requires Holds(v, p, s) && Holds(v, node, t) && Relinked(v, w, p) && w[p].kids == v[p].kids + [node]
    ensures Holds(w, p, s.(kids := s.kids + [t])) <==> !Under(v, node, t, p)
    ensures Under(v, node, t, p) ==> forall u :: !Holds(w, p, u)
  {
    hide Under;
    HoldsRoot(v, p, s);
    if Under(v, node, t, p) {
      assert w[p].kids[|v[p].kids|] == node;
      forall u
        ensures !Holds(w, p, u)
      {
        NoTree(v, w, p, node, t, u);
      }
    } else {
      forall i | 0 <= i <= |s.kids|
        ensures Holds(w, w[p].kids[i], (s.kids + [t])[i])
      {
        if i < |s.kids| {
          HoldsKid(v, p, s, i);
          NotUnderKid(v, p, s, i);
        }
        TreeAway(v, w, p, w[p].kids[i], (s.kids + [t])[i]);
      }
    }
  }

  /** In memory there is a list of children at p, and the tree u. */
  ghost predicate Sound(v: View, p: Node, u: Tree) {
    ListOk(v, p) && Holds(v, p, u)
  }

  lemma EndFields(v: View, p: Node, node: Node, c: seq<Node>)
    requires p in v && node in v && (v[p].lastChild == null || v[p].lastChild in v)
    ensures var w := EndWrites(v, p, node, c);
            Relinked(v, w, p) && w[p].kids == c && w[p].lastChild == node
  {
    forall n | n in v
      ensures var w := EndWrites(v, p, node, c);
              w[n].kind == v[n].kind && w[n].info == v[n].info && w[n].kids == if n == p then c else v[n].kids
    {
      EndField(v, p, node, c, n);
    }
    EndLast(v, p, node, c);
    hide EndWrites;
  }

  lemma EndField(v: View, p: Node, node: Node, c: seq<Node>, n: Node)
    requires p in v && node in v && (v[p].lastChild == null || v[p].lastChild in v) && n in v
    ensures var f := EndWrites(v, p, node, c)[n];
            f.kind == v[n].kind && f.info == v[n].info && f.kids == if n == p then c else v[n].kids
  {
  }

  lemma EndLast(v: View, p: Node, node: Node, c: seq<Node>)
    requires p in v && node in v && (v[p].lastChild == null || v[p].lastChild in v)
    ensures EndWrites(v, p, node, c)[p].lastChild == node
  {
  }

  lemma EndSound(v: View, p: Node, node: Node, s: Tree, t: Tree)
    requires Forest(v, node) && LinkAllowed(v, p, node) && !v[node].kind.Document?
    requires Holds(v, p, s) && Holds(v, node, t) && node !in v[p].kids && !Under(v, node, t, p)
    ensures v[p].lastChild == null || v[p].lastChild in v
    ensures var w := EndWrites(v, p, node, v[p].kids + [node]);
            Forest(w, null) && Sound(w, p, s.(kids := s.kids + [t]))
  {
    assert node != p;
    hide Forest, Holds, Under, EndWrites, InsertedAt, ListOk;
    ListAt(v, node, p);
    AllowedParent(v, p, node);
    InsertOk(v, p, |v[p].kids|, node);
    EndWritten(v, p, node);
    EndFields(v, p, node, v[p].kids + [node]);
    LinkedTree(v, EndWrites(v, p, node, v[p].kids + [node]), p, node, s, t);
    ListAt(EndWrites(v, p, node, v[p].kids + [node]), null, p);
  }

  lemma LastKid(v: View, p: Node)
    requires ListOk(v, p) && v[p].lastChild != null
    ensures v[p].lastChild in v[p].kids
  {
  }

  lemma EndUnsound(v: View, p: Node, node: Node, s: Tree, t: Tree, c: seq<Node>, u: Tree)
    requires Forest(v, node) && LinkAllowed(v, p, node) && (v[p].lastChild == null || v[p].lastChild in v)
    requires Holds(v, p, s) && Holds(v, node, t) && (node in v[p].kids || Under(v, node, t, p))
    ensures !Sound(EndWrites(v, p, node, c), p, u)
  {
    hide EndWrites, Holds, Under, Forest, ListOk;
    var w := EndWrites(v, p, node, c);
    EndFields(v, p, node, c);
    if Sound(w, p, u) {
      if Under(v, node, t, p) {
        LastKid(w, p);
        NoTree(v, w, p, node, t, u);
      } else {
        var k :| 0 <= k < |v[p].kids| && v[p].kids[k] == node;
        AllRooted(v, p, k);
        HoldsRoot(v, p, s);
        NotUnderKid(v, p, s, k);
        KidIsUnder(v, node, s.kids[k]);
        LinkTwice(v, p, k, c);
      }
    }
  }

  lemma AllRooted(v: View, p: Node, k: nat)
    requires p in v && k < |v[p].kids| && Forest(v, v[p].kids[k])
    ensures Forest(v, null)
  {
    ListAt(v, v[p].kids[k], p);
    assert KidOk(v, p, k);
  }

  lemma KidIsUnder(v: View, n: Node, t: Tree)
    ensures Under(v, n, t, n)
  {
  }

  /** After LinkEndChild the memory at p is a list of children and a tree exactly when the node was no
      child of p yet and p not below it; the assertions check neither. */
  lemma LinkExact(v: View, p: Node, node: Node, s: Tree, t: Tree)
    requires Forest(v, node) && LinkAllowed(v, p, node) && !v[node].kind.Document?
    requires Holds(v, p, s) && Holds(v, node, t)
    ensures v[p].lastChild == null || v[p].lastChild in v
    ensures (exists c, u :: Sound(EndWrites(v, p, node, c), p, u)) <==> node !in v[p].kids && !Under(v, node, t, p)
  {
    LastIn(v, node, p);
    hide Forest, Holds, Under, EndWrites, Sound, LinkAllowed;
    if node !in v[p].kids && !Under(v, node, t, p) {
      EndSound(v, p, node, s, t);
    } else {
      forall c, u
        ensures !Sound(EndWrites(v, p, node, c), p, u)
      {
        EndUnsound(v, p, node, s, t, c, u);
      }
    }
  }

  lemma LastIn(v: View, loose: Node?, p: Node)
    requires Forest(v, loose) && p in v
    ensures v[p].lastChild == null || v[p].lastChild in v
  {
    ListAt(v, loose, p);
    if v[p].kids != [] {
      assert KidOk(v, p, |v[p].kids| - 1);
    }
  }

  /** Linked a second time, a child breaks the list: no sequence of nodes is spelled by what is then in memory. */
  lemma LinkTwice(v: View, p: Node, k: nat, c: seq<Node>)
    requires Forest(v, null) && p in v && k < |v[p].kids| && v[p].kids[k] != p
    ensures var node := v[p].kids[k];
            && LinkAllowed(v, p, node) && (v[p].lastChild == null || v[p].lastChild in v)
            && !ListOk(EndWrites(v, p, node, c), p)
  {
    var l := v[p].kids;
    ListAt(v, null, p);
    assert KidOk(v, p, k);
    Around(v, p, k);
    Around(v, p, |l| - 1);
    var w := EndWrites(v, p, l[k], c);
    TwiceWritten(v, p, k, c);
    hide EndWrites, Forest;
    if ListOk(w, p) {
      if c != [] {
        assert KidOk(w, p, |c| - 1);
        if k < |l| - 1 && |c| > 1 && c[|c| - 2] == l[|l| - 1] {
          var i := TwiceBack(v, w, p, k, |l| - 1, |c| - 2);
        }
      }
    }
  }

  lemma TwiceWritten(v: View, p: Node, k: nat, c: seq<Node>)
    requires p in v && ListOk(v, p) && k < |v[p].kids| && v[p].kids[k] != p
    requires v[p].lastChild in v && v[p].kids[k] in v
    ensures var l := v[p].kids;
            var w := EndWrites(v, p, l[k], c);
            && p in w && l[k] in w && l[|l| - 1] in w
            && w[p].kids == c && w[p].lastChild == l[k] && w[l[k]].prev == l[|l| - 1] && w[l[|l| - 1]].next == l[k]
            && forall n :: n in v && n != l[k] ==> n in w && w[n].prev == v[n].prev
  {
  }

  /** Walking back from the last child of old, the list meets the relinked node before its end. */
  lemma {:induction false} TwiceBack(v: View, w: View, p: Node, k: nat, j: nat, at: nat) returns (i: nat)
    requires p in v && ListOk(v, p) && ListOk(w, p) && k <= j < |v[p].kids|
    requires forall n :: n in v && n != v[p].kids[k] ==> n in w && w[n].prev == v[n].prev
    requires at < |w[p].kids| - 1 && w[p].kids[at] == v[p].kids[j]
    ensures i < |w[p].kids| - 1 && w[p].kids[i] == v[p].kids[k]
    decreases j
  {
    i := at;
    if j > k {
      Around(v, p, j);
      assert KidOk(w, p, at);
      i := TwiceBack(v, w, p, k, j - 1, at - 1);
    }
  }

  // ---------------------------------------------------------------- what a copy keeps

  /** Of its attributes a copy keeps those before the first blank one behind the first; of its children all,
      or, where the node is no element and no document, none. */
  predicate Whole(t: Tree) {
    && (t.kind.Element? ==> forall i :: 0 < i < |t.kind.attributes| ==> t.kind.attributes[i] != ("", ""))
    && (t.kids != [] ==> t.kind.Element? || t.kind.Document?)
    && forall i :: 0 <= i < |t.kids| ==> Whole(t.kids[i])
  }

  ghost predicate NamesUnique(t: Tree) {
    && (t.kind.Element? ==> XmlAttributes.Unique(t.kind.attributes))
    && forall i :: 0 <= i < |t.kids| ==> NamesUnique(t.kids[i])
  }

  lemma CopiedKindExact(k: Kind)
    requires k.Element? ==> XmlAttributes.Unique(k.attributes)
    ensures CopiedKind(k) == k
            <==> (k.Element? ==> forall i :: 0 < i < |k.attributes| ==> k.attributes[i] != ("", ""))
  {
    hide XmlAttributes.Visible, XmlAttributes.UpdatedAll;
    if k.Element? {
      XmlAttributes.VisibleAll(k.attributes);
      XmlAttributes.CopyVisible(k.attributes);
    }
  }

  /** What a copy keeps of any node: kind, value and position; all data of its kind, of attributes those before
      the first blank one, the later of two with the same name counting; and, of elements and documents only, copies
      of all children in order. */
  lemma CopiedParts(t: Tree)
    ensures var c := Copied(t);
            && c.info == t.info
            && (if t.kind.Element? then
                  c.kind == Element(XmlAttributes.UpdatedAll([], XmlAttributes.Visible(t.kind.attributes)))
                else c.kind == t.kind)
            && (if t.kind.Element? || t.kind.Document? then
                  |c.kids| == |t.kids| && forall i :: 0 <= i < |t.kids| ==> c.kids[i] == Copied(t.kids[i])
                else c.kids == [])
  {
  }

  /** A copy equals its original exactly when no attribute behind an element's first one is blank and only
      elements and documents have children. */
  lemma {:induction false} CopiedExact(t: Tree)
    requires NamesUnique(t)
    ensures Copied(t) == t <==> Whole(t)
    decreases t
  {
    CopiedKindExact(t.kind);
    forall i | 0 <= i < |t.kids|
      ensures Copied(t.kids[i]) == t.kids[i] <==> Whole(t.kids[i])
    {
      CopiedExact(t.kids[i]);
    }
    hide CopiedKind;
    if CopiesKids(t.kind) {
      assert forall i :: 0 <= i < |t.kids| ==> Copied(t).kids[i] == Copied(t.kids[i]);
    }
  }
}
