/** The attributes of a TinyXML element: a circular list with a sentinel. */
module XmlAttributes {

  type Pair = (string, string)

  // ---------------------------------------------------------------- the list as a sequence of pairs

  /** Position of the first pair with the name, or the number of pairs. */
  function Position(ps: seq<Pair>, name: string): (k: nat)
    ensures k <= |ps|
    ensures k < |ps| ==> ps[k].0 == name
    ensures forall i :: 0 <= i < k ==> ps[i].0 != name
  {
    if ps == [] || ps[0].0 == name then 0 else 1 + Position(ps[1..], name)
  }

  /** SetAttribute: the value of the name changes, or a pair is added behind the others. */
  function Updated(ps: seq<Pair>, name: string, value: string): seq<Pair> {
    var k := Position(ps, name);
    if k < |ps| then ps[k := (name, value)] else ps + [(name, value)]
  }

  /** Setting a name that is there gives exactly its first pair the new value ... */
  lemma UpdatedThere(ps: seq<Pair>, k: nat, value: string)
    requires k < |ps| && forall i :: 0 <= i < k ==> ps[i].0 != ps[k].0
    ensures Updated(ps, ps[k].0, value) == ps[..k] + [(ps[k].0, value)] + ps[k + 1..]
  {
    assert Position(ps, ps[k].0) == k;
  }

  /** ... and a new name comes last. */
  lemma UpdatedNew(ps: seq<Pair>, name: string, value: string)
    requires forall i :: 0 <= i < |ps| ==> ps[i].0 != name
    ensures Updated(ps, name, value) == ps + [(name, value)]
  {
    assert Position(ps, name) == |ps|;
  }

  ghost predicate Unique(ps: seq<Pair>) {
    forall i, j :: 0 <= i < j < |ps| ==> ps[i].0 != ps[j].0
  }

  predicate Blank(p: Pair) {
    p.0 == "" && p.1 == ""
  }

  /** What First and Next run through: everything before the first blank pair but the first pair. */
  function Visible(ps: seq<Pair>): seq<Pair> {
    if ps == [] then [] else [ps[0]] + Marked(ps[1..])
  }

  function Marked(ps: seq<Pair>): seq<Pair> {
    if ps == [] || Blank(ps[0]) then [] else [ps[0]] + Marked(ps[1..])
  }

  lemma {:induction false} MarkedPrefix(ps: seq<Pair>)
    ensures |Marked(ps)| <= |ps| && Marked(ps) == ps[..|Marked(ps)|]
    ensures |Marked(ps)| < |ps| ==> Blank(ps[|Marked(ps)|])
    ensures forall i :: 0 <= i < |Marked(ps)| ==> !Blank(ps[i])
  {
    if ps != [] && !Blank(ps[0]) {
      MarkedPrefix(ps[1..]);
      assert ps[..|Marked(ps)|] == [ps[0]] + ps[1..][..|Marked(ps)| - 1];
    }
  }

  /** The iteration sees all attributes exactly when none behind the first is blank. */
  lemma VisibleAll(ps: seq<Pair>)
    ensures |Visible(ps)| <= |ps| && Visible(ps) == ps[..|Visible(ps)|]
    ensures Visible(ps) == ps <==> forall i :: 0 < i < |ps| ==> ps[i] != ("", "")
  {
    if ps != [] {
      var t := ps[1..];
      MarkedPrefix(t);
      assert [ps[0]] + t == ps;
      assert Visible(ps)[1..] == Marked(t);
      assert forall i :: 0 < i < |ps| ==> ps[i] == t[i - 1];
      assert ps[..|Visible(ps)|] == [ps[0]] + t[..|Marked(t)|];
    }
  }

  // ---------------------------------------------------------------- the list in memory

  class Attribute {
    var name: string
    var value: string
    var prev: Attribute?
    var next: Attribute?

    constructor ()
      ensures name == "" && value == ""
    {
      name, value, prev, next := "", "", null, null;
    }
  }

  /** What the fields of an attribute hold. */
  datatype Fields = Fields(name: string, value: string, prev: Attribute?, next: Attribute?)

  type Snapshot = map<Attribute, Fields>

  ghost function Snap(s: set<Attribute>): (m: Snapshot)
    reads s
    ensures m.Keys == s
  {
    map a | a in s :: Fields(a.name, a.value, a.prev, a.next)
  }

  function PutNext(m: Snapshot, a: Attribute, b: Attribute?): (m': Snapshot)
    requires a in m
    ensures m'.Keys == m.Keys
  {
    m[a := m[a].(next := b)]
  }

  function PutPrev(m: Snapshot, a: Attribute, b: Attribute?): (m': Snapshot)
    requires a in m
    ensures m'.Keys == m.Keys
  {
    m[a := m[a].(prev := b)]
  }

  /** The elements at i and behind it point at each other. */
  ghost predicate RingLink(m: Snapshot, r: seq<Attribute>, i: nat) {
    i < |r|
    && var j := if i + 1 == |r| then 0 else i + 1;
       r[i] in m && r[j] in m && m[r[i]].next == r[j] && m[r[j]].prev == r[i]
  }

  /** r is one circular doubly linked list. */
  ghost predicate RingOk(m: Snapshot, r: seq<Attribute>) {
    && (forall i, j :: 0 <= i < j < |r| ==> r[i] != r[j])
    && (forall i: nat {:trigger RingLink(m, r, i)} :: i < |r| ==> RingLink(m, r, i))
  }

  lemma RingAt(m: Snapshot, r: seq<Attribute>, i: nat)
    requires RingOk(m, r) && i < |r|
    ensures r[i] in m
    ensures m[r[i]].next == r[if i + 1 == |r| then 0 else i + 1]
    ensures m[r[i]].prev == r[if i == 0 then |r| - 1 else i - 1]
  {
    assert RingLink(m, r, i) && RingLink(m, r, if i == 0 then |r| - 1 else i - 1);
  }

  /** Only the links of its own elements matter to a ring. */
  lemma RingSame(m: Snapshot, n: Snapshot, r: seq<Attribute>)
    requires RingOk(m, r)
    requires forall a :: a in r && a in m ==> a in n && n[a].prev == m[a].prev && n[a].next == m[a].next
    ensures RingOk(n, r)
  {
    forall i: nat | i < |r|
      ensures RingLink(n, r, i)
    {
      assert RingLink(m, r, i);
    }
  }

  ghost predicate SameTexts(m: Snapshot, n: Snapshot) {
    m.Keys == n.Keys && forall a :: a in m ==> n[a].name == m[a].name && n[a].value == m[a].value
  }

  /** The writes of Add: a comes in between the last element z and the first element f. */
  function Appended(m: Snapshot, a: Attribute, z: Attribute, f: Attribute): (n: Snapshot)
    requires a in m && z in m && f in m
    ensures n.Keys == m.Keys
  {
    PutPrev(PutNext(PutPrev(PutNext(m, a, f), a, z), z, a), f, a)
  }

  lemma RingGrown(m: Snapshot, r: seq<Attribute>, a: Attribute)
    requires RingOk(m, r) && r != [] && a !in r && a in m && r[0] in m && r[|r| - 1] in m
    ensures var n := Appended(m, a, r[|r| - 1], r[0]); RingOk(n, r + [a]) && SameTexts(m, n)
  {
    var n := Appended(m, a, r[|r| - 1], r[0]);
    var c := r + [a];
    forall i: nat | i < |c|
      ensures RingLink(n, c, i)
    {
      assert i < |r| ==> RingLink(m, r, i);
    }
  }

  /** The writes of Remove: z and f, around a, point at each other, and a nowhere. */
  function Removed(m: Snapshot, a: Attribute, z: Attribute, f: Attribute): (n: Snapshot)
    requires a in m && z in m && f in m
    ensures n.Keys == m.Keys
  {
    PutPrev(PutNext(PutPrev(PutNext(m, z, f), f, z), a, null), a, null)
  }

  lemma RingCut(m: Snapshot, r: seq<Attribute>, k: nat)
    requires RingOk(m, r) && 0 < k < |r|
    requires r[k - 1] in m && r[if k + 1 == |r| then 0 else k + 1] in m && r[k] in m
    ensures var n := Removed(m, r[k], r[k - 1], r[if k + 1 == |r| then 0 else k + 1]);
            RingOk(n, r[..k] + r[k + 1..]) && SameTexts(m, n)
  {
    var n := Removed(m, r[k], r[k - 1], r[if k + 1 == |r| then 0 else k + 1]);
    var c := r[..k] + r[k + 1..];
    assert forall i :: 0 <= i < |c| ==> c[i] == r[if i < k then i else i + 1];
    assert RingLink(m, r, k) && RingLink(m, r, k - 1);
    forall i: nat | i < |c|
      ensures RingLink(n, c, i)
    {
      assert RingLink(m, r, if i < k then i else i + 1);
    }
  }

  function PairsOf(m: Snapshot, r: seq<Attribute>): (ps: seq<Pair>)
    requires forall a :: a in r ==> a in m
    ensures |ps| == |r|
  {
    seq(|r|, i requires 0 <= i < |r| => (m[r[i]].name, m[r[i]].value))
  }

  lemma SamePairs(m: Snapshot, n: Snapshot, r: seq<Attribute>)
    requires forall a :: a in r ==> a in m && a in n && n[a].name == m[a].name && n[a].value == m[a].value
    ensures PairsOf(m, r) == PairsOf(n, r)
  {
  }

  lemma PairsGrown(m: Snapshot, n: Snapshot, r: seq<Attribute>, a: Attribute)
    requires SameTexts(m, n) && a in m && forall b :: b in r ==> b in m
    ensures PairsOf(n, r + [a]) == PairsOf(m, r) + [(m[a].name, m[a].value)]
  {
  }

  lemma PairsCut(m: Snapshot, n: Snapshot, r: seq<Attribute>, k: nat)
    requires SameTexts(m, n) && k < |r| && forall b :: b in r ==> b in m
    ensures PairsOf(n, r[..k] + r[k + 1..]) == PairsOf(m, r)[..k] + PairsOf(m, r)[k + 1..]
  {
  }

  lemma PairPut(m: Snapshot, n: Snapshot, r: seq<Attribute>, k: nat)
    requires k < |r| && m.Keys == n.Keys && forall i, j :: 0 <= i < j < |r| ==> r[i] != r[j]
    requires forall b :: b in r ==> b in m && (b != r[k] ==> n[b].name == m[b].name && n[b].value == m[b].value)
    ensures PairsOf(n, r) == PairsOf(m, r)[k := (n[r[k]].name, n[r[k]].value)]
  {
  }

  lemma RemovedRing(z: Attribute, l: seq<Attribute>, k: nat)
    requires k < |l|
    ensures var r := [z] + l; r[..k + 1] + r[k + 2..] == [z] + (l[..k] + l[k + 1..])
  {
  }

  lemma AddedRing(z: Attribute, l: seq<Attribute>, a: Attribute)
    ensures [z] + l + [a] == [z] + (l + [a])
  {
  }

  lemma SnapAt(s: set<Attribute>, a: Attribute)
    requires a in s
    ensures Snap(s)[a] == Fields(a.name, a.value, a.prev, a.next)
  {
  }

  lemma TextsAt(m: Snapshot, n: Snapshot, a: Attribute)
    requires SameTexts(m, n) && a in m
    ensures n[a].name == m[a].name && n[a].value == m[a].value
  {
  }

  method SetNext(a: Attribute, b: Attribute?, ghost s: set<Attribute>)
    requires a in s
    modifies a`next
    ensures a.next == b && Snap(s) == PutNext(old(Snap(s)), a, b)
  {
    a.next := b;
  }

  method SetPrev(a: Attribute, b: Attribute?, ghost s: set<Attribute>)
    requires a in s
    modifies a`prev
    ensures a.prev == b && Snap(s) == PutPrev(old(Snap(s)), a, b)
  {
    a.prev := b;
  }

  class AttributeSet {
    const sentinel: Attribute
    ghost var list: seq<Attribute>

    ghost function Ring(): seq<Attribute>
      reads this
    {
      [sentinel] + list
    }

    ghost function Nodes(): (s: set<Attribute>)
      reads this
    {
      set a | a in Ring()
    }

    /** One circular doubly linked list through the sentinel, which is blank. */
    ghost predicate Valid()
      reads this, sentinel, list
    {
      var m := Snap(Nodes());
      RingOk(m, Ring()) && m[sentinel].name == "" && m[sentinel].value == ""
    }

    ghost function Pairs(): (ps: seq<Pair>)
      reads this, sentinel, list
      ensures |ps| == |list|
    {
      PairsOf(Snap(Nodes()), list)
    }

    constructor ()
      ensures Valid() && Pairs() == [] && fresh(sentinel)
    {
      var s := new Attribute();
      s.next := s;
      s.prev := s;
      sentinel := s;
      list := [];
      new;
      assert Ring() == [s];
      assert RingLink(Snap(Nodes()), [s], 0);
    }

    /** The attributes around position k of the ring; the sentinel is at 0. */
    lemma At(k: nat)
      requires Valid() && k <= |list|
      ensures Ring()[k].next == (if k == |list| then sentinel else list[k])
      ensures Ring()[k].prev == Ring()[if k == 0 then |list| else k - 1]
      ensures k < |list| ==> Ring()[k + 1] == list[k] && Ring()[0] != list[k]
      ensures k < |list| ==> Pairs()[k] == (list[k].name, list[k].value)
    {
      RingAt(Snap(Nodes()), Ring(), k);
      assert k < |list| ==> Ring()[k + 1] == list[k];
    }

    method Find(name: string) returns (a: Attribute?)
      requires Valid()
      ensures var k := Position(Pairs(), name); a == if k < |list| then list[k] else null
    {
      hide Valid, Pairs;
      ghost var i := 0;
      At(0);
      var node := sentinel.next;
      while node != sentinel
        invariant 0 <= i <= |list|
        invariant node == if i == |list| then sentinel else list[i]
        invariant forall j :: 0 <= j < i ==> Pairs()[j].0 != name
        decreases |list| - i
      {
        At(i);
        if node.name == name {
          return node;
        }
        At(i + 1);
        node := node.next;
        i := i + 1;
      }
      if i < |list| {
        At(i);
      }
      return null;
    }

    lemma Inside()
      ensures sentinel in Nodes() && forall a :: a in list ==> a in Nodes()
      ensures forall a :: a in Nodes() ==> a == sentinel || a in list
    {
      forall a | a in list
        ensures a in Nodes()
      {
        assert a in Ring();
      }
    }

    lemma Apart()
      requires Valid()
      ensures forall i, j :: 0 <= i < j < |list| ==> list[i] != list[j]
    {
      forall i, j | 0 <= i < j < |list|
        ensures list[i] != list[j]
      {
        assert Ring()[i + 1] != Ring()[j + 1];
      }
    }

    /** The invariant on a snapshot that may hold other attributes, too. */
    lemma Taken(s: set<Attribute>)
      requires Valid() && Nodes() <= s
      ensures var m := Snap(s);
              && (forall a :: a in Ring() ==> a in m)
              && RingOk(m, Ring()) && m[sentinel].name == "" && m[sentinel].value == ""
              && PairsOf(m, list) == Pairs()
    {
      var m := Snap(s);
      RingSame(Snap(Nodes()), m, Ring());
      SamePairs(Snap(Nodes()), m, list);
    }

    lemma Held(s: set<Attribute>)
      requires Nodes() <= s
      requires var m := Snap(s); RingOk(m, Ring()) && m[sentinel].name == "" && m[sentinel].value == ""
      ensures Valid() && Pairs() == PairsOf(Snap(s), list)
    {
      var m := Snap(s);
      RingSame(m, Snap(Nodes()), Ring());
      SamePairs(Snap(Nodes()), m, list);
    }

    /** What the links written by Add make of the list. */
    lemma AddReady(a: Attribute, s: set<Attribute>)
      requires Valid() && a != sentinel && a !in list && s == Nodes() + {a}
      ensures sentinel.prev in s && sentinel in s
      ensures var n := Appended(Snap(s), a, sentinel.prev, sentinel);
              && RingOk(n, [sentinel] + (list + [a])) && n[sentinel].name == "" && n[sentinel].value == ""
              && PairsOf(n, list + [a]) == Pairs() + [(a.name, a.value)]
    {
      hide Valid, Pairs, Snap, RingOk, PairsOf, Appended, SameTexts;
      var m := Snap(s);
      SnapAt(s, a);
      At(0);
      Taken(s);
      RingGrown(m, Ring(), a);
      AddedRing(sentinel, list, a);
      PairsGrown(m, Appended(m, a, sentinel.prev, sentinel), list, a);
      TextsAt(m, Appended(m, a, sentinel.prev, sentinel), sentinel);
    }

    /** Add: the new attribute becomes the sentinel's predecessor. */
    method Add(addMe: Attribute)
      requires Valid() && addMe != sentinel && addMe !in list
      requires Position(Pairs(), addMe.name) == |list|
      modifies this`list, sentinel, list, addMe
      ensures Valid() && list == old(list) + [addMe]
      ensures Pairs() == old(Pairs()) + [(old(addMe.name), old(addMe.value))]
    {
      hide Valid, Pairs, Snap, RingOk, PairsOf, Appended, Position;
      ghost var s := Nodes() + {addMe};
      AddReady(addMe, s);
      AddLinks(addMe, sentinel.prev, s);
      Relist(list + [addMe], s);
    }

    /** The list after its links were changed. */
    ghost method Relist(l: seq<Attribute>, s: set<Attribute>)
      requires sentinel in s && forall a :: a in l ==> a in s
      requires var m := Snap(s); RingOk(m, [sentinel] + l) && m[sentinel].name == "" && m[sentinel].value == ""
      modifies this`list
      ensures list == l && Valid() && Pairs() == PairsOf(Snap(s), l)
    {
      list := l;
      Held(s);
    }

    method AddLinks(addMe: Attribute, ghost z: Attribute, ghost s: set<Attribute>)
      requires sentinel in s && addMe in s && z in s && sentinel.prev == z && addMe != sentinel
      modifies addMe`next, addMe`prev, z`next, sentinel`prev
      ensures Snap(s) == Appended(old(Snap(s)), addMe, z, sentinel)
    {
      hide Snap;
      SetNext(addMe, sentinel, s);
      SetPrev(addMe, sentinel.prev, s);
      SetNext(sentinel.prev, addMe, s);
      SetPrev(sentinel, addMe, s);
    }

    /** What the links written by Remove make of the list. */
    lemma RemoveReady(k: nat, s: set<Attribute>)
      requires Valid() && k < |list| && s == Nodes()
      ensures list[k] in s && list[k].prev in s && list[k].next in s
      ensures var a := list[k];
              && var n := Removed(Snap(s), a, a.prev, a.next);
                 var l := list[..k] + list[k + 1..];
                 && RingOk(n, [sentinel] + l) && n[sentinel].name == "" && n[sentinel].value == ""
                 && PairsOf(n, l) == Pairs()[..k] + Pairs()[k + 1..]
    {
      At(k);
      At(k + 1);
      Taken(s);
      hide Valid, Pairs, Snap, RingOk, PairsOf, Removed;
      var r, l := Ring(), list[..k] + list[k + 1..];
      assert r[k + 1] == list[k];
      assert r[k] in s && r[if k + 2 == |r| then 0 else k + 2] in s && r[k + 1] in s;
      RingCut(Snap(s), r, k + 1);
      RemovedRing(sentinel, list, k);
      PairsCut(Snap(s), Removed(Snap(s), list[k], list[k].prev, list[k].next), list, k);
    }

    method RemoveLinks(node: Attribute, ghost p: Attribute, ghost n: Attribute, ghost s: set<Attribute>)
      requires node in s && p in s && n in s && node.prev == p && node.next == n
      modifies p`next, n`prev, node`next, node`prev
      ensures Snap(s) == Removed(old(Snap(s)), node, p, n)
      ensures node.prev == null && node.next == null
    {
      hide Snap;
      var before, behind := node.prev, node.next;
      SetNext(before, behind, s);
      SetPrev(behind, before, s);
      SetNext(node, null, s);
      SetPrev(node, null, s);
    }

    /** The search of Remove; an attribute of the list is always found. */
    method Seek(removeMe: Attribute) returns (node: Attribute, ghost k: nat)
      requires Valid() && removeMe in list
      ensures k < |list| && node == list[k] == removeMe
    {
      hide Valid, Pairs;
      At(0);
      node := sentinel.next;
      k := 0;
      while node != sentinel
        invariant 0 <= k <= |list|
        invariant node == if k == |list| then sentinel else list[k]
        invariant removeMe in list[k..]
        decreases |list| - k
      {
        if node == removeMe {
          return;
        }
        At(k + 1);
        node := node.next;
        k := k + 1;
      }
      if k < |list| {
        At(k);
      }
    }

    /** Remove: the attribute is found, and its neighbours are linked to each other. */
    method Remove(removeMe: Attribute) returns (ghost k: nat)
      requires Valid() && removeMe in list
      modifies this`list, sentinel, list
      ensures k < |old(list)| && old(list[k]) == removeMe && list == old(list[..k]) + old(list[k + 1..])
      ensures Pairs() == old(Pairs()[..k]) + old(Pairs()[k + 1..])
      ensures Valid() && removeMe.prev == null && removeMe.next == null
    {
      hide Valid, Pairs, Snap, RingOk, PairsOf, Removed;
      ghost var s := Nodes();
      var node;
      node, k := Seek(removeMe);
      RemoveReady(k, s);
      RemoveLinks(node, node.prev, node.next, s);
      Relist(list[..k] + list[k + 1..], s);
    }

    /** The attribute of that name, or a new one at the end. While it is added a new attribute has the
        empty name, which therefore must not be taken. */
    method FindOrCreate(name: string) returns (a: Attribute, ghost k: nat)
      requires Valid()
      requires CanSet(Pairs(), name)
      modifies this`list, sentinel, list
      ensures Valid() && k == old(Position(Pairs(), name)) && k < |list| && list[k] == a
      ensures if k < |old(list)| then list == old(list) else fresh(a) && list == old(list) + [a]
      ensures Pairs() == if k < |old(list)| then old(Pairs()) else old(Pairs()) + [(name, "")]
    {
      hide Valid, Pairs;
      k := Position(Pairs(), name);
      var found := Find(name);
      if found != null {
        return found, k;
      }
      a := new Attribute();
      Add(a);
      SetName(a, name, k);
    }

    method SetName(a: Attribute, name: string, ghost k: nat)
      requires Valid() && k < |list| && list[k] == a
      modifies a`name
      ensures Valid() && Pairs() == old(Pairs())[k := (name, old(Pairs())[k].1)]
    {
      ghost var m := Snap(Nodes());
      At(k);
      Apart();
      a.name := name;
      RingSame(m, Snap(Nodes()), Ring());
      PairPut(m, Snap(Nodes()), list, k);
    }

    method SetValue(a: Attribute, value: string, ghost k: nat)
      requires Valid() && k < |list| && list[k] == a
      modifies a`value
      ensures Valid() && Pairs() == old(Pairs())[k := (old(Pairs())[k].0, value)]
    {
      ghost var m := Snap(Nodes());
      At(k);
      Apart();
      a.value := value;
      RingSame(m, Snap(Nodes()), Ring());
      PairPut(m, Snap(Nodes()), list, k);
    }

    /** SetAttribute of an element. */
    method SetAttribute(name: string, value: string)
      requires Valid() && CanSet(Pairs(), name)
      modifies this`list, sentinel, list
      ensures Valid() && Pairs() == Updated(old(Pairs()), name, value)
      ensures list == old(list)
              || (|list| == |old(list)| + 1 && list[..|list| - 1] == old(list) && fresh(list[|list| - 1]))
    {
      hide Valid, Pairs;
      var a, k := FindOrCreate(name);
      SetValue(a, value, k);
    }

    method First() returns (a: Attribute?)
      requires Valid()
      ensures a == if list == [] then null else list[0]
    {
      At(0);
      return if sentinel.next == sentinel then null else sentinel.next;
    }

    /** Next of the attribute at position k: a blank attribute is taken for the sentinel. */
    method Next(a: Attribute, ghost k: nat) returns (b: Attribute?)
      requires Valid() && k < |list| && list[k] == a
      ensures b == if k + 1 == |list| || Pairs()[k + 1] == ("", "") then null else list[k + 1]
    {
      At(k);
      At(k + 1);
      var n := a.next;
      if n.value == "" && n.name == "" {
        return null;
      }
      return n;
    }

    ghost predicate ApartFrom(source: AttributeSet)
      reads this, source
    {
      this != source && Nodes() !! source.Nodes()
    }

    /** One attribute copied from another list, which stays as it is. */
    method CopyOne(attribute: Attribute, source: AttributeSet, ghost i: nat)
      requires Valid() && source.Valid() && ApartFrom(source)
      requires i < |source.list| && attribute == source.list[i] && CanSet(Pairs(), source.Pairs()[i].0)
      modifies this`list, sentinel, list
      ensures Valid() && Pairs() == Updated(old(Pairs()), source.Pairs()[i].0, source.Pairs()[i].1)
      ensures source.Valid() && ApartFrom(source)
      ensures source.list == old(source.list) && source.Pairs() == old(source.Pairs())
      ensures list == old(list)
              || (|list| == |old(list)| + 1 && list[..|list| - 1] == old(list) && fresh(list[|list| - 1]))
    {
      hide Valid, Pairs, CanSet, Updated;
      source.At(i);
      Inside();
      source.Inside();
      ghost var before := Nodes();
      assert source.sentinel in source.Nodes() && source.sentinel !in before;
      assert forall j :: 0 <= j < |source.list| ==> source.list[j] in source.Nodes() && source.list[j] !in before;
      SetAttribute(attribute.name, attribute.value);
      assert forall a :: a in Nodes() ==> a in before || fresh(a);
    }

    /** The attribute loop of CopyTo: every attribute the iteration of source sees is set here. */
    method CopyFrom(source: AttributeSet)
      requires Valid() && source.Valid() && ApartFrom(source)
      requires CanCopy(Pairs(), Visible(source.Pairs()))
      modifies this`list, sentinel, list
      ensures Valid() && Pairs() == UpdatedAll(old(Pairs()), Visible(source.Pairs()))
      ensures source.Valid() && source.list == old(source.list) && source.Pairs() == old(source.Pairs())
    {
      hide Valid, Pairs, CanSet, Updated, Visible, Blank, CanCopy, UpdatedAll, ApartFrom;
      ghost var ps := source.Pairs();
      ghost var vs := Visible(ps);
      VisiblePrefix(ps);
      var attribute := source.First();
      ghost var i := 0;
      assert vs[0..] == vs;
      while attribute != null
        invariant i <= |vs| <= |source.list| && Valid() && source.Valid() && ApartFrom(source)
        invariant source.list == old(source.list) && source.Pairs() == ps
        invariant forall a :: a in list ==> a in old(list) || fresh(a)
        invariant attribute == if i < |vs| then source.list[i] else null
        invariant CanCopy(Pairs(), vs[i..])
        invariant UpdatedAll(Pairs(), vs[i..]) == UpdatedAll(old(Pairs()), vs)
        decreases |vs| - i
      {
        assert vs[i..][0] == ps[i];
        CopyStep(Pairs(), vs[i..]);
        assert vs[i..][1..] == vs[i + 1..];
        assert forall j :: 0 <= j < |list| ==> list[j] in old(list) || fresh(list[j]);
        CopyOne(attribute, source, i);
        assert i + 1 < |ps| ==> (ps[i + 1] == ("", "") <==> i + 1 == |vs|);
        attribute := source.Next(attribute, i);
        i := i + 1;
      }
      CopyDone(Pairs(), vs[i..]);
    }
  }

  // ---------------------------------------------------------------- what a copy holds

  /** SetAttribute meets the assertion of Add: the name is there, or the empty name is not. */
  predicate CanSet(ps: seq<Pair>, name: string) {
    Position(ps, name) < |ps| || Position(ps, "") == |ps|
  }

  predicate CanCopy(ps: seq<Pair>, qs: seq<Pair>)
    decreases |qs|
  {
    qs == [] || (CanSet(ps, qs[0].0) && CanCopy(Updated(ps, qs[0].0, qs[0].1), qs[1..]))
  }

  function UpdatedAll(ps: seq<Pair>, qs: seq<Pair>): seq<Pair>
    decreases |qs|
  {
    if qs == [] then ps else UpdatedAll(Updated(ps, qs[0].0, qs[0].1), qs[1..])
  }

  lemma CopyDone(ps: seq<Pair>, qs: seq<Pair>)
    requires qs == []
    ensures UpdatedAll(ps, qs) == ps
  {
  }

  lemma CopyStep(ps: seq<Pair>, qs: seq<Pair>)
    requires qs != [] && CanCopy(ps, qs)
    ensures CanSet(ps, qs[0].0)
    ensures CanCopy(Updated(ps, qs[0].0, qs[0].1), qs[1..])
    ensures UpdatedAll(ps, qs) == UpdatedAll(Updated(ps, qs[0].0, qs[0].1), qs[1..])
  {
  }

  lemma VisiblePrefix(ps: seq<Pair>)
    ensures var n := |Visible(ps)|;
            && n <= |ps| && Visible(ps) == ps[..n] && (n == 0 <==> ps == [])
            && (0 < n < |ps| ==> ps[n] == ("", "")) && (forall i :: 1 <= i < n ==> ps[i] != ("", ""))
  {
    VisibleAll(ps);
    if ps != [] {
      MarkedPrefix(ps[1..]);
      assert forall i :: 1 <= i < |ps| ==> ps[i] == ps[1..][i - 1];
    }
  }

  /** Names that differ from all before are added in order. */
  lemma {:induction false} CopyUnique(done: seq<Pair>, qs: seq<Pair>)
    requires Unique(done + qs)
    ensures UpdatedAll(done, qs) == done + qs
    decreases |qs|
  {
    if qs == [] {
      assert done + qs == done;
    } else {
      NewName(done, qs);
      CopyUnique(done + [qs[0]], qs[1..]);
    }
  }

  /** Attributes with different names: a copy gets those the iteration sees, in order. */
  lemma CopyVisible(ps: seq<Pair>)
    requires Unique(ps)
    ensures UpdatedAll([], Visible(ps)) == Visible(ps)
  {
    hide UpdatedAll, Visible;
    VisibleAll(ps);
    var vs := Visible(ps);
    assert [] + vs == vs;
    CopyUnique([], vs);
  }

  lemma NewName(done: seq<Pair>, qs: seq<Pair>)
    requires Unique(done + qs) && qs != []
    ensures Position(done, qs[0].0) == |done|
    ensures Updated(done, qs[0].0, qs[0].1) == done + [qs[0]]
    ensures done + [qs[0]] + qs[1..] == done + qs && Unique(done + [qs[0]] + qs[1..])
  {
    hide Position;
    assert (done + qs)[|done|] == qs[0];
    assert forall i :: 0 <= i < |done| ==> (done + qs)[i] == done[i];
    Shift(done, qs);
  }

  lemma Shift(done: seq<Pair>, qs: seq<Pair>)
    requires qs != []
    ensures done + [qs[0]] + qs[1..] == done + qs
  {
    assert qs == [qs[0]] + qs[1..];
  }

  /** The assertion of Add holds throughout exactly when no name but the last is empty. */
  lemma {:induction false} CopyAllowed(done: seq<Pair>, qs: seq<Pair>)
    requires Unique(done + qs) && forall i :: 0 <= i < |done| ==> done[i].0 != ""
    ensures CanCopy(done, qs) <==> forall i :: 0 <= i < |qs| - 1 ==> qs[i].0 != ""
    decreases |qs|
  {
    if qs != [] {
      NewName(done, qs);
      var next := done + [qs[0]];
      if qs[0].0 != "" {
        CopyAllowed(next, qs[1..]);
        assert forall i :: 1 <= i < |qs| - 1 ==> qs[i] == qs[1..][i - 1];
      } else if |qs| > 1 {
        NewName(next, qs[1..]);
        assert next[|done|].0 == "";
      }
    }
  }
}
