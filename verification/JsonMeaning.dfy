/** What the parser makes of a written value, and the printed form letter by letter. */
module JsonMeaning {
  import opened JsonText
  import opened Json
  import opened JsonRoundTrip
  import opened JsonGrammar
  import opened Slices

  // ---------------------------------------------------------------- maps

  /** The order of std::string: the first character that differs decides, or the length. */
  ghost predicate Before(a: string, b: string) {
    exists k: nat :: FirstDifference(a, b, k)
  }

  predicate FirstDifference(a: string, b: string, k: nat) {
    && k <= |a| && k < |b| && a[..k] == b[..k]
    && (k == |a| || (k < |a| && a[k] as int < b[k] as int))
  }

  ghost predicate Ordered(ms: seq<Member>) {
    forall i, j :: 0 <= i < j < |ms| ==> Before(ms[i].name, ms[j].name)
  }

  lemma {:induction false} LessBefore(a: string, b: string)
    ensures Less(a, b) <==> Before(a, b)
  {
    if b == [] {
      assert !Less(a, b);
    } else if a == [] {
      assert FirstDifference(a, b, 0);
    } else {
      LessBefore(a[1..], b[1..]);
      assert a == [a[0]] + a[1..] && b == [b[0]] + b[1..];
      if a[0] < b[0] {
        assert FirstDifference(a, b, 0);
      } else if a[0] == b[0] {
        if Before(a[1..], b[1..]) {
          var k: nat :| FirstDifference(a[1..], b[1..], k);
          assert a[..k + 1] == [a[0]] + a[1..][..k] && b[..k + 1] == [b[0]] + b[1..][..k];
          assert FirstDifference(a, b, k + 1);
        }
        if Before(a, b) {
          var k: nat :| FirstDifference(a, b, k);
          assert k > 0;
          assert a[1..][..k - 1] == a[..k][1..] && b[1..][..k - 1] == b[..k][1..];
          assert FirstDifference(a[1..], b[1..], k - 1);
        }
      } else {
        forall k: nat
          ensures !FirstDifference(a, b, k)
        {
          if 0 < k <= |a| && k < |b| {
            assert a[..k][0] == a[0] && b[..k][0] == b[0];
          }
        }
      }
    }
  }

  lemma {:induction false} LessConnected(a: string, b: string)
    requires a != b && !Less(a, b)
    ensures Less(b, a)
  {
    if a != [] && b != [] && a[0] == b[0] {
      assert a == [a[0]] + a[1..] && b == [b[0]] + b[1..];
      LessConnected(a[1..], b[1..]);
    }
  }

  lemma {:induction false} LessTransitive(a: string, b: string, c: string)
    requires Less(a, b) && Less(b, c)
    ensures Less(a, c)
  {
    if a != [] && b != [] && c != [] && a[0] == b[0] == c[0] {
      LessTransitive(a[1..], b[1..], c[1..]);
    }
  }

  /** The map law of m[name] = v: the name has this value, all other names keep theirs, and the members stay
      in order. */
  lemma {:induction false} InsertMap(ms: seq<Member>, name: string, v: Value)
    requires Sorted(ms)
    ensures Sorted(Insert(ms, name, v))
    ensures forall m :: m in Insert(ms, name, v) <==> m == Member(name, v) || (m in ms && m.name != name)
  {
    if ms != [] {
      var t := ms[1..];
      assert ms == [ms[0]] + t;
      hide Less;
      if ms[0].name == name {
        NotLater(ms);
      } else if Less(name, ms[0].name) {
        FrontOrdered(ms, name, v);
      } else {
        LessConnected(name, ms[0].name);
        InsertMap(t, name, v);
        BackOrdered(ms, name, v);
      }
    }
  }

  lemma NotLater(ms: seq<Member>)
    requires Sorted(ms) && ms != []
    ensures forall m :: m in ms[1..] ==> m.name != ms[0].name
    ensures forall v :: Sorted([Member(ms[0].name, v)] + ms[1..])
  {
    LessIrreflexive(ms[0].name);
  }

  lemma FrontOrdered(ms: seq<Member>, name: string, v: Value)
    requires Sorted(ms) && ms != [] && Less(name, ms[0].name)
    ensures Sorted([Member(name, v)] + ms) && forall m :: m in ms ==> m.name != name
  {
    LessIrreflexive(name);
    forall i | 0 <= i < |ms|
      ensures Less(name, ms[i].name)
    {
      if i > 0 {
        LessTransitive(name, ms[0].name, ms[i].name);
      }
    }
  }

  lemma BackOrdered(ms: seq<Member>, name: string, v: Value)
    requires Sorted(ms) && ms != [] && Less(ms[0].name, name)
    requires Sorted(Insert(ms[1..], name, v))
    requires forall m :: m in Insert(ms[1..], name, v) ==> m == Member(name, v) || m in ms[1..]
    ensures Sorted([ms[0]] + Insert(ms[1..], name, v))
  {
    var r := Insert(ms[1..], name, v);
    forall j | 0 <= j < |r|
      ensures Less(ms[0].name, r[j].name)
    {
      assert r[j] in r;
    }
  }

  // ---------------------------------------------------------------- stored values

  /** The member k is the last one of its name. */
  predicate LastOf(ms: seq<Member>, k: int) {
    0 <= k < |ms| && forall j :: k < j < |ms| ==> ms[j].name != ms[k].name
  }

  /** w is v with every object a map: its names in order, each with the value written last. */
  ghost predicate Denotes(v: Value, w: Value)
    decreases v
  {
    match v
    case Arr(items) =>
      w.Arr? && |w.items| == |items| && forall k :: 0 <= k < |items| ==> Denotes(items[k], w.items[k])
    case Obj(ms) =>
      && w.Obj? && Ordered(w.members)
      && (forall m :: m in w.members ==>
            exists k :: LastOf(ms, k) && ms[k].name == m.name && Denotes(ms[k].value, m.value))
      && (forall k :: LastOf(ms, k) ==> exists m :: m in w.members && m.name == ms[k].name)
    case _ => w == v
  }

  predicate Named(ms: seq<Member>, name: string) {
    exists j :: 0 <= j < |ms| && ms[j].name == name
  }

  /** m is the last member of its name, stored. */
  ghost predicate Latest(ms: seq<Member>, m: Member) {
    exists k :: LastOf(ms, k) && m == Member(ms[k].name, Stored(ms[k].value))
  }

  lemma NamedCons(ms: seq<Member>, name: string)
    requires ms != []
    ensures Named(ms, name) <==> ms[0].name == name || Named(ms[1..], name)
  {
    var t := ms[1..];
    assert forall j :: 0 <= j < |t| ==> t[j] == ms[j + 1];
    if j :| 0 <= j < |t| && t[j].name == name {
      assert ms[j + 1].name == name;
    }
    if j :| 0 <= j < |ms| && ms[j].name == name {
      assert j > 0 ==> t[j - 1].name == name;
    }
  }

  lemma LatestCons(ms: seq<Member>, m: Member)
    requires ms != []
    ensures Latest(ms, m) <==>
            Latest(ms[1..], m) || (m == Member(ms[0].name, Stored(ms[0].value)) && !Named(ms[1..], m.name))
  {
    hide Stored;
    var t := ms[1..];
    assert forall j :: 0 <= j < |t| ==> t[j] == ms[j + 1];
    if k :| LastOf(t, k) && m == Member(t[k].name, Stored(t[k].value)) {
      LastCons(ms, k + 1);
      assert m == Member(ms[k + 1].name, Stored(ms[k + 1].value));
    }
    if k :| LastOf(ms, k) && m == Member(ms[k].name, Stored(ms[k].value)) {
      if k > 0 {
        LastCons(ms, k);
        assert m == Member(t[k - 1].name, Stored(t[k - 1].value));
      } else {
        LastFirst(ms);
      }
    }
    if m == Member(ms[0].name, Stored(ms[0].value)) && !Named(t, m.name) {
      LastFirst(ms);
    }
  }

  lemma LastCons(ms: seq<Member>, k: int)
    requires 0 < k < |ms|
    ensures LastOf(ms, k) <==> LastOf(ms[1..], k - 1)
  {
    var t := ms[1..];
    assert forall j :: 0 <= j < |t| ==> t[j] == ms[j + 1];
    if LastOf(t, k - 1) {
      forall j | k < j < |ms|
        ensures ms[j].name != ms[k].name
      {
        assert ms[j] == t[j - 1];
      }
    }
  }

  lemma LastFirst(ms: seq<Member>)
    requires ms != []
    ensures LastOf(ms, 0) <==> !Named(ms[1..], ms[0].name)
  {
    var t := ms[1..];
    assert forall j :: 0 <= j < |t| ==> t[j] == ms[j + 1];
    if !Named(t, ms[0].name) {
      forall j | 0 < j < |ms|
        ensures ms[j].name != ms[0].name
      {
        assert ms[j] == t[j - 1];
      }
    }
  }

  lemma {:induction false} StoredMap(ms: seq<Member>, acc: seq<Member>)
    requires Sorted(acc)
    ensures Sorted(StoredMembers(ms, acc))
    ensures forall m :: m in StoredMembers(ms, acc) <==> Latest(ms, m) || (m in acc && !Named(ms, m.name))
    decreases |ms|
  {
    if ms != [] {
      var t, acc' := ms[1..], Insert(acc, ms[0].name, Stored(ms[0].value));
      hide Stored, Insert, Sorted, Latest, Named;
      InsertMap(acc, ms[0].name, Stored(ms[0].value));
      StoredMap(t, acc');
      forall m
        ensures m in StoredMembers(ms, acc) <==> Latest(ms, m) || (m in acc && !Named(ms, m.name))
      {
        LatestCons(ms, m);
        NamedCons(ms, m.name);
      }
    }
  }

  /** What is stored is what was written, with every object a map. */
  lemma {:induction false} StoredDenotes(v: Value)
    ensures Denotes(v, Stored(v))
    decreases v
  {
    match v
    case Arr(items) =>
      forall k | 0 <= k < |items|
        ensures Denotes(items[k], StoredItems(items)[k])
      {
        StoredDenotes(items[k]);
      }
    case Obj(ms) =>
      forall k | 0 <= k < |ms|
        ensures Denotes(ms[k].value, Stored(ms[k].value))
      {
        StoredDenotes(ms[k].value);
      }
      StoredObject(ms);
    case _ =>
  }

  lemma StoredObject(ms: seq<Member>)
    requires forall k :: 0 <= k < |ms| ==> Denotes(ms[k].value, Stored(ms[k].value))
    ensures Denotes(Obj(ms), Stored(Obj(ms)))
  {
    var r := StoredMembers(ms, []);
    assert Stored(Obj(ms)) == Obj(r);
    hide Stored, StoredMembers;
    StoredMap(ms, []);
    SortedOrdered(r);
    hide Sorted, Ordered, Named;
    forall m | m in r
      ensures exists k :: LastOf(ms, k) && ms[k].name == m.name && Denotes(ms[k].value, m.value)
    {
      var k :| LastOf(ms, k) && m == Member(ms[k].name, Stored(ms[k].value));
    }
    forall k | LastOf(ms, k)
      ensures exists m :: m in r && m.name == ms[k].name
    {
      var m := Member(ms[k].name, Stored(ms[k].value));
      assert Latest(ms, m);
      assert m in r;
    }
  }

  lemma SortedOrdered(ms: seq<Member>)
    requires Sorted(ms)
    ensures Ordered(ms)
  {
    forall i, j | 0 <= i < j < |ms|
      ensures Before(ms[i].name, ms[j].name)
    {
      LessBefore(ms[i].name, ms[j].name);
    }
  }

  /** Any text of the grammar, with white space and commas put in anyhow and members in any order, parses to the
      value it spells: of several members with one name the last one counts, and none is lost. */
  lemma ParseText(d: Doc)
    requires WellFormed(d)
    ensures exists w :: ParseAt(Text(d), 0) == Parsed(w, |Text(d)|) && Denotes(Meaning(d), w)
  {
    hide ParseAt, Text, WellFormed, Meaning, Stored, Denotes;
    ReadDoc(Text(d), 0, d);
    StoredDenotes(Meaning(d));
  }

  // ---------------------------------------------------------------- the printed form

  /** How a character is printed inside a string. */
  function Letter(c: char): string {
    match c as int
    case 92 => [92 as char, 92 as char]
    case 13 => [92 as char, 114 as char]
    case 10 => [92 as char, 110 as char]
    case 34 => [92 as char, 34 as char]
    case _ => [c]
  }

  function Letters(s: string): string {
    if s == [] then [] else Letter(s[0]) + Letters(s[1..])
  }

  function Numerals(n: nat): string {
    if n < 10 then [(48 + n) as char] else Numerals(n / 10) + [(48 + n % 10) as char]
  }

  /** The layout of the printed form: no white space, and one comma between elements. */
  function Layout(v: Value): Doc
    decreases v, 0
  {
    match v
    case Null => DNull([])
    case Bool(b) => DBool([], b)
    case Int(i) => DInt([], i < 0, Numerals(if i < 0 then -i else i))
    case Real(text) => DReal([], false, text)
    case Str(s) => DStr([], Letters(s))
    case Arr(items) => DArr([], LayoutItems(items, []), [])
    case Obj(ms) => DObj([], LayoutMembers(ms, []), [])
  }

  function LayoutItems(items: seq<Value>, sep: string): seq<DItem>
    decreases items, 1
  {
    if items == [] then [] else [DItem(sep, Layout(items[0]))] + LayoutItems(items[1..], [44 as char])
  }

  function LayoutMembers(ms: seq<Member>, sep: string): seq<DMember>
    decreases ms, 1
  {
    if ms == [] then []
    else [DMember(sep, Letters(ms[0].name), [], Layout(ms[0].value))] + LayoutMembers(ms[1..], [44 as char])
  }

  lemma LetterSame(c: char)
    ensures EscChar(c) == Letter(c)
  {
  }

  lemma {:induction false} LettersSame(s: string)
    ensures Encode(s) == Letters(s) && Escape(s) == Letters(s)
  {
    hide EscChar, Letter, Encode;
    EncodeIsEscape(s);
    if s != [] {
      LetterSame(s[0]);
      LettersSame(s[1..]);
      EncodeIsEscape(s[1..]);
    }
  }

  lemma {:induction false} NumeralsSame(n: nat)
    ensures DecNat(n) == Numerals(n)
  {
    DigitChar(n % 10);
    if n >= 10 {
      NumeralsSame(n / 10);
    }
  }

  lemma DigitChar(d: nat)
    requires d < 10
    ensures Json.Digit(d) == (48 + d) as char
  {
  }

  /** The printed form, character by character. */
  lemma {:induction false} PrintIs(v: Value)
    ensures Print(v) == Text(Layout(v))
    decreases v, 0
  {
    hide Encode, DecNat, Numerals, Letters, PrintItems, PrintMembers, ElementsText, FieldsText, LayoutItems,
         LayoutMembers;
    match v
    case Int(i) =>
      NumeralsSame(if i < 0 then -i else i);
    case Str(s) =>
      LettersSame(s);
    case Arr(items) =>
      PrintItemsIs(items, []);
      PrintNone();
      Enclosed(91 as char, PrintItems(items), 93 as char);
    case Obj(ms) =>
      PrintMembersIs(ms, []);
      PrintNone();
      Enclosed(123 as char, PrintMembers(ms), 125 as char);
    case _ =>
  }

  lemma Enclosed(a: char, t: string, b: char)
    ensures [a] + t + [b] == [a] + (t + ([] + [b])) && [] + t == t
  {
  }

  lemma PrintNone()
    ensures PrintItems([]) == [] && PrintMembers([]) == []
  {
  }

  lemma {:induction false} PrintItemsIs(items: seq<Value>, sep: string)
    ensures ElementsText(LayoutItems(items, sep)) == if items == [] then [] else sep + PrintItems(items)
    decreases items, 1
  {
    hide Print, Text, Layout;
    if items != [] {
      var ds := LayoutItems(items, sep);
      assert ds[0] == DItem(sep, Layout(items[0])) && ds[1..] == LayoutItems(items[1..], [44 as char]);
      PrintIs(items[0]);
      PrintItemsIs(items[1..], [44 as char]);
      assert PrintItems(items) == Print(items[0]) + if |items| == 1 then [] else [44 as char] + PrintItems(items[1..]);
    }
  }

  lemma {:induction false} PrintMembersIs(ms: seq<Member>, sep: string)
    ensures FieldsText(LayoutMembers(ms, sep)) == if ms == [] then [] else sep + PrintMembers(ms)
    decreases ms, 1
  {
    hide Print, Text, Layout, Encode, Letters;
    if ms != [] {
      var ds := LayoutMembers(ms, sep);
      var name, d := Letters(ms[0].name), Layout(ms[0].value);
      assert ds[0] == DMember(sep, name, [], d) && ds[1..] == LayoutMembers(ms[1..], [44 as char]);
      PrintIs(ms[0].value);
      PrintMembersIs(ms[1..], [44 as char]);
      LettersSame(ms[0].name);
      var q, rest := [34 as char] + name + [34 as char], FieldsText(ds[1..]);
      assert PrintMember(ms[0]) == q + [58 as char] + Text(d);
      assert PrintMembers(ms) ==
             if |ms| == 1 then PrintMember(ms[0]) else PrintMember(ms[0]) + [44 as char] + PrintMembers(ms[1..]);
      assert FieldsText(ds) == sep + (q + ([] + ([58 as char] + (Text(d) + rest))));
      hide PrintMember, PrintMembers, FieldsText, LayoutMembers;
      FieldAssoc(sep, q, [58 as char], Text(d), rest);
      assert rest == if |ms| == 1 then [] else [44 as char] + PrintMembers(ms[1..]);
      LastPart(PrintMember(ms[0]), [44 as char], PrintMembers(ms[1..]));
    }
  }

  lemma FieldAssoc(a: string, q: string, c: string, t: string, r: string)
    ensures a + (q + ([] + (c + (t + r)))) == a + ((q + c + t) + r)
  {
  }

  lemma LastPart(m: string, c: string, r: string)
    ensures m + [] == m && m + (c + r) == m + c + r
  {
  }

  // ---------------------------------------------------------------- white space put in

  /** e is d with other white space before its tokens. */
  ghost predicate SameTokens(d: Doc, e: Doc)
    decreases d
  {
    match d
    case DNull(_) => e.DNull?
    case DBool(_, b) => e.DBool? && e.b == b
    case DInt(_, minus, digits) => e.DInt? && e.minus == minus && e.digits == digits
    case DReal(_, minus, body) => e.DReal? && e.minus == minus && e.body == body
    case DStr(_, body) => e.DStr? && e.body == body
    case DArr(_, items, _) =>
      && e.DArr? && |e.items| == |items|
      && forall k :: 0 <= k < |items| ==> SameTokens(items[k].doc, e.items[k].doc)
    case DObj(_, members, _) =>
      && e.DObj? && |e.members| == |members|
      && forall k :: 0 <= k < |members| ==>
           members[k].name == e.members[k].name && SameTokens(members[k].doc, e.members[k].doc)
  }

  lemma {:induction false} ItemValuesAt(items: seq<DItem>, k: nat)
    requires k < |items|
    ensures |ItemValues(items)| == |items| && ItemValues(items)[k] == Meaning(items[k].doc)
    decreases |items|
  {
    hide Meaning;
    if k > 0 {
      ItemValuesAt(items[1..], k - 1);
    } else if |items| > 1 {
      ItemValuesAt(items[1..], 0);
    }
  }

  lemma {:induction false} MemberValuesAt(ms: seq<DMember>, k: nat)
    requires k < |ms|
    ensures |MemberValues(ms)| == |ms| && MemberValues(ms)[k] == Member(Decode(ms[k].name), Meaning(ms[k].doc))
    decreases |ms|
  {
    hide Meaning, Decode;
    if k > 0 {
      MemberValuesAt(ms[1..], k - 1);
    } else if |ms| > 1 {
      MemberValuesAt(ms[1..], 0);
    }
  }

  lemma {:induction false} SameMeaning(d: Doc, e: Doc)
    requires SameTokens(d, e)
    ensures Meaning(d) == Meaning(e)
    decreases d
  {
    hide ItemValues, MemberValues, Decode, Signed;
    match d
    case DArr(_, items, _) =>
      if items == [] {
        assert e.items == [];
      } else {
        forall k | 0 <= k < |items|
          ensures ItemValues(items)[k] == ItemValues(e.items)[k]
          ensures |ItemValues(items)| == |ItemValues(e.items)| == |items|
        {
          ItemValuesAt(items, k);
          ItemValuesAt(e.items, k);
          SameMeaning(items[k].doc, e.items[k].doc);
        }
        ItemValuesAt(items, 0);
        ItemValuesAt(e.items, 0);
        assert ItemValues(items) == ItemValues(e.items);
      }
    case DObj(_, ms, _) =>
      if ms == [] {
        assert e.members == [];
      } else {
        forall k | 0 <= k < |ms|
          ensures MemberValues(ms)[k] == MemberValues(e.members)[k]
          ensures |MemberValues(ms)| == |MemberValues(e.members)| == |ms|
        {
          MemberValuesAt(ms, k);
          MemberValuesAt(e.members, k);
          SameMeaning(ms[k].doc, e.members[k].doc);
        }
        MemberValuesAt(ms, 0);
        MemberValuesAt(e.members, 0);
        assert MemberValues(ms) == MemberValues(e.members);
      }
    case _ =>
  }

  lemma {:induction false} LettersInside(s: string)
    requires NulFree(s)
    ensures Inside(Letters(s), false)
  {
    if s != [] {
      LettersInside(s[1..]);
      var e, r := Letter(s[0]), Letters(s[1..]);
      hide Letters;
      InsideFirst(s[0], r);
      assert Letters(s) == e + r;
    }
  }

  lemma InsideFirst(c: char, r: string)
    requires c as int != 0 && Inside(r, false)
    ensures Inside(Letter(c) + r, false)
  {
    var t := Letter(c) + r;
    if |Letter(c)| == 2 {
      assert t[1..] == [t[1]] + r && t[1..][1..] == r;
    } else {
      assert t[1..] == r;
    }
  }

  lemma {:induction false} NumeralsTen(n: nat)
    ensures Numeral(Numerals(n)) && Ten(Numerals(n)) == n
  {
    if n < 10 {
      assert [(48 + n) as char][..0] == [];
    } else {
      NumeralsTen(n / 10);
      var t := Numerals(n);
      assert t[..|t| - 1] == Numerals(n / 10);
    }
  }

  lemma {:induction false} LayoutItemsAt(items: seq<Value>, sep: string, k: nat)
    requires k < |items|
    ensures |LayoutItems(items, sep)| == |items|
    ensures LayoutItems(items, sep)[k] == DItem(if k == 0 then sep else [44 as char], Layout(items[k]))
    decreases |items|
  {
    hide Layout;
    if k > 0 {
      LayoutItemsAt(items[1..], [44 as char], k - 1);
    } else if |items| > 1 {
      LayoutItemsAt(items[1..], [44 as char], 0);
    }
  }

  lemma {:induction false} LayoutMembersAt(ms: seq<Member>, sep: string, k: nat)
    requires k < |ms|
    ensures |LayoutMembers(ms, sep)| == |ms|
    ensures LayoutMembers(ms, sep)[k]
         == DMember(if k == 0 then sep else [44 as char], Letters(ms[k].name), [], Layout(ms[k].value))
    decreases |ms|
  {
    hide Layout, Letters;
    if k > 0 {
      LayoutMembersAt(ms[1..], [44 as char], k - 1);
    } else if |ms| > 1 {
      LayoutMembersAt(ms[1..], [44 as char], 0);
    }
  }

  lemma {:induction false} LayoutFormed(v: Value)
    requires Printable(v)
    ensures WellFormed(Layout(v))
    decreases v
  {
    hide LayoutItems, LayoutMembers, Numerals, Letters, Inside, Ten;
    match v
    case Int(i) => NumeralsTen(if i < 0 then -i else i);
    case Str(s) => LettersInside(s);
    case Arr(items) =>
      forall k | 0 <= k < |LayoutItems(items, [])|
        ensures k < |items| && LayoutItems(items, [])[k] == DItem(if k == 0 then [] else [44 as char], Layout(items[k]))
        ensures WellFormed(LayoutItems(items, [])[k].doc)
      {
        ItemsLength(items, []);
        LayoutItemsAt(items, [], k);
        LayoutFormed(items[k]);
      }
    case Obj(ms) =>
      forall k | 0 <= k < |LayoutMembers(ms, [])|
        ensures k < |ms|
        ensures LayoutMembers(ms, [])[k]
             == DMember(if k == 0 then [] else [44 as char], Letters(ms[k].name), [], Layout(ms[k].value))
        ensures WellFormed(LayoutMembers(ms, [])[k].doc) && Inside(LayoutMembers(ms, [])[k].name, false)
      {
        MembersLength(ms, []);
        LayoutMembersAt(ms, [], k);
        LayoutFormed(ms[k].value);
        LettersInside(ms[k].name);
      }
    case _ =>
  }

  lemma ItemsLength(items: seq<Value>, sep: string)
    ensures |LayoutItems(items, sep)| == |items|
  {
    if items != [] {
      LayoutItemsAt(items, sep, 0);
    }
  }

  lemma MembersLength(ms: seq<Member>, sep: string)
    ensures |LayoutMembers(ms, sep)| == |ms|
  {
    if ms != [] {
      LayoutMembersAt(ms, sep, 0);
    }
  }

  /** Any text made from a printed value by putting white space before tokens parses to what the printed text
      itself parses to; that is the value itself exactly when no string or key in it has a backslash directly
      before n or r. */
  lemma SpacedPrint(v: Value, d: Doc)
    requires Printable(v) && WellFormed(d) && SameTokens(Layout(v), d)
    ensures Text(Layout(v)) == Print(v)
    ensures ParseAt(Text(d), 0) == Parsed(Back(v), |Text(d)|)
    ensures ParseAt(Text(d), 0) == Parsed(v, |Text(d)|) <==> AllClean(v)
  {
    hide ParseAt, Text, WellFormed, Meaning, Stored, Print, Layout, Back, AllClean, SameTokens;
    PrintIs(v);
    LayoutFormed(v);
    ReadDoc(Print(v), 0, Layout(v));
    ParsePrint(v);
    SameMeaning(Layout(v), d);
    ReadDoc(Text(d), 0, d);
    BackIdentity(v);
  }

  // ---------------------------------------------------------------- texts that are refused

  /** One of the characters ] } , and : */
  predicate Mark(c: char) {
    c as int == 93 || c as int == 125 || c as int == 44 || c as int == 58
  }

  /** A digit, or one of the characters - " [ and { */
  predicate Starts(c: char) {
    48 <= c as int <= 57 || c as int == 45 || c as int == 34 || c as int == 91 || c as int == 123
  }

  lemma MarkAt(buf: string, i: nat, w: string, c: char)
    requires Spaces(w) && Mark(c) && Has(buf, i, w + [c])
    ensures ParseAt(buf, i) == Punct(c, i + |w| + 1)
  {
    hide Has, ParseAt;
    HasSplit(buf, i, w, [c]);
    HasNonempty(buf, i + |w|, [c]);
    PunctAt(buf, i + |w|, c);
    ParseSpaces(buf, i, w);
  }

  /** Behind an opening bracket and its elements, a closing brace or a colon is refused. */
  lemma ArrayRefuses(buf: string, i: nat, w: string, c: char, acc: seq<Value>)
    requires Spaces(w) && (c as int == 125 || c as int == 58) && Has(buf, i, w + [c])
    ensures ParseArr(buf, i, acc) == Throw
  {
    hide Has, ParseAt, Spaces;
    MarkAt(buf, i, w, c);
  }

  /** In an object, where a name is due, a closing bracket or a colon is refused; behind a name, all marks but the
      colon; and behind the colon all marks. */
  lemma ObjectRefusesMark(buf: string, i: nat, w: string, c: char, state: nat, name: string, acc: seq<Member>)
    requires Spaces(w) && Mark(c) && state < 3 && Has(buf, i, w + [c])
    requires match state
             case 0 => c as int == 93 || c as int == 58
             case 1 => c as int != 58
             case _ => true
    ensures ParseObj(buf, i, state, name, acc) == Throw
  {
    hide Has, ParseAt, Spaces;
    MarkAt(buf, i, w, c);
  }

  /** A name that is no string, and a value where the colon is due, are refused. */
  lemma ObjectRefusesValue(buf: string, i: nat, d: Doc, state: nat, name: string, acc: seq<Member>)
    requires WellFormed(d) && Has(buf, i, Text(d))
    requires d.DInt? || d.DReal? ==> Stops(At(buf, i + |Text(d)|))
    requires state == 1 || (state == 0 && !d.DStr?)
    ensures ParseObj(buf, i, state, name, acc) == Throw
  {
    hide Has, ParseAt, Text, WellFormed;
    ReadDoc(buf, i, d);
  }

  /** A text that has only white space left, or goes on with a character that starts no token, is refused; but the
      characters 251 to 255 count as null. */
  lemma StrangeAt(buf: string, i: nat, w: string)
    requires Spaces(w) && Has(buf, i, w) && i + |w| < |buf|
    requires var c := buf[i + |w|]; !Spaces([c]) && !Mark(c) && !Starts(c)
    requires !Has(buf, i + |w|, "null") && !Has(buf, i + |w|, "true") && !Has(buf, i + |w|, "false")
    ensures ParseAt(buf, i) ==
            if 251 <= buf[i + |w|] as int <= 255 then Parsed(Null, i + |w| + 1) else Throw
  {
    hide Has, ParseAt;
    ParseSpaces(buf, i, w);
    NoToken(buf, i + |w|);
  }

  lemma NoToken(buf: string, i: nat)
    requires i < |buf|
    requires var c := buf[i]; !Spaces([c]) && !Mark(c) && !Starts(c)
    requires !Has(buf, i, "null") && !Has(buf, i, "true") && !Has(buf, i, "false")
    ensures ParseAt(buf, i) == if 251 <= buf[i] as int <= 255 then Parsed(Null, i + 1) else Throw
  {
    hide Has, NumberEnd, StringEnd, Decode;
    var c := buf[i];
    assert [c][0] == c;
    NoSpace(buf, i);
    hide SkipSpace;
  }
}
