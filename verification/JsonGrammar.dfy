/** Texts a person may write, character by character, and the values the parser takes them for. */
module JsonGrammar {
  import opened JsonText
  import opened Json
  import opened JsonRoundTrip
  import opened Slices

  // ---------------------------------------------------------------- texts

  /** The layout of a text: what stands before each token, and the tokens. */
  datatype Doc =
    | DNull(space: string)
    | DBool(space: string, b: bool)
    | DInt(space: string, minus: bool, digits: string)
    | DReal(space: string, minus: bool, body: string)
    | DStr(space: string, body: string)
    | DArr(space: string, items: seq<DItem>, close: string)
    | DObj(space: string, members: seq<DMember>, close: string)

  datatype DItem = DItem(sep: string, doc: Doc)

  datatype DMember = DMember(sep: string, name: string, colon: string, doc: Doc)

  /** Blanks, tabs, carriage returns and line feeds. */
  predicate Spaces(w: string) {
    forall i :: 0 <= i < |w| ==> w[i] as int == 32 || w[i] as int == 9 || w[i] as int == 13 || w[i] as int == 10
  }

  /** The same, and commas. */
  predicate Seps(w: string) {
    forall i :: 0 <= i < |w| ==>
      w[i] as int == 32 || w[i] as int == 9 || w[i] as int == 13 || w[i] as int == 10 || w[i] as int == 44
  }

  predicate Numeral(t: string) {
    t != [] && forall i :: 0 <= i < |t| ==> 48 <= t[i] as int <= 57
  }

  predicate Decimal(minus: bool, t: string) {
    && t != [] && (minus || 48 <= t[0] as int <= 57)
    && (forall i :: 0 <= i < |t| ==> 48 <= t[i] as int <= 57 || t[i] as int == 46)
    && exists i :: 0 <= i < |t| && t[i] as int == 46
  }

  /** The number that decimal digits spell. */
  function Ten(t: string): nat {
    if t == [] then 0
    else 10 * Ten(t[..|t| - 1]) + if 48 <= t[|t| - 1] as int <= 57 then t[|t| - 1] as int - 48 else 0
  }

  function Signed(minus: bool, t: string): int {
    if minus then 0 - Ten(t) else Ten(t)
  }

  /** The inside of a string: no NUL, and no quote that no backslash escapes. */
  predicate Inside(t: string, escaped: bool) {
    if t == [] then !escaped
    else t[0] as int != 0 && (escaped || t[0] as int != 34) && Inside(t[1..], !escaped && t[0] as int == 92)
  }

  ghost predicate WellFormed(d: Doc)
    decreases d
  {
    && Spaces(d.space)
    && match d
       case DInt(_, minus, digits) => Numeral(digits) && -0x8000_0000 <= Signed(minus, digits) < 0x8000_0000
       case DReal(_, minus, body) => Decimal(minus, body)
       case DStr(_, body) => Inside(body, false)
       case DArr(_, items, close) =>
         && Seps(close)
         && forall k :: 0 <= k < |items| ==>
              Seps(items[k].sep) && (k > 0 ==> items[k].sep != []) && WellFormed(items[k].doc)
       case DObj(_, members, close) =>
         && Seps(close)
         && forall k :: 0 <= k < |members| ==>
              && Seps(members[k].sep) && (k > 0 ==> members[k].sep != []) && Inside(members[k].name, false)
              && Spaces(members[k].colon) && WellFormed(members[k].doc)
       case _ => true
  }

  function Sign(minus: bool): string {
    if minus then [45 as char] else []
  }

  function Text(d: Doc): string
    decreases d, 2
  {
    d.space + Core(d)
  }

  /** The text without the white space before it. */
  function Core(d: Doc): string
    decreases d, 1
  {
    match d
    case DNull(_) => "null"
    case DBool(_, b) => if b then "true" else "false"
    case DInt(_, minus, digits) => Sign(minus) + digits
    case DReal(_, minus, body) => Sign(minus) + body
    case DStr(_, body) => [34 as char] + body + [34 as char]
    case DArr(_, items, close) => [91 as char] + (ElementsText(items) + (close + [93 as char]))
    case DObj(_, members, close) => [123 as char] + (FieldsText(members) + (close + [125 as char]))
  }

  function ElementsText(items: seq<DItem>): string
    decreases items, 3
  {
    if items == [] then [] else items[0].sep + (Text(items[0].doc) + ElementsText(items[1..]))
  }

  function FieldsText(members: seq<DMember>): string
    decreases members, 3
  {
    if members == [] then []
    else
      var m := members[0];
      m.sep + (([34 as char] + m.name + [34 as char]) +
        (m.colon + ([58 as char] + (Text(m.doc) + FieldsText(members[1..])))))
  }

  // ---------------------------------------------------------------- values

  /** The value written, with the members of objects in the order of the text. */
  function Meaning(d: Doc): Value
    decreases d, 0
  {
    match d
    case DNull(_) => Null
    case DBool(_, b) => Bool(b)
    case DInt(_, minus, digits) => Int(Signed(minus, digits))
    case DReal(_, minus, body) => Real(Sign(minus) + body)
    case DStr(_, body) => Str(Decode(body))
    case DArr(_, items, _) => Arr(ItemValues(items))
    case DObj(_, members, _) => Obj(MemberValues(members))
  }

  function ItemValues(items: seq<DItem>): (r: seq<Value>)
    ensures |r| == |items|
    decreases items, 1
  {
    if items == [] then [] else [Meaning(items[0].doc)] + ItemValues(items[1..])
  }

  function MemberValues(members: seq<DMember>): (r: seq<Member>)
    ensures |r| == |members|
    decreases members, 1
  {
    if members == [] then []
    else [Member(Decode(members[0].name), Meaning(members[0].doc))] + MemberValues(members[1..])
  }

  /** A value with every object stored member by member in a map. */
  function Stored(v: Value): Value
    decreases v, 0
  {
    match v
    case Arr(items) => Arr(StoredItems(items))
    case Obj(ms) => Obj(StoredMembers(ms, []))
    case _ => v
  }

  function StoredItems(items: seq<Value>): (r: seq<Value>)
    ensures |r| == |items|
    ensures forall k :: 0 <= k < |items| ==> r[k] == Stored(items[k])
    decreases items, 1
  {
    if items == [] then [] else [Stored(items[0])] + StoredItems(items[1..])
  }

  function StoredMembers(ms: seq<Member>, acc: seq<Member>): seq<Member>
    decreases ms, 1
  {
    if ms == [] then acc else StoredMembers(ms[1..], Insert(acc, ms[0].name, Stored(ms[0].value)))
  }

  // ---------------------------------------------------------------- white space and separators

  lemma {:induction false} SpacesSkip(buf: string, i: nat, w: string)
    requires Spaces(w) && Has(buf, i, w)
    ensures SkipSpace(buf, i) == SkipSpace(buf, i + |w|)
    decreases |w|
  {
    if w != [] {
      assert w == [w[0]] + w[1..];
      HasSplit(buf, i, [w[0]], w[1..]);
      HasAt(buf, i, w, 0);
      hide Has;
      SpacesSkip(buf, i + 1, w[1..]);
    }
  }

  /** White space before a token is skipped. */
  lemma ParseSpaces(buf: string, i: nat, w: string)
    requires Spaces(w) && Has(buf, i, w) && i + |w| < |buf|
    ensures ParseAt(buf, i) == ParseAt(buf, i + |w|)
  {
    hide Has, SkipSpace, NumberEnd, StringEnd, Decode;
    SpacesSkip(buf, i, w);
    assert TokenAt(buf, i) == TokenAt(buf, i + |w|);
  }

  lemma ArrayFrom(buf: string, i: nat, j: nat, acc: seq<Value>)
    requires ParseAt(buf, i) == ParseAt(buf, j)
    ensures ParseArr(buf, i, acc) == ParseArr(buf, j, acc)
  {
    hide ParseAt;
  }

  lemma ObjectFrom(buf: string, i: nat, j: nat, state: nat, name: string, acc: seq<Member>)
    requires ParseAt(buf, i) == ParseAt(buf, j)
    ensures ParseObj(buf, i, state, name, acc) == ParseObj(buf, j, state, name, acc)
  {
    hide ParseAt;
  }

  lemma OneSep(buf: string, i: nat, w: string)
    requires Seps(w) && w != [] && Has(buf, i, w)
    ensures Has(buf, i, [w[0]]) && Has(buf, i + 1, w[1..]) && Seps(w[1..])
    ensures w[0] == ',' || Spaces([w[0]])
  {
    assert w == [w[0]] + w[1..];
    HasSplit(buf, i, [w[0]], w[1..]);
  }

  lemma ItemSep(buf: string, i: nat, c: char, acc: seq<Value>)
    requires (c == ',' || Spaces([c])) && Has(buf, i, [c]) && i + 1 < |buf|
    ensures ParseArr(buf, i, acc) == ParseArr(buf, i + 1, acc)
  {
    hide Has, ParseAt, ParseArr, Spaces;
    if c == ',' {
      ArrayComma(buf, i, acc);
    } else {
      ParseSpaces(buf, i, [c]);
      ArrayFrom(buf, i, i + 1, acc);
    }
  }

  lemma MemberSep(buf: string, i: nat, c: char, name: string, acc: seq<Member>)
    requires (c == ',' || Spaces([c])) && Has(buf, i, [c]) && i + 1 < |buf|
    ensures ParseObj(buf, i, 0, name, acc) == ParseObj(buf, i + 1, 0, name, acc)
  {
    hide Has, ParseAt, ParseObj, Spaces;
    if c == ',' {
      ObjectComma(buf, i, name, acc);
    } else {
      ParseSpaces(buf, i, [c]);
      ObjectFrom(buf, i, i + 1, 0, name, acc);
    }
  }

  /** White space and commas between elements are skipped. */
  lemma {:induction false} ItemSeps(buf: string, i: nat, w: string, acc: seq<Value>)
    requires Seps(w) && Has(buf, i, w) && i + |w| < |buf|
    ensures ParseArr(buf, i, acc) == ParseArr(buf, i + |w|, acc)
    decreases |w|
  {
    hide Has, ParseArr, Seps, Spaces;
    if w != [] {
      OneSep(buf, i, w);
      ItemSep(buf, i, w[0], acc);
      ItemSeps(buf, i + 1, w[1..], acc);
    }
  }

  lemma {:induction false} MemberSeps(buf: string, i: nat, w: string, name: string, acc: seq<Member>)
    requires Seps(w) && Has(buf, i, w) && i + |w| < |buf|
    ensures ParseObj(buf, i, 0, name, acc) == ParseObj(buf, i + |w|, 0, name, acc)
    decreases |w|
  {
    hide Has, ParseObj, Seps, Spaces;
    if w != [] {
      OneSep(buf, i, w);
      MemberSep(buf, i, w[0], name, acc);
      MemberSeps(buf, i + 1, w[1..], name, acc);
    }
  }

  // ---------------------------------------------------------------- tokens

  /** A character that ends a number. */
  predicate Stops(c: char) {
    !(48 <= c as int <= 57) && c as int != 46
  }

  lemma {:induction false} NumberRuns(buf: string, i: nat, t: string)
    requires Has(buf, i, t) && (forall k :: 0 <= k < |t| ==> !Stops(t[k])) && Stops(At(buf, i + |t|))
    ensures NumberEnd(buf, i) == i + |t|
    decreases |t|
  {
    if t != [] {
      assert t == [t[0]] + t[1..];
      HasSplit(buf, i, [t[0]], t[1..]);
      HasAt(buf, i, t, 0);
      hide Has;
      NumberRuns(buf, i + 1, t[1..]);
    }
  }

  lemma NumberRead(buf: string, i: nat, minus: bool, t: string)
    requires t != [] && (minus || 48 <= t[0] as int <= 57) && (forall k :: 0 <= k < |t| ==> !Stops(t[k]))
    requires Has(buf, i, Sign(minus) + t) && Stops(At(buf, i + |Sign(minus) + t|))
    ensures TokenAt(buf, i) ==
            (if exists k :: 0 <= k < |t| && t[k] as int == 46 then TReal(Sign(minus) + t) else TInt(Sign(minus) + t),
             i + |Sign(minus) + t|)
  {
    hide Has, NumberEnd, TokenAt;
    var all := Sign(minus) + t;
    HasSplit(buf, i, Sign(minus), t);
    NumberRuns(buf, i + |Sign(minus)|, t);
    assert '.' in all <==> exists k :: 0 <= k < |t| && t[k] as int == 46 by {
      forall k | 0 <= k < |t|
        ensures all[|Sign(minus)| + k] == t[k]
      {
      }
    }
    NumberToken(buf, i, all);
  }

  lemma {:induction false} TenIs(t: string)
    requires forall i :: 0 <= i < |t| ==> 48 <= t[i] as int <= 57
    ensures NatOf(t) == Ten(t)
    decreases |t|
  {
    if t != [] {
      TenIs(t[..|t| - 1]);
      DigitCode(t[|t| - 1]);
    }
  }

  lemma DigitCode(c: char)
    requires 48 <= c as int <= 57
    ensures DigitValue(c) == c as int - 48 && IsDigit(c) && c != '-'
  {
  }

  lemma AtoiSigned(minus: bool, t: string)
    requires Numeral(t)
    ensures Atoi(Sign(minus) + t) == Signed(minus, t)
  {
    hide NatOf, Ten, DigitValue;
    TenIs(t);
    DigitCode(t[0]);
    assert ([45 as char] + t)[1..] == t;
    assert [] + t == t;
  }

  lemma {:induction false} InsideEnd(buf: string, i: nat, t: string, escaped: bool)
    requires Inside(t, escaped) && Has(buf, i, t + [34 as char])
    ensures StringEnd(buf, i, escaped) == i + |t|
    decreases |t|
  {
    if t == [] {
      assert t + [34 as char] == [34 as char];
      HasAt(buf, i, [34 as char], 0);
    } else {
      assert t + [34 as char] == [t[0]] + (t[1..] + [34 as char]);
      HasSplit(buf, i, [t[0]], t[1..] + [34 as char]);
      HasAt(buf, i, [t[0]], 0);
      hide Has;
      InsideEnd(buf, i + 1, t[1..], !escaped && t[0] as int == 92);
    }
  }

  lemma StringRead(buf: string, i: nat, body: string)
    requires Inside(body, false) && Has(buf, i, [34 as char] + body + [34 as char])
    ensures ParseAt(buf, i) == Parsed(Str(Decode(body)), i + |body| + 2)
  {
    hide Decode, SkipSpace, StringEnd, Inside;
    var q := [34 as char];
    assert q + body + q == q + (body + q);
    HasSplit(buf, i, q, body + q);
    HasAt(buf, i, q, 0);
    NoSpace(buf, i);
    InsideEnd(buf, i + 1, body, false);
    HasSplit(buf, i + 1, body, q);
    assert buf[i + 1..i + 1 + |body|] == body;
  }

  // ---------------------------------------------------------------- reading

  lemma SepStops(buf: string, i: nat, w: string, c: char)
    requires Seps(w) && Has(buf, i, w + [c]) && Stops(c)
    ensures Stops(At(buf, i))
  {
    HasAt(buf, i, w + [c], 0);
  }

  /** The tokens that are values by themselves. */
  lemma ReadLeaf(buf: string, i: nat, d: Doc)
    requires d.DNull? || d.DBool? || d.DInt? || d.DReal? || d.DStr?
    requires WellFormed(d) && Has(buf, i, Core(d))
    requires d.DInt? || d.DReal? ==> Stops(At(buf, i + |Core(d)|))
    ensures i < |buf| && ParseAt(buf, i) == Parsed(Stored(Meaning(d)), i + |Core(d)|)
  {
    hide Has, TokenAt, Decode, Atoi, Signed, Inside;
    var t := Core(d);
    match d
    case DNull(_) =>
      assert t == "null";
      WordToken(buf, i, "null");
      HasNonempty(buf, i, t);
    case DBool(_, b) =>
      assert t == if b then "true" else "false";
      WordToken(buf, i, t);
      HasNonempty(buf, i, t);
    case DInt(_, minus, digits) =>
      assert t == Sign(minus) + digits;
      NumberRead(buf, i, minus, digits);
      AtoiSigned(minus, digits);
      HasNonempty(buf, i, t);
    case DReal(_, minus, body) =>
      assert t == Sign(minus) + body;
      NumberRead(buf, i, minus, body);
      HasNonempty(buf, i, t);
    case DStr(_, body) =>
      assert t == [34 as char] + body + [34 as char];
      StringRead(buf, i, body);
      HasNonempty(buf, i, t);
  }

  /** A text of this layout, anywhere in a longer one, parses to the value stored, and leaves the index behind it. */
  lemma {:induction false} ReadDoc(buf: string, i: nat, d: Doc)
    requires WellFormed(d) && Has(buf, i, Text(d))
    requires d.DInt? || d.DReal? ==> Stops(At(buf, i + |Text(d)|))
    ensures i + |d.space| < |buf| && ParseAt(buf, i) == Parsed(Stored(Meaning(d)), i + |Text(d)|)
    decreases d, 1
  {
    hide Has, ParseAt, Core, Stored, Meaning;
    HasSplit(buf, i, d.space, Core(d));
    DocSpaces(d);
    ReadCore(buf, i + |d.space|, d);
    ParseSpaces(buf, i, d.space);
  }

  lemma DocSpaces(d: Doc)
    requires WellFormed(d)
    ensures Spaces(d.space)
  {
  }

  lemma {:induction false} ReadCore(buf: string, i: nat, d: Doc)
    requires WellFormed(d) && Has(buf, i, Core(d))
    requires d.DInt? || d.DReal? ==> Stops(At(buf, i + |Core(d)|))
    ensures i < |buf| && ParseAt(buf, i) == Parsed(Stored(Meaning(d)), i + |Core(d)|)
    decreases d, 0
  {
    hide Has, TokenAt, ParseArr, ParseObj, ElementsText, FieldsText, ItemValues, MemberValues, StoredItems,
         StoredMembers;
    match d
    case DArr(_, items, close) =>
      var t := ElementsText(items) + (close + [93 as char]);
      HasSplit(buf, i, [91 as char], t);
      HasAt(buf, i, [91 as char], 0);
      CharToken(buf, i, '[');
      ReadArray(buf, i + 1, items, close, []);
      assert [] + StoredItems(ItemValues(items)) == StoredItems(ItemValues(items));
    case DObj(_, members, close) =>
      var t := FieldsText(members) + (close + [125 as char]);
      HasSplit(buf, i, [123 as char], t);
      HasAt(buf, i, [123 as char], 0);
      CharToken(buf, i, '{');
      ReadObject(buf, i + 1, members, close, [], []);
    case _ => ReadLeaf(buf, i, d);
  }

  lemma {:induction false} ReadArray(buf: string, i: nat, items: seq<DItem>, close: string, acc: seq<Value>)
    requires Seps(close) && forall k :: 0 <= k < |items| ==>
               Seps(items[k].sep) && (k > 0 ==> items[k].sep != []) && WellFormed(items[k].doc)
    requires Has(buf, i, ElementsText(items) + (close + [93 as char]))
    ensures ParseArr(buf, i, acc) ==
            Parsed(Arr(acc + StoredItems(ItemValues(items))), i + |ElementsText(items)| + |close| + 1)
    decreases items, 2
  {
    hide Has, ParseArr, Text, WellFormed, Stored, Meaning, Seps, ElementsText, ItemValues, StoredItems;
    ItemsParts(items, close, acc);
    if items == [] {
      CloseArray(buf, i, close, acc);
    } else {
      var d, rest := items[0].doc, items[1..];
      var n := i + |items[0].sep| + |Text(d)|;
      ReadElement(buf, i, items[0], rest, close, acc);
      ReadArray(buf, n, rest, close, acc + [Stored(Meaning(d))]);
    }
  }

  lemma ItemsParts(items: seq<DItem>, close: string, acc: seq<Value>)
    ensures items == [] ==>
              && ElementsText(items) + (close + [93 as char]) == close + [93 as char] && ElementsText(items) == []
              && acc + StoredItems(ItemValues(items)) == acc
    ensures items != [] ==>
              var d, rest := items[0].doc, items[1..];
              && ElementsText(items) + (close + [93 as char])
                 == items[0].sep + (Text(d) + (ElementsText(rest) + (close + [93 as char])))
              && |ElementsText(items)| == |items[0].sep| + |Text(d)| + |ElementsText(rest)|
              && acc + StoredItems(ItemValues(items)) == acc + [Stored(Meaning(d))] + StoredItems(ItemValues(rest))
  {
    hide Text, Stored, Meaning, ElementsText, ItemValues, StoredItems;
    if items == [] {
      NoItems();
    } else {
      var d, rest := items[0].doc, items[1..];
      FirstItem(items);
      PartsAssoc(items[0].sep, Text(d), ElementsText(rest), close + [93 as char]);
      ConsAfter(acc, Stored(Meaning(d)), StoredItems(ItemValues(rest)));
    }
  }

  lemma NoItems()
    ensures ElementsText([]) == [] && StoredItems(ItemValues([])) == []
  {
  }

  lemma FirstItem(items: seq<DItem>)
    requires items != []
    ensures var d, rest := items[0].doc, items[1..];
            && ElementsText(items) == items[0].sep + (Text(d) + ElementsText(rest))
            && StoredItems(ItemValues(items)) == [Stored(Meaning(d))] + StoredItems(ItemValues(rest))
  {
    hide Text, Stored, Meaning;
    assert ItemValues(items)[1..] == ItemValues(items[1..]);
  }

  lemma PartsAssoc(a: string, b: string, c: string, d: string)
    ensures a + (b + c) + d == a + (b + (c + d))
  {
  }

  /** Separator and value of one element. */
  lemma {:induction false} ReadElement(buf: string, i: nat, item: DItem, rest: seq<DItem>, close: string,
                                       acc: seq<Value>)
    requires Seps(item.sep) && WellFormed(item.doc)
    requires Seps(close) && (rest != [] ==> Seps(rest[0].sep) && rest[0].sep != [])
    requires Has(buf, i, item.sep + (Text(item.doc) + (ElementsText(rest) + (close + [93 as char]))))
    ensures var n := i + |item.sep| + |Text(item.doc)|;
            && Has(buf, n, ElementsText(rest) + (close + [93 as char]))
            && ParseArr(buf, i, acc) == ParseArr(buf, n, acc + [Stored(Meaning(item.doc))])
    decreases item, 2
  {
    hide Has, ParseAt, ParseArr, Text, WellFormed, Stored, Meaning, Seps, ElementsText;
    var tail := ElementsText(rest) + (close + [93 as char]);
    var p := i + |item.sep|;
    HasSplit(buf, i, item.sep, Text(item.doc) + tail);
    HasSplit(buf, p, Text(item.doc), tail);
    var n := p + |Text(item.doc)|;
    TailStops(buf, n, rest, close);
    ReadDoc(buf, p, item.doc);
    ItemSeps(buf, i, item.sep, acc);
    ArrayValue(buf, p, acc, Stored(Meaning(item.doc)), n);
  }

  lemma ArrayValue(buf: string, i: nat, acc: seq<Value>, v: Value, n: nat)
    requires ParseAt(buf, i) == Parsed(v, n)
    ensures ParseArr(buf, i, acc) == ParseArr(buf, n, acc + [v])
  {
    hide ParseAt;
  }

  lemma CloseArray(buf: string, i: nat, close: string, acc: seq<Value>)
    requires Seps(close) && Has(buf, i, close + [93 as char])
    ensures ParseArr(buf, i, acc) == Parsed(Arr(acc), i + |close| + 1)
  {
    hide Has, ParseArr, Seps;
    HasSplit(buf, i, close, [93 as char]);
    HasNonempty(buf, i + |close|, [93 as char]);
    ItemSeps(buf, i, close, acc);
    ArrayEnd(buf, i + |close|, acc);
  }

  /** Behind an element stands a separator or the end. */
  lemma TailStops(buf: string, n: nat, rest: seq<DItem>, close: string)
    requires Seps(close) && (rest != [] ==> Seps(rest[0].sep) && rest[0].sep != [])
    requires Has(buf, n, ElementsText(rest) + (close + [93 as char]))
    ensures Stops(At(buf, n))
  {
    hide Text;
    HasAt(buf, n, ElementsText(rest) + (close + [93 as char]), 0);
  }

  lemma {:induction false} ReadObject(buf: string, i: nat, ms: seq<DMember>, close: string, name: string,
                                      acc: seq<Member>)
    requires Seps(close) && forall k :: 0 <= k < |ms| ==>
               && Seps(ms[k].sep) && (k > 0 ==> ms[k].sep != []) && Inside(ms[k].name, false)
               && Spaces(ms[k].colon) && WellFormed(ms[k].doc)
    requires Has(buf, i, FieldsText(ms) + (close + [125 as char]))
    ensures ParseObj(buf, i, 0, name, acc) ==
            Parsed(Obj(StoredMembers(MemberValues(ms), acc)), i + |FieldsText(ms)| + |close| + 1)
    decreases ms, 2
  {
    hide Has, ParseAt, ParseObj, Text, WellFormed, Stored, Meaning, Seps, Spaces, Inside, Insert, Decode;
    if ms == [] {
      assert FieldsText(ms) + (close + [125 as char]) == close + [125 as char];
      CloseObject(buf, i, close, name, acc);
    } else {
      var m, rest := ms[0], ms[1..];
      var tail := FieldsText(rest) + (close + [125 as char]);
      var q := [34 as char] + m.name + [34 as char];
      var after := m.colon + ([58 as char] + (Text(m.doc) + tail));
      assert FieldsText(ms) + (close + [125 as char]) == m.sep + (q + after) by {
        MembersAssoc(m.sep, q, m.colon, [58 as char], Text(m.doc), FieldsText(rest), close + [125 as char]);
      }
      HasSplit(buf, i, m.sep, q + after);
      var p := i + |m.sep|;
      HasNonempty(buf, p, q + after);
      MemberSeps(buf, i, m.sep, name, acc);
      ReadField(buf, p, m, rest, close, name, acc);
      var n := p + |q| + |m.colon| + 1 + |Text(m.doc)|;
      var acc' := Insert(acc, Decode(m.name), Stored(Meaning(m.doc)));
      ReadObject(buf, n, rest, close, Decode(m.name), acc');
      assert MemberValues(ms)[1..] == MemberValues(rest);
    }
  }

  lemma MembersAssoc(a: string, b: string, c: string, d: string, e: string, f: string, g: string)
    ensures a + (b + (c + (d + (e + f)))) + g == a + (b + (c + (d + (e + (f + g)))))
  {
  }

  lemma {:induction false} ReadField(buf: string, p: nat, m: DMember, rest: seq<DMember>, close: string,
                                      name: string, acc: seq<Member>)
    requires Inside(m.name, false) && Spaces(m.colon) && WellFormed(m.doc)
    requires Seps(close) && (rest != [] ==> Seps(rest[0].sep) && rest[0].sep != [])
    requires var q, tail := [34 as char] + m.name + [34 as char], FieldsText(rest) + (close + [125 as char]);
             Has(buf, p, q + (m.colon + ([58 as char] + (Text(m.doc) + tail))))
    ensures var n := p + |m.name| + 2 + |m.colon| + 1 + |Text(m.doc)|;
            && Has(buf, n, FieldsText(rest) + (close + [125 as char]))
            && ParseObj(buf, p, 0, name, acc) ==
               ParseObj(buf, n, 0, Decode(m.name), Insert(acc, Decode(m.name), Stored(Meaning(m.doc))))
    decreases m, 2
  {
    hide Has, ParseAt, ParseObj, Text, WellFormed, Stored, Meaning, Seps, Spaces, Inside, Insert, Decode, FieldsText;
    var q, tail := [34 as char] + m.name + [34 as char], FieldsText(rest) + (close + [125 as char]);
    var c := [58 as char];
    HasSplit(buf, p, q, m.colon + (c + (Text(m.doc) + tail)));
    var p1 := p + |q|;
    HasSplit(buf, p1, m.colon, c + (Text(m.doc) + tail));
    var p2 := p1 + |m.colon|;
    HasSplit(buf, p2, c, Text(m.doc) + tail);
    HasSplit(buf, p2 + 1, Text(m.doc), tail);
    HasNonempty(buf, p2, c);
    StringRead(buf, p, m.name);
    ParseSpaces(buf, p1, m.colon);
    PunctAt(buf, p2, ':');
    MemberStops(buf, p2 + 1 + |Text(m.doc)|, rest, close);
    ReadDoc(buf, p2 + 1, m.doc);
    MemberParsed(buf, p, p1, p2, p2 + 1 + |Text(m.doc)|, name, Decode(m.name), Stored(Meaning(m.doc)), acc);
  }

  /** Name, colon and value, one after the other. */
  lemma MemberParsed(buf: string, p: nat, p1: nat, p2: nat, n: nat, name: string, key: string, v: Value,
                     acc: seq<Member>)
    requires ParseAt(buf, p) == Parsed(Str(key), p1) && ParseAt(buf, p1) == ParseAt(buf, p2)
    requires ParseAt(buf, p2) == Punct(':', p2 + 1) && ParseAt(buf, p2 + 1) == Parsed(v, n)
    ensures ParseObj(buf, p, 0, name, acc) == ParseObj(buf, n, 0, key, Insert(acc, key, v))
  {
    hide ParseAt, Insert;
    assert ParseObj(buf, p, 0, name, acc) == ParseObj(buf, p1, 1, key, acc);
    assert ParseObj(buf, p1, 1, key, acc) == ParseObj(buf, p2 + 1, 2, key, acc);
  }

  lemma CloseObject(buf: string, i: nat, close: string, name: string, acc: seq<Member>)
    requires Seps(close) && Has(buf, i, close + [125 as char])
    ensures ParseObj(buf, i, 0, name, acc) == Parsed(Obj(acc), i + |close| + 1)
  {
    hide Has, ParseObj, Seps;
    HasSplit(buf, i, close, [125 as char]);
    HasNonempty(buf, i + |close|, [125 as char]);
    MemberSeps(buf, i, close, name, acc);
    ObjectEnd(buf, i + |close|, name, acc);
  }

  lemma MemberStops(buf: string, n: nat, rest: seq<DMember>, close: string)
    requires Seps(close) && (rest != [] ==> Seps(rest[0].sep) && rest[0].sep != [])
    requires Has(buf, n, FieldsText(rest) + (close + [125 as char]))
    ensures Stops(At(buf, n))
  {
    hide Text;
    HasAt(buf, n, FieldsText(rest) + (close + [125 as char]), 0);
  }
}
