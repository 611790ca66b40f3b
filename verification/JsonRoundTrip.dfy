/** Parsing what was printed. */
module JsonRoundTrip {
  import opened JsonText
  import opened Json
  import opened Slices

  // ---------------------------------------------------------------- which values, and what comes back

  predicate NulFree(s: string) {
    '\0' !in s
  }

  /** Values the printer and the parser are made for: 32-bit integers, no reals, strings without NUL,
      and objects that are maps. */
  ghost predicate Printable(v: Value)
    decreases v
  {
    match v
    case Int(i) => -0x8000_0000 <= i < 0x8000_0000
    case Real(text) => false
    case Str(s) => NulFree(s)
    case Arr(items) => forall k :: 0 <= k < |items| ==> Printable(items[k])
    case Obj(ms) => Sorted(ms) && forall k :: 0 <= k < |ms| ==> NulFree(ms[k].name) && Printable(ms[k].value)
    case _ => true
  }

  /** Every string and key is free of backslashes directly before n or r. */
  ghost predicate AllClean(v: Value)
    decreases v
  {
    match v
    case Str(s) => Clean(s)
    case Arr(items) => forall k :: 0 <= k < |items| ==> AllClean(items[k])
    case Obj(ms) => forall k :: 0 <= k < |ms| ==> Clean(ms[k].name) && AllClean(ms[k].value)
    case _ => true
  }

  /** The value that comes back: strings and keys as decoding leaves them. */
  function Back(v: Value): Value
    decreases v, 0
  {
    match v
    case Str(s) => Str(Mangle(s))
    case Arr(items) => Arr(BackItems(items))
    case Obj(ms) => Obj(BackMembers(ms, []))
    case _ => v
  }

  function BackItems(items: seq<Value>): (r: seq<Value>)
    ensures |r| == |items|
    ensures forall k :: 0 <= k < |items| ==> r[k] == Back(items[k])
    decreases items, 1
  {
    if items == [] then [] else [Back(items[0])] + BackItems(items[1..])
  }

  function BackMembers(ms: seq<Member>, acc: seq<Member>): seq<Member>
    decreases ms, 1
  {
    if ms == [] then acc
    else BackMembers(ms[1..], Insert(acc, Mangle(ms[0].name), Back(ms[0].value)))
  }

  // ---------------------------------------------------------------- tokens

  lemma EscapeFirst(s: string)
    requires s != [] && NulFree(s)
    ensures EscChar(s[0]) != [] && EscChar(s[0])[0] != '\0' && EscChar(s[0])[0] != '"'
    ensures |EscChar(s[0])| == 2 ==> EscChar(s[0])[0] == '\\' && EscChar(s[0])[1] != '\0'
    ensures |EscChar(s[0])| == 1 ==> EscChar(s[0])[0] != '\\'
    ensures 1 <= |EscChar(s[0])| <= 2
    ensures NulFree(s[1..])
  {
  }

  /** The scan of a string passes one escaped character. */
  lemma StringEndPast(buf: string, i: nat, e: string)
    requires Has(buf, i, e) && 1 <= |e| <= 2 && e[0] != '\0' && e[0] != '"'
    requires if |e| == 2 then e[0] == '\\' && e[1] != '\0' else e[0] != '\\'
    ensures StringEnd(buf, i, false) == StringEnd(buf, i + |e|, false)
  {
    hide Has;
    HasAt(buf, i, e, 0);
    if |e| == 2 {
      HasAt(buf, i, e, 1);
      assert StringEnd(buf, i, false) == StringEnd(buf, i + 1, true);
    }
  }

  /** A string token ends at the quote behind the escaped string, never inside it. */
  lemma {:induction false} StringEndEscape(buf: string, i: nat, s: string)
    requires NulFree(s) && Has(buf, i, Escape(s) + ['"'])
    ensures StringEnd(buf, i, false) == i + |Escape(s)|
    decreases |s|
  {
    if s == [] {
      HasAt(buf, i, ['"'], 0);
    } else {
      var e := EscChar(s[0]);
      EscapeFirst(s);
      assert Escape(s) + ['"'] == e + (Escape(s[1..]) + ['"']);
      hide Has, EscChar, StringEnd;
      HasSplit(buf, i, e, Escape(s[1..]) + ['"']);
      StringEndPast(buf, i, e);
      StringEndEscape(buf, i + |e|, s[1..]);
    }
  }

  lemma NoSpace(buf: string, i: nat)
    requires i < |buf| && !IsSpace(buf[i])
    ensures SkipSpace(buf, i) == i
  {
  }

  lemma QuotedToken(buf: string, i: nat, s: string)
    requires NulFree(s) && Has(buf, i, Quoted(s))
    ensures TokenAt(buf, i) == (TStr(Mangle(s)), i + |Quoted(s)|)
  {
    hide Encode, Decode, Mangle, Escape, SkipSpace, StringEnd;
    EncodeIsEscape(s);
    DecodeEncode(s);
    var e := Encode(s);
    assert Quoted(s) == ['"'] + (e + ['"']);
    HasSplit(buf, i, ['"'], e + ['"']);
    HasAt(buf, i, ['"'], 0);
    NoSpace(buf, i);
    StringEndEscape(buf, i + 1, s);
    HasSplit(buf, i + 1, e, ['"']);
    assert buf[i + 1..i + 1 + |e|] == e;
  }

  lemma {:induction false} NumberEndDigits(buf: string, i: nat, t: string)
    requires Has(buf, i, t) && (forall k :: 0 <= k < |t| ==> IsDigit(t[k]))
    requires !InNumber(At(buf, i + |t|))
    ensures NumberEnd(buf, i) == i + |t|
    decreases |t|
  {
    if t != [] {
      assert t == [t[0]] + t[1..];
      HasSplit(buf, i, [t[0]], t[1..]);
      HasAt(buf, i, t, 0);
      NumberEndDigits(buf, i + 1, t[1..]);
    }
  }

  lemma DecShape(v: int)
    ensures Dec(v) != []
    ensures v < 0 ==> Dec(v) == ['-'] + DecNat(-v)
    ensures v >= 0 ==> Dec(v) == DecNat(v) && IsDigit(Dec(v)[0])
    ensures '.' !in Dec(v)
  {
  }

  lemma NumberToken(buf: string, i: nat, t: string)
    requires t != [] && (t[0] == '-' || IsDigit(t[0])) && Has(buf, i, t)
    requires NumberEnd(buf, if t[0] == '-' then i + 1 else i) == i + |t|
    ensures TokenAt(buf, i) == (if '.' in t then TReal(t) else TInt(t), i + |t|)
  {
    hide NumberEnd, SkipSpace, StringEnd;
    HasAt(buf, i, t, 0);
    NoSpace(buf, i);
    assert buf[i..i + |t|] == t;
  }

  lemma IntToken(buf: string, i: nat, v: int)
    requires Has(buf, i, Dec(v)) && !InNumber(At(buf, i + |Dec(v)|))
    ensures TokenAt(buf, i) == (TInt(Dec(v)), i + |Dec(v)|)
  {
    hide Has, Dec, DecNat, NumberEnd, TokenAt;
    var t := Dec(v);
    DecShape(v);
    if v < 0 {
      HasSplit(buf, i, ['-'], DecNat(-v));
      NumberEndDigits(buf, i + 1, DecNat(-v));
    } else {
      NumberEndDigits(buf, i, t);
    }
    NumberToken(buf, i, t);
  }

  lemma WordToken(buf: string, i: nat, w: string)
    requires w == "null" || w == "true" || w == "false"
    requires Has(buf, i, w)
    ensures TokenAt(buf, i) ==
            (if w == "null" then TNull else if w == "true" then TBool(true) else TBool(false), i + |w|)
  {
    HasAt(buf, i, w, 0);
    NoSpace(buf, i);
    if w != "null" {
      assert buf[i..i + 4][0] == buf[i] || i + 4 > |buf|;
      assert !Has(buf, i, "null");
    }
    if w == "false" {
      assert !Has(buf, i, "true");
    }
  }

  lemma CharToken(buf: string, i: nat, c: char)
    requires c == '[' || c == ']' || c == '{' || c == '}' || c == ',' || c == ':'
    requires i < |buf| && buf[i] == c
    ensures TokenAt(buf, i) == (TChar(c), i + 1)
  {
    NoSpace(buf, i);
    assert !Has(buf, i, "null") && !Has(buf, i, "true") && !Has(buf, i, "false") by {
      assert i + 4 <= |buf| ==> buf[i..i + 4][0] == c;
      assert i + 5 <= |buf| ==> buf[i..i + 5][0] == c;
    }
  }

  // ---------------------------------------------------------------- values

  lemma PrintNonempty(v: Value)
    requires !v.Real?
    ensures Print(v) != []
  {
    if v.Int? {
      DecShape(v.i);
    }
  }

  /** The printed form of a value, at any place in any text, parses to the value that comes back,
      and leaves the index just behind it. */
  lemma {:induction false} ReadValue(buf: string, i: nat, v: Value)
    requires Printable(v) && Has(buf, i, Print(v))
    requires v.Int? ==> !InNumber(At(buf, i + |Print(v)|))
    ensures ParseAt(buf, i) == Parsed(Back(v), i + |Print(v)|)
    decreases v, 0
  {
    hide TokenAt, Has, Quoted, Mangle, Dec, ParseArr, ParseObj, PrintItems, PrintMembers, BackItems, BackMembers;
    PrintNonempty(v);
    HasNonempty(buf, i, Print(v));
    match v
    case Null => WordToken(buf, i, "null");
    case Bool(b) => WordToken(buf, i, if b then "true" else "false");
    case Int(n) =>
      IntToken(buf, i, n);
      AtoiDec(n);
    case Str(s) => QuotedToken(buf, i, s);
    case Arr(items) =>
      var t := PrintItems(items) + [']'];
      assert Print(v) == ['['] + t;
      HasSplit(buf, i, ['['], t);
      HasAt(buf, i, ['['], 0);
      CharToken(buf, i, '[');
      ReadItems(buf, i + 1, items, []);
      assert [] + BackItems(items) == BackItems(items);
    case Obj(ms) =>
      var t := PrintMembers(ms) + ['}'];
      assert Print(v) == ['{'] + t;
      HasSplit(buf, i, ['{'], t);
      HasAt(buf, i, ['{'], 0);
      CharToken(buf, i, '{');
      ReadMembers(buf, i + 1, ms, [], []);
  }

  lemma PunctAt(buf: string, i: nat, c: char)
    requires c == ']' || c == '}' || c == ',' || c == ':'
    requires Has(buf, i, [c])
    ensures ParseAt(buf, i) == Punct(c, i + 1)
    ensures At(buf, i) == c && !InNumber(c)
  {
    HasAt(buf, i, [c], 0);
    CharToken(buf, i, c);
  }

  lemma ArrayEnd(buf: string, i: nat, acc: seq<Value>)
    requires Has(buf, i, [']'])
    ensures ParseArr(buf, i, acc) == Parsed(Arr(acc), i + 1)
  {
    PunctAt(buf, i, ']');
  }

  lemma ArrayComma(buf: string, i: nat, acc: seq<Value>)
    requires Has(buf, i, [','])
    ensures ParseArr(buf, i, acc) == ParseArr(buf, i + 1, acc)
  {
    PunctAt(buf, i, ',');
  }

  lemma {:induction false} ReadItem(buf: string, i: nat, v: Value, acc: seq<Value>)
    requires Printable(v) && Has(buf, i, Print(v))
    requires !InNumber(At(buf, i + |Print(v)|))
    ensures ParseArr(buf, i, acc) == ParseArr(buf, i + |Print(v)|, acc + [Back(v)])
    decreases v, 1
  {
    hide ParseAt, Print, Back, Has;
    ReadValue(buf, i, v);
  }

  lemma {:induction false} ReadItems(buf: string, i: nat, items: seq<Value>, acc: seq<Value>)
    requires forall k :: 0 <= k < |items| ==> Printable(items[k])
    requires Has(buf, i, PrintItems(items) + [']'])
    ensures ParseArr(buf, i, acc) == Parsed(Arr(acc + BackItems(items)), i + |PrintItems(items)| + 1)
    decreases items, 2
  {
    hide TokenAt, Has, Print, ParseAt, ParseArr, PrintItems, BackItems;
    ItemsText(items);
    BackItemsStep(items, acc);
    if items == [] {
      ArrayEnd(buf, i, acc);
    } else {
      var v, t, p := items[0], items[1..], Print(items[0]);
      var n := i + |p|;
      if t == [] {
        HasSplit(buf, i, p, [']']);
        PunctAt(buf, n, ']');
        ReadItem(buf, i, v, acc);
        ArrayEnd(buf, n, acc + [Back(v)]);
      } else {
        var tail := PrintItems(t) + [']'];
        HasSplit(buf, i, p, [','] + tail);
        HasSplit(buf, n, [','], tail);
        PunctAt(buf, n, ',');
        ReadItem(buf, i, v, acc);
        ArrayComma(buf, n, acc + [Back(v)]);
        ReadItems(buf, n + 1, t, acc + [Back(v)]);
      }
    }
  }

  lemma Assoc<T>(a: seq<T>, b: seq<T>, c: seq<T>, d: seq<T>)
    ensures (a + b + c) + d == a + (b + (c + d))
  {
  }

  lemma ItemsText(items: seq<Value>)
    ensures items == [] ==> PrintItems(items) == [] && PrintItems(items) + [']'] == [']']
    ensures |items| == 1 ==> PrintItems(items) == Print(items[0])
    ensures |items| > 1 ==>
              && PrintItems(items) + [']'] == Print(items[0]) + ([','] + (PrintItems(items[1..]) + [']']))
              && |PrintItems(items)| == |Print(items[0])| + 1 + |PrintItems(items[1..])|
  {
    hide Print;
    if |items| > 1 {
      var p, r := Print(items[0]), PrintItems(items[1..]);
      assert PrintItems(items) == p + [','] + r;
      hide PrintItems;
      Assoc(p, [','], r, [']']);
    }
  }

  lemma BackItemsStep(items: seq<Value>, acc: seq<Value>)
    ensures items == [] ==> acc + BackItems(items) == acc
    ensures |items| == 1 ==> acc + BackItems(items) == acc + [Back(items[0])]
    ensures items != [] ==> acc + BackItems(items) == acc + [Back(items[0])] + BackItems(items[1..])
  {
    hide Back;
    if items != [] {
      var b, r := Back(items[0]), BackItems(items[1..]);
      assert BackItems(items) == [b] + r && (|items| == 1 ==> r == []);
      hide BackItems;
      ConsAfter(acc, b, r);
    }
  }

  lemma ConsAfter<T>(acc: seq<T>, b: T, r: seq<T>)
    ensures acc + ([b] + r) == acc + [b] + r
    ensures r == [] ==> acc + ([b] + r) == acc + [b]
  {
  }

  /** Name, colon and value of one member. */
  lemma {:induction false} ReadMember(buf: string, i: nat, m: Member, name: string, acc: seq<Member>)
    requires NulFree(m.name) && Printable(m.value) && Has(buf, i, PrintMember(m))
    requires !InNumber(At(buf, i + |PrintMember(m)|))
    ensures ParseObj(buf, i, 0, name, acc) ==
            ParseObj(buf, i + |PrintMember(m)|, 0, Mangle(m.name), Insert(acc, Mangle(m.name), Back(m.value)))
    decreases m, 1
  {
    hide TokenAt, Has, Print, Mangle, Insert;
    var k, p := Quoted(m.name), Print(m.value);
    assert PrintMember(m) == k + ([':'] + p);
    HasSplit(buf, i, k, [':'] + p);
    HasSplit(buf, i + |k|, [':'], p);
    HasNonempty(buf, i, k);
    QuotedToken(buf, i, m.name);
    assert ParseAt(buf, i) == Parsed(Str(Mangle(m.name)), i + |k|);
    PunctAt(buf, i + |k|, ':');
    ReadValue(buf, i + |k| + 1, m.value);
    assert ParseObj(buf, i, 0, name, acc) == ParseObj(buf, i + |k|, 1, Mangle(m.name), acc);
    assert ParseObj(buf, i + |k|, 1, Mangle(m.name), acc) == ParseObj(buf, i + |k| + 1, 2, Mangle(m.name), acc);
  }

  lemma {:induction false} ReadMembers(buf: string, i: nat, ms: seq<Member>, name: string, acc: seq<Member>)
    requires forall k :: 0 <= k < |ms| ==> NulFree(ms[k].name) && Printable(ms[k].value)
    requires Has(buf, i, PrintMembers(ms) + ['}'])
    ensures ParseObj(buf, i, 0, name, acc) == Parsed(Obj(BackMembers(ms, acc)), i + |PrintMembers(ms)| + 1)
    decreases ms, 2
  {
    hide TokenAt, Has, PrintMember, ParseAt, ParseObj, Mangle, Insert, PrintMembers, BackMembers;
    MembersText(ms);
    BackMembersStep(ms, acc);
    if ms == [] {
      ObjectEnd(buf, i, name, acc);
    } else {
      var m, t, p := ms[0], ms[1..], PrintMember(ms[0]);
      var n := i + |p|;
      var acc' := Insert(acc, Mangle(m.name), Back(m.value));
      if t == [] {
        HasSplit(buf, i, p, ['}']);
        PunctAt(buf, n, '}');
        ReadMember(buf, i, m, name, acc);
        ObjectEnd(buf, n, Mangle(m.name), acc');
      } else {
        var tail := PrintMembers(t) + ['}'];
        HasSplit(buf, i, p, [','] + tail);
        HasSplit(buf, n, [','], tail);
        PunctAt(buf, n, ',');
        ReadMember(buf, i, m, name, acc);
        ObjectComma(buf, n, Mangle(m.name), acc');
        ReadMembers(buf, n + 1, t, Mangle(m.name), acc');
      }
    }
  }

  lemma MembersText(ms: seq<Member>)
    ensures ms == [] ==> PrintMembers(ms) == [] && PrintMembers(ms) + ['}'] == ['}']
    ensures |ms| == 1 ==> PrintMembers(ms) == PrintMember(ms[0])
    ensures |ms| > 1 ==>
              && PrintMembers(ms) + ['}'] == PrintMember(ms[0]) + ([','] + (PrintMembers(ms[1..]) + ['}']))
              && |PrintMembers(ms)| == |PrintMember(ms[0])| + 1 + |PrintMembers(ms[1..])|
  {
    hide PrintMember;
    if |ms| > 1 {
      var p, r := PrintMember(ms[0]), PrintMembers(ms[1..]);
      assert PrintMembers(ms) == p + [','] + r;
      hide PrintMembers;
      Assoc(p, [','], r, ['}']);
    }
  }

  lemma BackMembersStep(ms: seq<Member>, acc: seq<Member>)
    ensures ms == [] ==> BackMembers(ms, acc) == acc
    ensures ms != [] ==>
              BackMembers(ms, acc) == BackMembers(ms[1..], Insert(acc, Mangle(ms[0].name), Back(ms[0].value)))
    ensures |ms| == 1 ==> BackMembers(ms, acc) == Insert(acc, Mangle(ms[0].name), Back(ms[0].value))
  {
    hide Insert, Mangle, Back;
  }

  lemma ObjectEnd(buf: string, i: nat, name: string, acc: seq<Member>)
    requires Has(buf, i, ['}'])
    ensures ParseObj(buf, i, 0, name, acc) == Parsed(Obj(acc), i + 1)
  {
    PunctAt(buf, i, '}');
  }

  lemma ObjectComma(buf: string, i: nat, name: string, acc: seq<Member>)
    requires Has(buf, i, [','])
    ensures ParseObj(buf, i, 0, name, acc) == ParseObj(buf, i + 1, 0, name, acc)
  {
    PunctAt(buf, i, ',');
  }

  /** Printing a value and parsing the text gives the value that comes back, and consumes all of it. */
  lemma ParsePrint(v: Value)
    requires Printable(v)
    ensures ParseAt(Print(v), 0) == Parsed(Back(v), |Print(v)|)
  {
    ReadValue(Print(v), 0, v);
  }

  // ---------------------------------------------------------------- when the value itself comes back

  lemma {:induction false} InsertLast(acc: seq<Member>, name: string, v: Value)
    requires forall k :: 0 <= k < |acc| ==> Less(acc[k].name, name)
    ensures Insert(acc, name, v) == acc + [Member(name, v)]
  {
    if acc != [] {
      LessIrreflexive(name);
      LessAsymmetric(acc[0].name, name);
      InsertLast(acc[1..], name, v);
    }
  }

  lemma {:induction false} LessIrreflexive(a: string)
    ensures !Less(a, a)
  {
    if a != [] {
      LessIrreflexive(a[1..]);
    }
  }

  lemma {:induction false} LessAsymmetric(a: string, b: string)
    requires Less(a, b)
    ensures !Less(b, a)
  {
    if a != [] && b != [] && a[0] == b[0] {
      LessAsymmetric(a[1..], b[1..]);
    }
  }

  lemma {:induction false} InsertNames(acc: seq<Member>, name: string, v: Value, m: Member)
    requires m in Insert(acc, name, v)
    ensures m in acc || m.name == name
  {
    if acc != [] && m in Insert(acc[1..], name, v) {
      InsertNames(acc[1..], name, v, m);
    }
  }

  /** Keys that come back are free of backslashes directly before n or r. */
  lemma {:induction false} BackNamesClean(ms: seq<Member>, acc: seq<Member>)
    requires forall m :: m in acc ==> Clean(m.name)
    ensures forall m :: m in BackMembers(ms, acc) ==> Clean(m.name)
    decreases |ms|
  {
    if ms != [] {
      var name, v := Mangle(ms[0].name), Back(ms[0].value);
      MangleIdentity(ms[0].name);
      forall m | m in Insert(acc, name, v)
        ensures Clean(m.name)
      {
        InsertNames(acc, name, v, m);
      }
      BackNamesClean(ms[1..], Insert(acc, name, v));
    }
  }

  /** Members with clean keys come back in place, each with the value that comes back. */
  lemma {:induction false} BackMembersInPlace(ms: seq<Member>, acc: seq<Member>)
    requires Sorted(ms) && (forall k :: 0 <= k < |ms| ==> Clean(ms[k].name))
    requires forall j, k :: 0 <= j < |acc| && 0 <= k < |ms| ==> Less(acc[j].name, ms[k].name)
    ensures var r := BackMembers(ms, acc);
            && |r| == |acc| + |ms| && r[..|acc|] == acc
            && forall k :: 0 <= k < |ms| ==> r[|acc| + k] == Member(ms[k].name, Back(ms[k].value))
    decreases |ms|
  {
    if ms != [] {
      hide Back, Less, Mangle, Clean, Insert, BackMembers;
      var m := Member(ms[0].name, Back(ms[0].value));
      MangleIdentity(ms[0].name);
      InsertLast(acc, m.name, m.value);
      BackMembersStep(ms, acc);
      var acc', t := acc + [m], ms[1..];
      BackMembersInPlace(t, acc');
      var r := BackMembers(t, acc');
      TakeLast(r, acc, m);
      forall k | 0 <= k < |ms|
        ensures r[|acc| + k] == Member(ms[k].name, Back(ms[k].value))
      {
        if k > 0 {
          assert r[|acc'| + (k - 1)] == Member(t[k - 1].name, Back(t[k - 1].value));
        }
      }
    }
  }

  lemma TakeLast<T>(r: seq<T>, a: seq<T>, m: T)
    requires |r| > |a| && r[..|a| + 1] == a + [m]
    ensures r[..|a|] == a && r[|a|] == m
  {
    assert r[..|a|] == r[..|a| + 1][..|a|] && r[|a|] == r[..|a| + 1][|a|];
  }

  /** A value comes back unchanged exactly when all its strings and keys are clean. */
  lemma {:induction false} BackIdentity(v: Value)
    requires Printable(v)
    ensures Back(v) == v <==> AllClean(v)
    decreases v
  {
    match v
    case Str(s) => MangleIdentity(s);
    case Arr(items) =>
      forall k | 0 <= k < |items|
        ensures Back(items[k]) == items[k] <==> AllClean(items[k])
      {
        BackIdentity(items[k]);
      }
      if AllClean(v) {
        assert BackItems(items) == items;
      }
    case Obj(ms) =>
      BackIdentityObject(ms);
    case _ =>
  }

  lemma SameNamesClean(ms: seq<Member>)
    requires BackMembers(ms, []) == ms
    ensures forall k :: 0 <= k < |ms| ==> Clean(ms[k].name)
  {
    hide BackMembers, Clean;
    BackNamesClean(ms, []);
    forall k | 0 <= k < |ms|
      ensures Clean(ms[k].name)
    {
      assert ms[k] in BackMembers(ms, []);
    }
  }

  lemma SameIffValues(ms: seq<Member>)
    requires Sorted(ms) && (forall k :: 0 <= k < |ms| ==> Clean(ms[k].name))
    ensures BackMembers(ms, []) == ms <==> forall k :: 0 <= k < |ms| ==> Back(ms[k].value) == ms[k].value
  {
    BackMembersInPlace(ms, []);
    hide BackMembers, Clean, Sorted, Back;
    var r := BackMembers(ms, []);
    forall k | 0 <= k < |ms|
      ensures r[k] == Member(ms[k].name, Back(ms[k].value))
    {
      assert r[0 + k] == Member(ms[k].name, Back(ms[k].value));
    }
    if r == ms {
      forall k | 0 <= k < |ms|
        ensures Back(ms[k].value) == ms[k].value
      {
        assert r[k] == ms[k];
      }
    }
  }

  lemma {:induction false} BackIdentityObject(ms: seq<Member>)
    requires Printable(Obj(ms))
    ensures Back(Obj(ms)) == Obj(ms) <==> AllClean(Obj(ms))
    decreases ms
  {
    forall k | 0 <= k < |ms|
      ensures Back(ms[k].value) == ms[k].value <==> AllClean(ms[k].value)
    {
      BackIdentity(ms[k].value);
    }
    hide BackMembers, Clean, Sorted;
    if BackMembers(ms, []) == ms {
      SameNamesClean(ms);
    }
    if forall k :: 0 <= k < |ms| ==> Clean(ms[k].name) {
      SameIffValues(ms);
    }
  }

  /** The parser inverts the printer on a value exactly when no string or key in it has a backslash
      directly before n or r. */
  lemma RoundTrip(v: Value)
    requires Printable(v)
    ensures ParseAt(Print(v), 0) == Parsed(v, |Print(v)|) <==> AllClean(v)
  {
    ParsePrint(v);
    BackIdentity(v);
  }
}
