/** The JSON value, its printer, and the parser that reads it back. */
module Json {
  import opened JsonText
  import opened Slices

  // ---------------------------------------------------------------- values

  /** An object is a std::map: its members are in key order. The text of a real number stands
      for its value. */
  datatype Value =
    | Null
    | Bool(b: bool)
    | Int(i: int)
    | Real(text: string)
    | Str(s: string)
    | Arr(items: seq<Value>)
    | Obj(members: seq<Member>)

  datatype Member = Member(name: string, value: Value)

  /** std::string comparison. */
  predicate Less(a: string, b: string) {
    if b == [] then false
    else if a == [] then true
    else if a[0] != b[0] then a[0] < b[0]
    else Less(a[1..], b[1..])
  }

  /** m[name] = v on a map kept as a sorted list. */
  function Insert(ms: seq<Member>, name: string, v: Value): seq<Member> {
    if ms == [] then [Member(name, v)]
    else if ms[0].name == name then [Member(name, v)] + ms[1..]
    else if Less(name, ms[0].name) then [Member(name, v)] + ms
    else [ms[0]] + Insert(ms[1..], name, v)
  }

  ghost predicate Sorted(ms: seq<Member>) {
    forall i, j :: 0 <= i < j < |ms| ==> Less(ms[i].name, ms[j].name)
  }

  // ---------------------------------------------------------------- numbers

  predicate IsDigit(c: char) {
    '0' <= c <= '9'
  }

  function Digit(d: nat): char
    requires d < 10
  {
    ['0', '1', '2', '3', '4', '5', '6', '7', '8', '9'][d]
  }

  function DigitValue(c: char): nat {
    if c == '1' then 1 else if c == '2' then 2 else if c == '3' then 3
    else if c == '4' then 4 else if c == '5' then 5 else if c == '6' then 6
    else if c == '7' then 7 else if c == '8' then 8 else if c == '9' then 9 else 0
  }

  /** %ld of a number that is not negative. */
  function DecNat(n: nat): (r: string)
    ensures r != [] && forall i :: 0 <= i < |r| ==> IsDigit(r[i])
  {
    if n < 10 then [Digit(n)] else DecNat(n / 10) + [Digit(n % 10)]
  }

  function Dec(i: int): string {
    if i < 0 then ['-'] + DecNat(-i) else DecNat(i)
  }

  function NatOf(t: string): nat
    decreases |t|
  {
    if t == [] then 0 else 10 * NatOf(t[..|t| - 1]) + DigitValue(t[|t| - 1])
  }

  /** atoi of the text of an integer token. */
  function Atoi(t: string): int {
    if t != [] && t[0] == '-' then 0 - NatOf(t[1..]) else NatOf(t)
  }

  lemma {:induction false} NatOfDec(n: nat)
    ensures NatOf(DecNat(n)) == n
  {
    DigitInverse(n % 10);
    if n >= 10 {
      NatOfDec(n / 10);
      var r := DecNat(n);
      hide Digit, DigitValue;
      assert r[..|r| - 1] == DecNat(n / 10);
    } else {
      hide Digit, DigitValue;
      assert [Digit(n)][..0] == [];
    }
  }

  lemma DigitInverse(d: nat)
    requires d < 10
    ensures DigitValue(Digit(d)) == d
  {
  }

  lemma AtoiDec(i: int)
    ensures Atoi(Dec(i)) == i
  {
    hide DecNat, NatOf, Digit, DigitValue;
    if i < 0 {
      NatOfDec(-i);
      assert Dec(i)[1..] == DecNat(-i);
    } else {
      NatOfDec(i);
    }
  }

  // ---------------------------------------------------------------- printing

  function Quoted(s: string): string {
    ['"'] + Encode(s) + ['"']
  }

  /** ToString(true). */
  function Print(v: Value): string
    decreases v, 0
  {
    match v
    case Null => "null"
    case Bool(b) => if b then "true" else "false"
    case Int(i) => Dec(i)
    case Real(text) => text
    case Str(s) => Quoted(s)
    case Arr(items) => ['['] + PrintItems(items) + [']']
    case Obj(members) => ['{'] + PrintMembers(members) + ['}']
  }

  function PrintItems(items: seq<Value>): string
    decreases items, 1
  {
    if items == [] then []
    else if |items| == 1 then Print(items[0])
    else Print(items[0]) + [','] + PrintItems(items[1..])
  }

  function PrintMember(m: Member): string
    decreases m, 0
  {
    Quoted(m.name) + [':'] + Print(m.value)
  }

  function PrintMembers(members: seq<Member>): string
    decreases members, 1
  {
    if members == [] then []
    else if |members| == 1 then PrintMember(members[0])
    else PrintMember(members[0]) + [','] + PrintMembers(members[1..])
  }

  // ---------------------------------------------------------------- tokens

  datatype Lexeme =
    | TInt(text: string)
    | TReal(text: string)
    | TStr(s: string)
    | TNull
    | TBool(b: bool)
    | TChar(c: char)

  /** The character at i of a C string; behind the text there is NUL. */
  function At(buf: string, i: nat): char {
    if i < |buf| then buf[i] else '\0'
  }

  predicate IsSpace(c: char) {
    c == ' ' || c == '\t' || c == '\r' || c == '\n'
  }

  function SkipSpace(buf: string, i: nat): (j: nat)
    ensures j >= i
    ensures j == i || j <= |buf|
    decreases |buf| - i
  {
    if i < |buf| && IsSpace(buf[i]) then SkipSpace(buf, i + 1) else i
  }

  predicate InNumber(c: char) {
    IsDigit(c) || c == '.'
  }

  function NumberEnd(buf: string, i: nat): (j: nat)
    ensures j >= i
    ensures j == i || j <= |buf|
    decreases |buf| - i
  {
    if i < |buf| && InNumber(buf[i]) then NumberEnd(buf, i + 1) else i
  }

  /** Where a string token ends: at the first quote that no backslash escapes, or at NUL. */
  function StringEnd(buf: string, i: nat, ign: bool): (j: nat)
    ensures j >= i
    ensures j == i || j <= |buf|
    decreases |buf| - i
  {
    if i < |buf| && buf[i] != '\0' && (ign || buf[i] != '"')
    then StringEnd(buf, i + 1, !ign && buf[i] == '\\')
    else i
  }

  /** Token and the index behind it. */
  function TokenAt(buf: string, i: nat): (r: (Lexeme, nat))
    ensures r.1 > i
    ensures i >= |buf| ==> r.0 == TChar('\0')
  {
    var x := SkipSpace(buf, i);
    var c := At(buf, x);
    if c == '-' || IsDigit(c) then
      var end := NumberEnd(buf, if c == '-' then x + 1 else x);
      var text := buf[x..end];
      (if '.' in text then TReal(text) else TInt(text), end)
    else if c == '"' then
      var end := StringEnd(buf, x + 1, false);
      (TStr(Decode(buf[x + 1..end])), end + 1)
    else if Has(buf, x, "null") then (TNull, x + 4)
    else if Has(buf, x, "true") then (TBool(true), x + 4)
    else if Has(buf, x, "false") then (TBool(false), x + 5)
    else (TChar(c), x + 1)
  }

  // ---------------------------------------------------------------- parsing

  /** What one call of Parse does: it yields a value, or returns a punctuation character, or throws. */
  datatype Outcome =
    | Parsed(v: Value, next: nat)
    | Punct(c: char, next: nat)
    | Throw

  /** A character that, read as a signed number, is one of the codes of scalar types. */
  predicate IsTypeCode(c: char) {
    251 <= c as int <= 255
  }

  function Left(buf: string, i: nat): nat {
    if i <= |buf| + 1 then |buf| + 2 - i else 0
  }

  function ParseAt(buf: string, i: nat): (r: Outcome)
    ensures !r.Throw? ==> i < |buf| && r.next > i
    decreases Left(buf, i), 0
  {
    var (tok, n) := TokenAt(buf, i);
    if i >= |buf| then Throw
    else
      match tok
      case TInt(text) => Parsed(Int(Atoi(text)), n)
      case TReal(text) => Parsed(Real(text), n)
      case TStr(s) => Parsed(Str(s), n)
      case TNull => Parsed(Null, n)
      case TBool(b) => Parsed(Bool(b), n)
      case TChar(c) =>
        if c == '[' then ParseArr(buf, n, [])
        else if c == '{' then ParseObj(buf, n, 0, [], [])
        else if c == ']' || c == '}' || c == ',' || c == ':' then Punct(c, n)
        else if IsTypeCode(c) then Parsed(Null, n)
        else Throw
  }

  /** The loop over array elements. */
  function ParseArr(buf: string, i: nat, acc: seq<Value>): (r: Outcome)
    ensures !r.Throw? ==> r.Parsed? && i < |buf| && r.next > i
    decreases Left(buf, i), 1
  {
    match ParseAt(buf, i)
    case Throw => Throw
    case Parsed(v, n) => ParseArr(buf, n, acc + [v])
    case Punct(c, n) =>
      if c == ']' then Parsed(Arr(acc), n) else if c == ',' then ParseArr(buf, n, acc) else Throw
  }

  /** The loop over object members; state 0 expects a name, 1 the colon, 2 the value. */
  function ParseObj(buf: string, i: nat, state: nat, name: string, acc: seq<Member>): (r: Outcome)
    ensures !r.Throw? ==> r.Parsed? && i < |buf| && r.next > i
    decreases Left(buf, i), 1
  {
    match ParseAt(buf, i)
    case Throw => Throw
    case Parsed(v, n) =>
      if state == 0 && v.Str? then ParseObj(buf, n, 1, v.s, acc)
      else if state == 2 then ParseObj(buf, n, 0, name, Insert(acc, name, v))
      else Throw
    case Punct(c, n) =>
      if state == 0 && c == ',' then ParseObj(buf, n, 0, name, acc)
      else if state == 0 && c == '}' then Parsed(Obj(acc), n)
      else if state == 1 && c == ':' then ParseObj(buf, n, 2, name, acc)
      else Throw
  }

  // ---------------------------------------------------------------- the loops

  method ScanSpace(buf: string, index: nat) returns (next: nat)
    ensures next == SkipSpace(buf, index)
  {
    next := index;
    while IsSpace(At(buf, next))
      invariant SkipSpace(buf, next) == SkipSpace(buf, index)
      decreases |buf| - next
    {
      next := next + 1;
    }
  }

  method ScanNumber(buf: string, x: nat, from: nat) returns (next: nat, dot: bool)
    requires x <= from <= |buf| && from <= x + 1
    requires from > x ==> buf[x] == '-'
    ensures next == NumberEnd(buf, from) <= |buf|
    ensures dot <==> '.' in buf[x..next]
  {
    next, dot := from, false;
    while InNumber(At(buf, next))
      invariant from <= next <= |buf|
      invariant NumberEnd(buf, next) == NumberEnd(buf, from)
      invariant dot <==> '.' in buf[x..next]
      decreases |buf| - next
    {
      if At(buf, next) == '.' {
        dot := true;
      }
      assert buf[x..next + 1] == buf[x..next] + [buf[next]];
      next := next + 1;
    }
  }

  method ScanString(buf: string, x: nat) returns (next: nat)
    requires x <= |buf|
    ensures next == StringEnd(buf, x, false) <= |buf|
  {
    var ign := false;
    next := x;
    while At(buf, next) != '\0' && (ign || At(buf, next) != '"')
      invariant x <= next <= |buf|
      invariant StringEnd(buf, next, ign) == StringEnd(buf, x, false)
      decreases |buf| - next
    {
      if ign {
        ign := false;
      } else if At(buf, next) == '\\' {
        ign := true;
      }
      next := next + 1;
    }
  }

  method Token(buf: string, index: nat) returns (tok: Lexeme, next: nat)
    ensures (tok, next) == TokenAt(buf, index)
  {
    hide SkipSpace, NumberEnd, StringEnd;
    var x := ScanSpace(buf, index);
    var c := At(buf, x);
    if c == '-' || IsDigit(c) {
      var end, dot := ScanNumber(buf, x, if c == '-' then x + 1 else x);
      return if dot then TReal(buf[x..end]) else TInt(buf[x..end]), end;
    }
    if c == '"' {
      var end := ScanString(buf, x + 1);
      var ord := DecodeInPlace(buf[x + 1..end]);
      return TStr(ord), end + 1;
    }
    if Has(buf, x, "null") {
      return TNull, x + 4;
    }
    if Has(buf, x, "true") {
      return TBool(true), x + 4;
    }
    if Has(buf, x, "false") {
      return TBool(false), x + 5;
    }
    return TChar(c), x + 1;
  }

  method Parse(buf: string, index: nat) returns (r: Outcome)
    ensures r == ParseAt(buf, index)
    decreases Left(buf, index)
  {
    var tok, next := Token(buf, index);
    if index >= |buf| {
      return Throw;
    }
    match tok
    case TInt(text) => return Parsed(Int(Atoi(text)), next);
    case TReal(text) => return Parsed(Real(text), next);
    case TStr(s) => return Parsed(Str(s), next);
    case TNull => return Parsed(Null, next);
    case TBool(b) => return Parsed(Bool(b), next);
    case TChar(c) =>
      if c == '[' {
        var items: seq<Value> := [];
        ghost var from := next;
        while true
          invariant index < next
          invariant ParseArr(buf, next, items) == ParseArr(buf, from, [])
          decreases Left(buf, next)
        {
          var o := Parse(buf, next);
          match o
          case Parsed(v, n) =>
            items := items + [v];
            next := n;
          case Punct(p, n) =>
            if p == ']' {
              return Parsed(Arr(items), n);
            } else if p != ',' {
              return Throw;
            }
            next := n;
          case Throw =>
            return Throw;
        }
      } else if c == '{' {
        var state, name: string, members: seq<Member> := 0, [], [];
        ghost var from := next;
        while true
          invariant index < next && 0 <= state <= 2
          invariant ParseObj(buf, next, state, name, members) == ParseObj(buf, from, 0, [], [])
          decreases Left(buf, next)
        {
          var o := Parse(buf, next);
          if o.Throw? {
            return Throw;
          }
          if state == 0 {
            if o.Punct? && o.c == ',' {
            } else if o.Punct? && o.c == '}' {
              return Parsed(Obj(members), o.next);
            } else if o.Punct? || !o.v.Str? {
              return Throw;
            } else {
              name := o.v.s;
              state := 1;
            }
          } else if state == 1 {
            if o.Parsed? || o.c != ':' {
              return Throw;
            }
            state := 2;
          } else {
            if o.Punct? {
              return Throw;
            }
            members := Insert(members, name, o.v);
            state := 0;
          }
          next := o.next;
        }
      } else if c == ']' || c == '}' || c == ',' || c == ':' {
        return Punct(c, next);
      } else if IsTypeCode(c) {
        return Parsed(Null, next);
      } else {
        return Throw;
      }
  }

  lemma ItemsStep(items: seq<Value>, k: nat)
    requires k < |items|
    ensures PrintItems(items[k..]) ==
            Print(items[k]) + (if k + 1 == |items| then [] else [','] + PrintItems(items[k + 1..]))
  {
    assert items[k..][1..] == items[k + 1..];
  }

  lemma MembersStep(ms: seq<Member>, k: nat)
    requires k < |ms|
    ensures PrintMembers(ms[k..]) ==
            PrintMember(ms[k]) + (if k + 1 == |ms| then [] else [','] + PrintMembers(ms[k + 1..]))
  {
    assert ms[k..][1..] == ms[k + 1..];
  }

  /** The printing recursion, with the separators put in by loops. */
  method ToString(v: Value) returns (str: string)
    ensures str == Print(v)
    decreases v, 0
  {
    match v
    case Null => return "null";
    case Bool(b) => return if b then "true" else "false";
    case Int(i) => return Dec(i);
    case Real(text) => return text;
    case Str(s) =>
      var e := EncodeInPlace(s);
      return ['"'] + e + ['"'];
    case Arr(items) =>
      str := ItemsToString(items);
      return ['['] + str + [']'];
    case Obj(members) =>
      str := MembersToString(members);
      return ['{'] + str + ['}'];
  }

  method ItemsToString(items: seq<Value>) returns (tmp: string)
    ensures tmp == PrintItems(items)
    decreases items, 1
  {
    hide Print;
    var first := true;
    tmp := [];
    assert items[0..] == items;
    for k := 0 to |items|
      invariant first <==> k == 0
      invariant k < |items| ==> PrintItems(items) == tmp + (if first then [] else [',']) + PrintItems(items[k..])
      invariant k == |items| ==> PrintItems(items) == tmp
    {
      ItemsStep(items, k);
      if !first {
        tmp := tmp + [','];
      }
      var str := ToString(items[k]);
      tmp := tmp + str;
      first := false;
    }
  }

  lemma MemberText(tmp: string, m: Member)
    ensures tmp + ['"'] + Encode(m.name) + ['"', ':'] + Print(m.value) == tmp + PrintMember(m)
  {
    hide Print, Encode;
    assert Quoted(m.name) + [':'] == ['"'] + Encode(m.name) + ['"', ':'];
  }

  method MembersToString(members: seq<Member>) returns (tmp: string)
    ensures tmp == PrintMembers(members)
    decreases members, 1
  {
    hide Print, PrintMember, PrintMembers, Encode;
    var first := true;
    tmp := [];
    assert members[0..] == members;
    if members == [] {
      MembersNone();
    }
    for k := 0 to |members|
      invariant first <==> k == 0
      invariant k < |members| ==>
                  PrintMembers(members) == tmp + (if first then [] else [',']) + PrintMembers(members[k..])
      invariant k == |members| ==> PrintMembers(members) == tmp
    {
      MembersStep(members, k);
      if !first {
        tmp := tmp + [','];
      }
      var name := EncodeInPlace(members[k].name);
      var str := ToString(members[k].value);
      MemberText(tmp, members[k]);
      tmp := tmp + ['"'] + name + ['"', ':'] + str;
      first := false;
    }
  }

  lemma MembersNone()
    ensures PrintMembers([]) == []
  {
  }
}
