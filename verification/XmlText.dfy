/** TinyXML text: UTF-8, and characters escaped and read back. */
module XmlText {
  import opened Bytes
  import opened Slices

  type Text = seq<Byte>

  datatype Option<T> = None | Some(value: T)

  // ---------------------------------------------------------------- UTF-8

  /** utf8ByteTable: the length of a sequence, from its first byte. */
  function LeadLength(b: Byte): nat {
    if b < 0xc2 then 1 else if b < 0xe0 then 2 else if b < 0xf0 then 3 else if b < 0xf5 then 4 else 1
  }

  /** (input | 0x80) & 0xBF, as a byte. */
  function TailByte(n: nat): Byte {
    0x80 + n % 0x40
  }

  /** The bytes of a number in UTF-8, six bits in each tail byte. */
  function Utf8(n: nat): (r: Text)
    ensures |r| <= 4
  {
    if n < 0x80 then [n]
    else if n < 0x800 then [0xc0 + n / 0x40, TailByte(n)]
    else if n < 0x10000 then [0xe0 + n / 0x40 / 0x40, TailByte(n / 0x40), TailByte(n)]
    else if n < 0x200000 then
      [0xf0 + n / 0x40 / 0x40 / 0x40, TailByte(n / 0x40 / 0x40), TailByte(n / 0x40), TailByte(n)]
    else []
  }

  /** ConvertUTF32ToUTF8: the bytes are written from the last to the first, six bits at a time. */
  method ConvertUtf32ToUtf8(input: nat, output: array<Byte>) returns (length: nat)
    requires output.Length >= 4
    modifies output
    ensures length <= 4 && output[..length] == Utf8(input)
    ensures forall i :: length <= i < output.Length ==> output[i] == old(output[i])
  {
    length := if input < 0x80 then 1 else if input < 0x800 then 2 else if input < 0x10000 then 3
              else if input < 0x200000 then 4 else 0;
    if length == 0 {
      return;
    }
    var n, at := input, length;
    while at > 1
      invariant 1 <= at <= length
      invariant n == (if at == length then input else if at + 1 == length then input / 0x40
                      else if at + 2 == length then input / 0x40 / 0x40 else input / 0x40 / 0x40 / 0x40)
      invariant forall i :: at <= i < length ==> output[i] == Utf8(input)[i]
      invariant forall i :: length <= i < output.Length ==> output[i] == old(output[i])
    {
      at := at - 1;
      output[at] := TailByte(n);
      n := n / 0x40;
    }
    output[0] := FirstByteMark(length) + n;
  }

  /** FIRST_BYTE_MARK. */
  function FirstByteMark(length: nat): nat {
    if length == 2 then 0xc0 else if length == 3 then 0xe0 else if length == 4 then 0xf0 else 0
  }

  /** The number spelled by the bit layout of section 3 of RFC 3629. */
  function CodePoint(s: Text): int
    requires 1 <= |s| <= 4
  {
    var b: seq<int> := s;
    if |s| == 1 then b[0]
    else if |s| == 2 then (b[0] - 0xc0) * 0x40 + (b[1] - 0x80)
    else if |s| == 3 then (b[0] - 0xe0) * 0x1000 + (b[1] - 0x80) * 0x40 + (b[2] - 0x80)
    else (b[0] - 0xf0) * 0x40000 + (b[1] - 0x80) * 0x1000 + (b[2] - 0x80) * 0x40 + (b[3] - 0x80)
  }

  /** A code point's bytes: the first gives the length, the others are tail bytes, and together they
      spell the code point. */
  lemma Utf8Layout(n: nat)
    requires n <= 0x10ffff
    ensures var s := Utf8(n);
            && 1 <= |s| <= 4
            && LeadLength(s[0]) == |s|
            && CodePoint(s) == n
            && (forall i :: 1 <= i < |s| ==> 0x80 <= s[i] < 0xc0)
            && (|s| == 1 <==> n < 0x80) && (|s| > 1 ==> s[0] >= 0xc2)
  {
  }

  function JoinUtf8(ns: seq<nat>): Text {
    if ns == [] then [] else Utf8(ns[0]) + JoinUtf8(ns[1..])
  }

  /** Splits a text at its lead bytes. */
  function SplitUtf8(s: Text): seq<int>
    decreases |s|
  {
    if s == [] then []
    else
      var k := LeadLength(s[0]);
      if k > |s| then [] else [CodePoint(s[..k])] + SplitUtf8(s[k..])
  }

  /** Splitting at lead bytes recovers the code points. */
  lemma {:induction false} SplitJoin(ns: seq<nat>)
    requires forall i :: 0 <= i < |ns| ==> ns[i] <= 0x10ffff
    ensures SplitUtf8(JoinUtf8(ns)) == ns
  {
    if ns != [] {
      var u, t := Utf8(ns[0]), JoinUtf8(ns[1..]);
      Utf8Layout(ns[0]);
      SplitJoin(ns[1..]);
      hide Utf8, CodePoint;
      assert (u + t)[..|u|] == u && (u + t)[|u|..] == t;
    }
  }

  // ---------------------------------------------------------------- escaping

  const AMP: Byte := 0x26
  const HASH: Byte := 0x23
  const LETTER_X: Byte := 0x78
  const SEMICOLON: Byte := 0x3b
  const LESS: Byte := 0x3c
  const GREATER: Byte := 0x3e
  const QUOTE: Byte := 0x22
  const APOSTROPHE: Byte := 0x27

  /** The five named entities. */
  function Entity(k: nat): Text
    requires k < 5
  {
    if k == 0 then [0x26, 0x61, 0x6d, 0x70, 0x3b]             // &amp;
    else if k == 1 then [0x26, 0x6c, 0x74, 0x3b]              // &lt;
    else if k == 2 then [0x26, 0x67, 0x74, 0x3b]              // &gt;
    else if k == 3 then [0x26, 0x71, 0x75, 0x6f, 0x74, 0x3b]  // &quot;
    else [0x26, 0x61, 0x70, 0x6f, 0x73, 0x3b]                 // &apos;
  }

  function EntityChar(k: nat): Byte
    requires k < 5
  {
    if k == 0 then AMP else if k == 1 then LESS else if k == 2 then GREATER
    else if k == 3 then QUOTE else APOSTROPHE
  }

  /** %02X of one hexadecimal digit. */
  function HexDigit(d: nat): Byte
    requires d < 16
  {
    if d < 10 then 0x30 + d else 0x41 + (d - 10)
  }

  function EscapeByte(c: Byte): Text {
    if c == AMP then Entity(0)
    else if c == LESS then Entity(1)
    else if c == GREATER then Entity(2)
    else if c == QUOTE then Entity(3)
    else if c == APOSTROPHE then Entity(4)
    else if c < 32 then [AMP, HASH, LETTER_X, HexDigit(c / 16), HexDigit(c % 16), SEMICOLON]
    else [c]
  }

  /** At i stands the start of a hexadecimal character reference. */
  predicate RefAt(s: Text, i: nat) {
    i + 2 < |s| && s[i] == AMP && s[i + 1] == HASH && s[i + 2] == LETTER_X
  }

  /** How far a reference is passed through: up to a semicolon, or to the last byte. */
  function PassEnd(s: Text, i: nat): (j: nat)
    requires i < |s|
    ensures i <= j < |s|
    ensures i + 1 < |s| ==> i < j
    decreases |s| - i
  {
    if i + 1 >= |s| then i
    else if s[i + 1] == SEMICOLON then i + 1
    else PassEnd(s, i + 1)
  }

  function EncodeFrom(s: Text, i: nat): Text
    requires i <= |s|
    decreases |s| - i
  {
    if i == |s| then []
    else if RefAt(s, i) then s[i..PassEnd(s, i)] + EncodeFrom(s, PassEnd(s, i))
    else EscapeByte(s[i]) + EncodeFrom(s, i + 1)
  }

  /** The loops of EncodeString. */
  method EncodeString(str: Text) returns (out: Text)
    ensures out == EncodeFrom(str, 0)
  {
    hide EscapeByte, PassEnd;
    var i := 0;
    out := [];
    while i < |str|
      invariant 0 <= i <= |str|
      invariant out + EncodeFrom(str, i) == EncodeFrom(str, 0)
    {
      if RefAt(str, i) {
        var from := i;
        ghost var before := out;
        i := PassThrough(str, i);
        out := out + str[from..i];
        assert out + EncodeFrom(str, i) == before + (str[from..i] + EncodeFrom(str, i));
      } else {
        ghost var before := out;
        out := out + EscapeByte(str[i]);
        assert out + EncodeFrom(str, i + 1) == before + (EscapeByte(str[i]) + EncodeFrom(str, i + 1));
        i := i + 1;
      }
    }
  }

  method PassThrough(str: Text, from: nat) returns (i: nat)
    requires from < |str|
    ensures i == PassEnd(str, from)
  {
    i := from;
    while i < |str| - 1
      invariant from <= i < |str|
      invariant PassEnd(str, i) == PassEnd(str, from)
    {
      i := i + 1;
      if str[i] == SEMICOLON {
        break;
      }
    }
  }

  // ---------------------------------------------------------------- reading

  /** The byte at p of a C string; behind the text there is NUL. */
  function At(buf: Text, p: nat): Byte {
    if p < |buf| then buf[p] else 0
  }

  /** strchr for a semicolon. */
  function FindSemicolon(buf: Text, p: nat): (r: Option<nat>)
    ensures r.Some? ==> p <= r.value < |buf| && buf[r.value] == SEMICOLON
    decreases |buf| - p
  {
    if p >= |buf| || buf[p] == 0 then None
    else if buf[p] == SEMICOLON then Some(p)
    else FindSemicolon(buf, p + 1)
  }

  function HexValue(c: Byte): Option<nat> {
    if 0x30 <= c <= 0x39 then Some(c - 0x30)
    else if 0x61 <= c <= 0x66 then Some(c - 0x61 + 10)
    else if 0x41 <= c <= 0x46 then Some(c - 0x41 + 10)
    else None
  }

  function DecValue(c: Byte): Option<nat> {
    if 0x30 <= c <= 0x39 then Some(c - 0x30) else None
  }

  function Base(hex: bool): nat {
    if hex then 16 else 10
  }

  /** A product of two 32-bit numbers. */
  function Mul32(a: nat, b: nat): nat {
    a * b % TWO_TO_THE_32
  }

  /** Digits from q backwards to the mark; the multiplier is a 32-bit number. */
  function NumberBack(buf: Text, q: int, hex: bool, mult: nat, ucs: nat): Option<nat>
    requires q < |buf|
    decreases q
  {
    if q < 0 then None
    else if buf[q] == (if hex then LETTER_X else HASH) then Some(ucs)
    else
      var d := if hex then HexValue(buf[q]) else DecValue(buf[q]);
      if d.None? then None
      else NumberBack(buf, q - 1, hex, Mul32(mult, Base(hex)), ucs + Mul32(mult, d.value))
  }

  /** What one character read gives: its bytes, and where to go on; None where the pointer becomes null. */
  datatype CharRead = CharRead(bytes: Text, next: Option<nat>)

  function NamedEntity(buf: Text, p: nat, k: nat): CharRead
    requires k <= 5 && p < |buf|
    decreases 5 - k
  {
    if k == 5 then CharRead([], Some(p + 1))
    else if Has(buf, p, Entity(k))
    then CharRead([EntityChar(k)], Some(p + |Entity(k)|))
    else NamedEntity(buf, p, k + 1)
  }

  function NumericEntity(buf: Text, p: nat, hex: bool, utf8: bool): CharRead
    requires p < |buf|
  {
    var from := if hex then p + 3 else p + 2;
    if At(buf, from) == 0 then CharRead([], None)
    else
      var e := FindSemicolon(buf, from);
      if e.None? then CharRead([], None)
      else
        var n := NumberBack(buf, e.value - 1, hex, 1, 0);
        if n.None? then CharRead([], None)
        else CharRead(if utf8 then Utf8(n.value) else [n.value % 256], Some(e.value + 1))
  }

  function EntityAt(buf: Text, p: nat, utf8: bool): CharRead
    requires p < |buf|
  {
    if At(buf, p + 1) == HASH && At(buf, p + 2) != 0
    then NumericEntity(buf, p, At(buf, p + 2) == LETTER_X, utf8)
    else NamedEntity(buf, p, 0)
  }

  /** len bytes from p on, zeros from the first NUL. */
  function CopyChars(buf: Text, p: nat, len: nat): (r: Text)
    ensures |r| == len
    decreases len
  {
    if len == 0 then []
    else if At(buf, p) == 0 then seq(len, _ => 0)
    else [At(buf, p)] + CopyChars(buf, p + 1, len - 1)
  }

  function CharAt(buf: Text, p: nat, utf8: bool): (r: CharRead)
    requires p < |buf|
    ensures r.next.Some? ==> r.next.value > p
  {
    var len := if utf8 then LeadLength(buf[p]) else 1;
    if len == 1 then
      if buf[p] == AMP then
        var r := EntityAt(buf, p, utf8);
        EntityAdvances(buf, p, utf8);
        r
      else CharRead([buf[p]], Some(p + 1))
    else CharRead(CopyChars(buf, p, len), Some(p + len))
  }

  lemma EntityAdvances(buf: Text, p: nat, utf8: bool)
    requires p < |buf|
    ensures EntityAt(buf, p, utf8).next.Some? ==> EntityAt(buf, p, utf8).next.value > p
  {
    NamedAdvances(buf, p, 0);
  }

  lemma {:induction false} NamedAdvances(buf: Text, p: nat, k: nat)
    requires p < |buf| && k <= 5
    ensures NamedEntity(buf, p, k).next.Some? && NamedEntity(buf, p, k).next.value > p
    decreases 5 - k
  {
    if k < 5 {
      NamedAdvances(buf, p, k + 1);
    }
  }

  datatype TextRead = TextRead(text: Text, next: Option<nat>)

  /** The loop of ReadText that keeps all white space, and what follows it. */
  function ReadFrom(buf: Text, p: nat, text: Text, tag: Text, utf8: bool): TextRead
    decreases |buf| - p
  {
    if At(buf, p) == 0 then TextRead(text, None)
    else if Has(buf, p, tag) then
      TextRead(text, if At(buf, p + |tag|) != 0 then Some(p + |tag|) else None)
    else
      var c := CharAt(buf, p, utf8);
      if c.next.None? then TextRead(text + c.bytes, None)
      else ReadFrom(buf, c.next.value, text + c.bytes, tag, utf8)
  }

  /** The digit loop of GetEntity: from q backwards to the mark. */
  method ReadDigits(buf: Text, from: int, hex: bool) returns (ucs: Option<nat>)
    requires -1 <= from < |buf|
    ensures ucs == NumberBack(buf, from, hex, 1, 0)
  {
    hide HexValue, DecValue, Mul32;
    var q, mult, sum := from, 1, 0;
    while q >= 0 && buf[q] != (if hex then LETTER_X else HASH)
      invariant -1 <= q <= from && mult >= 0 && sum >= 0
      invariant NumberBack(buf, q, hex, mult, sum) == NumberBack(buf, from, hex, 1, 0)
      decreases q
    {
      var d := if hex then HexValue(buf[q]) else DecValue(buf[q]);
      if d.None? {
        return None;
      }
      sum := sum + Mul32(mult, d.value);
      mult := Mul32(mult, Base(hex));
      q := q - 1;
    }
    return if q < 0 then None else Some(sum);
  }

  method GetEntity(buf: Text, p: nat, utf8: bool) returns (c: CharRead)
    requires p < |buf|
    ensures c == EntityAt(buf, p, utf8)
  {
    hide NumberBack, Utf8, FindSemicolon;
    if At(buf, p + 1) == HASH && At(buf, p + 2) != 0 {
      var hex := At(buf, p + 2) == LETTER_X;
      var from := if hex then p + 3 else p + 2;
      if At(buf, from) == 0 {
        return CharRead([], None);
      }
      var e := FindSemicolon(buf, from);
      if e.None? {
        return CharRead([], None);
      }
      var ucs := ReadDigits(buf, e.value - 1, hex);
      if ucs.None? {
        return CharRead([], None);
      }
      return CharRead(if utf8 then Utf8(ucs.value) else [ucs.value % 256], Some(e.value + 1));
    }
    var k := 0;
    while k < 5
      invariant k <= 5 && NamedEntity(buf, p, k) == NamedEntity(buf, p, 0)
    {
      if Has(buf, p, Entity(k)) {
        return CharRead([EntityChar(k)], Some(p + |Entity(k)|));
      }
      k := k + 1;
    }
    return CharRead([], Some(p + 1));
  }

  method GetChar(buf: Text, p: nat, utf8: bool) returns (c: CharRead)
    requires p < |buf|
    ensures c == CharAt(buf, p, utf8)
  {
    var length := if utf8 then LeadLength(buf[p]) else 1;
    if length == 1 {
      if buf[p] == AMP {
        c := GetEntity(buf, p, utf8);
        return;
      }
      return CharRead([buf[p]], Some(p + 1));
    }
    var value := CopyBytes(buf, p, length);
    return CharRead(value, Some(p + length));
  }

  /** The copy loop of GetChar, into an array of zeros. */
  method CopyBytes(buf: Text, p: nat, length: nat) returns (value: Text)
    requires length <= 4
    ensures value == CopyChars(buf, p, length)
  {
    var cArr := new Byte[4](_ => 0);
    var i := 0;
    while At(buf, p + i) != 0 && i < length
      invariant i <= length
      invariant forall k :: 0 <= k < i ==> cArr[k] == At(buf, p + k) && cArr[k] != 0
      invariant forall k :: i <= k < 4 ==> cArr[k] == 0
      decreases length - i
    {
      cArr[i] := At(buf, p + i);
      i := i + 1;
    }
    CopiedChars(buf, p, length, cArr[..i]);
    value := cArr[..length];
  }

  lemma {:induction false} CopiedChars(buf: Text, p: nat, length: nat, t: Text)
    requires |t| <= length && (|t| == length || At(buf, p + |t|) == 0)
    requires forall k :: 0 <= k < |t| ==> t[k] == At(buf, p + k) && t[k] != 0
    ensures CopyChars(buf, p, length) == t + seq(length - |t|, _ => 0)
    decreases length
  {
    if t != [] {
      var u := t[1..];
      forall k | 0 <= k < |u|
        ensures u[k] == At(buf, p + 1 + k) && u[k] != 0
      {
        assert u[k] == t[k + 1];
      }
      CopiedChars(buf, p + 1, length - 1, u);
      assert t[0] == At(buf, p);
      assert t == [t[0]] + u;
    }
  }

  method StringEqual(buf: Text, p: nat, tag: Text) returns (equal: bool)
    requires p < |buf| && 0 !in tag
    ensures equal == Has(buf, p, tag)
  {
    var q, t := p, 0;
    while At(buf, q) != 0 && t < |tag| && At(buf, q) == tag[t]
      invariant q == p + t && t <= |tag| && q <= |buf| && buf[p..q] == tag[..t]
      decreases |tag| - t
    {
      assert buf[p..q + 1] == buf[p..q] + [buf[q]] && tag[..t + 1] == tag[..t] + [tag[t]];
      q, t := q + 1, t + 1;
    }
    equal := t == |tag|;
    if t < |tag| && p + |tag| <= |buf| {
      assert buf[p..p + |tag|][t] == buf[q] && tag[t] in tag;
    }
  }

  /** ReadText without trimming. */
  method ReadText(buf: Text, p: nat, endTag: Text, utf8: bool) returns (r: TextRead)
    requires 0 !in endTag
    ensures r == ReadFrom(buf, p, [], endTag, utf8)
  {
    hide CharAt, Has;
    var text: Text, at := [], Some(p);
    while at.Some? && At(buf, at.value) != 0
      invariant at.Some? ==> ReadFrom(buf, at.value, text, endTag, utf8) == ReadFrom(buf, p, [], endTag, utf8)
      invariant at.None? ==> TextRead(text, None) == ReadFrom(buf, p, [], endTag, utf8)
      decreases at.Some?, if at.Some? then |buf| - at.value else 0
    {
      var ends := StringEqual(buf, at.value, endTag);
      if ends {
        break;
      }
      var c := GetChar(buf, at.value, utf8);
      text := text + c.bytes;
      at := c.next;
    }
    if at.Some? && At(buf, at.value) != 0 {
      at := Some(at.value + |endTag|);
    }
    return TextRead(text, if at.Some? && At(buf, at.value) != 0 then at else None);
  }

  // ---------------------------------------------------------------- texts made of whole characters

  /** Length of the character that starts with b. */
  function UnitLength(b: Byte, utf8: bool): (n: nat)
    ensures 1 <= n <= 4
  {
    if utf8 then LeadLength(b) else 1
  }

  /** At i stands one whole character: an ASCII byte or, in UTF-8, a lead byte with its tail. */
  ghost predicate UnitAt(s: Text, i: nat, utf8: bool) {
    && i < |s| && s[i] != 0
    && var n := UnitLength(s[i], utf8);
       && i + n <= |s|
       && (n == 1 && utf8 ==> s[i] < 0x80)
       && (n > 1 ==> forall j :: i <= j < i + n ==> s[j] >= 0x80)
  }

  /** From i on, s consists of whole characters other than NUL. */
  ghost predicate Units(s: Text, i: nat, utf8: bool)
    decreases |s| - i
  {
    i == |s| || (UnitAt(s, i, utf8) && Units(s, i + UnitLength(s[i], utf8), utf8))
  }

  lemma FirstUnit(s: Text, i: nat, u: Text)
    requires Has(s, i, u) && 1 <= |u| <= 4 && LeadLength(u[0]) == |u| && u[0] != 0
    requires if |u| == 1 then u[0] < 0x80 else forall k :: 0 <= k < |u| ==> u[k] >= 0x80
    ensures UnitAt(s, i, true) && UnitLength(s[i], true) == |u|
  {
    HasAt(s, i, u, 0);
    HasEvery(s, i, u);
  }

  /** A concatenation of UTF-8 sequences is made of whole characters. */
  lemma {:induction false} JoinUnits(ns: seq<nat>, s: Text, i: nat)
    requires forall k :: 0 <= k < |ns| ==> 0 < ns[k] <= 0x10ffff
    requires Has(s, i, JoinUtf8(ns)) && i + |JoinUtf8(ns)| == |s|
    ensures Units(s, i, true)
  {
    hide Utf8, CodePoint, LeadLength, UnitLength, UnitAt, Has;
    if ns != [] {
      var u, t := Utf8(ns[0]), JoinUtf8(ns[1..]);
      Utf8Layout(ns[0]);
      LeadNotNul(ns[0]);
      assert JoinUtf8(ns) == u + t;
      hide JoinUtf8;
      HasSplit(s, i, u, t);
      FirstUnit(s, i, u);
      JoinUnits(ns[1..], s, i + |u|);
      HasAt(s, i, u, 0);
    }
  }

  lemma LeadNotNul(n: nat)
    requires 0 < n <= 0x10ffff
    ensures Utf8(n) != [] && Utf8(n)[0] != 0
    ensures |Utf8(n)| == 1 ==> Utf8(n)[0] < 0x80
  {
  }

  /** An ASCII byte starts a character. */
  lemma {:induction false} UnitsAtAscii(s: Text, i: nat, j: nat, utf8: bool)
    requires Units(s, i, utf8) && i <= j < |s| && s[j] < 0x80
    ensures Units(s, j, utf8)
    decreases |s| - i
  {
    if i < j {
      UnitsAtAscii(s, i + UnitLength(s[i], utf8), j, utf8);
    }
  }

  lemma {:induction false} UnitsNoNul(s: Text, i: nat, j: nat, utf8: bool)
    requires Units(s, i, utf8) && i <= j < |s|
    ensures s[j] != 0
    decreases |s| - i
  {
    var n := UnitLength(s[i], utf8);
    if j >= i + n {
      UnitsNoNul(s, i + n, j, utf8);
    }
  }

  // ---------------------------------------------------------------- one character read back

  lemma EntitiesDiffer(j: nat, k: nat)
    requires j < k < 5
    ensures Entity(j)[1] != Entity(k)[1] || Entity(j)[2] != Entity(k)[2]
  {
  }

  lemma NamedMatch(buf: Text, p: nat, k: nat)
    requires k < 5 && Has(buf, p, Entity(k)) && p < |buf|
    ensures NamedEntity(buf, p, 0) == CharRead([EntityChar(k)], Some(p + |Entity(k)|))
  {
    forall j | 0 <= j < k
      ensures !Has(buf, p, Entity(j))
    {
      EntitiesDiffer(j, k);
      HasNot(buf, p, Entity(k), Entity(j), if Entity(j)[1] != Entity(k)[1] then 1 else 2);
    }
    NamedFirst(buf, p, k, 0);
  }

  lemma {:induction false} NamedFirst(buf: Text, p: nat, k: nat, i: nat)
    requires i <= k < 5 && p < |buf| && Has(buf, p, Entity(k))
    requires forall j :: i <= j < k ==> !Has(buf, p, Entity(j))
    ensures NamedEntity(buf, p, i) == CharRead([EntityChar(k)], Some(p + |Entity(k)|))
    decreases k - i
  {
    if i < k {
      NamedFirst(buf, p, k, i + 1);
    }
  }

  lemma HexInverse(d: nat)
    requires d < 16
    ensures HexValue(HexDigit(d)) == Some(d)
    ensures HexDigit(d) != LETTER_X && HexDigit(d) != SEMICOLON && HexDigit(d) != 0
  {
  }

  /** The digits written for a control character, read back from its semicolon. */
  lemma ControlNumber(buf: Text, p: nat, c: Byte)
    requires c < 32 && Has(buf, p, EscapeByte(c))
    ensures p + 5 < |buf| && buf[p + 5] == SEMICOLON
    ensures forall j :: p <= j < p + 5 ==> buf[j] != 0 && buf[j] != SEMICOLON
    ensures NumberBack(buf, p + 4, true, 1, 0) == Some(c)
  {
    var e := EscapeByte(c);
    var hi, lo := c / 16, c % 16;
    HexInverse(hi);
    HexInverse(lo);
    forall i | 0 <= i < 6
      ensures p + i < |buf| && buf[p + i] == e[i]
    {
      HasAt(buf, p, e, i);
    }
    assert e[3] == HexDigit(hi) && e[4] == HexDigit(lo);
    hide HexDigit, HexValue;
    forall j | p <= j < p + 5
      ensures buf[j] != 0 && buf[j] != SEMICOLON
    {
      assert buf[p + (j - p)] == e[j - p];
    }
    assert NumberBack(buf, p + 2, true, 256, lo + 16 * hi) == Some(c);
    assert NumberBack(buf, p + 3, true, 16, lo) == Some(c);
    assert NumberBack(buf, p + 4, true, 1, 0) == Some(c);
  }

  /** strchr passes over bytes that are neither NUL nor a semicolon. */
  lemma {:induction false} FindSkips(buf: Text, p: nat, m: nat)
    requires p <= m <= |buf| && forall j :: p <= j < m ==> buf[j] != 0 && buf[j] != SEMICOLON
    ensures FindSemicolon(buf, p) == FindSemicolon(buf, m)
    decreases m - p
  {
    if p < m {
      FindSkips(buf, p + 1, m);
    }
  }

  lemma Utf8Small(n: nat)
    requires n < 0x80
    ensures Utf8(n) == [n]
  {
  }

  /** The reference of a control character gives it back. */
  lemma ControlRead(buf: Text, p: nat, c: Byte, utf8: bool)
    requires 0 < c < 32 && Has(buf, p, EscapeByte(c))
    ensures p < |buf| && EntityAt(buf, p, utf8) == CharRead([c], Some(p + 6))
  {
    HasAt(buf, p, EscapeByte(c), 1);
    HasAt(buf, p, EscapeByte(c), 2);
    hide HexDigit, HexValue, NumberBack, NamedEntity, Has, Utf8;
    ControlNumber(buf, p, c);
    Utf8Small(c);
    FindSkips(buf, p + 3, p + 5);
  }

  /** A byte that is not part of a longer character comes back from its escape. */
  lemma ByteRead(buf: Text, p: nat, c: Byte, utf8: bool)
    requires c != 0 && (utf8 ==> c < 0x80) && Has(buf, p, EscapeByte(c))
    ensures p < |buf| && CharAt(buf, p, utf8) == CharRead([c], Some(p + |EscapeByte(c)|))
    ensures buf[p] != 0 && buf[p] != QUOTE && buf[p] != APOSTROPHE
  {
    var e := EscapeByte(c);
    HasAt(buf, p, e, 0);
    if e[0] == AMP {
      HasAt(buf, p, e, 1);
      if 0 < c < 32 {
        ControlRead(buf, p, c, utf8);
      } else {
        NamedMatch(buf, p,
                   if c == AMP then 0 else if c == LESS then 1 else if c == GREATER then 2
                   else if c == QUOTE then 3 else 4);
      }
    }
  }

  // ---------------------------------------------------------------- numeric references

  function DigitValue(c: Byte, hex: bool): Option<nat> {
    if hex then HexValue(c) else DecValue(c)
  }

  predicate Digits(t: Text, hex: bool) {
    forall i :: 0 <= i < |t| ==> DigitValue(t[i], hex).Some?
  }

  /** One more digit behind the number s. */
  function Shifted(s: nat, d: nat, hex: bool): nat {
    Base(hex) * s + d
  }

  /** The number that digits spell, most significant first. */
  function Spelled(t: Text, hex: bool): nat
    requires Digits(t, hex)
  {
    if t == [] then 0 else Shifted(Spelled(t[..|t| - 1], hex), DigitValue(t[|t| - 1], hex).value, hex)
  }

  function Reference(t: Text, hex: bool): Text {
    (if hex then [AMP, HASH, LETTER_X] else [AMP, HASH]) + t + [SEMICOLON]
  }

  function Times(a: nat, b: nat): nat {
    a * b
  }

  lemma TimesSum(w: nat, b: nat, s: nat, d: nat)
    ensures Times(w, b * s + d) == Times(Times(w, b), s) + Times(w, d)
  {
  }

  lemma TimesLe(a: nat, s: nat)
    requires s > 0
    ensures a <= Times(a, s)
  {
    assert a * s == a + a * (s - 1);
  }

  /** The weights of a digit and of the one before it, computed in 32 bits, against the true weight w. */
  lemma Weights(w: nat, s: nat, d: nat, hex: bool, mult: nat)
    requires Times(w, Shifted(s, d, hex)) < TWO_TO_THE_32 && (Shifted(s, d, hex) > 0 ==> mult == w)
    ensures Mul32(mult, d) == Times(w, d) && (s > 0 ==> Mul32(mult, Base(hex)) == Times(w, Base(hex)))
    ensures Times(w, Shifted(s, d, hex)) == Times(Times(w, Base(hex)), s) + Times(w, d)
  {
    TimesSum(w, Base(hex), s, d);
    if s > 0 {
      TimesLe(Times(w, Base(hex)), s);
    }
  }

  lemma SpelledSnoc(t: Text, hex: bool)
    requires Digits(t, hex) && t != []
    ensures var u, c := t[..|t| - 1], t[|t| - 1];
            && t == u + [c] && Digits(u, hex) && DigitValue(c, hex).Some?
            && Spelled(t, hex) == Shifted(Spelled(u, hex), DigitValue(c, hex).value, hex)
  {
    hide DigitValue, Shifted;
  }

  /** The loop from the last digit of t back to the mark at p, for digits of weight w. A weight that does
      not fit 32 bits belongs to leading zeros. */
  lemma {:induction false} DigitsBack(buf: Text, p: nat, t: Text, hex: bool, w: nat, mult: nat, ucs: nat)
    requires p < |buf| && buf[p] == (if hex then LETTER_X else HASH) && Has(buf, p + 1, t) && Digits(t, hex)
    requires Times(w, Spelled(t, hex)) < TWO_TO_THE_32 && (Spelled(t, hex) > 0 ==> mult == w)
    ensures p + |t| < |buf| && NumberBack(buf, p + |t|, hex, mult, ucs) == Some(ucs + Times(w, Spelled(t, hex)))
    decreases |t|
  {
    hide DigitValue, Digits, Spelled, Shifted, Base, Has, Times, NumberBack, Mul32;
    if t == [] {
      MarkBack(buf, p, hex, w, mult, ucs);
    } else {
      SpelledSnoc(t, hex);
      var n := |t| - 1;
      var u := t[..n];
      HasSplit(buf, p + 1, u, [t[n]]);
      HasAt(buf, p + 1, t, n);
      var d := DigitValue(t[n], hex).value;
      Weights(w, Spelled(u, hex), d, hex, mult);
      NumberStep(buf, p + |t|, hex, mult, ucs);
      DigitsBack(buf, p, u, hex, Times(w, Base(hex)), Mul32(mult, Base(hex)), ucs + Times(w, d));
    }
  }

  lemma MarkBack(buf: Text, p: nat, hex: bool, w: nat, mult: nat, ucs: nat)
    requires p < |buf| && buf[p] == if hex then LETTER_X else HASH
    ensures NumberBack(buf, p, hex, mult, ucs) == Some(ucs) && Times(w, Spelled([], hex)) == 0
  {
  }

  lemma NumberStep(buf: Text, q: nat, hex: bool, mult: nat, ucs: nat)
    requires q < |buf| && DigitValue(buf[q], hex).Some?
    ensures NumberBack(buf, q, hex, mult, ucs)
         == NumberBack(buf, q - 1, hex, Mul32(mult, Base(hex)), ucs + Mul32(mult, DigitValue(buf[q], hex).value))
  {
    DigitNoMark(buf[q], hex);
    hide HexValue, DecValue, Mul32;
  }

  lemma DigitNoMark(c: Byte, hex: bool)
    requires DigitValue(c, hex).Some?
    ensures c != 0 && c != SEMICOLON && c != HASH && c != LETTER_X
  {
  }

  /** Index of the first digit of a reference at p. */
  function FirstDigit(p: nat, hex: bool): nat {
    if hex then p + 3 else p + 2
  }

  lemma ReferenceParts(buf: Text, p: nat, t: Text, hex: bool)
    requires Has(buf, p, Reference(t, hex))
    ensures var from := FirstDigit(p, hex);
            && from + |t| < |buf| && buf[p] == AMP && buf[p + 1] == HASH && (hex ==> buf[p + 2] == LETTER_X)
            && Has(buf, from, t) && buf[from + |t|] == SEMICOLON
            && from + |t| + 1 == p + |Reference(t, hex)|
  {
    var from := FirstDigit(p, hex);
    var mark := if hex then [AMP, HASH, LETTER_X] else [AMP, HASH];
    assert Reference(t, hex) == mark + (t + [SEMICOLON]);
    hide Has;
    HasSplit(buf, p, mark, t + [SEMICOLON]);
    HasSplit(buf, from, t, [SEMICOLON]);
    HasEvery(buf, p, mark);
    HasAt(buf, from + |t|, [SEMICOLON], 0);
  }

  lemma DigitsEnd(buf: Text, from: nat, t: Text, hex: bool)
    requires Digits(t, hex) && Has(buf, from, t) && from + |t| < |buf| && buf[from + |t|] == SEMICOLON
    ensures FindSemicolon(buf, from) == Some(from + |t|) && buf[from] != 0 && buf[from] != LETTER_X
  {
    hide Has, DigitValue;
    forall j | from <= j < from + |t|
      ensures buf[j] != 0 && buf[j] != SEMICOLON && buf[j] != LETTER_X
    {
      HasAt(buf, from, t, j - from);
      DigitNoMark(t[j - from], hex);
    }
    FindSkips(buf, from, from + |t|);
  }

  /** A numeric reference of any number of digits reads as the character of the number they spell, if that
      number fits 32 bits. */
  lemma ReferenceRead(buf: Text, p: nat, t: Text, hex: bool, utf8: bool)
    requires Digits(t, hex) && Spelled(t, hex) < TWO_TO_THE_32 && Has(buf, p, Reference(t, hex))
    ensures p < |buf|
    ensures var n := Spelled(t, hex);
            CharAt(buf, p, utf8)
            == CharRead(if utf8 then Utf8(n) else [n % 256], Some(p + |Reference(t, hex)|))
  {
    hide Digits, Has, NumberBack, Utf8, Reference, Spelled, NamedEntity, FindSemicolon, Times;
    var from := FirstDigit(p, hex);
    ReferenceParts(buf, p, t, hex);
    DigitsEnd(buf, from, t, hex);
    TimesOne(Spelled(t, hex));
    DigitsBack(buf, from - 1, t, hex, 1, 1, 0);
  }

  lemma TimesOne(n: nat)
    ensures Times(1, n) == n
  {
  }
}
