/** The references of XML 1.0, byte by byte. */
module XmlEntities {
  import opened Bytes
  import opened Slices
  import opened XmlText

  // ---------------------------------------------------------------- writing

  /** The bytes &#x at i. */
  predicate HexMark(s: Text, i: nat) {
    i + 2 < |s| && s[i] == 0x26 && s[i + 1] == 0x23 && s[i + 2] == 0x78
  }

  /** A character of the digits 0 to 9 and A to F. */
  function Upper(d: nat): Byte
    requires d < 16
  {
    [0x30, 0x31, 0x32, 0x33, 0x34, 0x35, 0x36, 0x37, 0x38, 0x39, 0x41, 0x42, 0x43, 0x44, 0x45, 0x46][d]
  }

  /** The predefined entities of section 4.6 of XML 1.0, and references for control characters. */
  function Written(c: Byte): Text {
    match c
    case 0x26 => [0x26, 0x61, 0x6d, 0x70, 0x3b]
    case 0x3c => [0x26, 0x6c, 0x74, 0x3b]
    case 0x3e => [0x26, 0x67, 0x74, 0x3b]
    case 0x22 => [0x26, 0x71, 0x75, 0x6f, 0x74, 0x3b]
    case 0x27 => [0x26, 0x61, 0x70, 0x6f, 0x73, 0x3b]
    case _ => if c < 0x20 then [0x26, 0x23, 0x78, Upper(c / 16), Upper(c % 16), 0x3b] else [c]
  }

  function WrittenAll(s: Text): Text {
    if s == [] then [] else Written(s[0]) + WrittenAll(s[1..])
  }

  lemma EscapeWritten(c: Byte)
    ensures EscapeByte(c) == Written(c)
  {
  }

  /** At any place where no hexadecimal reference starts, the character is written so. */
  lemma EncodeStep(s: Text, i: nat)
    requires i < |s| && !HexMark(s, i)
    ensures EncodeFrom(s, i) == Written(s[i]) + EncodeFrom(s, i + 1)
  {
    hide Written, EscapeByte;
    EscapeWritten(s[i]);
  }

  /** A hexadecimal reference at i is written as it is up to its semicolon, or, without one, up to the last byte
      of the text; from there on it goes on as elsewhere. */
  lemma EncodeReference(s: Text, i: nat, j: nat)
    requires HexMark(s, i) && i + 2 < j < |s|
    requires forall k :: i < k < j ==> s[k] != 0x3b
    requires s[j] == 0x3b || j == |s| - 1
    ensures EncodeFrom(s, i) == s[i..j] + EncodeFrom(s, j)
  {
    hide EscapeByte;
    PassTo(s, i, j);
  }

  lemma {:induction false} PassTo(s: Text, i: nat, j: nat)
    requires i < j < |s| && (forall k :: i < k < j ==> s[k] != 0x3b) && (s[j] == 0x3b || j == |s| - 1)
    ensures PassEnd(s, i) == j
    decreases j - i
  {
    if i + 1 < j {
      PassTo(s, i + 1, j);
    }
  }

  /** A text without hexadecimal references is written character by character. */
  lemma {:induction false} EncodePlain(s: Text, i: nat)
    requires i <= |s| && forall k :: i <= k < |s| ==> !HexMark(s, k)
    ensures EncodeFrom(s, i) == WrittenAll(s[i..])
    decreases |s| - i
  {
    hide Written, HexMark;
    if i == |s| {
      EncodeNone(s);
    } else {
      hide EncodeFrom;
      EncodeStep(s, i);
      EncodePlain(s, i + 1);
      assert s[i..][1..] == s[i + 1..];
    }
  }

  lemma EncodeNone(s: Text)
    ensures EncodeFrom(s, |s|) == []
  {
  }

  // ---------------------------------------------------------------- reading

  /** Each predefined entity, at any position of any buffer, reads as its character. */
  lemma PredefinedRead(buf: Text, p: nat, c: Byte, utf8: bool)
    requires c in [0x26, 0x3c, 0x3e, 0x22, 0x27] && Has(buf, p, Written(c))
    ensures p < |buf| && CharAt(buf, p, utf8) == CharRead([c], Some(p + |Written(c)|))
  {
    hide Has, Written, EscapeByte, CharAt;
    EscapeWritten(c);
    ByteRead(buf, p, c, utf8);
  }

  /** Any other ampersand that starts no numeric reference is dropped. */
  lemma UnknownRead(buf: Text, p: nat, utf8: bool)
    requires p < |buf| && buf[p] == 0x26
    requires !(p + 2 < |buf| && buf[p + 1] == 0x23 && buf[p + 2] != 0)
    requires forall c :: c in [0x26, 0x3c, 0x3e, 0x22, 0x27] ==> !Has(buf, p, Written(c))
    ensures CharAt(buf, p, utf8) == CharRead([], Some(p + 1))
  {
    hide Has;
    forall k | 0 <= k < 5
      ensures !Has(buf, p, Entity(k))
    {
      var c := [0x26, 0x3c, 0x3e, 0x22, 0x27][k];
      assert c in [0x26, 0x3c, 0x3e, 0x22, 0x27] && Entity(k) == Written(c);
    }
    NoneNamed(buf, p, 0);
  }

  lemma {:induction false} NoneNamed(buf: Text, p: nat, k: nat)
    requires p < |buf| && k <= 5 && forall j :: k <= j < 5 ==> !Has(buf, p, Entity(j))
    ensures NamedEntity(buf, p, k) == CharRead([], Some(p + 1))
    decreases 5 - k
  {
    hide Has, Entity;
    if k < 5 {
      NoneNamed(buf, p, k + 1);
    }
  }

  // ---------------------------------------------------------------- numeric references

  /** The value of a decimal digit, or of a hexadecimal digit in either case; 16 for any other byte. */
  function Digit(c: Byte, hex: bool): nat {
    if 0x30 <= c <= 0x39 then c - 0x30
    else if hex && 0x41 <= c <= 0x46 then c - 0x41 + 10
    else if hex && 0x61 <= c <= 0x66 then c - 0x61 + 10
    else 16
  }

  function Number(t: Text, hex: bool): nat {
    if t == [] then 0 else (if hex then 16 else 10) * Number(t[..|t| - 1], hex) + Digit(t[|t| - 1], hex)
  }

  lemma DigitSame(c: Byte, hex: bool)
    ensures DigitValue(c, hex) == if Digit(c, hex) < 16 then Some(Digit(c, hex)) else None
  {
  }

  lemma {:induction false} NumberSame(t: Text, hex: bool)
    requires forall i :: 0 <= i < |t| ==> Digit(t[i], hex) < 16
    ensures Digits(t, hex) && Spelled(t, hex) == Number(t, hex)
  {
    hide Digit, DigitValue;
    forall i | 0 <= i < |t|
      ensures DigitValue(t[i], hex) == Some(Digit(t[i], hex))
    {
      DigitSame(t[i], hex);
    }
    if t != [] {
      NumberSame(t[..|t| - 1], hex);
      SpelledSnoc(t, hex);
    }
  }

  /** &#x...; and &#...; with digits that spell a number below 2^32, at any position of any buffer, read as the
      character of that number. */
  lemma NumericRead(buf: Text, p: nat, t: Text, hex: bool, utf8: bool)
    requires forall i :: 0 <= i < |t| ==> Digit(t[i], hex) < 16
    requires Number(t, hex) < 0x1_0000_0000
    requires Has(buf, p, (if hex then [0x26, 0x23, 0x78] else [0x26, 0x23]) + t + [0x3b])
    ensures p < |buf|
    ensures var n := Number(t, hex);
            CharAt(buf, p, utf8)
            == CharRead(if utf8 then Utf8(n) else [n % 256], Some(p + |t| + if hex then 4 else 3))
  {
    hide Number, Digit, Has, CharAt, Digits, Spelled, Utf8;
    NumberSame(t, hex);
    ReferenceRead(buf, p, t, hex, utf8);
  }

  /** With a byte that is no digit, before the semicolon, a numeric reference cannot be read ... */
  lemma BadDigitRead(buf: Text, p: nat, t: Text, bad: nat, hex: bool, utf8: bool)
    requires Has(buf, p, (if hex then [0x26, 0x23, 0x78] else [0x26, 0x23]) + t + [0x3b])
    requires forall i :: 0 <= i < |t| ==> t[i] != 0 && t[i] != 0x3b
    requires !hex && t != [] ==> t[0] != 0x78
    requires bad < |t| && Digit(t[bad], hex) == 16 && t[bad] != (if hex then 0x78 else 0x23)
    requires forall i :: bad < i < |t| ==> Digit(t[i], hex) < 16
    ensures p < |buf| && CharAt(buf, p, utf8) == CharRead([], None)
  {
    hide Digit, Has, NumberBack, Digits, Spelled, Utf8, NamedEntity, FindSemicolon;
    var from := FirstDigit(p, hex);
    ReferenceParts(buf, p, t, hex);
    forall j | from <= j < from + |t|
      ensures buf[j] == t[j - from]
    {
      HasAt(buf, from, t, j - from);
    }
    FindSkips(buf, from, from + |t|);
    SemicolonHere(buf, from + |t|);
    BadBack(buf, from + bad, from + |t| - 1, hex, 1, 0);
  }

  lemma SemicolonHere(buf: Text, m: nat)
    requires m < |buf| && buf[m] == 0x3b
    ensures FindSemicolon(buf, m) == Some(m)
  {
  }

  lemma {:induction false} BadBack(buf: Text, bad: nat, q: nat, hex: bool, mult: nat, ucs: nat)
    requires bad <= q < |buf| && Digit(buf[bad], hex) == 16 && buf[bad] != (if hex then 0x78 else 0x23)
    requires forall i :: bad < i <= q ==> Digit(buf[i], hex) < 16
    ensures NumberBack(buf, q, hex, mult, ucs) == None
    decreases q - bad
  {
    hide Digit, Mul32, HexValue, DecValue;
    DigitSame(buf[q], hex);
    if q > bad {
      NumberStep(buf, q, hex, mult, ucs);
      BadBack(buf, bad, q - 1, hex, Mul32(mult, Base(hex)), ucs + Mul32(mult, DigitValue(buf[q], hex).value));
    }
  }

  /** ... and neither can one without a semicolon. */
  lemma OpenNumberRead(buf: Text, p: nat, hex: bool, utf8: bool)
    requires Has(buf, p, if hex then [0x26, 0x23, 0x78] else [0x26, 0x23])
    requires var from := if hex then p + 3 else p + 2;
             && (forall i :: from <= i < |buf| ==> buf[i] != 0x3b)
             && (!hex ==> from < |buf| && buf[from] != 0 && buf[from] != 0x78)
    ensures p < |buf| && CharAt(buf, p, utf8) == CharRead([], None)
  {
    var mark := if hex then [0x26, 0x23, 0x78] else [0x26, 0x23];
    HasEvery(buf, p, mark);
    hide FindSemicolon, NumberBack, NamedEntity, Utf8;
    NoSemicolon(buf, if hex then p + 3 else p + 2);
  }

  lemma {:induction false} NoSemicolon(buf: Text, p: nat)
    requires forall i :: p <= i < |buf| ==> buf[i] != 0x3b
    ensures FindSemicolon(buf, p) == None
    decreases |buf| - p
  {
    if p < |buf| {
      NoSemicolon(buf, p + 1);
    }
  }
}
