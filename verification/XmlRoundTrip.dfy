/** When an escaped text reads back as itself. */
module XmlRoundTrip {
  import opened Bytes
  import opened Slices
  import opened XmlText

  // ---------------------------------------------------------------- whole texts read back

  /** What EncodeString appends for the character of n bytes at i. */
  function EncodeUnit(s: Text, i: nat, n: nat): Text
    requires n >= 1 && i + n <= |s|
  {
    if n == 1 then EscapeByte(s[i]) else s[i..i + n]
  }

  lemma EncodeStep(s: Text, i: nat)
    requires i < |s| && !RefAt(s, i)
    ensures EncodeFrom(s, i) == EscapeByte(s[i]) + EncodeFrom(s, i + 1)
  {
  }

  lemma NotAmpNoRef(s: Text, i: nat)
    requires i < |s| && s[i] != AMP
    ensures !RefAt(s, i)
  {
  }

  lemma EscapesToItself(c: Byte)
    requires c >= 0x80
    ensures EscapeByte(c) == [c]
  {
  }

  /** Where every byte is at least 0x80, EncodeString copies. */
  lemma {:induction false} EncodeCopies(s: Text, i: nat, n: nat)
    requires i + n <= |s| && forall j :: i <= j < i + n ==> s[j] >= 0x80
    ensures EncodeFrom(s, i) == s[i..i + n] + EncodeFrom(s, i + n)
    decreases n
  {
    hide EncodeFrom, EscapeByte, RefAt;
    if n == 0 {
      assert s[i..i] == [];
    } else {
      NotAmpNoRef(s, i);
      EncodeStep(s, i);
      EscapesToItself(s[i]);
      EncodeCopies(s, i + 1, n - 1);
      assert s[i..i + n] == [s[i]] + s[i + 1..i + n];
    }
  }

  lemma {:induction false} CopyCharsExact(buf: Text, p: nat, t: Text)
    requires Has(buf, p, t) && forall j :: 0 <= j < |t| ==> t[j] != 0
    ensures CopyChars(buf, p, |t|) == t
    decreases |t|
  {
    if t != [] {
      HasAt(buf, p, t, 0);
      assert t == [t[0]] + t[1..];
      HasSplit(buf, p, [t[0]], t[1..]);
      CopyCharsExact(buf, p + 1, t[1..]);
    }
  }

  /** One character that starts no reference: what is written for it is read back as it was. */
  lemma UnitRead(s: Text, i: nat, buf: Text, p: nat, q: Byte, utf8: bool)
    requires Units(s, i, utf8) && i < |s| && !RefAt(s, i)
    requires q == QUOTE || q == APOSTROPHE
    requires Has(buf, p, EncodeFrom(s, i) + [q])
    ensures var n := UnitLength(s[i], utf8);
            && i + n <= |s|
            && var e := EncodeUnit(s, i, n);
               && p < |buf|
               && EncodeFrom(s, i) == e + EncodeFrom(s, i + n)
               && CharAt(buf, p, utf8) == CharRead(s[i..i + n], Some(p + |e|))
               && At(buf, p) != 0 && !Has(buf, p, [q])
               && Has(buf, p + |e|, EncodeFrom(s, i + n) + [q])
  {
    hide EncodeFrom, EscapeByte;
    var n := UnitLength(s[i], utf8);
    UnitEncoded(s, i, utf8);
    var e := EncodeUnit(s, i, n);
    assert EncodeFrom(s, i) + [q] == e + (EncodeFrom(s, i + n) + [q]);
    HasSplit(buf, p, e, EncodeFrom(s, i + n) + [q]);
    UnitGot(s, i, buf, p, utf8);
    NotHere(buf, p, q);
  }

  lemma UnitEncoded(s: Text, i: nat, utf8: bool)
    requires UnitAt(s, i, utf8) && !RefAt(s, i)
    ensures var n := UnitLength(s[i], utf8); EncodeFrom(s, i) == EncodeUnit(s, i, n) + EncodeFrom(s, i + n)
  {
    hide EncodeFrom, EscapeByte, RefAt, UnitLength;
    var n := UnitLength(s[i], utf8);
    if n == 1 {
      EncodeStep(s, i);
    } else {
      EncodeCopies(s, i, n);
    }
  }

  lemma UnitGot(s: Text, i: nat, buf: Text, p: nat, utf8: bool)
    requires UnitAt(s, i, utf8) && Has(buf, p, EncodeUnit(s, i, UnitLength(s[i], utf8)))
    ensures var n := UnitLength(s[i], utf8);
            p < |buf| && CharAt(buf, p, utf8) == CharRead(s[i..i + n], Some(p + |EncodeUnit(s, i, n)|))
    ensures buf[p] != 0 && buf[p] != QUOTE && buf[p] != APOSTROPHE
  {
    hide EscapeByte, Has, CopyChars, EntityAt, LeadLength;
    var n := UnitLength(s[i], utf8);
    var e := EncodeUnit(s, i, n);
    if n == 1 {
      ByteRead(buf, p, s[i], utf8);
      assert s[i..i + 1] == [s[i]];
    } else {
      assert s[i..i + n][0] == s[i];
      HasAt(buf, p, e, 0);
      CopyCharsExact(buf, p, e);
    }
  }

  lemma NotHere(buf: Text, p: nat, q: Byte)
    requires p < |buf| && buf[p] != q
    ensures !Has(buf, p, [q])
  {
    assert buf[p..p + 1][0] == buf[p];
  }

  /** Without references, reading what EncodeString wrote gives the text back and stops behind the quote. */
  lemma {:induction false} ReadBack(s: Text, i: nat, buf: Text, p: nat, acc: Text, q: Byte, utf8: bool)
    requires Units(s, i, utf8) && forall j :: !RefAt(s, j)
    requires q == QUOTE || q == APOSTROPHE
    requires Has(buf, p, EncodeFrom(s, i) + [q]) && At(buf, p + |EncodeFrom(s, i)| + 1) != 0
    ensures ReadFrom(buf, p, acc, [q], utf8) == TextRead(acc + s[i..], Some(p + |EncodeFrom(s, i)| + 1))
    decreases |s| - i
  {
    hide EncodeFrom, EncodeUnit, CharAt, RefAt, Has, UnitLength, ReadFrom;
    if i == |s| {
      EncodeEnd(s);
      assert [] + [q] == [q];
      ReadEnd(buf, p, acc, q, utf8);
      assert acc + s[i..] == acc;
    } else {
      var n := UnitLength(s[i], utf8);
      UnitRead(s, i, buf, p, q, utf8);
      var e := EncodeUnit(s, i, n);
      ReadStep(buf, p, acc, q, utf8);
      ReadBack(s, i + n, buf, p + |e|, acc + s[i..i + n], q, utf8);
      assert acc + s[i..i + n] + s[i + n..] == acc + s[i..];
    }
  }

  lemma EncodeEnd(s: Text)
    ensures EncodeFrom(s, |s|) == []
  {
  }

  /** The end tag stops the reading; what follows decides between a pointer and null. */
  lemma ReadEnd(buf: Text, p: nat, acc: Text, q: Byte, utf8: bool)
    requires q != 0 && Has(buf, p, [q])
    ensures ReadFrom(buf, p, acc, [q], utf8) == TextRead(acc, if At(buf, p + 1) != 0 then Some(p + 1) else None)
  {
    HasAt(buf, p, [q], 0);
    assert buf[p..p + 1] == [q];
  }

  lemma ReadStep(buf: Text, p: nat, acc: Text, q: Byte, utf8: bool)
    requires p < |buf| && At(buf, p) != 0 && !Has(buf, p, [q]) && CharAt(buf, p, utf8).next.Some?
    ensures var c := CharAt(buf, p, utf8);
            ReadFrom(buf, p, acc, [q], utf8) == ReadFrom(buf, c.next.value, acc + c.bytes, [q], utf8)
  {
  }

  // ---------------------------------------------------------------- texts that hold a reference

  /** A pass-through ends at the first semicolon behind its start, or at the last byte. */
  lemma {:induction false} PassEndFirst(s: Text, i: nat)
    requires i < |s|
    ensures var j := PassEnd(s, i);
            (j == |s| - 1 || s[j] == SEMICOLON) && forall k :: i < k < j ==> s[k] != SEMICOLON
    decreases |s| - i
  {
    if i + 1 < |s| && s[i + 1] != SEMICOLON {
      PassEndFirst(s, i + 1);
    }
  }

  lemma PassEndBehindMark(s: Text, i: nat)
    requires RefAt(s, i)
    ensures PassEnd(s, i) >= i + 2
    ensures s[PassEnd(s, i)] == SEMICOLON ==> PassEnd(s, i) >= i + 3
  {
    assert PassEnd(s, i) == PassEnd(s, i + 1) == PassEnd(s, i + 2);
  }

  /** What a hexadecimal reference read at p can give. */
  lemma RefGets(buf: Text, p: nat, utf8: bool)
    requires RefAt(buf, p)
    ensures var c := CharAt(buf, p, utf8);
            var e := FindSemicolon(buf, p + 3);
            c.next.Some? ==>
              && e.Some? && e.value >= p + 3 && c.next == Some(e.value + 1)
              && NumberBack(buf, e.value - 1, true, 1, 0).Some?
              && |c.bytes| <= 4
              && (NumberBack(buf, e.value - 1, true, 1, 0).value < 0x80 ==> |c.bytes| == 1)
  {
    hide FindSemicolon, NumberBack;
  }

  lemma RefCopied(s: Text, i: nat)
    requires RefAt(s, i)
    ensures var j := PassEnd(s, i);
            && EncodeFrom(s, i) == s[i..j] + EncodeFrom(s, j)
            && EncodeFrom(s, j) == EscapeByte(s[j]) + EncodeFrom(s, j + 1)
  {
    hide PassEnd, EscapeByte;
    PassEndBehindMark(s, i);
    PassEndFirst(s, i);
  }

  lemma SemicolonPlain()
    ensures EscapeByte(SEMICOLON) == [SEMICOLON]
  {
  }

  /** A reference with its semicolon is copied whole. */
  lemma ClosedCopied(s: Text, i: nat)
    requires RefAt(s, i) && s[PassEnd(s, i)] == SEMICOLON
    ensures EncodeFrom(s, i) == s[i..PassEnd(s, i) + 1] + EncodeFrom(s, PassEnd(s, i) + 1)
  {
    hide EncodeFrom, PassEnd, EscapeByte;
    var j := PassEnd(s, i);
    RefCopied(s, i);
    SemicolonPlain();
    assert s[i..j] + [s[j]] == s[i..j + 1];
  }

  /** A reference with its semicolon reads back as fewer bytes than it has. */
  lemma ClosedRead(s: Text, i: nat, buf: Text, p: nat, utf8: bool)
    requires RefAt(s, i) && s[PassEnd(s, i)] == SEMICOLON
    requires forall k :: i <= k < |s| ==> s[k] != 0
    requires Has(buf, p, s[i..PassEnd(s, i) + 1])
    ensures var n := PassEnd(s, i) + 1 - i;
            var c := CharAt(buf, p, utf8);
            && p < |buf| && buf[p] == AMP
            && (c.next.Some? ==> c.next.value == p + n && |c.bytes| < n)
  {
    var j := PassEnd(s, i);
    PassEndBehindMark(s, i);
    PassEndFirst(s, i);
    hide EncodeFrom, PassEnd, EscapeByte, CharAt, NumberBack;
    var t := s[i..j + 1];
    HasEvery(buf, p, t);
    RefGets(buf, p, utf8);
    FindSkips(buf, p + 3, p + (j - i));
    if j == i + 3 {
      EmptyNumber(buf, p + 2);
    }
  }

  lemma EmptyNumber(buf: Text, q: nat)
    requires q < |buf| && buf[q] == LETTER_X
    ensures NumberBack(buf, q, true, 1, 0) == Some(0)
  {
  }

  /** A reference without semicolon: its last byte is escaped. Read back, it gives one byte, or fails, or
      runs on behind the quote. */
  lemma OpenRead(s: Text, i: nat, buf: Text, p: nat, q: Byte, utf8: bool)
    requires RefAt(s, i) && s[PassEnd(s, i)] != SEMICOLON
    requires forall k :: i <= k < |s| ==> s[k] != 0
    requires q == QUOTE || q == APOSTROPHE
    requires Has(buf, p, EncodeFrom(s, i) + [q])
    ensures var end := p + |EncodeFrom(s, i)|;
            var c := CharAt(buf, p, utf8);
            && p < |buf| && buf[p] == AMP && end < |buf| && buf[end] == q
            && (c.next.Some? ==> c.next.value > end + 1 || (c.next.value == end && |c.bytes| == 1))
  {
    hide EncodeFrom, PassEnd, CharAt, NumberBack, EscapeByte, Has;
    var j := PassEnd(s, i);
    RefCopied(s, i);
    PassEndBehindMark(s, i);
    PassEndFirst(s, i);
    EncodeEnd(s);
    var t, e := s[i..j], EscapeByte(s[j]);
    assert EncodeFrom(s, i) + [q] == t + (e + [q]);
    HasSplit(buf, p, t, e + [q]);
    HasSplit(buf, p + (j - i), e, [q]);
    HasAt(buf, p + (j - i) + |e|, [q], 0);
    HasEvery(buf, p, t);
    LastRead(buf, p, p + (j - i), s[j], q, utf8);
  }

  lemma EscapeShape(c: Byte)
    ensures EscapeByte(c) != [] && (c == LETTER_X ==> EscapeByte(c) == [c])
    ensures c < 32 ==> |EscapeByte(c)| == 6
  {
  }

  /** What the last byte c of an open reference, escaped at m, makes of the reading. */
  lemma LastRead(buf: Text, p: nat, m: nat, c: Byte, q: Byte, utf8: bool)
    requires p + 2 <= m && c != 0 && c != SEMICOLON && Has(buf, m, EscapeByte(c))
    requires p + 1 < |buf| && buf[p] == AMP && buf[p + 1] == HASH
    requires if m == p + 2 then c == LETTER_X else buf[p + 2] == LETTER_X
    requires forall k :: p + 2 < k < m ==> k < |buf| && buf[k] != 0 && buf[k] != SEMICOLON
    requires q == QUOTE || q == APOSTROPHE
    requires m + |EscapeByte(c)| < |buf| && buf[m + |EscapeByte(c)|] == q
    ensures var end := m + |EscapeByte(c)|;
            var r := CharAt(buf, p, utf8);
            r.next.Some? ==> r.next.value > end + 1 || (r.next.value == end && |r.bytes| == 1)
  {
    hide CharAt, NumberBack, Has, EscapeByte, HexDigit, FindSemicolon;
    var e := EscapeByte(c);
    EscapeShape(c);
    HasAt(buf, m, e, 0);
    assert RefAt(buf, p);
    RefGets(buf, p, utf8);
    if c < 32 {
      ControlNumber(buf, m, c);
      FindSkips(buf, p + 3, m + 5);
    } else if e == [c] {
      FindSkips(buf, p + 3, m + 2);
    } else {
      NamedFails(buf, m, c);
      FindSkips(buf, p + 3, m + |e| - 1);
    }
  }

  /** Before the semicolon of a named entity stands no digit. */
  lemma NamedFails(buf: Text, m: nat, c: Byte)
    requires c >= 32 && EscapeByte(c) != [c] && Has(buf, m, EscapeByte(c))
    ensures var n := |EscapeByte(c)|;
            && m + n <= |buf| && buf[m + n - 1] == SEMICOLON
            && (forall k :: m <= k < m + n - 1 ==> buf[k] != 0 && buf[k] != SEMICOLON)
            && NumberBack(buf, m + n - 2, true, 1, 0).None?
  {
    var e := EscapeByte(c);
    HasEvery(buf, m, e);
  }

  // ---------------------------------------------------------------- exactly when the text comes back

  lemma {:induction false} ReadAdvances(buf: Text, p: nat, acc: Text, q: Byte, utf8: bool)
    ensures var r := ReadFrom(buf, p, acc, [q], utf8); r.next.Some? ==> r.next.value > p
    decreases |buf| - p
  {
    hide CharAt, Has;
    if At(buf, p) != 0 && !Has(buf, p, [q]) {
      var c := CharAt(buf, p, utf8);
      if c.next.Some? {
        ReadAdvances(buf, c.next.value, acc + c.bytes, q, utf8);
      }
    }
  }

  /** Reading that stops behind the right quote gives no more bytes than there were, and fewer if a
      reference starts at k. */
  lemma {:induction false} ShorterRead(s: Text, i: nat, k: nat, buf: Text, p: nat, acc: Text, q: Byte, utf8: bool)
    requires Units(s, i, utf8) && i <= k
    requires q == QUOTE || q == APOSTROPHE
    requires Has(buf, p, EncodeFrom(s, i) + [q])
    ensures var r := ReadFrom(buf, p, acc, [q], utf8);
            r.next == Some(p + |EncodeFrom(s, i)| + 1) ==>
              |r.text| <= |acc| + |s| - i && (RefAt(s, k) ==> |r.text| < |acc| + |s| - i)
    decreases |s| - i
  {
    hide EncodeFrom, EncodeUnit, CharAt, Has, UnitLength, ReadFrom;
    if i == |s| {
      EncodeEnd(s);
      assert [] + [q] == [q];
      ReadEnd(buf, p, acc, q, utf8);
    } else if !RefAt(s, i) {
      var n := UnitLength(s[i], utf8);
      UnitRead(s, i, buf, p, q, utf8);
      ReadStep(buf, p, acc, q, utf8);
      if i < k < i + n {
        NotAmpNoRef(s, k);
      }
      var k' := if k < i + n then i + n else k;
      ShorterRead(s, i + n, k', buf, p + |EncodeUnit(s, i, n)|, acc + s[i..i + n], q, utf8);
    } else {
      ShorterReference(s, i, buf, p, acc, q, utf8);
    }
  }

  lemma {:induction false} ShorterReference(s: Text, i: nat, buf: Text, p: nat, acc: Text, q: Byte, utf8: bool)
    requires Units(s, i, utf8) && RefAt(s, i)
    requires q == QUOTE || q == APOSTROPHE
    requires Has(buf, p, EncodeFrom(s, i) + [q])
    ensures var r := ReadFrom(buf, p, acc, [q], utf8);
            r.next == Some(p + |EncodeFrom(s, i)| + 1) ==> |r.text| < |acc| + |s| - i
    decreases |s| - i, 0
  {
    hide EncodeFrom, CharAt, Has, ReadFrom, PassEnd, Units;
    var j := PassEnd(s, i);
    if s[j] == SEMICOLON {
      ClosedStep(s, i, buf, p, acc, q, utf8);
      ShorterRead(s, j + 1, j + 1, buf, p + (j + 1 - i), acc + CharAt(buf, p, utf8).bytes, q, utf8);
    } else {
      UnitsNeverNul(s, i, utf8);
      OpenShorter(s, i, buf, p, acc, q, utf8);
    }
  }

  lemma ClosedStep(s: Text, i: nat, buf: Text, p: nat, acc: Text, q: Byte, utf8: bool)
    requires Units(s, i, utf8) && RefAt(s, i) && s[PassEnd(s, i)] == SEMICOLON
    requires q == QUOTE || q == APOSTROPHE
    requires Has(buf, p, EncodeFrom(s, i) + [q])
    ensures var n := PassEnd(s, i) + 1 - i;
            && p < |buf|
            && var c := CharAt(buf, p, utf8);
               && |EncodeFrom(s, i)| == n + |EncodeFrom(s, i + n)|
               && Has(buf, p + n, EncodeFrom(s, i + n) + [q])
               && Units(s, i + n, utf8)
               && var r := ReadFrom(buf, p, acc, [q], utf8);
                  (r.next.Some? ==> |c.bytes| < n && r == ReadFrom(buf, p + n, acc + c.bytes, [q], utf8))
  {
    hide EncodeFrom, CharAt, Has, ReadFrom, RefAt, PassEnd, Units;
    UnitsNeverNul(s, i, utf8);
    ClosedCopied(s, i);
    HasClosed(s, i, PassEnd(s, i), buf, p, q);
    ClosedRead(s, i, buf, p, utf8);
    ReadStepOrNull(buf, p, acc, q, utf8);
    AfterAscii(s, i, PassEnd(s, i), utf8);
  }

  lemma UnitsNeverNul(s: Text, i: nat, utf8: bool)
    requires Units(s, i, utf8)
    ensures forall k :: i <= k < |s| ==> s[k] != 0
  {
    forall k | i <= k < |s|
      ensures s[k] != 0
    {
      UnitsNoNul(s, i, k, utf8);
    }
  }

  lemma HasClosed(s: Text, i: nat, j: nat, buf: Text, p: nat, q: Byte)
    requires i <= j < |s| && EncodeFrom(s, i) == s[i..j + 1] + EncodeFrom(s, j + 1)
    requires Has(buf, p, EncodeFrom(s, i) + [q])
    ensures Has(buf, p, s[i..j + 1]) && Has(buf, p + (j + 1 - i), EncodeFrom(s, j + 1) + [q])
  {
    hide EncodeFrom;
    var t, u := s[i..j + 1], EncodeFrom(s, j + 1);
    assert EncodeFrom(s, i) + [q] == t + (u + [q]);
    HasSplit(buf, p, t, u + [q]);
  }

  lemma OpenShorter(s: Text, i: nat, buf: Text, p: nat, acc: Text, q: Byte, utf8: bool)
    requires RefAt(s, i) && s[PassEnd(s, i)] != SEMICOLON
    requires forall k :: i <= k < |s| ==> s[k] != 0
    requires q == QUOTE || q == APOSTROPHE
    requires Has(buf, p, EncodeFrom(s, i) + [q])
    ensures var r := ReadFrom(buf, p, acc, [q], utf8);
            r.next == Some(p + |EncodeFrom(s, i)| + 1) ==> |r.text| < |acc| + |s| - i
  {
    hide EncodeFrom, CharAt, ReadFrom, PassEnd, Has;
    OpenRead(s, i, buf, p, q, utf8);
    ReadStepOrNull(buf, p, acc, q, utf8);
    var c := CharAt(buf, p, utf8);
    if c.next.Some? {
      ReadAdvances(buf, c.next.value, acc + c.bytes, q, utf8);
      if c.next.value == p + |EncodeFrom(s, i)| {
        HasOne(buf, c.next.value, q);
        ReadEnd(buf, c.next.value, acc + c.bytes, q, utf8);
      }
    }
  }

  lemma HasOne(buf: Text, p: nat, q: Byte)
    requires p < |buf| && buf[p] == q
    ensures Has(buf, p, [q])
  {
    assert buf[p..p + 1] == [q];
  }

  lemma AfterAscii(s: Text, i: nat, j: nat, utf8: bool)
    requires Units(s, i, utf8) && i <= j < |s| && s[j] < 0x80
    ensures Units(s, j + 1, utf8)
  {
    UnitsAtAscii(s, i, j, utf8);
  }

  lemma ReadStepOrNull(buf: Text, p: nat, acc: Text, q: Byte, utf8: bool)
    requires p < |buf| && buf[p] == AMP && q != AMP
    ensures var c := CharAt(buf, p, utf8);
            ReadFrom(buf, p, acc, [q], utf8)
            == if c.next.Some? then ReadFrom(buf, c.next.value, acc + c.bytes, [q], utf8)
              else TextRead(acc + c.bytes, None)
  {
    hide CharAt;
    NotHere(buf, p, q);
  }

  /** Reading what EncodeString wrote, with a quote behind it, gives the text back and stops behind the
      quote exactly when the text holds no start of a hexadecimal reference. */
  lemma RoundTrip(s: Text, q: Byte, rest: Text, utf8: bool)
    requires Units(s, 0, utf8) && (q == QUOTE || q == APOSTROPHE) && rest != [] && rest[0] != 0
    ensures var e := EncodeFrom(s, 0);
            ReadFrom(e + [q] + rest, 0, [], [q], utf8) == TextRead(s, Some(|e| + 1))
            <==> forall i :: !RefAt(s, i)
  {
    hide EncodeFrom, ReadFrom, RefAt;
    var e := EncodeFrom(s, 0);
    var buf := e + [q] + rest;
    assert buf[0..|e| + 1] == e + [q];
    if i :| RefAt(s, i) {
      ShorterRead(s, 0, i, buf, 0, [], q, utf8);
    } else {
      ReadBack(s, 0, buf, 0, [], q, utf8);
      assert [] + s[0..] == s;
    }
  }

  /** The same for every text in UTF-8 without NUL. */
  lemma RoundTripUtf8(ns: seq<nat>, q: Byte, rest: Text)
    requires forall k :: 0 <= k < |ns| ==> 0 < ns[k] <= 0x10ffff
    requires (q == QUOTE || q == APOSTROPHE) && rest != [] && rest[0] != 0
    ensures var s := JoinUtf8(ns);
            var e := EncodeFrom(s, 0);
            ReadFrom(e + [q] + rest, 0, [], [q], true) == TextRead(s, Some(|e| + 1))
            <==> forall i :: !RefAt(s, i)
  {
    var s := JoinUtf8(ns);
    assert s[0..|s|] == s;
    JoinUnits(ns, s, 0);
    RoundTrip(s, q, rest, true);
  }

  /** And for every text in a one-byte encoding without NUL. */
  lemma RoundTripBytes(s: Text, q: Byte, rest: Text)
    requires 0 !in s
    requires (q == QUOTE || q == APOSTROPHE) && rest != [] && rest[0] != 0
    ensures var e := EncodeFrom(s, 0);
            ReadFrom(e + [q] + rest, 0, [], [q], false) == TextRead(s, Some(|e| + 1))
            <==> forall i :: !RefAt(s, i)
  {
    ByteUnits(s, 0);
    RoundTrip(s, q, rest, false);
  }

  lemma {:induction false} ByteUnits(s: Text, i: nat)
    requires 0 !in s && i <= |s|
    ensures Units(s, i, false)
    decreases |s| - i
  {
    if i < |s| {
      assert s[i] in s;
      ByteUnits(s, i + 1);
    }
  }
}
