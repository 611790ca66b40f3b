/** Escaping of JSON strings: four passes that replace in place, one after the other, the one map of characters
    they amount to, and what the passes of decode make of it. */
module JsonText {

  // ---------------------------------------------------------------- one pass

  /** Every c becomes a backslash and e. */
  function EscPass(s: string, c: char, e: char): string {
    if s == [] then []
    else if s[0] == c then ['\\', e] + EscPass(s[1..], c, e)
    else [s[0]] + EscPass(s[1..], c, e)
  }

  /** Leftmost first, every backslash followed by e becomes c. */
  function UnescPass(s: string, e: char, c: char): string
    decreases |s|
  {
    if |s| < 2 then s
    else if s[0] == '\\' && s[1] == e then [c] + UnescPass(s[2..], e, c)
    else [s[0]] + UnescPass(s[1..], e, c)
  }

  /** std::string::find for one character; |s| stands for npos. */
  method FindChar(s: string, c: char, from: nat) returns (pos: nat)
    ensures pos <= |s|
    ensures pos < |s| ==> from <= pos && s[pos] == c
    ensures forall i :: from <= i < pos ==> s[i] != c
  {
    if from >= |s| {
      return |s|;
    }
    pos := from;
    while pos < |s| && s[pos] != c
      invariant from <= pos <= |s|
      invariant forall i :: from <= i < pos ==> s[i] != c
    {
      pos := pos + 1;
    }
  }

  /** std::string::find for a backslash followed by e; |s| stands for npos. */
  method FindPair(s: string, e: char, from: nat) returns (pos: nat)
    ensures pos <= |s|
    ensures pos < |s| ==> from <= pos < |s| - 1 && s[pos] == '\\' && s[pos + 1] == e
    ensures forall i :: from <= i < pos && i + 1 < |s| ==> !(s[i] == '\\' && s[i + 1] == e)
  {
    if from >= |s| {
      return |s|;
    }
    pos := from;
    while pos + 1 < |s| && !(s[pos] == '\\' && s[pos + 1] == e)
      invariant from <= pos <= |s|
      invariant forall i :: from <= i < pos && i + 1 < |s| ==> !(s[i] == '\\' && s[i + 1] == e)
    {
      pos := pos + 1;
    }
    if pos + 1 >= |s| {
      pos := |s|;
    }
  }

  lemma {:induction false} EscPassSkip(s: string, c: char, e: char, k: nat)
    requires k <= |s| && forall i :: 0 <= i < k ==> s[i] != c
    ensures EscPass(s, c, e) == s[..k] + EscPass(s[k..], c, e)
  {
    if k == 0 {
      assert s[0..] == s;
    } else {
      EscPassSkip(s[1..], c, e, k - 1);
      assert s[1..][k - 1..] == s[k..];
      assert s[..k] == [s[0]] + s[1..][..k - 1];
    }
  }

  lemma UnescPassStep(s: string, e: char, c: char)
    requires s != [] && !(|s| > 1 && s[0] == '\\' && s[1] == e)
    ensures UnescPass(s, e, c) == [s[0]] + UnescPass(s[1..], e, c)
  {
    if |s| == 1 {
      assert s == [s[0]] && s[1..] == [];
    }
  }

  lemma {:induction false} UnescPassSkip(s: string, e: char, c: char, k: nat)
    requires k <= |s| && forall i :: 0 <= i < k && i + 1 < |s| ==> !(s[i] == '\\' && s[i + 1] == e)
    ensures UnescPass(s, e, c) == s[..k] + UnescPass(s[k..], e, c)
  {
    hide UnescPass;
    if k == 0 {
      assert s[0..] == s && [] + UnescPass(s, e, c) == UnescPass(s, e, c);
    } else {
      var t := s[1..];
      UnescPassStep(s, e, c);
      UnescPassSkip(t, e, c, k - 1);
      assert t[k - 1..] == s[k..];
      assert [s[0]] + (t[..k - 1] + UnescPass(s[k..], e, c)) == s[..k] + UnescPass(s[k..], e, c);
    }
  }

  lemma EscPassNone(c: char, e: char)
    ensures EscPass([], c, e) == []
  {
  }

  lemma UnescPassNone(e: char, c: char)
    ensures UnescPass([], e, c) == []
  {
  }

  lemma EscPassAt(s: string, c: char, e: char, k: nat)
    requires k < |s| && s[k] == c && forall i :: 0 <= i < k ==> s[i] != c
    ensures EscPass(s, c, e) == s[..k] + ['\\', e] + EscPass(s[k + 1..], c, e)
  {
    EscPassSkip(s, c, e, k);
    assert s[k..][1..] == s[k + 1..];
  }

  lemma UnescPassAt(s: string, e: char, c: char, k: nat)
    requires k + 1 < |s| && s[k] == '\\' && s[k + 1] == e
    requires forall i :: 0 <= i < k && i + 1 < |s| ==> !(s[i] == '\\' && s[i + 1] == e)
    ensures UnescPass(s, e, c) == s[..k] + [c] + UnescPass(s[k + 2..], e, c)
  {
    UnescPassSkip(s, e, c, k);
    assert s[k..][0] == '\\' && s[k..][1] == e && s[k..][2..] == s[k + 2..];
  }

  /** What stands before and behind m characters at k of left, seen from the whole text. */
  lemma Around(done: string, left: string, k: nat, m: nat)
    requires k + m <= |left|
    ensures (done + left)[..|done| + k] == done + left[..k]
    ensures (done + left)[|done| + k + m..] == left[k + m..]
  {
  }

  /** One replacement loop of encode. */
  method EncodePass(s: string, c: char, e: char) returns (src: string)
    ensures src == EscPass(s, c, e)
  {
    hide EscPass;
    src := s;
    ghost var done, left := [], s;
    var pos := FindChar(src, c, 0);
    while pos < |src|
      invariant src == done + left && pos <= |src|
      invariant EscPass(s, c, e) == done + EscPass(left, c, e)
      invariant pos < |src| ==> |done| <= pos && src[pos] == c
      invariant forall i :: |done| <= i < pos ==> src[i] != c
      decreases |left|
    {
      ghost var k := pos - |done|;
      assert forall i :: 0 <= i < |left| ==> left[i] == src[|done| + i];
      EscPassAt(left, c, e, k);
      Around(done, left, k, 1);
      src := src[..pos] + ['\\', e] + src[pos + 1..];
      done, left := done + left[..k] + ['\\', e], left[k + 1..];
      pos := FindChar(src, c, pos + 2);
    }
    assert forall i :: 0 <= i < |left| ==> left[i] == src[|done| + i];
    EscPassSkip(left, c, e, |left|);
    EscPassNone(c, e);
    assert left[..|left|] == left && left[|left|..] == [];
  }

  /** One replacement loop of decode. */
  method DecodePass(s: string, e: char, c: char) returns (src: string)
    ensures src == UnescPass(s, e, c)
  {
    hide UnescPass;
    src := s;
    ghost var done, left := [], s;
    var pos := FindPair(src, e, 0);
    while pos < |src|
      invariant src == done + left && pos <= |src|
      invariant UnescPass(s, e, c) == done + UnescPass(left, e, c)
      invariant pos < |src| ==> |done| <= pos < |src| - 1 && src[pos] == '\\' && src[pos + 1] == e
      invariant forall i :: |done| <= i < pos && i + 1 < |src| ==> !(src[i] == '\\' && src[i + 1] == e)
      decreases |left|
    {
      ghost var k := pos - |done|;
      assert forall i :: 0 <= i < |left| ==> left[i] == src[|done| + i];
      UnescPassAt(left, e, c, k);
      Around(done, left, k, 2);
      src := src[..pos] + [c] + src[pos + 2..];
      done, left := done + left[..k] + [c], left[k + 2..];
      pos := FindPair(src, e, pos + 1);
    }
    assert forall i :: 0 <= i < |left| ==> left[i] == src[|done| + i];
    UnescPassSkip(left, e, c, |left|);
    UnescPassNone(e, c);
    assert left[..|left|] == left && left[|left|..] == [];
  }

  // ---------------------------------------------------------------- the four passes

  function Encode(s: string): string {
    EscPass(EscPass(EscPass(EscPass(s, '\\', '\\'), '\r', 'r'), '\n', 'n'), '"', '"')
  }

  function Decode(s: string): string {
    UnescPass(UnescPass(UnescPass(UnescPass(s, '"', '"'), 'r', '\r'), 'n', '\n'), '\\', '\\')
  }

  method EncodeInPlace(s: string) returns (src: string)
    ensures src == Encode(s)
  {
    src := EncodePass(s, '\\', '\\');
    src := EncodePass(src, '\r', 'r');
    src := EncodePass(src, '\n', 'n');
    src := EncodePass(src, '"', '"');
  }

  method DecodeInPlace(s: string) returns (src: string)
    ensures src == Decode(s)
  {
    src := DecodePass(s, '"', '"');
    src := DecodePass(src, 'r', '\r');
    src := DecodePass(src, 'n', '\n');
    src := DecodePass(src, '\\', '\\');
  }

  /** The escape map, one character at a time. */
  function EscChar(c: char): string {
    if c == '\\' then ['\\', '\\']
    else if c == '\r' then ['\\', 'r']
    else if c == '\n' then ['\\', 'n']
    else if c == '"' then ['\\', '"']
    else [c]
  }

  function Escape(s: string): string {
    if s == [] then [] else EscChar(s[0]) + Escape(s[1..])
  }

  lemma {:induction false} EscPassAppend(a: string, b: string, c: char, e: char)
    ensures EscPass(a + b, c, e) == EscPass(a, c, e) + EscPass(b, c, e)
  {
    if a == [] {
      assert a + b == b;
    } else {
      assert (a + b)[1..] == a[1..] + b;
      EscPassAppend(a[1..], b, c, e);
    }
  }

  lemma EscPassOne(x: char, c: char, e: char)
    ensures EscPass([x], c, e) == if x == c then ['\\', e] else [x]
  {
    assert [x][1..] == [];
  }

  lemma EscPassTwo(x: char, y: char, c: char, e: char)
    requires x != c && y != c
    ensures EscPass([x, y], c, e) == [x, y]
  {
    EscPassOne(y, c, e);
    assert [x, y][1..] == [y];
  }

  lemma EncodeOne(x: char)
    ensures Encode([x]) == EscChar(x)
  {
    EscPassOne(x, '\\', '\\');
    EscPassOne(x, '\r', 'r');
    EscPassOne(x, '\n', 'n');
    EscPassOne(x, '"', '"');
    EscPassTwo('\\', '\\', '\r', 'r');
    EscPassTwo('\\', '\\', '\n', 'n');
    EscPassTwo('\\', '\\', '"', '"');
    EscPassTwo('\\', 'r', '\n', 'n');
    EscPassTwo('\\', 'r', '"', '"');
    EscPassTwo('\\', 'n', '"', '"');
  }

  lemma EncodeAppend(a: string, b: string)
    ensures Encode(a + b) == Encode(a) + Encode(b)
  {
    EscPassAppend(a, b, '\\', '\\');
    var a1, b1 := EscPass(a, '\\', '\\'), EscPass(b, '\\', '\\');
    EscPassAppend(a1, b1, '\r', 'r');
    var a2, b2 := EscPass(a1, '\r', 'r'), EscPass(b1, '\r', 'r');
    EscPassAppend(a2, b2, '\n', 'n');
    EscPassAppend(EscPass(a2, '\n', 'n'), EscPass(b2, '\n', 'n'), '"', '"');
  }

  /** The four passes of encode are one character-by-character map. */
  lemma {:induction false} EncodeIsEscape(s: string)
    ensures Encode(s) == Escape(s)
  {
    if s != [] {
      assert s == [s[0]] + s[1..];
      EncodeAppend([s[0]], s[1..]);
      EncodeOne(s[0]);
      EncodeIsEscape(s[1..]);
    }
  }

  // ---------------------------------------------------------------- undoing the escapes

  /** What decoding an encoded string gives: an n or r right after a backslash has become a
      line feed or a carriage return. */
  function Mangle(s: string): string
    decreases |s|
  {
    if s == [] then []
    else if s[0] == '\\' && |s| > 1 && s[1] == 'r' then ['\\', '\r'] + Mangle(s[2..])
    else if s[0] == '\\' && |s| > 1 && s[1] == 'n' then ['\\', '\n'] + Mangle(s[2..])
    else [s[0]] + Mangle(s[1..])
  }

  /** No backslash directly followed by n or r. */
  predicate Clean(s: string) {
    forall i :: 0 <= i < |s| - 1 && s[i] == '\\' ==> s[i + 1] != 'n' && s[i + 1] != 'r'
  }

  /** Escape with the escapes of the first 1, 2 or 3 passes of decode already undone. */
  function Partly(s: string, stage: nat): string
    decreases |s|
  {
    if s == [] then []
    else if stage >= 2 && s[0] == '\\' && |s| > 1 && s[1] == 'r' then ['\\', '\r'] + Partly(s[2..], stage)
    else if stage >= 3 && s[0] == '\\' && |s| > 1 && s[1] == 'n' then ['\\', '\n'] + Partly(s[2..], stage)
    else
      (if s[0] == '\\' then ['\\', '\\']
       else if s[0] == '\r' && stage < 2 then ['\\', 'r']
       else if s[0] == '\n' && stage < 3 then ['\\', 'n']
       else if s[0] == '"' && stage < 1 then ['\\', '"']
       else [s[0]]) + Partly(s[1..], stage)
  }

  lemma {:induction false} PartlyZero(s: string)
    ensures Partly(s, 0) == Escape(s)
  {
    if s != [] {
      PartlyZero(s[1..]);
    }
  }

  /** Two characters that are not the pattern, and do not start it, pass through. */
  lemma UnescOne(x: char, t: string, e: char, c: char)
    requires !(x == '\\' && t != [] && t[0] == e)
    ensures UnescPass([x] + t, e, c) == [x] + UnescPass(t, e, c)
  {
    assert ([x] + t)[1..] == t;
  }

  lemma UnescTwo(t: string, e: char, c: char)
    ensures UnescPass(['\\', e] + t, e, c) == [c] + UnescPass(t, e, c)
  {
    assert (['\\', e] + t)[2..] == t;
  }

  lemma UnescBoth(x: char, y: char, t: string, e: char, c: char)
    requires !(x == '\\' && y == e) && !(y == '\\' && t != [] && t[0] == e)
    ensures UnescPass([x, y] + t, e, c) == [x, y] + UnescPass(t, e, c)
  {
    assert [x, y] + t == [x] + ([y] + t);
    UnescOne(x, [y] + t, e, c);
    UnescOne(y, t, e, c);
  }

  lemma PartlyFirst(t: string, stage: nat)
    requires t != []
    ensures Partly(t, stage) != []
    ensures Partly(t, stage)[0] == '"' ==> t[0] == '"' && stage >= 1
    ensures (Partly(t, stage)[0] == 'r' <==> t[0] == 'r') && (Partly(t, stage)[0] == 'n' <==> t[0] == 'n')
  {
  }

  lemma PairShift(c: char, u: string)
    ensures ['\\', '\\'] + ([c] + u) == ['\\'] + (['\\', c] + u)
    ensures ['\\', c] + u != [] && (['\\', c] + u)[0] == '\\'
  {
  }

  lemma {:induction false} PassOne(s: string)
    ensures UnescPass(Partly(s, 0), '"', '"') == Partly(s, 1)
    decreases |s|
  {
    hide UnescPass;
    UnescPassNone('"', '"');
    if s != [] {
      var t := s[1..];
      var r := Partly(t, 0);
      PassOne(t);
      if t != [] {
        PartlyFirst(t, 0);
      }
      if s[0] == '\\' {
        UnescBoth('\\', '\\', r, '"', '"');
      } else if s[0] == '\r' {
        UnescBoth('\\', 'r', r, '"', '"');
      } else if s[0] == '\n' {
        UnescBoth('\\', 'n', r, '"', '"');
      } else if s[0] == '"' {
        UnescTwo(r, '"', '"');
      } else {
        UnescOne(s[0], r, '"', '"');
      }
    }
  }

  lemma {:induction false} PassTwo(s: string)
    ensures UnescPass(Partly(s, 1), 'r', '\r') == Partly(s, 2)
    decreases |s|
  {
    hide UnescPass;
    UnescPassNone('r', '\r');
    if s != [] {
      var t := s[1..];
      var r := Partly(t, 1);
      if t != [] {
        PartlyFirst(t, 1);
      }
      if s[0] == '\\' && t != [] && t[0] == 'r' {
        var u := Partly(s[2..], 1);
        PassTwo(s[2..]);
        assert t[1..] == s[2..];
        assert r == ['r'] + u;
        PairShift('r', u);
        UnescOne('\\', ['\\', 'r'] + u, 'r', '\r');
        UnescTwo(u, 'r', '\r');
      } else {
        PassTwo(t);
        if s[0] == '\\' {
          UnescBoth('\\', '\\', r, 'r', '\r');
        } else if s[0] == '\r' {
          UnescTwo(r, 'r', '\r');
        } else if s[0] == '\n' {
          UnescBoth('\\', 'n', r, 'r', '\r');
        } else {
          UnescOne(s[0], r, 'r', '\r');
        }
      }
    }
  }

  lemma {:induction false} PassThree(s: string)
    ensures UnescPass(Partly(s, 2), 'n', '\n') == Partly(s, 3)
    decreases |s|
  {
    hide UnescPass;
    UnescPassNone('n', '\n');
    if s != [] {
      var t := s[1..];
      var r := Partly(t, 2);
      if t != [] {
        PartlyFirst(t, 2);
      }
      if s[0] == '\\' && t != [] && t[0] == 'r' {
        var u := Partly(s[2..], 2);
        PassThree(s[2..]);
        UnescBoth('\\', '\r', u, 'n', '\n');
      } else if s[0] == '\\' && t != [] && t[0] == 'n' {
        var u := Partly(s[2..], 2);
        PassThree(s[2..]);
        assert t[1..] == s[2..];
        assert r == ['n'] + u;
        PairShift('n', u);
        UnescOne('\\', ['\\', 'n'] + u, 'n', '\n');
        UnescTwo(u, 'n', '\n');
      } else {
        PassThree(t);
        if s[0] == '\\' {
          UnescBoth('\\', '\\', r, 'n', '\n');
        } else if s[0] == '\n' {
          UnescTwo(r, 'n', '\n');
        } else {
          UnescOne(s[0], r, 'n', '\n');
        }
      }
    }
  }

  lemma {:induction false} PassFour(s: string)
    ensures UnescPass(Partly(s, 3), '\\', '\\') == Mangle(s)
    decreases |s|
  {
    hide UnescPass;
    UnescPassNone('\\', '\\');
    if s != [] {
      var t := s[1..];
      if s[0] == '\\' && t != [] && (t[0] == 'r' || t[0] == 'n') {
        var u := Partly(s[2..], 3);
        PassFour(s[2..]);
        UnescBoth('\\', if t[0] == 'r' then '\r' else '\n', u, '\\', '\\');
      } else {
        PassFour(t);
        if s[0] == '\\' {
          UnescTwo(Partly(t, 3), '\\', '\\');
        } else {
          UnescOne(s[0], Partly(t, 3), '\\', '\\');
        }
      }
    }
  }

  /** Decoding what was encoded, for every string. */
  lemma DecodeEncode(s: string)
    ensures Decode(Encode(s)) == Mangle(s)
  {
    EncodeIsEscape(s);
    PartlyZero(s);
    PassOne(s);
    PassTwo(s);
    PassThree(s);
    PassFour(s);
  }

  lemma {:induction false} MangleIdentity(s: string)
    ensures Mangle(s) == s <==> Clean(s)
    ensures |Mangle(s)| == |s| && Clean(Mangle(s))
    ensures s != [] ==> Mangle(s)[0] == s[0]
    decreases |s|
  {
    if s != [] {
      var t := s[1..];
      if s[0] == '\\' && t != [] && (t[0] == 'r' || t[0] == 'n') {
        var u, m := s[2..], Mangle(s);
        MangleIdentity(u);
        assert m[2..] == Mangle(u) && m[1] != s[1] && m[0] == '\\';
        forall i | 0 <= i < |m| - 1 && m[i] == '\\'
          ensures m[i + 1] != 'n' && m[i + 1] != 'r'
        {
          if i >= 2 {
            assert m[i] == Mangle(u)[i - 2] && m[i + 1] == Mangle(u)[i - 1];
          }
        }
      } else {
        var m := Mangle(s);
        MangleIdentity(t);
        assert m[1..] == Mangle(t);
        forall i | 0 <= i < |m| - 1 && m[i] == '\\'
          ensures m[i + 1] != 'n' && m[i + 1] != 'r'
        {
          if i >= 1 {
            assert m[i] == Mangle(t)[i - 1] && m[i + 1] == Mangle(t)[i];
          }
        }
        if Clean(s) {
          forall i | 0 <= i < |t| - 1 && t[i] == '\\'
            ensures t[i + 1] != 'n' && t[i + 1] != 'r'
          {
            assert s[i + 1] == t[i] && s[i + 1 + 1] == t[i + 1];
          }
        }
        if Clean(t) {
          forall i | 0 <= i < |s| - 1 && s[i] == '\\'
            ensures s[i + 1] != 'n' && s[i + 1] != 'r'
          {
            if i >= 1 {
              assert s[i] == t[i - 1] && s[i + 1] == t[i];
            }
          }
        }
      }
    }
  }

  /** Decoding inverts encoding exactly on the strings without a backslash directly before n or r. */
  lemma DecodeInvertsEncode(s: string)
    ensures Decode(Encode(s)) == s <==> Clean(s)
  {
    DecodeEncode(s);
    MangleIdentity(s);
  }
}
