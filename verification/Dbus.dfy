/**
 Escaping of arbitrary byte strings into D-Bus object paths (src/lomiri/util/Dbus.cpp).

 A C++ `std::string` is a sequence of bytes. Whether plain `char` is signed is up to the platform, and it
 matters here: `snprintf("%02x", ch)` first promotes `ch` to `int`, so a byte above 0x7f turns into a number
 just below 2^32 when `char` is signed. The model takes the signedness as a parameter.
 */
module Dbus {
  import opened Options

  type Byte = b: int | 0 <= b < 256

  datatype CharType = SignedChar | UnsignedChar

  const UNDERSCORE: Byte := 95
  const SLASH: Byte := 47
  const DIGIT_ZERO: Byte := 48
  const LETTER_F: Byte := 102

  /** `std::isalnum` in the classic locale. */
  predicate IsAlnum(b: Byte) {
    48 <= b <= 57 || 65 <= b <= 90 || 97 <= b <= 122
  }

  // ----- printf's "%02x" -----

  function HexDigit(d: int): Byte
    requires 0 <= d < 16
  {
    if d < 10 then 48 + d else 87 + d
  }

  function Hex(n: nat): seq<Byte> {
    if n < 16 then [HexDigit(n)] else Hex(n / 16) + [HexDigit(n % 16)]
  }

  /** "%02x": hexadecimal, padded on the left with zeros to two digits, never cut. */
  function Hex02(n: nat): seq<Byte> {
    var digits := Hex(n);
    if |digits| < 2 then [DIGIT_ZERO] + digits else digits
  }

  /** The `unsigned int` that printf sees for a byte: integral promotion, then conversion modulo 2^32. */
  function Promoted(ct: CharType, b: Byte): nat {
    if ct == SignedChar && 128 <= b then 0x1_0000_0000 + (b - 256) else b
  }

  function Escape(ct: CharType, b: Byte): seq<Byte> {
    if IsAlnum(b) then [b] else [UNDERSCORE] + Hex02(Promoted(ct, b))
  }

  function Sanitize(ct: CharType, str: seq<Byte>): seq<Byte> {
    if str == [] then [] else Escape(ct, str[0]) + Sanitize(ct, str[1..])
  }

  /** dbus_sanitize_str */
  method DbusSanitizeStr(ct: CharType, str: seq<Byte>) returns (output: seq<Byte>)
    ensures output == Sanitize(ct, str)
  {
    output := [];
    for i := 0 to |str|
      invariant output == Sanitize(ct, str[..i])
    {
      SanitizeConcat(ct, str[..i], [str[i]]);
      assert str[..i + 1] == str[..i] + [str[i]];
      var ch := str[i];
      if IsAlnum(ch) {
        output := output + [ch];
      } else {
        var buff := [UNDERSCORE] + Hex02(Promoted(ct, ch));
        output := output + buff;
      }
    }
    assert str[..|str|] == str;
  }

  // ----- which bytes pass as they are -----

  /** The letters and digits of a D-Bus name, "[A-Z][a-z][0-9]" in the specification. */
  ghost predicate IsLetterOrDigit(b: int) {
    'A' as int <= b <= 'Z' as int || 'a' as int <= b <= 'z' as int || '0' as int <= b <= '9' as int
  }

  /** A string is its own escape exactly if it has nothing but letters and digits. */
  lemma {:induction false} UnchangedExactly(ct: CharType, str: seq<Byte>)
    ensures Sanitize(ct, str) == str <==> forall i :: 0 <= i < |str| ==> IsLetterOrDigit(str[i])
  {
    if str == [] {
    } else {
      var rest := str[1..];
      assert str == [str[0]] + rest;
      UnchangedExactly(ct, rest);
      if IsAlnum(str[0]) {
        assert Sanitize(ct, str)[1..] == Sanitize(ct, rest);
      } else {
        EscapeIsLong(ct, str);
      }
    }
  }

  lemma EscapeIsLong(ct: CharType, str: seq<Byte>)
    requires str != [] && !IsAlnum(str[0])
    ensures |Sanitize(ct, str)| > |str|
  {
    EscapeShape(ct, str[0]);
    SanitizeAlphabetAndLength(ct, str[1..]);
  }

  // ----- what the escape of one byte looks like -----

  predicate IsLowerHex(b: Byte) {
    48 <= b <= 57 || 97 <= b <= 102
  }

  function HexValue(b: Byte): (v: int)
    requires IsLowerHex(b)
    ensures 0 <= v < 16 && HexDigit(v) == b
  {
    if b <= 57 then b - 48 else b - 87
  }

  lemma HexSplit(q: nat, r: nat)
    requires 0 < q && r < 16
    ensures Hex(16 * q + r) == Hex(q) + [HexDigit(r)]
  {
  }

  const SIX_FS: seq<Byte> := [102, 102, 102, 102, 102, 102]

  lemma HexOfSixFs()
    ensures Hex(0xff_ffff) == SIX_FS
  {
  }

  const HEX_DIGITS := "0123456789abcdef"

  /** Two hexadecimal digits, or, for a signed char above 0x7f, eight of which the first six are 'f'. */
  lemma EscapeIsPrinted(ct: CharType, b: Byte)
    requires !IsLetterOrDigit(b)
    ensures var (e, hi, lo) := (Escape(ct, b), HEX_DIGITS[b / 16] as int, HEX_DIGITS[b % 16] as int);
            && e[0] == '_' as int
            && e[1..] == if ct == SignedChar && 128 <= b then seq(6, _ => 'f' as int) + [hi, lo] else [hi, lo]
  {
    EscapeShape(ct, b);
    assert forall d :: 0 <= d < 16 ==> HexDigit(d) == HEX_DIGITS[d] as int;
  }

  lemma EscapeShape(ct: CharType, b: Byte)
    requires !IsAlnum(b)
    ensures ct == SignedChar && 128 <= b ==>
              Escape(ct, b) == [UNDERSCORE] + SIX_FS + [HexDigit(b / 16), HexDigit(b % 16)]
    ensures !(ct == SignedChar && 128 <= b) ==>
              Escape(ct, b) == [UNDERSCORE, HexDigit(b / 16), HexDigit(b % 16)]
  {
    if ct == SignedChar && 128 <= b {
      var n := Promoted(ct, b);
      assert n == 16 * (16 * 0xff_ffff + b / 16) + b % 16;
      HexSplit(16 * 0xff_ffff + b / 16, b % 16);
      HexSplit(0xff_ffff, b / 16);
      HexOfSixFs();
      assert Hex(n) == SIX_FS + [HexDigit(b / 16)] + [HexDigit(b % 16)];
    } else if 16 <= b {
      HexSplit(b / 16, b % 16);
      assert 16 * (b / 16) + b % 16 == b;
    }
  }

  // ----- the decoder -----

  /** Reads one escaped byte off the front: the byte and the number of output bytes it occupied. */
  function DecodeOne(ct: CharType, t: seq<Byte>): (r: Option<(Byte, nat)>)
    requires t != []
    ensures r.Some? ==> 0 < r.value.1 <= |t|
  {
    if IsAlnum(t[0]) then Some((t[0], 1))
    else if t[0] != UNDERSCORE then None
    else if ct == SignedChar && 9 <= |t| && t[1..7] == SIX_FS then
      if IsLowerHex(t[7]) && IsLowerHex(t[8]) && 8 <= HexValue(t[7])
      then Some((16 * HexValue(t[7]) + HexValue(t[8]), 9))
      else None
    else if 3 <= |t| && IsLowerHex(t[1]) && IsLowerHex(t[2]) then
      var b := 16 * HexValue(t[1]) + HexValue(t[2]);
      if IsAlnum(b) || (ct == SignedChar && 128 <= b) then None else Some((b, 3))
    else None
  }

  function Decode(ct: CharType, t: seq<Byte>): Option<seq<Byte>>
    decreases |t|
  {
    if t == [] then Some([])
    else match DecodeOne(ct, t)
      case None => None
      case Some((b, n)) =>
        match Decode(ct, t[n..])
        case None => None
        case Some(rest) => Some([b] + rest)
  }

  lemma DecodeOneAfterEscape(ct: CharType, b: Byte, rest: seq<Byte>)
    ensures Escape(ct, b) != []
    ensures DecodeOne(ct, Escape(ct, b) + rest) == Some((b, |Escape(ct, b)|))
  {
    if !IsAlnum(b) {
      EscapeShape(ct, b);
      var t := Escape(ct, b) + rest;
      if ct == SignedChar && 128 <= b {
        assert t[1..7] == SIX_FS;
      } else if ct == SignedChar {
        assert b / 16 < 8;
        assert 9 <= |t| ==> t[1..7][0] == t[1] == HexDigit(b / 16) != LETTER_F;
      }
    }
  }

  lemma EscapeOfDigits(ct: CharType, b: Byte, hi: Byte, lo: Byte)
    requires !IsAlnum(b) && IsLowerHex(hi) && IsLowerHex(lo) && b == 16 * HexValue(hi) + HexValue(lo)
    ensures Escape(ct, b) == if ct == SignedChar && 128 <= b then [UNDERSCORE] + SIX_FS + [hi, lo]
                             else [UNDERSCORE, hi, lo]
  {
    EscapeShape(ct, b);
    assert b / 16 == HexValue(hi) && b % 16 == HexValue(lo);
  }

  lemma EscapeAfterDecodeOne(ct: CharType, t: seq<Byte>)
    requires t != []
    requires DecodeOne(ct, t).Some?
    ensures Escape(ct, DecodeOne(ct, t).value.0) == t[..DecodeOne(ct, t).value.1]
  {
    var (b, n) := DecodeOne(ct, t).value;
    if !IsAlnum(t[0]) {
      if n == 9 {
        EscapeOfDigits(ct, b, t[7], t[8]);
        assert t[..9] == [t[0]] + t[1..7] + [t[7], t[8]];
      } else {
        EscapeOfDigits(ct, b, t[1], t[2]);
        assert t[..3] == [t[0], t[1], t[2]];
      }
    }
  }

  lemma DropHead(head: seq<Byte>, rest: seq<Byte>)
    ensures (head + rest)[|head|..] == rest
  {
  }

  /** The escaping is invertible, and the decoder accepts nothing that is not an escaped string. */
  lemma DecodeInvertsSanitize(ct: CharType, str: seq<Byte>, t: seq<Byte>)
    ensures Decode(ct, t) == Some(str) <==> Sanitize(ct, str) == t
  {
    if Sanitize(ct, str) == t {
      DecodeOfSanitize(ct, str);
    }
    if Decode(ct, t) == Some(str) {
      SanitizeOfDecode(ct, t);
    }
  }

  lemma {:induction false} DecodeOfSanitize(ct: CharType, str: seq<Byte>)
    ensures Decode(ct, Sanitize(ct, str)) == Some(str)
  {
    if str == [] {
    } else {
      var rest := Sanitize(ct, str[1..]);
      var head := Escape(ct, str[0]);
      DecodeOfSanitize(ct, str[1..]);
      DecodeOneAfterEscape(ct, str[0], rest);
      DropHead(head, rest);
      assert str == [str[0]] + str[1..];
    }
  }

  lemma DecodeSplits(ct: CharType, t: seq<Byte>) returns (b: Byte, n: nat, rest: seq<Byte>)
    requires t != [] && Decode(ct, t).Some?
    ensures DecodeOne(ct, t) == Some((b, n)) && 0 < n <= |t| && Decode(ct, t[n..]) == Some(rest)
    ensures Decode(ct, t) == Some([b] + rest)
  {
    b, n := DecodeOne(ct, t).value.0, DecodeOne(ct, t).value.1;
    rest := Decode(ct, t[n..]).value;
  }

  lemma TakeDrop(t: seq<Byte>, n: nat)
    requires n <= |t|
    ensures t[..n] + t[n..] == t
  {
  }

  lemma {:induction false} SanitizeOfDecode(ct: CharType, t: seq<Byte>)
    requires Decode(ct, t).Some?
    ensures Sanitize(ct, Decode(ct, t).value) == t
    decreases |t|
  {
    if t == [] {
    } else {
      var b, n, rest := DecodeSplits(ct, t);
      SanitizeOfDecode(ct, t[n..]);
      EscapeAfterDecodeOne(ct, t);
      SanitizeCons(ct, b, rest);
      TakeDrop(t, n);
    }
  }

  lemma SanitizeInjective(ct: CharType, s1: seq<Byte>, s2: seq<Byte>)
    ensures Sanitize(ct, s1) == Sanitize(ct, s2) <==> s1 == s2
  {
    DecodeOfSanitize(ct, s1);
    DecodeOfSanitize(ct, s2);
  }

  lemma SanitizeCons(ct: CharType, b: Byte, rest: seq<Byte>)
    ensures Sanitize(ct, [b] + rest) == Escape(ct, b) + Sanitize(ct, rest)
  {
  }

  lemma Associate(a: seq<Byte>, b: seq<Byte>, c: seq<Byte>)
    ensures a + (b + c) == (a + b) + c
  {
  }

  lemma ConcatOneMore(ct: CharType, b: Byte, rest: seq<Byte>, s2: seq<Byte>)
    requires Sanitize(ct, rest + s2) == Sanitize(ct, rest) + Sanitize(ct, s2)
    ensures Sanitize(ct, ([b] + rest) + s2) == Sanitize(ct, [b] + rest) + Sanitize(ct, s2)
  {
    Associate([b], rest, s2);
    SanitizeCons(ct, b, rest + s2);
    SanitizeCons(ct, b, rest);
    Associate(Escape(ct, b), Sanitize(ct, rest), Sanitize(ct, s2));
  }

  lemma {:induction false} SanitizeConcat(ct: CharType, s1: seq<Byte>, s2: seq<Byte>)
    ensures Sanitize(ct, s1 + s2) == Sanitize(ct, s1) + Sanitize(ct, s2)
  {
    if s1 == [] {
      assert s1 + s2 == s2;
    } else {
      SanitizeConcat(ct, s1[1..], s2);
      ConcatOneMore(ct, s1[0], s1[1..], s2);
      assert s1 == [s1[0]] + s1[1..];
    }
  }

  /** "[A-Z][a-z][0-9]_", the bytes of the elements of an object path. */
  ghost predicate IsNameByte(b: int) {
    IsLetterOrDigit(b) || b == '_' as int
  }

  /** Only letters, digits and underscores come out, and at most 9 (signed) or 3 (unsigned) per byte. */
  lemma {:induction false} SanitizeAlphabetAndLength(ct: CharType, str: seq<Byte>)
    ensures forall i :: 0 <= i < |Sanitize(ct, str)| ==> IsNameByte(Sanitize(ct, str)[i])
    ensures |str| <= |Sanitize(ct, str)| <= (if ct == SignedChar then 9 else 3) * |str|
  {
    if str == [] {
    } else {
      if !IsAlnum(str[0]) {
        EscapeShape(ct, str[0]);
      }
      SanitizeAlphabetAndLength(ct, str[1..]);
    }
  }

  lemma {:induction false} SignedIsLonger(str: seq<Byte>)
    ensures |Sanitize(UnsignedChar, str)| <= |Sanitize(SignedChar, str)|
  {
    if str == [] {
    } else {
      if !IsAlnum(str[0]) {
        EscapeShape(SignedChar, str[0]);
        EscapeShape(UnsignedChar, str[0]);
      }
      SignedIsLonger(str[1..]);
    }
  }

  /** The same program gives the same name on both kinds of platform exactly for 7-bit input. */
  lemma {:induction false} PlatformsAgree(str: seq<Byte>)
    ensures Sanitize(SignedChar, str) == Sanitize(UnsignedChar, str)
            <==> forall i :: 0 <= i < |str| ==> str[i] < 128
  {
    if str == [] {
    } else {
      PlatformsAgree(str[1..]);
      assert str == [str[0]] + str[1..];
      var (s, u) := (Sanitize(SignedChar, str[1..]), Sanitize(UnsignedChar, str[1..]));
      var (es, eu) := (Escape(SignedChar, str[0]), Escape(UnsignedChar, str[0]));
      if 128 <= str[0] {
        EscapeShape(SignedChar, str[0]);
        EscapeShape(UnsignedChar, str[0]);
        SignedIsLonger(str[1..]);
        assert |es + s| > |eu + u|;
      } else {
        assert es == eu;
        if es + s == eu + u {
          assert s == (es + s)[|es|..] == (eu + u)[|eu|..] == u;
        }
      }
    }
  }

  // ----- object paths -----

  /** `base` with a slash put at either end where there is none yet. */
  function Prefix(base: seq<Byte>): seq<Byte>
    requires base != []
  {
    var rooted := if base[0] != SLASH then [SLASH] + base else base;
    if rooted[|rooted| - 1] != SLASH then rooted + [SLASH] else rooted
  }

  function Path(ct: CharType, base: seq<Byte>, str: seq<Byte>): seq<Byte>
    requires base != []
  {
    Prefix(base) + Sanitize(ct, str)
  }

  /** dbus_sanitized_path; `base.front()` demands a non-empty base. */
  method DbusSanitizedPath(ct: CharType, base: seq<Byte>, path: seq<Byte>) returns (output: seq<Byte>)
    requires base != []
    ensures output == Path(ct, base, path)
  {
    output := [];
    if base[0] != SLASH {
      output := output + [SLASH];
    }
    output := output + base;
    if output[|output| - 1] != SLASH {
      output := output + [SLASH];
    }
    assert output == Prefix(base);
    var name := DbusSanitizeStr(ct, path);
    output := output + name;
  }

  /**
   Of a path, the base stands at the front, behind a slash if it does not begin with one; then a slash if it does
   not end in one (the base "/" needs none); then the name, and nothing else.
   */
  lemma PathLayout(ct: CharType, base: seq<Byte>, str: seq<Byte>)
    requires base != []
    ensures var (path, name, slash) := (Path(ct, base, str), Sanitize(ct, str), '/' as int);
            var at := if base[0] == slash then 0 else 1;
            var end := |path| - |name|;
            && at + |base| <= end && path[at..at + |base|] == base && path[end..] == name
            && path[0] == slash && path[end - 1] == slash
            && end == at + |base| + (if base[|base| - 1] == slash then 0 else 1)
  {
  }

  lemma LeadingSlashIsOptional(ct: CharType, base: seq<Byte>, str: seq<Byte>)
    requires base != []
    ensures Path(ct, [SLASH] + base, str) == Path(ct, base, str) <==> base[0] != SLASH
  {
    var p, q := Prefix([SLASH] + base), Prefix(base);
    if base[0] == SLASH {
      assert |p| == |q| + 1;
    } else {
      assert p == q;
    }
  }

  lemma TrailingSlashIsOptional(ct: CharType, base: seq<Byte>, str: seq<Byte>)
    requires base != []
    ensures Path(ct, base + [SLASH], str) == Path(ct, base, str) <==> base[|base| - 1] != SLASH
  {
    var p, q := Prefix(base + [SLASH]), Prefix(base);
    if base[|base| - 1] == SLASH {
      assert |p| == |q| + 1;
    } else {
      assert p == q;
    }
  }

  /** Section "Valid Object Paths" of the D-Bus Specification. */
  ghost predicate ValidObjectPath(p: seq<Byte>) {
    && p != [] && p[0] == '/' as int
    && PathBytes(p)
    && NoEmptyElement(p)
    && (|p| > 1 ==> p[|p| - 1] != '/' as int)
  }

  ghost predicate NoEmptyElement(p: seq<Byte>) {
    forall i :: 0 < i < |p| && p[i - 1] == '/' as int ==> p[i] != '/' as int
  }

  /** A base whose components are all valid: what a caller can look at before the call. */
  ghost predicate ValidBase(base: seq<Byte>) {
    PathBytes(base) && NoEmptyElement(base)
  }

  ghost predicate PathBytes(p: seq<Byte>) {
    forall i :: 0 <= i < |p| ==> IsNameByte(p[i]) || p[i] == '/' as int
  }

  lemma SlashInFront(p: seq<Byte>)
    requires p != [] && p[0] != SLASH
    ensures PathBytes([SLASH] + p) <==> PathBytes(p)
    ensures NoEmptyElement([SLASH] + p) <==> NoEmptyElement(p)
  {
    var q := [SLASH] + p;
    assert forall i :: 0 <= i < |p| ==> q[i + 1] == p[i];
    assert forall i :: 1 <= i < |q| ==> q[i] == p[i - 1];
    if NoEmptyElement(q) {
      forall i | 0 < i < |p| && p[i - 1] == SLASH
        ensures p[i] != SLASH
      {
        assert q[i] == SLASH && q[i + 1] == p[i];
      }
    }
  }

  lemma SlashBehind(p: seq<Byte>)
    requires p != [] && p[|p| - 1] != SLASH
    ensures PathBytes(p + [SLASH]) <==> PathBytes(p)
    ensures NoEmptyElement(p + [SLASH]) <==> NoEmptyElement(p)
  {
    var q := p + [SLASH];
    assert forall i :: 0 <= i < |p| ==> q[i] == p[i];
    assert q[|p|] == SLASH;
    if NoEmptyElement(q) {
      forall i | 0 < i < |p| && p[i - 1] == SLASH
        ensures p[i] != SLASH
      {
        assert q[i - 1] == SLASH && q[i] == p[i];
      }
    }
  }

  lemma PrefixKeepsBytes(base: seq<Byte>)
    requires base != []
    ensures var p := Prefix(base);
            && p[0] == SLASH && p[|p| - 1] == SLASH
            && (|p| == 1 <==> base == [SLASH])
            && (PathBytes(p) <==> PathBytes(base))
            && (NoEmptyElement(p) <==> NoEmptyElement(base))
  {
    var rooted := if base[0] != SLASH then [SLASH] + base else base;
    if base[0] != SLASH {
      SlashInFront(base);
    }
    if rooted[|rooted| - 1] != SLASH {
      SlashBehind(rooted);
    }
  }

  /** A prefix ending in a slash, followed by a name, has no empty element iff the prefix has none. */
  lemma AppendName(p: seq<Byte>, name: seq<Byte>)
    requires forall i :: 0 <= i < |name| ==> IsNameByte(name[i])
    ensures NoEmptyElement(p + name) <==> NoEmptyElement(p)
    ensures PathBytes(p + name) <==> PathBytes(p)
  {
    var path := p + name;
    assert forall i :: 0 <= i < |p| ==> path[i] == p[i];
    assert forall i :: |p| <= i < |path| ==> path[i] == name[i - |p|] && path[i] != SLASH;
    if NoEmptyElement(path) {
      forall i | 0 < i < |p| && p[i - 1] == SLASH
        ensures p[i] != SLASH
      {
        assert path[i - 1] == p[i - 1];
      }
    }
  }

  /** The result is an object path exactly when the base is and the name is not empty (or both are the root). */
  lemma PathIsValid(ct: CharType, base: seq<Byte>, str: seq<Byte>)
    requires base != []
    ensures ValidObjectPath(Path(ct, base, str))
            <==> ValidBase(base) && (str != [] || base == [SLASH])
  {
    var p, name := Prefix(base), Sanitize(ct, str);
    PrefixKeepsBytes(base);
    SanitizeAlphabetAndLength(ct, str);
    AppendName(p, name);
    LastByte(p, name);
    assert str == [] <==> name == [];
  }

  lemma LastByte(p: seq<Byte>, name: seq<Byte>)
    requires p != []
    requires forall i :: 0 <= i < |name| ==> IsNameByte(name[i])
    ensures var w := p + name;
            && w[0] == p[0]
            && w[|w| - 1] == (if name == [] then p[|p| - 1] else name[|name| - 1])
            && (name != [] ==> w[|w| - 1] != SLASH)
  {
  }

  /** A path determines the name behind it and the base up to the optional slashes. */
  lemma PathIsInjective(ct: CharType, b1: seq<Byte>, s1: seq<Byte>, b2: seq<Byte>, s2: seq<Byte>)
    requires b1 != [] && b2 != []
    ensures Path(ct, b1, s1) == Path(ct, b2, s2) <==> Prefix(b1) == Prefix(b2) && s1 == s2
  {
    var (p1, p2) := (Prefix(b1), Prefix(b2));
    var (n1, n2) := (Sanitize(ct, s1), Sanitize(ct, s2));
    assert n1 == n2 <==> s1 == s2 by {
      SanitizeInjective(ct, s1, s2);
    }
    assert p1 + n1 == p2 + n2 <==> p1 == p2 && n1 == n2 by {
      EndsInSlash(b1);
      EndsInSlash(b2);
      NoSlashInName(ct, s1);
      NoSlashInName(ct, s2);
      SplitIsUnique(p1, n1, p2, n2);
    }
  }

  lemma EndsInSlash(base: seq<Byte>)
    requires base != []
    ensures Prefix(base) != [] && Prefix(base)[|Prefix(base)| - 1] == SLASH
  {
  }

  lemma NoSlashInName(ct: CharType, str: seq<Byte>)
    ensures forall i :: 0 <= i < |Sanitize(ct, str)| ==> Sanitize(ct, str)[i] != SLASH
  {
    SanitizeAlphabetAndLength(ct, str);
  }

  lemma LastSlashBound(p1: seq<Byte>, n1: seq<Byte>, p2: seq<Byte>, n2: seq<Byte>)
    requires forall i :: 0 <= i < |n1| ==> n1[i] != SLASH
    requires p2 != [] && p2[|p2| - 1] == SLASH
    requires p1 + n1 == p2 + n2
    ensures |p2| <= |p1|
  {
    var w := p1 + n1;
    assert w[|p2| - 1] == (p2 + n2)[|p2| - 1] == SLASH;
    assert forall k :: |p1| <= k < |w| ==> w[k] == n1[k - |p1|] != SLASH;
  }

  lemma SplitIsUnique(p1: seq<Byte>, n1: seq<Byte>, p2: seq<Byte>, n2: seq<Byte>)
    requires p1 != [] && p1[|p1| - 1] == SLASH && forall i :: 0 <= i < |n1| ==> n1[i] != SLASH
    requires p2 != [] && p2[|p2| - 1] == SLASH && forall i :: 0 <= i < |n2| ==> n2[i] != SLASH
    ensures p1 + n1 == p2 + n2 <==> p1 == p2 && n1 == n2
  {
    if p1 + n1 == p2 + n2 {
      LastSlashBound(p1, n1, p2, n2);
      LastSlashBound(p2, n2, p1, n1);
      var w := p1 + n1;
      assert p1 == w[..|p1|] && n1 == w[|p1|..];
      assert p2 == w[..|p2|] && n2 == w[|p2|..];
    }
  }
}
