/**
 Which strings `bech32::Decode` of `src/bech32.cpp` accepts, told without its parser: those that are, but for case,
 the encoding of something, all lower case or all upper case, of at most 1023 characters.  A change of one character
 of the human-readable part is noticed as well.
 */
module Bech32Strings {
  import opened Bech32Checksum
  import opened Bech32Spec
  import Bech32Distance

  // ----- the tables -----

  const CHARSET: string := "qpzry9x8gf2tvdw0s3jn54khce6mua7l"

  lemma FirstFour(v: nat)
    requires v < 4
    ensures CharOf(v as bv8) as int == CHARSET[v] as int
  {
  }

  lemma SecondFour(v: nat)
    requires 4 <= v < 8
    ensures CharOf(v as bv8) as int == CHARSET[v] as int
  {
  }

  lemma ThirdFour(v: nat)
    requires 8 <= v < 12
    ensures CharOf(v as bv8) as int == CHARSET[v] as int
  {
  }

  lemma FourthFour(v: nat)
    requires 12 <= v < 16
    ensures CharOf(v as bv8) as int == CHARSET[v] as int
  {
  }

  lemma FifthFour(v: nat)
    requires 16 <= v < 20
    ensures CharOf(v as bv8) as int == CHARSET[v] as int
  {
  }

  lemma SixthFour(v: nat)
    requires 20 <= v < 24
    ensures CharOf(v as bv8) as int == CHARSET[v] as int
  {
  }

  lemma SeventhFour(v: nat)
    requires 24 <= v < 28
    ensures CharOf(v as bv8) as int == CHARSET[v] as int
  {
  }

  lemma LastFour(v: nat)
    requires 28 <= v < 32
    ensures CharOf(v as bv8) as int == CHARSET[v] as int
  {
  }

  /** The characters of the symbols, in the order of BIP 173. */
  lemma CharsetIs(v: nat)
    requires v < 32
    ensures CharOf(v as bv8) as int == CHARSET[v] as int
  {
    hide *;
    if v < 4 {
      FirstFour(v);
    } else if v < 8 {
      SecondFour(v);
    } else if v < 12 {
      ThirdFour(v);
    } else if v < 16 {
      FourthFour(v);
    } else if v < 20 {
      FifthFour(v);
    } else if v < 24 {
      SixthFour(v);
    } else if v < 28 {
      SeventhFour(v);
    } else {
      LastFour(v);
    }
  }

  /** The human-readable part as symbols: three high bits of every byte, a zero, and five low bits of every byte. */
  lemma ExpandedIs(hrp: seq<bv8>, i: nat)
    requires i < |hrp|
    ensures
      var e, n := ExpandHRP(hrp), |hrp|;
      && |e| == 2 * n + 1 && e[n] == 0 && e[i] < 8 && e[n + 1 + i] < 32
      && (e[i] << 5) | e[n + 1 + i] == hrp[i]
  {
    hide HighBits, LowBits;
    BitsJoin(hrp[i]);
  }

  lemma BitsJoin(c: bv8)
    ensures HighBits(c) < 8 && LowBits(c) < 32 && (HighBits(c) << 5) | LowBits(c) == c
  {
  }

  // ----- one case or the other -----

  lemma FoldChar(c: bv8)
    ensures LowerCase(c) == if 65 <= c <= 90 then c + 32 else c
    ensures Printable(LowerCase(c)) == Printable(c) && !Upper(LowerCase(c)) && LowerCase(LowerCase(c)) == LowerCase(c)
    ensures LowerCase(c) == SEPARATOR <==> c == SEPARATOR
    ensures SymbolOf(LowerCase(c)) == SymbolOf(c)
  {
    hide LowerSymbol;
  }

  lemma FoldString(s: seq<bv8>)
    ensures AllPrintable(LowerAll(s)) == AllPrintable(s) && !AnyUpper(LowerAll(s))
    ensures LowerAll(LowerAll(s)) == LowerAll(s) && Syms(LowerAll(s)) == Syms(s)
    ensures LastIndex(LowerAll(s), SEPARATOR) == LastIndex(s, SEPARATOR)
  {
    hide LowerCase, Printable, Upper, SymbolOf, LastIndex;
    forall i | 0 <= i < |s|
      ensures
        var c := s[i];
        && Printable(LowerCase(c)) == Printable(c) && !Upper(LowerCase(c)) && LowerCase(LowerCase(c)) == LowerCase(c)
        && (LowerCase(c) == SEPARATOR <==> c == SEPARATOR) && SymbolOf(LowerCase(c)) == SymbolOf(c)
    {
      FoldChar(s[i]);
    }
    FoldPrintable(s, LowerAll(s));
    SameLastIndex(s, LowerAll(s), SEPARATOR);
  }

  lemma FoldPrintable(s: seq<bv8>, t: seq<bv8>)
    requires |s| == |t| && forall i | 0 <= i < |s| :: Printable(t[i]) == Printable(s[i])
    ensures AllPrintable(t) == AllPrintable(s)
  {
    hide Printable;
    if AllPrintable(t) {
      forall i | 0 <= i < |s| ensures Printable(s[i]) {
        assert Printable(t[i]);
      }
    }
  }

  lemma SameLastIndex(s: seq<bv8>, t: seq<bv8>, x: bv8)
    requires |s| == |t| && forall i | 0 <= i < |s| :: s[i] == x <==> t[i] == x
    ensures LastIndex(s, x) == LastIndex(t, x)
  {
    hide LastIndex;
    var p, q := LastIndex(s, x), LastIndex(t, x);
    assert p >= 0 ==> t[p] == x;
    assert q >= 0 ==> s[q] == x;
  }

  lemma FoldSlices(s: seq<bv8>, p: nat)
    requires p < |s|
    ensures LowerAll(s)[..p] == LowerAll(s[..p]) && LowerAll(s)[p + 1..] == LowerAll(s[p + 1..])
  {
    hide LowerCase;
  }

  /** Upper-case strings are read as their lower-case form. */
  lemma CaseIsFolded(s: seq<bv8>)
    requires !AnyLower(s) || !AnyUpper(s)
    ensures Decode(s) == Decode(LowerAll(s))
  {
    hide LowerAll, Syms, LastIndex, AllPrintable, AnyLower, AnyUpper, NoneMissing, VerifyChecksum;
    FoldString(s);
    var pos := LastIndex(s, SEPARATOR);
    if pos >= 0 {
      FoldSlices(s, pos);
      FoldString(s[..pos]);
      FoldString(s[pos + 1..]);
    }
  }

  // ----- what is accepted -----

  /** The string has both a lower-case and an upper-case letter. */
  predicate MixedCase(s: seq<bv8>) {
    (exists i | 0 <= i < |s| :: 97 <= s[i] <= 122) && (exists i | 0 <= i < |s| :: 65 <= s[i] <= 90)
  }

  /** `t` is the string with every upper-case letter replaced by its lower-case form. */
  predicate Folded(s: seq<bv8>, t: seq<bv8>) {
    |t| == |s| && forall i | 0 <= i < |s| :: t[i] == if 65 <= s[i] <= 90 then s[i] + 32 else s[i]
  }

  /** Visible ASCII, at least one character, none of them upper-case letters. */
  predicate PlainHrp(hrp: seq<bv8>) {
    hrp != [] && forall i | 0 <= i < |hrp| :: 33 <= hrp[i] <= 126 && !(65 <= hrp[i] <= 90)
  }

  lemma PlainIsValid(hrp: seq<bv8>)
    ensures PlainHrp(hrp) <==> ValidHrp(hrp)
  {
    if ValidHrp(hrp) {
      forall i | 0 <= i < |hrp| ensures 33 <= hrp[i] <= 126 && !(65 <= hrp[i] <= 90) {
        assert Printable(hrp[i]) && !Upper(hrp[i]);
      }
    }
  }

  lemma FoldedIsLower(s: seq<bv8>)
    ensures Folded(s, LowerAll(s)) && forall t | Folded(s, t) :: t == LowerAll(s)
  {
    hide LowerCase;
    forall i | 0 <= i < |s| ensures LowerAll(s)[i] == if 65 <= s[i] <= 90 then s[i] + 32 else s[i] {
      FoldChar(s[i]);
    }
  }

  lemma MixedIs(s: seq<bv8>)
    ensures MixedCase(s) <==> AnyLower(s) && AnyUpper(s)
  {
    if MixedCase(s) {
      var i, j :| 0 <= i < |s| && 97 <= s[i] <= 122 && 0 <= j < |s| && 65 <= s[j] <= 90;
      assert Lower(s[i]) && Upper(s[j]);
    }
  }

  lemma AcceptedParts(s: seq<bv8>)
    requires Decode(s) != REJECTED
    ensures ValidHrp(Decode(s).0) && Symbols(Decode(s).1) && |s| <= 1023 && !(AnyLower(s) && AnyUpper(s))
  {
    hide Syms, AnyLower, NoneMissing, VerifyChecksum, LowerAll, AllPrintable, AnyUpper, Symbols;
    var pos := LastIndex(s, SEPARATOR);
    var values := Syms(s[pos + 1..]);
    var n := |values| - 6;
    CharsOfSyms(s[pos + 1..]);
    assert values == values[..n] + values[n..];
    SymbolsSplit(values[..n], values[n..]);
    FoldString(s[..pos]);
    PrintablePrefix(s, pos);
  }

  lemma PrintablePrefix(s: seq<bv8>, p: nat)
    requires AllPrintable(s) && p <= |s|
    ensures AllPrintable(s[..p])
  {
    hide Printable;
  }

  /**
   Exactly what is accepted, and as what: the string, not in mixed case and of at most 1023 characters, is the
   encoding of a human-readable part in visible ASCII and a list of symbols, up to its case.
   */
  lemma DecodesIff(s: seq<bv8>, hrp: seq<bv8>, values: seq<bv8>)
    requires hrp != []
    ensures Decode(s) == (hrp, values)
            <==> && |s| <= 1023 && !MixedCase(s) && PlainHrp(hrp) && Symbols(values)
                 && Folded(s, Encode(hrp, values))
  {
    hide *;
    FoldedIsLower(s);
    MixedIs(s);
    PlainIsValid(hrp);
    FoldedLength(s, Encode(hrp, values));
    if Decode(s) == (hrp, values) {
      NotRejected(s, hrp, values);
      AcceptedParts(s);
      EncodeDecode(s);
    }
    if |s| <= 1023 && !MixedCase(s) && PlainHrp(hrp) && Symbols(values) && Folded(s, Encode(hrp, values)) {
      EncodedLength(hrp, values);
      DecodeWhole(hrp, values);
      CaseIsFolded(s);
    }
  }

  lemma FoldedLength(s: seq<bv8>, t: seq<bv8>)
    ensures Folded(s, t) ==> |t| == |s|
  {
  }

  lemma NotRejected(s: seq<bv8>, hrp: seq<bv8>, values: seq<bv8>)
    requires hrp != [] && Decode(s) == (hrp, values)
    ensures Decode(s) != REJECTED
  {
  }

  lemma EncodedLength(hrp: seq<bv8>, values: seq<bv8>)
    requires Symbols(values)
    ensures |Encode(hrp, values)| == |hrp| + 1 + |values| + 6
  {
    hide Checksum, ExpandHRP;
    ChecksumSymbols(ExpandHRP(hrp) + values);
  }

  lemma DecodeWhole(hrp: seq<bv8>, values: seq<bv8>)
    requires ValidHrp(hrp) && Symbols(values) && |hrp| + 1 + |values| + 6 <= 1023
    ensures Decode(Encode(hrp, values)) == (hrp, values)
  {
    hide Encode, Decode, ValidHrp, Symbols;
    DecodeEncode(hrp, values);
  }

  // ----- errors in the human-readable part -----

  lemma ExpandedDiffers(p: seq<bv8>, q: seq<bv8>, i: nat)
    requires |p| == |q| && i < |p| && p[i] != q[i] && forall j | 0 <= j < |p| && j != i :: p[j] == q[j]
    ensures
      var e, f, n := ExpandHRP(p), ExpandHRP(q), |p|;
      && |e| == |f| == 2 * n + 1 && (e[i] != f[i] || e[n + 1 + i] != f[n + 1 + i])
      && e[i] < 32 && f[i] < 32 && e[n + 1 + i] < 32 && f[n + 1 + i] < 32
      && forall m | 0 <= m < |e| && m != i && m != n + 1 + i :: e[m] == f[m]
  {
    hide HighBits, LowBits;
    BitsJoin(p[i]);
    BitsJoin(q[i]);
  }

  lemma HrpChanged(p: seq<bv8>, q: seq<bv8>, values: seq<bv8>, i: nat)
    requires |p| == |q| <= 1021 && i < |p| && p[i] != q[i] && forall j | 0 <= j < |p| && j != i :: p[j] == q[j]
    requires VerifyChecksum(p, values)
    ensures !VerifyChecksum(q, values)
  {
    hide PolyMod, ExpandHRP, Symbols;
    ExpandedDiffers(p, q, i);
    var v, w, n := ExpandHRP(p) + values, ExpandHRP(q) + values, |p|;
    if v[i] == w[i] {
      OneDetected(v, w, n + 1 + i);
    } else if v[n + 1 + i] == w[n + 1 + i] {
      OneDetected(v, w, i);
    } else {
      Bech32Distance.TwoDetected(v, w, i, n + 1 + i);
    }
  }

  lemma OneDetected(v: seq<bv8>, w: seq<bv8>, i: nat)
    requires |v| == |w| && i < |v| && v[i] != w[i] && v[i] < 32 && w[i] < 32
    requires forall j | 0 <= j < |v| && j != i :: v[j] == w[j]
    ensures PolyMod(v) != PolyMod(w)
  {
    hide PolyMod;
    assert v[i..i + 1] == [v[i]] && w[i..i + 1] == [w[i]];
    BurstDetected(v, w, i, 1);
  }

  /** A string that differs from an accepted one in a single character before the separator is rejected. */
  lemma HrpCharRejected(s: seq<bv8>, t: seq<bv8>, i: nat)
    requires Decode(s) != REJECTED && |t| == |s| && i < LastIndex(s, SEPARATOR) && LowerCase(t[i]) != LowerCase(s[i])
    requires forall j | 0 <= j < |s| && j != i :: t[j] == s[j]
    ensures Decode(t) == REJECTED
  {
    hide Decode, Syms, VerifyChecksum, LastIndex, LowerCase;
    var pos := LastIndex(s, SEPARATOR);
    Accepted(s);
    AcceptedLength(s);
    LastIndexIs(t, SEPARATOR, pos);
    AcceptedRoom(s);
    HrpChanged(LowerAll(s[..pos]), LowerAll(t[..pos]), Syms(s[pos + 1..]), i);
    assert s[pos + 1..] == t[pos + 1..];
    RejectedBy(t);
  }

  lemma AcceptedRoom(s: seq<bv8>)
    requires Decode(s) != REJECTED
    ensures LastIndex(s, SEPARATOR) + 7 <= |s|
  {
    hide AllPrintable, AnyUpper, AnyLower, LowerAll, VerifyChecksum, NoneMissing, Syms, LastIndex;
  }

  // ----- a string from BIP 173 -----

  lemma NextStep(c: bv32, v: seq<bv8>, d: bv32)
    requires v != [] && Step(c, Widen(v[0])) == d
    ensures PolyFrom(c, v) == PolyFrom(d, v[1..])
  {
    hide Step, Widen;
  }

  /** The symbols of "a12uel5l" leave the remainder one. */
  lemma ShortestVerifies()
    ensures VerifyChecksum([97], [10, 28, 25, 31, 20, 31])
  {
    assert ExpandHRP([97]) == [3, 0, 1];
    assert ExpandHRP([97]) + [10, 28, 25, 31, 20, 31] == [3, 0, 1, 10, 28, 25, 31, 20, 31];
    hide PolyFrom;
    NextStep(0x1, [3, 0, 1, 10, 28, 25, 31, 20, 31], 0x23);
    NextStep(0x23, [0, 1, 10, 28, 25, 31, 20, 31], 0x460);
    NextStep(0x460, [1, 10, 28, 25, 31, 20, 31], 0x8c01);
    NextStep(0x8c01, [10, 28, 25, 31, 20, 31], 0x11802a);
    NextStep(0x11802a, [28, 25, 31, 20, 31], 0x230055c);
    NextStep(0x230055c, [25, 31, 20, 31], 0x3d6afc2b);
    NextStep(0x3d6afc2b, [31, 20, 31], 0x2f84386);
    NextStep(0x2f84386, [20, 31], 0x24622766);
    NextStep(0x24622766, [31], 0x1);
    assert PolyFrom(1, []) == 1 by { PolyEmpty(1); }
  }

  lemma ShortestEncoded()
    ensures Encode([97], []) == [97, 49, 50, 117, 101, 108, 53, 108]
  {
    var cs: seq<bv8> := [10, 28, 25, 31, 20, 31];
    hide VerifyChecksum, Checksum, ExpandHRP, CharOf, Chars;
    ShortestVerifies();
    assert [] + cs == cs;
    ValidIffChecksum([97], [], cs);
    ShortestChars();
  }

  /** "A12UEL5L" and "a12uel5l" both stand for the part "a" without data. */
  lemma ShortestString()
    ensures Encode([97], []) == [97, 49, 50, 117, 101, 108, 53, 108]
    ensures Decode([97, 49, 50, 117, 101, 108, 53, 108]) == ([97], [])
    ensures Decode([65, 49, 50, 85, 69, 76, 53, 76]) == ([97], [])
  {
    hide *;
    var s, t: seq<bv8> := [97, 49, 50, 117, 101, 108, 53, 108], [65, 49, 50, 85, 69, 76, 53, 76];
    ShortestEncoded();
    ShortestShape(s, t);
    DecodesIff(s, [97], []);
    DecodesIff(t, [97], []);
  }

  lemma ShortestShape(s: seq<bv8>, t: seq<bv8>)
    requires s == [97, 49, 50, 117, 101, 108, 53, 108] && t == [65, 49, 50, 85, 69, 76, 53, 76]
    ensures !MixedCase(s) && !MixedCase(t) && PlainHrp([97]) && Symbols([]) && Folded(s, s) && Folded(t, s)
  {
  }

  lemma ShortestChars()
    ensures Chars([10, 28, 25, 31, 20, 31]) == [50, 117, 101, 108, 53, 108]
  {
  }
}
