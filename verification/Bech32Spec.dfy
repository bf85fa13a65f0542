/**
 The Bech32 strings of `src/bech32.cpp`, as byte strings: the parser and the printer are inverse to each other,
 and a string with one data symbol changed is never accepted.
 */
module Bech32Spec {
  import opened Bech32Checksum
  import Bech32Bch
  import Bech32Distance

  // ----- characters -----

  /** The character for a symbol, from "qpzry9x8gf2tvdw0s3jn54khce6mua7l". */
  function CharOf(v: bv8): bv8 {
    if v == 0 then 113 else if v == 1 then 112 else if v == 2 then 122 else if v == 3 then 114 else
    if v == 4 then 121 else if v == 5 then 57 else if v == 6 then 120 else if v == 7 then 56 else
    if v == 8 then 103 else if v == 9 then 102 else if v == 10 then 50 else if v == 11 then 116 else
    if v == 12 then 118 else if v == 13 then 100 else if v == 14 then 119 else if v == 15 then 48 else
    if v == 16 then 115 else if v == 17 then 51 else if v == 18 then 106 else if v == 19 then 110 else
    if v == 20 then 53 else if v == 21 then 52 else if v == 22 then 107 else if v == 23 then 104 else
    if v == 24 then 99 else if v == 25 then 101 else if v == 26 then 54 else if v == 27 then 109 else
    if v == 28 then 117 else if v == 29 then 97 else if v == 30 then 55 else
    108
  }

  const NO_SYMBOL: bv8 := 255

  function LowerSymbol(c: bv8): bv8 {
    if c == 48 then 15 else if c == 50 then 10 else if c == 51 then 17 else if c == 52 then 21 else
    if c == 53 then 20 else if c == 54 then 26 else if c == 55 then 30 else if c == 56 then 7 else
    if c == 57 then 5 else if c == 97 then 29 else if c == 99 then 24 else if c == 100 then 13 else
    if c == 101 then 25 else if c == 102 then 9 else if c == 103 then 8 else if c == 104 then 23 else
    if c == 106 then 18 else if c == 107 then 22 else if c == 108 then 31 else if c == 109 then 27 else
    if c == 110 then 19 else if c == 112 then 1 else if c == 113 then 0 else if c == 114 then 3 else
    if c == 115 then 16 else if c == 116 then 11 else if c == 117 then 28 else if c == 118 then 12 else
    if c == 119 then 14 else if c == 120 then 6 else if c == 121 then 4 else if c == 122 then 2 else
    NO_SYMBOL
  }

  /** The symbol of a character in either case, or `NO_SYMBOL`. */
  function SymbolOf(c: bv8): bv8 { LowerSymbol(LowerCase(c)) }

  const SEPARATOR: bv8 := 49

  predicate Printable(c: bv8) { 33 <= c <= 126 }

  predicate Lower(c: bv8) { 97 <= c <= 122 }

  predicate Upper(c: bv8) { 65 <= c <= 90 }

  function LowerCase(c: bv8): bv8 { if Upper(c) then (c - 65) + 97 else c }

  lemma FirstChars(v: bv8)
    requires 0 <= v < 8
    ensures LowerSymbol(CharOf(v)) == v
  {
  }

  lemma SecondChars(v: bv8)
    requires 8 <= v < 16
    ensures LowerSymbol(CharOf(v)) == v
  {
  }

  lemma ThirdChars(v: bv8)
    requires 16 <= v < 24
    ensures LowerSymbol(CharOf(v)) == v
  {
  }

  lemma LastChars(v: bv8)
    requires 24 <= v < 32
    ensures LowerSymbol(CharOf(v)) == v
  {
  }

  lemma LowerSymbolOfChar(v: bv8)
    requires v < 32
    ensures LowerSymbol(CharOf(v)) == v
  {
    hide LowerSymbol, CharOf;
    if v < 8 {
      FirstChars(v);
    } else if v < 16 {
      SecondChars(v);
    } else if v < 24 {
      ThirdChars(v);
    } else {
      LastChars(v);
    }
  }

  lemma CharIsPlain(v: bv8)
    requires v < 32
    ensures Printable(CharOf(v)) && CharOf(v) != SEPARATOR && !Upper(CharOf(v)) && LowerCase(CharOf(v)) == CharOf(v)
  {
  }

  lemma CharOfSymbol(v: bv8)
    requires v < 32
    ensures SymbolOf(CharOf(v)) == v
    ensures Printable(CharOf(v)) && CharOf(v) != SEPARATOR && !Upper(CharOf(v))
  {
    hide CharOf, LowerSymbol, LowerCase;
    LowerSymbolOfChar(v);
    CharIsPlain(v);
  }

  lemma CharOfLowerSymbol(c: bv8)
    requires LowerSymbol(c) != NO_SYMBOL
    ensures LowerSymbol(c) < 32 && CharOf(LowerSymbol(c)) == c && c != SEPARATOR
  {
    if c < 56 {
    } else if c < 104 {
    } else if c < 113 {
    } else {
    }
  }

  lemma SymbolOfChar(c: bv8)
    requires SymbolOf(c) != NO_SYMBOL
    ensures SymbolOf(c) < 32 && CharOf(SymbolOf(c)) == LowerCase(c) && c != SEPARATOR
  {
    hide CharOf, LowerSymbol;
    CharOfLowerSymbol(LowerCase(c));
  }

  // ----- strings -----

  const MAX_LENGTH: nat := 1023

  function HighBits(c: bv8): bv8 { c >> 5 }

  function LowBits(c: bv8): bv8 { c & 0x1f }

  /** The human-readable part as symbols: its high bits, a zero, its low bits. */
  function ExpandHRP(hrp: seq<bv8>): seq<bv8> {
    seq(|hrp|, i requires 0 <= i < |hrp| => HighBits(hrp[i])) + [0]
        + seq(|hrp|, i requires 0 <= i < |hrp| => LowBits(hrp[i]))
  }

  predicate VerifyChecksum(hrp: seq<bv8>, values: seq<bv8>) { PolyMod(ExpandHRP(hrp) + values) == 1 }

  function CreateChecksum(hrp: seq<bv8>, values: seq<bv8>): seq<bv8> { Checksum(ExpandHRP(hrp) + values) }

  function Chars(v: seq<bv8>): (s: seq<bv8>)
    ensures |s| == |v|
  {
    seq(|v|, i requires 0 <= i < |v| => CharOf(v[i]))
  }

  function Syms(s: seq<bv8>): (v: seq<bv8>)
    ensures |v| == |s|
  {
    seq(|s|, i requires 0 <= i < |s| => SymbolOf(s[i]))
  }

  function LowerAll(s: seq<bv8>): (t: seq<bv8>)
    ensures |t| == |s|
  {
    seq(|s|, i requires 0 <= i < |s| => LowerCase(s[i]))
  }

  function Encode(hrp: seq<bv8>, values: seq<bv8>): seq<bv8> {
    var combined := values + CreateChecksum(hrp, values);
    if !Symbols(combined) then [] else hrp + [SEPARATOR] + Chars(combined)
  }

  predicate AllPrintable(s: seq<bv8>) { forall i | 0 <= i < |s| :: Printable(s[i]) }

  predicate AnyLower(s: seq<bv8>) { exists i | 0 <= i < |s| :: Lower(s[i]) }

  predicate AnyUpper(s: seq<bv8>) { exists i | 0 <= i < |s| :: Upper(s[i]) }

  predicate NoneMissing(v: seq<bv8>) { forall i | 0 <= i < |v| :: v[i] != NO_SYMBOL }

  /** The last index of a byte, or -1. */
  function LastIndex(s: seq<bv8>, x: bv8): (p: int)
    ensures -1 <= p < |s| && (p >= 0 ==> s[p] == x) && forall j | p < j < |s| :: s[j] != x
  {
    if s == [] then -1
    else if s[|s| - 1] == x then |s| - 1
    else LastIndex(s[..|s| - 1], x)
  }

  const REJECTED: (seq<bv8>, seq<bv8>) := ([], [])

  /** The human-readable part and the data, or two empty lists. */
  function Decode(s: seq<bv8>): (seq<bv8>, seq<bv8>) {
    if !AllPrintable(s) || (AnyLower(s) && AnyUpper(s)) then REJECTED
    else
      var pos := LastIndex(s, SEPARATOR);
      if |s| > MAX_LENGTH || pos < 0 || pos == 0 || pos + 7 > |s| then REJECTED
      else
        var values := Syms(s[pos + 1..]);
        if !NoneMissing(values) then REJECTED
        else
          var hrp := LowerAll(s[..pos]);
          if !VerifyChecksum(hrp, values) then REJECTED else (hrp, values[..|values| - 6])
  }

  predicate ValidHrp(hrp: seq<bv8>) { hrp != [] && AllPrintable(hrp) && !AnyUpper(hrp) }

  /** Splitting off the last six symbols: a list is valid exactly when they are the checksum of the rest. */
  lemma ValidIffChecksum(hrp: seq<bv8>, values: seq<bv8>, cs: seq<bv8>)
    requires |cs| == 6 && Symbols(cs)
    ensures VerifyChecksum(hrp, values + cs) <==> cs == CreateChecksum(hrp, values)
  {
    hide PolyMod, Checksum, ExpandHRP;
    ChecksumUnique(ExpandHRP(hrp) + values, cs);
    assert ExpandHRP(hrp) + (values + cs) == (ExpandHRP(hrp) + values) + cs;
  }

  lemma SymsOfChars(v: seq<bv8>)
    requires Symbols(v)
    ensures Syms(Chars(v)) == v && NoneMissing(v) && AllPrintable(Chars(v)) && !AnyUpper(Chars(v))
    ensures forall i | 0 <= i < |v| :: Chars(v)[i] != SEPARATOR
  {
    hide CharOf, SymbolOf, Printable, Upper;
    forall i | 0 <= i < |v|
      ensures SymbolOf(CharOf(v[i])) == v[i] && Printable(CharOf(v[i])) && CharOf(v[i]) != SEPARATOR
          && !Upper(CharOf(v[i]))
    {
      CharOfSymbol(v[i]);
    }
  }

  lemma CharsOfSyms(s: seq<bv8>)
    requires NoneMissing(Syms(s))
    ensures Symbols(Syms(s)) && Chars(Syms(s)) == LowerAll(s)
  {
    hide CharOf, SymbolOf, LowerCase;
    forall i | 0 <= i < |s| ensures SymbolOf(s[i]) < 32 && CharOf(SymbolOf(s[i])) == LowerCase(s[i]) {
      assert Syms(s)[i] == SymbolOf(s[i]);
      SymbolOfChar(s[i]);
    }
  }

  lemma LowerAlready(s: seq<bv8>)
    requires !AnyUpper(s)
    ensures LowerAll(s) == s
  {
  }

  lemma LastIndexIs(s: seq<bv8>, x: bv8, p: nat)
    requires p < |s| && s[p] == x && forall j | p < j < |s| :: s[j] != x
    ensures LastIndex(s, x) == p
  {
  }

  lemma EncodedShape(hrp: seq<bv8>, combined: seq<bv8>)
    requires ValidHrp(hrp) && Symbols(combined)
    ensures
      var s := hrp + [SEPARATOR] + Chars(combined);
      && AllPrintable(s) && !AnyUpper(s) && LastIndex(s, SEPARATOR) == |hrp|
      && s[..|hrp|] == hrp && s[|hrp| + 1..] == Chars(combined) && |s| == |hrp| + 1 + |combined|
  {
    SymsOfChars(combined);
    hide Chars, LastIndex, LowerCase, CharOf;
    var s := hrp + [SEPARATOR] + Chars(combined);
    forall j | |hrp| < j < |s| ensures s[j] != SEPARATOR {
      assert s[j] == Chars(combined)[j - |hrp| - 1];
    }
    LastIndexIs(s, SEPARATOR, |hrp|);
    assert s[|hrp| + 1..] == Chars(combined);
  }

  /** Decoding an encoding gives back both parts. */
  lemma DecodeEncode(hrp: seq<bv8>, values: seq<bv8>)
    requires ValidHrp(hrp) && Symbols(values) && |hrp| + 1 + |values| + 6 <= MAX_LENGTH
    ensures Decode(Encode(hrp, values)) == (hrp, values)
  {
    hide Checksum, ExpandHRP, VerifyChecksum, AllPrintable, AnyUpper, AnyLower, LastIndex, NoneMissing, Chars, Syms;
    hide LowerAll;
    var cs := CreateChecksum(hrp, values);
    ChecksumSymbols(ExpandHRP(hrp) + values);
    var combined := values + cs;
    EncodedShape(hrp, combined);
    SymsOfChars(combined);
    HrpLower(hrp);
    ValidIffChecksum(hrp, values, cs);
    assert combined[..|combined| - 6] == values;
  }

  lemma HrpLower(hrp: seq<bv8>)
    requires ValidHrp(hrp)
    ensures LowerAll(hrp) == hrp
  {
    LowerAlready(hrp);
  }

  /** Encoding what was decoded gives back the string in lower case. */
  lemma EncodeDecode(s: seq<bv8>)
    requires Decode(s) != REJECTED
    ensures Encode(Decode(s).0, Decode(s).1) == LowerAll(s)
  {
    hide Checksum, ExpandHRP, VerifyChecksum, AllPrintable, AnyUpper, AnyLower, NoneMissing, Chars, Syms, LowerAll;
    hide Symbols;
    var pos := LastIndex(s, SEPARATOR);
    var values := Syms(s[pos + 1..]);
    var hrp := LowerAll(s[..pos]);
    var n := |values| - 6;
    var v, cs := values[..n], values[n..];
    CharsOfSyms(s[pos + 1..]);
    assert values == v + cs;
    SymbolsSplit(v, cs);
    ValidIffChecksum(hrp, v, cs);
    LowerSplit(s, pos);
  }

  lemma SymbolsSplit(v: seq<bv8>, w: seq<bv8>)
    requires Symbols(v + w)
    ensures Symbols(v) && Symbols(w)
  {
    forall i | 0 <= i < |v| ensures v[i] < 32 {
      assert v[i] == (v + w)[i];
    }
    forall i | 0 <= i < |w| ensures w[i] < 32 {
      assert w[i] == (v + w)[|v| + i];
    }
  }

  lemma LowerSplit(s: seq<bv8>, p: nat)
    requires p < |s| && s[p] == SEPARATOR
    ensures LowerAll(s) == LowerAll(s[..p]) + [SEPARATOR] + LowerAll(s[p + 1..])
  {
    hide LowerCase;
    SeparatorLower();
  }

  lemma SeparatorLower()
    ensures LowerCase(SEPARATOR) == SEPARATOR
  {
  }

  /**
   A string that differs from an accepted one in up to six consecutive data characters, so that their symbols
   are not all the same, is rejected.
   */
  lemma BurstRejected(s: seq<bv8>, t: seq<bv8>, i: nat, k: nat)
    requires Decode(s) != REJECTED && |t| == |s| && LastIndex(s, SEPARATOR) < i && i + k <= |s| && k <= 6
    requires forall j | 0 <= j < |s| && !(i <= j < i + k) :: t[j] == s[j]
    requires NoneMissing(Syms(t[i..i + k])) && Syms(t[i..i + k]) != Syms(s[i..i + k])
    ensures Decode(t) == REJECTED
  {
    hide Decode, Syms, LowerAll, VerifyChecksum, NoneMissing, Symbols;
    var pos := LastIndex(s, SEPARATOR);
    Accepted(s);
    WindowSymbols(t, i, k);
    SameFrame(s, t, i, k);
    ChangedFails(LowerAll(s[..pos]), Syms(s[pos + 1..]), Syms(t[pos + 1..]), i - pos - 1, k);
    RejectedBy(t);
  }

  lemma Accepted(s: seq<bv8>)
    requires Decode(s) != REJECTED
    ensures var pos := LastIndex(s, SEPARATOR);
            pos >= 0 && VerifyChecksum(LowerAll(s[..pos]), Syms(s[pos + 1..])) && Symbols(Syms(s[pos + 1..]))
  {
    hide SymbolOf, CharOf, LowerCase, Printable, Upper, Lower, AllPrintable, AnyUpper, AnyLower, LowerAll;
    hide VerifyChecksum, NoneMissing, Symbols;
    CharsOfSyms(s[LastIndex(s, SEPARATOR) + 1..]);
  }

  lemma RejectedBy(t: seq<bv8>)
    requires var pos := LastIndex(t, SEPARATOR); pos >= 0 && !VerifyChecksum(LowerAll(t[..pos]), Syms(t[pos + 1..]))
    ensures Decode(t) == REJECTED
  {
    hide SymbolOf, AllPrintable, AnyUpper, AnyLower, LowerAll, VerifyChecksum, NoneMissing, Syms;
  }

  /** A change after the separator that brings in no separator leaves the frame, and all symbols outside it. */
  lemma SameFrame(s: seq<bv8>, t: seq<bv8>, i: nat, k: nat)
    requires |t| == |s| && 0 <= LastIndex(s, SEPARATOR) < i && i + k <= |s|
    requires forall j | 0 <= j < |s| && !(i <= j < i + k) :: t[j] == s[j]
    requires forall j | i <= j < i + k :: t[j] != SEPARATOR
    ensures
      var pos := LastIndex(s, SEPARATOR);
      var vs, vt, at := Syms(s[pos + 1..]), Syms(t[pos + 1..]), i - pos - 1;
      && LastIndex(t, SEPARATOR) == pos && t[..pos] == s[..pos]
      && vs[at..at + k] == Syms(s[i..i + k]) && vt[at..at + k] == Syms(t[i..i + k])
      && forall j | 0 <= j < |vs| && !(at <= j < at + k) :: vs[j] == vt[j]
  {
    hide SymbolOf, Syms, LastIndex;
    var pos := LastIndex(s, SEPARATOR);
    LastIndexIs(t, SEPARATOR, pos);
    SymsSlice(s, pos + 1, i, k);
    SymsSlice(t, pos + 1, i, k);
    var vs, vt, at := Syms(s[pos + 1..]), Syms(t[pos + 1..]), i - pos - 1;
    forall j | 0 <= j < |vs| && !(at <= j < at + k) ensures vs[j] == vt[j] {
      SymsAt(s, pos + 1, j);
      SymsAt(t, pos + 1, j);
      assert s[pos + 1 + j] == t[pos + 1 + j];
    }
  }

  lemma SymsAt(s: seq<bv8>, from: nat, j: nat)
    requires from + j < |s|
    ensures |Syms(s[from..])| == |s| - from && Syms(s[from..])[j] == SymbolOf(s[from + j])
  {
  }

  lemma SymsSlice(s: seq<bv8>, from: nat, i: nat, k: nat)
    requires from <= i && i + k <= |s|
    ensures |Syms(s[from..])| == |s| - from && Syms(s[from..])[i - from..i - from + k] == Syms(s[i..i + k])
  {
  }

  lemma ChangedFails(hrp: seq<bv8>, v: seq<bv8>, w: seq<bv8>, i: nat, k: nat)
    requires VerifyChecksum(hrp, v) && |v| == |w| && i + k <= |v| && k <= 6 && v[i..i + k] != w[i..i + k]
    requires forall j | 0 <= j < |v| && !(i <= j < i + k) :: v[j] == w[j]
    requires Symbols(v) && Symbols(w[i..i + k])
    ensures !VerifyChecksum(hrp, w)
  {
    hide PolyFrom, PolyMod, ExpandHRP;
    var h := ExpandHRP(hrp);
    var all, changed := h + v, h + w;
    var from := |h| + i;
    assert all[from..from + k] == v[i..i + k] && changed[from..from + k] == w[i..i + k];
    SubSymbols(v, i, k);
    BurstDetected(all, changed, from, k);
  }

  lemma SubSymbols(v: seq<bv8>, i: nat, k: nat)
    requires Symbols(v) && i + k <= |v|
    ensures Symbols(v[i..i + k])
  {
  }

  /** Characters that stand for symbols are not separators, and their symbols are small. */
  lemma WindowSymbols(t: seq<bv8>, i: nat, k: nat)
    requires i + k <= |t| && NoneMissing(Syms(t[i..i + k]))
    ensures Symbols(Syms(t[i..i + k])) && forall j | i <= j < i + k :: t[j] != SEPARATOR
  {
    hide SymbolOf, CharOf, LowerCase;
    var w := t[i..i + k];
    forall j | 0 <= j < k ensures SymbolOf(w[j]) < 32 && w[j] != SEPARATOR {
      assert Syms(w)[j] == SymbolOf(w[j]);
      SymbolOfChar(w[j]);
    }
    forall j | i <= j < i + k ensures t[j] != SEPARATOR {
      assert t[j] == w[j - i];
    }
  }

  /** A string that differs from an accepted one in two data characters, anywhere, is rejected. */
  lemma TwoRejected(s: seq<bv8>, t: seq<bv8>, i: nat, j: nat)
    requires Decode(s) != REJECTED && |t| == |s| && LastIndex(s, SEPARATOR) < i < j < |s|
    requires forall m | 0 <= m < |s| && m != i && m != j :: t[m] == s[m]
    requires NoneMissing(Syms([t[i], t[j]])) && SymbolOf(t[i]) != SymbolOf(s[i]) && SymbolOf(t[j]) != SymbolOf(s[j])
    ensures Decode(t) == REJECTED
  {
    hide Decode, Syms, LowerAll, VerifyChecksum, NoneMissing, Symbols, SymbolOf, LastIndex;
    var pos := LastIndex(s, SEPARATOR);
    Accepted(s);
    AcceptedLength(s);
    PairSymbols(t, i, j);
    PairFrame(s, t, i, j);
    PairSyms(s, t, pos + 1, i, j);
    PairFails(LowerAll(s[..pos]), Syms(s[pos + 1..]), Syms(t[pos + 1..]), i - pos - 1, j - pos - 1);
    RejectedBy(t);
  }

  lemma PairFrame(s: seq<bv8>, t: seq<bv8>, i: nat, j: nat)
    requires |t| == |s| && 0 <= LastIndex(s, SEPARATOR) < i < j < |s|
    requires forall m | 0 <= m < |s| && m != i && m != j :: t[m] == s[m]
    requires t[i] != SEPARATOR && t[j] != SEPARATOR
    ensures var pos := LastIndex(s, SEPARATOR); LastIndex(t, SEPARATOR) == pos && t[..pos] == s[..pos]
  {
    hide LastIndex;
    LastIndexIs(t, SEPARATOR, LastIndex(s, SEPARATOR));
  }

  lemma AcceptedLength(s: seq<bv8>)
    requires Decode(s) != REJECTED
    ensures |s| <= 1023
  {
    hide AllPrintable, AnyUpper, AnyLower, LowerAll, VerifyChecksum, NoneMissing, Syms, LastIndex;
  }

  lemma PairSymbols(t: seq<bv8>, i: nat, j: nat)
    requires i < |t| && j < |t| && NoneMissing(Syms([t[i], t[j]]))
    ensures SymbolOf(t[i]) < 32 && SymbolOf(t[j]) < 32 && t[i] != SEPARATOR && t[j] != SEPARATOR
  {
    hide Syms, NoneMissing, Symbols, SymbolOf;
    var w := [t[i], t[j]];
    assert w[0..2] == w;
    WindowSymbols(w, 0, 2);
    SymsAt(w, 0, 0);
    SymsAt(w, 0, 1);
    assert w[0..] == w;
    SymbolsAt(Syms(w), 0);
    SymbolsAt(Syms(w), 1);
    assert w[0] != SEPARATOR && w[1] != SEPARATOR;
  }

  lemma SymbolsAt(v: seq<bv8>, i: nat)
    requires Symbols(v) && i < |v|
    ensures v[i] < 32
  {
  }

  lemma PairSyms(s: seq<bv8>, t: seq<bv8>, from: nat, i: nat, j: nat)
    requires |t| == |s| && from <= i < j < |s|
    requires forall m | 0 <= m < |s| && m != i && m != j :: t[m] == s[m]
    ensures var v, w := Syms(s[from..]), Syms(t[from..]);
            && |v| == |w| == |s| - from
            && v[i - from] == SymbolOf(s[i]) && v[j - from] == SymbolOf(s[j])
            && w[i - from] == SymbolOf(t[i]) && w[j - from] == SymbolOf(t[j])
            && forall m | 0 <= m < |v| && m != i - from && m != j - from :: v[m] == w[m]
  {
    hide SymbolOf;
  }

  lemma PairFails(hrp: seq<bv8>, v: seq<bv8>, w: seq<bv8>, i: nat, j: nat)
    requires VerifyChecksum(hrp, v) && |v| == |w| && i < j < |v| && j - i <= 1022
    requires forall m | 0 <= m < |v| && m != i && m != j :: v[m] == w[m]
    requires v[i] != w[i] && v[j] != w[j] && Symbols(v) && w[i] < 32 && w[j] < 32
    ensures !VerifyChecksum(hrp, w)
  {
    hide PolyFrom, PolyMod, ExpandHRP;
    var h := ExpandHRP(hrp);
    Bech32Distance.TwoDetected(h + v, h + w, |h| + i, |h| + j);
  }

  /** A string that differs from an accepted one in three data characters, anywhere, is rejected. */
  lemma ThreeRejected(s: seq<bv8>, t: seq<bv8>, i: nat, j: nat, l: nat)
    requires Decode(s) != REJECTED && |t| == |s| && LastIndex(s, SEPARATOR) < i < j < l < |s|
    requires forall m | 0 <= m < |s| && m != i && m != j && m != l :: t[m] == s[m]
    requires NoneMissing(Syms([t[i], t[j], t[l]]))
    requires SymbolOf(t[i]) != SymbolOf(s[i]) && SymbolOf(t[j]) != SymbolOf(s[j]) && SymbolOf(t[l]) != SymbolOf(s[l])
    ensures Decode(t) == REJECTED
  {
    hide *;
    Accepted(s);
    AcceptedLength(s);
    var w := [t[i], t[j], t[l]];
    TripleSymbols(w);
    assert SymbolOf(w[0]) < 32 && SymbolOf(w[1]) < 32 && SymbolOf(w[2]) < 32;
    assert w[0] != SEPARATOR && w[1] != SEPARATOR && w[2] != SEPARATOR;
    TripleFrame(s, t, i, j, l);
    TripleBreaks(s, t, LastIndex(s, SEPARATOR), i, j, l);
    RejectedBy(t);
  }

  lemma TripleSymbols(w: seq<bv8>)
    requires |w| == 3 && NoneMissing(Syms(w))
    ensures forall i | 0 <= i < 3 :: SymbolOf(w[i]) < 32 && w[i] != SEPARATOR
  {
    hide Syms, NoneMissing, Symbols, SymbolOf;
    assert w[0..3] == w && w[0..] == w;
    WindowSymbols(w, 0, 3);
    forall i | 0 <= i < 3 ensures SymbolOf(w[i]) < 32 && w[i] != SEPARATOR {
      SymsAt(w, 0, i);
      SymbolsAt(Syms(w), i);
    }
  }

  lemma TripleBreaks(s: seq<bv8>, t: seq<bv8>, pos: nat, i: nat, j: nat, l: nat)
    requires |t| == |s| && pos < i < j < l < |s| <= 1023
    requires forall m | 0 <= m < |s| && m != i && m != j && m != l :: t[m] == s[m]
    requires SymbolOf(t[i]) != SymbolOf(s[i]) && SymbolOf(t[j]) != SymbolOf(s[j]) && SymbolOf(t[l]) != SymbolOf(s[l])
    requires SymbolOf(t[i]) < 32 && SymbolOf(t[j]) < 32 && SymbolOf(t[l]) < 32
    requires VerifyChecksum(LowerAll(s[..pos]), Syms(s[pos + 1..])) && Symbols(Syms(s[pos + 1..]))
    ensures !VerifyChecksum(LowerAll(s[..pos]), Syms(t[pos + 1..]))
  {
    hide *;
    TripleSyms(s, t, pos + 1, i, j, l);
    TripleFails(LowerAll(s[..pos]), Syms(s[pos + 1..]), Syms(t[pos + 1..]), i - pos - 1, j - pos - 1, l - pos - 1);
  }

  lemma TripleFrame(s: seq<bv8>, t: seq<bv8>, i: nat, j: nat, l: nat)
    requires |t| == |s| && 0 <= LastIndex(s, SEPARATOR) < i < j < l < |s|
    requires forall m | 0 <= m < |s| && m != i && m != j && m != l :: t[m] == s[m]
    requires t[i] != SEPARATOR && t[j] != SEPARATOR && t[l] != SEPARATOR
    ensures var pos := LastIndex(s, SEPARATOR); LastIndex(t, SEPARATOR) == pos && t[..pos] == s[..pos]
  {
    hide LastIndex;
    LastIndexIs(t, SEPARATOR, LastIndex(s, SEPARATOR));
  }

  lemma TripleSyms(s: seq<bv8>, t: seq<bv8>, from: nat, i: nat, j: nat, l: nat)
    requires |t| == |s| && from <= i < j < l < |s|
    requires forall m | 0 <= m < |s| && m != i && m != j && m != l :: t[m] == s[m]
    ensures var v, w := Syms(s[from..]), Syms(t[from..]);
            && |v| == |w| == |s| - from
            && v[i - from] == SymbolOf(s[i]) && v[j - from] == SymbolOf(s[j]) && v[l - from] == SymbolOf(s[l])
            && w[i - from] == SymbolOf(t[i]) && w[j - from] == SymbolOf(t[j]) && w[l - from] == SymbolOf(t[l])
            && forall m | 0 <= m < |v| && m != i - from && m != j - from && m != l - from :: v[m] == w[m]
  {
    hide SymbolOf;
  }

  lemma TripleFails(hrp: seq<bv8>, v: seq<bv8>, w: seq<bv8>, i: nat, j: nat, l: nat)
    requires VerifyChecksum(hrp, v) && |v| == |w| && i < j < l < |v| && l - i <= 1022
    requires forall m | 0 <= m < |v| && m != i && m != j && m != l :: v[m] == w[m]
    requires v[i] != w[i] && v[j] != w[j] && v[l] != w[l] && Symbols(v) && w[i] < 32 && w[j] < 32 && w[l] < 32
    ensures !VerifyChecksum(hrp, w)
  {
    hide PolyFrom, PolyMod, ExpandHRP;
    var h := ExpandHRP(hrp);
    Bech32Bch.ThreeDetected(h + v, h + w, |h| + i, |h| + j, |h| + l);
  }
}
