/** The loops of `src/bech32.cpp`, each proved to compute its specification. */
module Bech32 {
  import opened Bech32Checksum
  import opened Bech32Spec

  method PolyModLoop(v: seq<bv8>) returns (c: bv32)
    ensures c == PolyMod(v)
  {
    hide X, Has, Up, Top, Widen, Step, PolyFrom;
    c := 1;
    assert v[..0] == [];
    PolyEmpty(1);
    for i := 0 to |v|
      invariant c == PolyFrom(1, v[..i])
    {
      PolyNext(1, v, i);
      c := OneStep(c, Widen(v[i]));
    }
    assert v[..|v|] == v;
  }

  lemma PolyNext(c: bv32, v: seq<bv8>, i: nat)
    requires i < |v|
    ensures PolyFrom(c, v[..i + 1]) == Step(PolyFrom(c, v[..i]), Widen(v[i]))
  {
    hide Step, Widen;
    assert v[..i + 1] == v[..i] + [v[i]];
    PolyConcat(c, v[..i], [v[i]]);
    assert [v[i]][1..] == [];
  }

  method OneStep(before: bv32, v: bv32) returns (c: bv32)
    ensures c == Step(before, v)
  {
    hide X, Has, Up, Top, Select;
    var c0 := Top(before);
    c := X(Up(before), v);
    ghost var u := c;
    AddInTurn(u, Select(Has(c0, 1), 0x3b6a57b2), Select(Has(c0, 2), 0x26508e6d), Select(Has(c0, 4), 0x1ea119fa),
              Select(Has(c0, 8), 0x3d4233dd), Select(Has(c0, 16), 0x2a1462b3));
    c := AddIf(c, Has(c0, 1), 0x3b6a57b2);
    c := AddIf(c, Has(c0, 2), 0x26508e6d);
    c := AddIf(c, Has(c0, 4), 0x1ea119fa);
    c := AddIf(c, Has(c0, 8), 0x3d4233dd);
    c := AddIf(c, Has(c0, 16), 0x2a1462b3);
  }

  method AddIf(c: bv32, condition: bool, k: bv32) returns (r: bv32)
    ensures r == X(c, Select(condition, k))
  {
    hide X;
    XorLaws(c);
    r := if condition then X(c, k) else c;
  }

  method ExpandHRPLoop(hrp: seq<bv8>) returns (ret: seq<bv8>)
    ensures ret == ExpandHRP(hrp)
  {
    hide HighBits, LowBits;
    var a := new bv8[2 * |hrp| + 1](_ => 0);
    for i := 0 to |hrp|
      invariant forall j | 0 <= j < i :: a[j] == HighBits(hrp[j]) && a[j + |hrp| + 1] == LowBits(hrp[j])
    {
      a[i] := HighBits(hrp[i]);
      a[i + |hrp| + 1] := LowBits(hrp[i]);
    }
    a[|hrp|] := 0;
    ret := a[..];
  }

  // ----- the checksum -----

  function Down(m: bv32, i: nat): bv32
    requires i < 6
  {
    if i == 0 then m >> 25 else if i == 1 then m >> 20 else if i == 2 then m >> 15
    else if i == 3 then m >> 10 else if i == 4 then m >> 5 else m
  }

  function LowSymbolOf(m: bv32): bv8 { (m & 31) as bv8 }

  function Shifted(m: bv32): bv32 { m >> 5 }

  lemma DownShifts(m: bv32)
    ensures Down(m, 5) == m && Down(m, 4) == Shifted(m) && Down(m, 3) == Shifted(Shifted(m))
    ensures Down(m, 2) == Shifted(Shifted(Shifted(m)))
    ensures Down(m, 1) == Shifted(Shifted(Shifted(Shifted(m))))
    ensures Down(m, 0) == Shifted(Shifted(Shifted(Shifted(Shifted(m)))))
  {
    hide Down, Shifted;
    DownNext3(m);
    DownNext2(m);
    DownNext1(m);
    DownNext0(m);
    DownLast(m);
  }

  lemma DownLast(m: bv32)
    ensures Down(m, 5) == m && Down(m, 4) == Shifted(m)
  {
  }

  lemma DownNext3(m: bv32)
    ensures Down(m, 3) == Shifted(Down(m, 4))
  {
  }

  lemma DownNext2(m: bv32)
    ensures Down(m, 2) == Shifted(Down(m, 3))
  {
  }

  lemma DownNext1(m: bv32)
    ensures Down(m, 1) == Shifted(Down(m, 2))
  {
  }

  lemma DownNext0(m: bv32)
    ensures Down(m, 0) == Shifted(Down(m, 1))
  {
  }

  lemma UnpackNext(m: bv32, n: nat)
    requires n > 0
    ensures UnpackTo(m, n) == UnpackTo(Shifted(m), n - 1) + [LowSymbolOf(m)]
  {
  }

  lemma UnpackedAre(m: bv32)
    ensures UnpackTo(m, 6)
            == [LowSymbolOf(Down(m, 0)), LowSymbolOf(Down(m, 1)), LowSymbolOf(Down(m, 2)), LowSymbolOf(Down(m, 3)),
                LowSymbolOf(Down(m, 4)), LowSymbolOf(Down(m, 5))]
  {
    hide Down, LowSymbolOf, Shifted, UnpackTo;
    DownShifts(m);
    var m1 := Shifted(m);
    var m2 := Shifted(m1);
    var m3 := Shifted(m2);
    var m4 := Shifted(m3);
    var m5 := Shifted(m4);
    UnpackNext(m, 6);
    UnpackNext(m1, 5);
    UnpackNext(m2, 4);
    UnpackNext(m3, 3);
    UnpackNext(m4, 2);
    UnpackNext(m5, 1);
    UnpackNone(Shifted(m5));
  }

  lemma UnpackNone(m: bv32)
    ensures UnpackTo(m, 0) == []
  {
  }

  method CreateChecksumLoop(hrp: seq<bv8>, values: seq<bv8>) returns (ret: seq<bv8>)
    ensures ret == CreateChecksum(hrp, values)
  {
    hide X, PolyFrom, UnpackTo, ExpandHRP, Down, LowSymbolOf;
    var enc := ExpandHRPLoop(hrp);
    enc := enc + values;
    enc := enc + Zeros(6);
    var mod := PolyModLoop(enc);
    mod := X(mod, 1);
    UnpackedAre(mod);
    var a := new bv8[6](_ => 0);
    for i := 0 to 6
      invariant forall j | 0 <= j < i :: a[j] == LowSymbolOf(Down(mod, j))
    {
      a[i] := LowSymbolOf(Down(mod, i));
    }
    ret := a[..];
    assert ret == UnpackTo(mod, 6);
  }

  // ----- printing and parsing -----

  method EncodeLoop(hrp: seq<bv8>, values: seq<bv8>) returns (ret: seq<bv8>)
    ensures ret == Encode(hrp, values)
  {
    hide CharOf, CreateChecksum;
    var checksum := CreateChecksumLoop(hrp, values);
    var combined := values + checksum;
    ret := hrp + [SEPARATOR];
    for i := 0 to |combined|
      invariant Symbols(combined[..i]) && ret == hrp + [SEPARATOR] + Chars(combined[..i])
    {
      if combined[i] >= 32 {
        return [];
      }
      assert Chars(combined[..i + 1]) == Chars(combined[..i]) + [CharOf(combined[i])];
      ret := ret + [CharOf(combined[i])];
    }
    assert combined[..|combined|] == combined;
  }

  method Classify(s: seq<bv8>) returns (ok: bool, lower: bool, upper: bool)
    ensures ok == AllPrintable(s)
    ensures ok ==> lower == AnyLower(s) && upper == AnyUpper(s)
  {
    hide Printable, Lower, Upper;
    ok, lower, upper := true, false, false;
    for i := 0 to |s|
      invariant forall j | 0 <= j < i :: Printable(s[j])
      invariant lower <==> exists j | 0 <= j < i :: Lower(s[j])
      invariant upper <==> exists j | 0 <= j < i :: Upper(s[j])
    {
      if !Printable(s[i]) {
        return false, lower, upper;
      }
      if Lower(s[i]) {
        lower := true;
      }
      if Upper(s[i]) {
        upper := true;
      }
    }
  }

  method LastIndexLoop(s: seq<bv8>, x: bv8) returns (p: int)
    ensures p == LastIndex(s, x)
  {
    p := |s| - 1;
    while p >= 0 && s[p] != x
      invariant -1 <= p < |s| && forall j | p < j < |s| :: s[j] != x
    {
      p := p - 1;
    }
  }

  method SymbolsLoop(s: seq<bv8>) returns (ok: bool, values: seq<bv8>)
    ensures ok == NoneMissing(Syms(s))
    ensures ok ==> values == Syms(s)
  {
    hide SymbolOf;
    values := [];
    ok := true;
    for i := 0 to |s|
      invariant values == Syms(s[..i]) && NoneMissing(Syms(s)[..i])
    {
      var rev := SymbolOf(s[i]);
      assert Syms(s)[i] == rev;
      if rev == NO_SYMBOL {
        return false, values;
      }
      assert Syms(s[..i + 1]) == Syms(s[..i]) + [rev];
      values := values + [rev];
    }
    assert s[..|s|] == s && Syms(s)[..|s|] == Syms(s);
  }

  method LowerLoop(s: seq<bv8>) returns (t: seq<bv8>)
    ensures t == LowerAll(s)
  {
    hide LowerCase;
    t := [];
    for i := 0 to |s|
      invariant t == LowerAll(s[..i])
    {
      assert LowerAll(s[..i + 1]) == LowerAll(s[..i]) + [LowerCase(s[i])];
      t := t + [LowerCase(s[i])];
    }
    assert s[..|s|] == s;
  }

  method DecodeLoop(s: seq<bv8>) returns (hrp: seq<bv8>, values: seq<bv8>)
    ensures (hrp, values) == Decode(s)
  {
    hide AllPrintable, AnyLower, AnyUpper, Syms, NoneMissing, LowerAll, PolyFrom, ExpandHRP;
    hrp, values := [], [];
    var ok, lower, upper := Classify(s);
    if !ok || (lower && upper) {
      return;
    }
    var pos := LastIndexLoop(s, SEPARATOR);
    if |s| > MAX_LENGTH || pos < 0 || pos == 0 || pos + 7 > |s| {
      return;
    }
    var known, all := SymbolsLoop(s[pos + 1..]);
    if !known {
      return;
    }
    var low := LowerLoop(s[..pos]);
    var expanded := ExpandHRPLoop(low);
    var mod := PolyModLoop(expanded + all);
    if mod != 1 {
      return;
    }
    hrp, values := low, all[..|all| - 6];
  }
}
