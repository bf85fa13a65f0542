/**
 The digit buffers of `src/base58.cpp`, updated in place.  The buffers are always large enough, so the carry is
 gone at the end of every round, and the results are those of the specification.
 */
module Base58 {
  import opened Powers
  import opened Arithmetic
  import opened Radix
  import opened Options
  import opened Base58Spec

  // ----- the buffer sizes -----

  lemma EncodeRatio()
    ensures Pow(256, 8) <= Pow(58, 11)
  {
    assert Pow(256, 2) == 65536;
    PowAdd(256, 2, 2);
    PowAdd(256, 4, 4);
    assert Pow(58, 2) == 3364;
    PowAdd(58, 2, 2);
    PowAdd(58, 4, 4);
    PowAdd(58, 8, 2);
    PowAdd(58, 10, 1);
    assert Pow(58, 1) == 58;
  }

  lemma SmallPowers()
    ensures Pow(256, 4) == 4294967296 && Pow(58, 1) == 58 && Pow(58, 2) == 3364 && Pow(58, 4) == 11316496
  {
    assert Pow(256, 2) == 65536;
    PowAdd(256, 2, 2);
    assert Pow(58, 2) == 3364;
    PowAdd(58, 2, 2);
  }

  lemma Power256()
    ensures Pow(256, 52)
        == 169230328010303641331690318856389386196071598838855992136870091590247882556495704531248437872567112920983350278405979725889536
  {
    hide Pow;
    SmallPowers();
    PowAdd(256, 4, 4);
    PowAdd(256, 8, 8);
    PowAdd(256, 16, 16);
    PowAdd(256, 32, 16);
    PowAdd(256, 48, 4);
  }

  lemma Power58()
    ensures Pow(58, 71)
        == 159730386663078066345306447337161584696769904898410078913243029577507397293846405390982563136983769384625594118558891106107392
  {
    hide Pow;
    SmallPowers();
    PowAdd(58, 4, 4);
    PowAdd(58, 8, 8);
    PowAdd(58, 16, 16);
    PowAdd(58, 32, 32);
    PowAdd(58, 64, 4);
    PowAdd(58, 68, 2);
    PowAdd(58, 70, 1);
  }

  lemma DecodeRatio()
    ensures Pow(58, 71) <= Pow(256, 52)
  {
    hide Pow;
    Power256();
    Power58();
  }

  /** `n * 138 / 100 + 1` digits of base 58 hold any `n` bytes. */
  lemma EncodeRoom(n: nat)
    ensures Pow(256, n) <= Pow(58, n * 138 / 100 + 1)
  {
    hide Pow;
    EncodeRatio();
    PowersCompare(256, 58, 8, 11, n, n * 138 / 100 + 1);
  }

  /** `n * 733 / 1000 + 1` bytes hold any `n` digits of base 58. */
  lemma DecodeRoom(n: nat)
    ensures Pow(58, n) <= Pow(256, n * 733 / 1000 + 1)
  {
    hide Pow;
    DecodeRatio();
    PowersCompare(58, 256, 71, 52, n, n * 733 / 1000 + 1);
  }

  // ----- multiplying a buffer and adding to it -----

  /** The first `i` digits done: times `m`, plus `ch`, with a carry left over. */
  ghost predicate SoFar(b: nat, r: seq<nat>, r0: seq<nat>, m: nat, ch: nat, i: nat, carry: nat) {
    && |r| == |r0| && i <= |r| && r[i..] == r0[i..] && Digits(b, r)
    && Val(b, r[..i]) + carry * Pow(b, i) == m * Val(b, r0[..i]) + ch
  }

  lemma SoFarStart(b: nat, r: seq<nat>, m: nat, ch: nat)
    requires Digits(b, r)
    ensures SoFar(b, r, r, m, ch, 0, ch)
  {
    assert r[..0] == [];
    assert m * 0 == 0;
  }

  lemma ValTake(b: nat, s: seq<nat>, i: nat)
    requires i < |s|
    ensures Val(b, s[..i + 1]) == Val(b, s[..i]) + s[i] * Pow(b, i)
  {
    assert s[..i + 1] == s[..i] + [s[i]];
    ValPush(b, s[..i], s[i]);
  }

  lemma SoFarStep(b: nat, r: seq<nat>, r0: seq<nat>, m: nat, ch: nat, i: nat, carry: nat)
    requires b > 0 && SoFar(b, r, r0, m, ch, i, carry) && i < |r|
    ensures
      var c := carry + m * r[i];
      c >= 0 && SoFar(b, r[i := c % b], r0, m, ch, i + 1, c / b)
  {
    hide Val, Pow;
    var c := carry + m * r[i];
    MulNonNegative(m, r[i]);
    var r1 := r[i := c % b];
    assert r[i] == r[i..][0] == r0[i..][0] == r0[i];
    assert r1[..i] == r[..i];
    assert r1[i + 1..] == r[i..][1..] == r0[i..][1..] == r0[i + 1..];
    ValTake(b, r1, i);
    ValTake(b, r0, i);
    PowNext(b, i);
    StepArith(b, c, carry, m, r0[i], Val(b, r0[..i]), Pow(b, i));
  }

  lemma StepArith(b: nat, c: nat, carry: nat, m: nat, d: nat, v: nat, p: nat)
    requires b > 0 && c == carry + m * d
    ensures (c % b) * p + (c / b) * (b * p) == carry * p + m * (d * p)
    ensures m * (v + d * p) == m * v + m * (d * p)
  {
    assert c == b * (c / b) + c % b;
    assert (c / b) * (b * p) == (b * (c / b)) * p;
    assert (c % b) * p + (b * (c / b)) * p == c * p;
    assert (m * d) * p == m * (d * p);
  }

  /** All that is left of the buffer is zero, so the number is complete. */
  lemma SoFarValue(b: nat, r: seq<nat>, r0: seq<nat>, m: nat, ch: nat, i: nat, carry: nat)
    requires SoFar(b, r, r0, m, ch, i, carry) && forall j | i <= j < |r0| :: r0[j] == 0
    ensures Val(b, r) == Val(b, r[..i]) && Val(b, r0) == Val(b, r0[..i])
    ensures Val(b, r) + carry * Pow(b, i) == m * Val(b, r0) + ch
  {
    hide Val, Pow;
    CutZeros(b, r0, i);
    forall j | i <= j < |r| ensures r[j] == 0 {
      assert r[j] == r[i..][j - i] == r0[i..][j - i];
    }
    CutZeros(b, r, i);
  }

  lemma CutZeros(b: nat, s: seq<nat>, i: nat)
    requires i <= |s| && forall j | i <= j < |s| :: s[j] == 0
    ensures Val(b, s) == Val(b, s[..i])
  {
    hide Val, Pow;
    assert s == s[..i] + s[i..];
    ValConcat(b, s[..i], s[i..]);
    ValZeros(b, s[i..]);
    assert Pow(b, i) * 0 == 0;
  }

  /** At the end of the buffer nothing can be carried over, because the number fits. */
  lemma NoCarryOut(b: nat, v: nat, carry: nat, size: nat, total: nat)
    requires v + carry * Pow(b, size) == total && total < Pow(b, size)
    ensures carry == 0
  {
    assert Pow(b, size) * carry == carry * Pow(b, size);
    if carry > 0 {
      MulGrows(Pow(b, size), carry);
    }
  }

  /** The count of digits written is the length of the new number. */
  lemma NewLength(b: nat, r: seq<nat>, m: nat, v: nat, ch: nat, length: nat, i: nat)
    requires b > 1 && m > 0 && Digits(b, r) && length <= i <= |r|
    requires Val(b, r) == Val(b, r[..i]) == m * v + ch && IsLength(b, v, length)
    requires i > length ==> r[i - 1] != 0
    requires i == 0 ==> ch == 0
    ensures IsLength(b, m * v + ch, i)
  {
    hide Val, Pow;
    DigitsPrefix(b, r, i);
    ValBound(b, r[..i]);
    if i > 0 {
      PowPositive(b, i - 1);
      if i > length {
        ValTake(b, r, i - 1);
        MulGrows(Pow(b, i - 1), r[i - 1]);
        assert Pow(b, i - 1) * r[i - 1] == r[i - 1] * Pow(b, i - 1);
      } else {
        MulGrows(v, m);
        assert v * m == m * v;
      }
    } else {
      assert m * 0 == 0;
    }
  }

  lemma DigitsPrefix(b: nat, s: seq<nat>, i: nat)
    requires Digits(b, s) && i <= |s|
    ensures Digits(b, s[..i])
  {
  }

  lemma RevUpdate(s: seq<nat>, i: nat, d: nat)
    requires i < |s|
    ensures Rev(s[|s| - 1 - i := d]) == Rev(s)[i := d]
  {
  }

  /** One digit of the buffer, counted from its end. */
  method OneDigit(a: array<nat>, b: nat, m: nat, i: nat, carry: nat, ghost r0: seq<nat>, ghost ch: nat)
          returns (next: nat)
    requires b > 1 && i < a.Length && SoFar(b, Rev(a[..]), r0, m, ch, i, carry)
    modifies a
    ensures SoFar(b, Rev(a[..]), r0, m, ch, i + 1, next)
    ensures |r0| == a.Length && (r0[i] == 0 && carry != 0 ==> next != 0 || Rev(a[..])[i] != 0)
  {
    hide Val, Pow, SoFar, Digits, Rev;
    ghost var r := Rev(a[..]);
    SoFarStep(b, r, r0, m, ch, i, carry);
    SoFarSame(b, r, r0, m, ch, i, carry);
    RevAt(a[..], i);
    var at := a.Length - 1 - i;
    MulNonNegative(m, a[at]);
    var c: nat := carry + m * a[at];
    if r0[i] == 0 {
      assert m * 0 == 0;
    }
    DivModZero(b, c);
    var d: nat := c % b;
    ghost var whole: seq<nat> := a[..];
    RevUpdate(whole, i, d);
    a[at] := d;
    assert a[..] == whole[at := d];
    next := c / b;
  }

  /** One round over the buffer, from its least significant end. */
  method MulAdd(a: array<nat>, b: nat, m: nat, ch: nat, length: nat) returns (newLength: nat)
    requires b > 1 && m > 0 && Digits(b, Rev(a[..])) && IsLength(b, Val(b, Rev(a[..])), length)
    requires m * Val(b, Rev(a[..])) + ch < Pow(b, a.Length)
    modifies a
    ensures Digits(b, Rev(a[..])) && Val(b, Rev(a[..])) == m * old(Val(b, Rev(a[..]))) + ch
    ensures IsLength(b, Val(b, Rev(a[..])), newLength)
  {
    hide Val, Pow, SoFar, IsLength, Digits, Rev;
    ghost var r0 := Rev(a[..]);
    BufferIs(b, r0, length);
    var carry: nat, i: nat := ch, 0;
    SoFarStart(b, r0, m, ch);
    while (carry != 0 || i < length) && i < a.Length
      invariant i <= a.Length && SoFar(b, Rev(a[..]), r0, m, ch, i, carry)
      invariant i > length ==> carry != 0 || Rev(a[..])[i - 1] != 0
      invariant i == 0 ==> carry == ch
      decreases a.Length - i
    {
      carry := OneDigit(a, b, m, i, carry, r0, ch);
      i := i + 1;
    }
    ghost var r := Rev(a[..]);
    SoFarLast(b, r, r0, m, ch, i, carry, length);
    SoFarDigits(b, r, r0, m, ch, i, carry);
    NewLength(b, r, m, Val(b, r0), ch, length, i);
    newLength := i;
  }

  lemma RevAt(s: seq<nat>, i: nat)
    requires i < |s|
    ensures Rev(s)[i] == s[|s| - 1 - i]
  {
  }

  lemma DivModZero(b: nat, c: nat)
    requires b > 1
    ensures c != 0 ==> c % b != 0 || c / b != 0
  {
    assert c == b * (c / b) + c % b;
    assert b * 0 == 0;
  }

  lemma SoFarSame(b: nat, r: seq<nat>, r0: seq<nat>, m: nat, ch: nat, i: nat, carry: nat)
    requires SoFar(b, r, r0, m, ch, i, carry) && i < |r|
    ensures |r| == |r0| && r[i] == r0[i]
  {
    assert r[i] == r[i..][0] == r0[i..][0];
  }

  lemma SoFarDigits(b: nat, r: seq<nat>, r0: seq<nat>, m: nat, ch: nat, i: nat, carry: nat)
    requires SoFar(b, r, r0, m, ch, i, carry)
    ensures Digits(b, r)
  {
  }

  /** When the round ends there is no carry, whichever condition ended it. */
  lemma SoFarLast(b: nat, r: seq<nat>, r0: seq<nat>, m: nat, ch: nat, i: nat, carry: nat, length: nat)
    requires SoFar(b, r, r0, m, ch, i, carry) && length <= |r0|
    requires (carry == 0 && i >= length) || i == |r0|
    requires m * Val(b, r0) + ch < Pow(b, |r0|)
    requires forall j | length <= j < |r0| :: r0[j] == 0
    ensures carry == 0 && i >= length && Val(b, r) == Val(b, r[..i]) == m * Val(b, r0) + ch
  {
    hide Val, Pow;
    SoFarValue(b, r, r0, m, ch, i, carry);
    var value := m * Val(b, r0) + ch;
    if i == |r0| {
      NoCarryOut(b, Val(b, r), carry, |r0|, value);
    }
    assert 0 * Pow(b, i) == 0;
  }

  // ----- encoding -----

  lemma HornerBound(b: nat, s: seq<nat>)
    requires b > 0 && Digits(b, s)
    ensures Horner(b, s) < Pow(b, |s|)
  {
    HornerIsVal(b, s);
    RevDigits(b, s);
    ValBound(b, Rev(s));
  }

  lemma HornerNext(b: nat, s: seq<nat>, k: nat)
    requires k < |s|
    ensures Horner(b, s[..k + 1]) == b * Horner(b, s[..k]) + s[k]
  {
    assert s[..k + 1][..k] == s[..k];
  }

  lemma NextFits(b: nat, s: seq<nat>, k: nat, room: nat)
    requires b > 0 && Digits(b, s) && k < |s| && Pow(b, |s|) <= room
    ensures b * Horner(b, s[..k]) + s[k] < room
  {
    hide Pow;
    HornerNext(b, s, k);
    DigitsPrefix(b, s, k + 1);
    HornerBound(b, s[..k + 1]);
    PowMonotone(b, k + 1, |s|);
  }

  /** The buffer holds `v`. */
  ghost predicate Holds(b: nat, buffer: seq<nat>, v: nat, length: nat) {
    Digits(b, Rev(buffer)) && Val(b, Rev(buffer)) == v && IsLength(b, v, length)
  }

  lemma HoldsZero(b: nat, buffer: seq<nat>)
    requires b > 0 && forall i | 0 <= i < |buffer| :: buffer[i] == 0
    ensures Holds(b, buffer, 0, 0)
  {
    ValZeros(b, Rev(buffer));
  }

  /** The last `length` places of the buffer are the number, most significant digit first. */
  lemma HoldsWritten(b: nat, buffer: seq<nat>, v: nat, length: nat)
    requires b > 1 && Holds(b, buffer, v, length)
    ensures length <= |buffer| && buffer[|buffer| - length..] == Written(b, v)
  {
    hide Val, Digits, IsLength;
    var r := Rev(buffer);
    BufferIs(b, r, length);
    var w := Written(b, v);
    forall i | 0 <= i < length ensures buffer[|buffer| - length + i] == w[i] {
      assert w[i] == r[..length][length - 1 - i] == r[length - 1 - i];
    }
  }

  /** Feed the digits of one base into a buffer of another. */
  method Convert(buffer: array<nat>, b: nat, m: nat, ch: nat, length: nat, ghost s: seq<nat>, ghost k: nat)
          returns (newLength: nat)
    requires b > 1 && m > 0 && Digits(m, s) && k < |s| && ch == s[k] && Pow(m, |s|) <= Pow(b, buffer.Length)
    requires Holds(b, buffer[..], Horner(m, s[..k]), length)
    modifies buffer
    ensures Holds(b, buffer[..], Horner(m, s[..k + 1]), newLength)
  {
    hide Val, Pow, Horner, Digits, IsLength, Rev;
    NextFits(m, s, k, Pow(b, buffer.Length));
    HornerNext(m, s, k);
    newLength := MulAdd(buffer, b, m, ch, length);
  }

  method CountLeading(s: seq<nat>, x: nat) returns (n: nat)
    ensures n == Leading(s, x)
  {
    n := 0;
    while n < |s| && s[n] == x
      invariant n <= |s| && forall i | 0 <= i < n :: s[i] == x
    {
      n := n + 1;
    }
  }

  method EncodeBase58(bytes: seq<nat>) returns (str: string)
    requires Digits(256, bytes)
    ensures str == Encode(bytes)
  {
    hide Val, Pow, Horner, Digits, IsLength, Rev, Written, CharOf, Holds;
    var zeroes := CountLeading(bytes, 0);
    var rest := bytes[zeroes..];
    DigitsSuffix(256, bytes, zeroes);
    EncodeRoom(|rest|);
    var b58 := new nat[|rest| * 138 / 100 + 1](_ => 0);
    HoldsZero(58, b58[..]);
    HornerNone(256, rest);
    var length: nat := 0;
    for k := 0 to |rest|
      invariant Holds(58, b58[..], Horner(256, rest[..k]), length)
    {
      length := Convert(b58, 58, 256, rest[k], length, rest, k);
    }
    assert rest[..|rest|] == rest;
    ghost var v := Horner(256, rest);
    HoldsWritten(58, b58[..], v, length);
    WrittenLaws(58, v);
    ghost var w := Written(58, v);
    var digits := b58[b58.Length - length..];
    // Leading zeroes in the result: there are none.
    var it := CountLeading(digits, 0);
    assert it == 0;
    str := Repeat('1', zeroes);
    WrittenDigits(58, w);
    for j := 0 to length
      invariant str == Repeat('1', zeroes) + ToChars(w[..j])
    {
      WrittenDigit(w, j);
      ToCharsNext(w, j);
      str := str + [CharOf(digits[it + j])];
    }
    assert w[..length] == w;
  }

  lemma HornerNone(b: nat, s: seq<nat>)
    ensures Horner(b, s[..0]) == 0
  {
  }

  lemma WrittenDigits(b: nat, w: seq<nat>)
    requires Digits(b, w)
    ensures forall j | 0 <= j <= |w| :: Digits(b, w[..j])
  {
  }

  lemma WrittenDigit(w: seq<nat>, j: nat)
    requires Digits(58, w) && j < |w|
    ensures w[j] < 58
  {
  }

  lemma ToCharsNext(w: seq<nat>, j: nat)
    requires Digits(58, w) && j < |w|
    ensures Digits(58, w[..j]) && Digits(58, w[..j + 1]) && ToChars(w[..j + 1]) == ToChars(w[..j]) + [CharOf(w[j])]
  {
    hide CharOf;
  }

  // ----- decoding -----

  lemma {:induction false} HornerGrows(b: nat, s: seq<nat>, k: nat)
    requires b > 0 && k <= |s|
    ensures Horner(b, s[..k]) <= Horner(b, s)
    decreases |s| - k
  {
    if k == |s| {
      assert s[..k] == s;
    } else {
      HornerGrows(b, s, k + 1);
      HornerNext(b, s, k);
      MulGrows(Horner(b, s[..k]), b);
      assert Horner(b, s[..k]) * b == b * Horner(b, s[..k]);
    }
  }

  /** The pieces a string falls into: spaces, '1's, a word, and what follows. */
  ghost predicate Pieces(s: string, t: string, ones: nat, rest: string, n: nat) {
    t == s[Spaces(s)..] && ones == Leading(t, '1') && rest == t[ones..] && n == Word(rest)
  }

  lemma DecodePieces(s: string, t: string, ones: nat, rest: string, n: nat, maxLen: int)
    requires Pieces(s, t, ones, rest, n)
    ensures n <= |rest|
    ensures Decode(s, maxLen)
            == if !AllDigits(rest[..n]) || !AllSpaces(rest[n..]) then None else Finish(ones, rest[..n], maxLen)
  {
    hide AllDigits, AllSpaces, Finish;
  }

  /** More '1's than bytes allowed. */
  lemma TooManyOnes(s: string, t: string, ones: nat, rest: string, n: nat, maxLen: int, k: nat)
    requires Pieces(s, t, ones, rest, n) && 0 < k <= ones && k > maxLen
    ensures Decode(s, maxLen) == None
  {
    hide AllDigits, AllSpaces, Pieces, Decode;
    DecodePieces(s, t, ones, rest, n, maxLen);
  }

  /** A number that is too long already only gets longer. */
  lemma TooLong(s: string, t: string, ones: nat, rest: string, n: nat, maxLen: int, k: nat, length: nat)
    requires Pieces(s, t, ones, rest, n) && 0 < k <= n <= |rest|
    requires IsLength(256, Horner(58, ToDigitList(rest[..n])[..k]), length) && ones + length > maxLen
    ensures Decode(s, maxLen) == None
  {
    hide AllDigits, AllSpaces, Pieces, Horner, ToDigitList, IsLength, Decode, Written;
    DecodePieces(s, t, ones, rest, n, maxLen);
    var ds := ToDigitList(rest[..n]);
    HornerGrows(58, ds, k);
    WrittenLaws(256, Horner(58, ds));
    LengthMonotone(256, Horner(58, ds[..k]), Horner(58, ds), length, |Written(256, Horner(58, ds))|);
  }

  method SkipSpaces(s: string) returns (n: nat)
    ensures n == Spaces(s)
  {
    hide IsSpace;
    n := 0;
    while n < |s| && IsSpace(s[n])
      invariant n <= |s| && forall i | 0 <= i < n :: IsSpace(s[i])
    {
      n := n + 1;
    }
  }

  /** The buffer for `rest` is large enough for the word it starts with. */
  lemma WordRoom(word: string, size: nat)
    requires |word| <= size && AllDigits(word)
    ensures Digits(58, ToDigitList(word)) && Pow(58, |word|) <= Pow(256, size * 733 / 1000 + 1)
  {
    hide Pow;
    DigitsAreChars(word);
    DecodeRoom(size);
    PowMonotone(58, |word|, size);
  }

  /** The word is read up to a space, a foreign character, or one byte too many. */
  method ReadWord(rest: string, ones: nat, maxLen: int) returns (ok: bool, k: nat, bytes: seq<nat>)
    ensures ok ==> k == Word(rest) && AllDigits(rest[..k]) && bytes == Written(256, Horner(58, ToDigitList(rest[..k])))
    ensures ok ==> k == 0 || ones + |bytes| <= maxLen
    ensures !ok ==> !AllDigits(rest[..Word(rest)]) ||
                    (0 < k <= Word(rest) && AllDigits(rest[..k])
                     && ones + |Written(256, Horner(58, ToDigitList(rest[..k])))| > maxLen)
  {
    hide Val, Pow, Horner, Digits, IsLength, Rev, Written, Holds, DigitOf, IsSpace;
    var b256 := new nat[|rest| * 733 / 1000 + 1](_ => 0);
    HoldsZero(256, b256[..]);
    HornerNone(58, ToDigitList(rest));
    var length: nat := 0;
    k, ok, bytes := 0, true, [];
    assert ToDigitList(rest[..0]) == ToDigitList(rest)[..0];
    WrittenNothing();
    while k < |rest| && !IsSpace(rest[k])
      invariant k <= |rest| && AllDigits(rest[..k]) && forall i | 0 <= i < k :: !IsSpace(rest[i])
      invariant b256.Length == |rest| * 733 / 1000 + 1
      invariant Holds(256, b256[..], Horner(58, ToDigitList(rest[..k])), length)
      invariant k == 0 || ones + length <= maxLen
    {
      WordReaches(rest, k);
      if DigitOf(rest[k]) >= 58 {
        Foreign(rest, k);
        ok := false;
        return;
      }
      NextWord(rest, k);
      ghost var ds := ToDigitList(rest[..k + 1]);
      WordRoom(rest[..k + 1], |rest|);
      length := Convert(b256, 256, 58, DigitOf(rest[k]), length, ds, k);
      assert ds[..k + 1] == ds;
      k := k + 1;
      HoldsWritten(256, b256[..], Horner(58, ds), length);
      if length + ones > maxLen {
        ok := false;
        return;
      }
    }
    HoldsWritten(256, b256[..], Horner(58, ToDigitList(rest[..k])), length);
    bytes := b256[b256.Length - length..];
    WordIs(rest, k);
  }

  lemma WrittenNothing()
    ensures Written(256, 0) == []
  {
  }

  lemma WordReaches(rest: string, k: nat)
    requires k < |rest| && forall i | 0 <= i <= k :: !IsSpace(rest[i])
    ensures k < Word(rest)
  {
    hide IsSpace;
  }

  lemma Foreign(rest: string, k: nat)
    requires k < Word(rest) && DigitOf(rest[k]) >= 58
    ensures !AllDigits(rest[..Word(rest)])
  {
    assert rest[..Word(rest)][k] == rest[k];
  }

  lemma NextWord(rest: string, k: nat)
    requires k < |rest| && AllDigits(rest[..k]) && DigitOf(rest[k]) < 58
    ensures AllDigits(rest[..k + 1])
    ensures var ds := ToDigitList(rest[..k + 1]); ds[..k] == ToDigitList(rest[..k]) && ds[k] == DigitOf(rest[k])
  {
    hide DigitOf;
    var w := rest[..k + 1];
    forall i | 0 <= i < |w| ensures IsDigitChar(w[i]) {
      if i < k {
        assert rest[..k][i] == rest[i];
      }
    }
  }

  /** Count the '1's, giving up when there are too many. */
  method CountOnes(t: string, maxLen: int) returns (ok: bool, ones: nat)
    ensures ok ==> ones == Leading(t, '1') && (ones == 0 || ones <= maxLen)
    ensures !ok ==> 0 < ones <= Leading(t, '1') && ones > maxLen
  {
    ones, ok := 0, true;
    while ones < |t| && t[ones] == '1'
      invariant ones <= |t| && forall i | 0 <= i < ones :: t[i] == '1'
      invariant ones == 0 || ones <= maxLen
    {
      ones := ones + 1;
      if ones > maxLen {
        return false, ones;
      }
    }
  }

  method DecodeBase58(s: string, maxLen: int) returns (r: Option<seq<nat>>)
    ensures r == Decode(s, maxLen)
  {
    hide Horner, IsLength, Written, IsSpace, AllDigits, ToDigitList, Decode, Pieces, Finish, AllSpaces, Leading;
    hide Word, Spaces;
    var p := SkipSpaces(s);
    var t := s[p..];
    PiecesOf(s);
    var few, ones := CountOnes(t, maxLen);
    if !few {
      ghost var after := t[Leading(t, '1')..];
      TooManyOnes(s, t, Leading(t, '1'), after, Word(after), maxLen, ones);
      return None;
    }
    var rest := t[ones..];
    var ok, n, bytes := ReadWord(rest, ones, maxLen);
    DecodePieces(s, t, ones, rest, Word(rest), maxLen);
    if !ok {
      if AllDigits(rest[..Word(rest)]) {
        TooLongAt(s, t, ones, rest, maxLen, n);
      }
      return None;
    }
    var tail := rest[n..];
    var spaces := SkipSpaces(tail);
    OnlySpaces(tail);
    if spaces < |tail| {
      return None;
    }
    FinishSome(ones, rest[..n], bytes, maxLen);
    r := Some(Repeat(0, ones) + bytes);
  }

  lemma FinishSome(ones: nat, word: string, bytes: seq<nat>, maxLen: int)
    requires bytes == Written(256, Horner(58, ToDigitList(word)))
    requires (ones == 0 || ones <= maxLen) && (word == "" || ones + |bytes| <= maxLen)
    ensures Finish(ones, word, maxLen) == Some(Repeat(0, ones) + bytes)
  {
    hide Written;
    if word == "" {
      assert ToDigitList(word) == [];
      WrittenNothing();
    }
  }

  lemma PiecesOf(s: string)
    ensures
      var t := s[Spaces(s)..];
      var rest := t[Leading(t, '1')..];
      Pieces(s, t, Leading(t, '1'), rest, Word(rest))
  {
  }

  lemma OnlySpaces(s: string)
    ensures AllSpaces(s) <==> Spaces(s) == |s|
  {
    hide IsSpace;
  }

  lemma TooLongAt(s: string, t: string, ones: nat, rest: string, maxLen: int, k: nat)
    requires Pieces(s, t, ones, rest, Word(rest)) && 0 < k <= Word(rest)
    requires ones + |Written(256, Horner(58, ToDigitList(rest[..k])))| > maxLen
    ensures Decode(s, maxLen) == None
  {
    hide Horner, IsLength, Written, Decode, Pieces;
    var n := Word(rest);
    assert ToDigitList(rest[..n])[..k] == ToDigitList(rest[..k]);
    var v := Horner(58, ToDigitList(rest[..k]));
    WrittenLaws(256, v);
    TooLong(s, t, ones, rest, n, maxLen, k, |Written(256, v)|);
  }
}
