/**
 Base58, `src/base58.cpp`: leading zero bytes stand as '1's, the rest is one number written in base 58.  Decoding
 undoes encoding on all byte strings, encoding undoes decoding on all accepted strings without spaces around them.
 */
module Base58Spec {
  import opened Radix
  import opened Options

  // ----- the alphabet: digits and letters in ASCII order, except for "0", "I", "O" and "l" -----

  /** The character of a digit, counted off from the start of its run. */
  function CharOf(d: nat): char
    requires d < 58
  {
    (if d < 9 then '1' as int + d
     else if d < 17 then 'A' as int + (d - 9)
     else if d < 22 then 'J' as int + (d - 17)
     else if d < 33 then 'P' as int + (d - 22)
     else if d < 44 then 'a' as int + (d - 33)
     else 'm' as int + (d - 44)) as char
  }

  /** The digit of a character, or 58 when it is not in the alphabet. */
  function DigitOf(c: char): nat {
    if '1' <= c <= '9' then c as int - '1' as int
    else if 'A' <= c <= 'H' then c as int - 'A' as int + 9
    else if 'J' <= c <= 'N' then c as int - 'J' as int + 17
    else if 'P' <= c <= 'Z' then c as int - 'P' as int + 22
    else if 'a' <= c <= 'k' then c as int - 'a' as int + 33
    else if 'm' <= c <= 'z' then c as int - 'm' as int + 44
    else 58
  }

  predicate IsDigitChar(c: char) { DigitOf(c) < 58 }

  lemma DigitOfChar(d: nat)
    requires d < 58
    ensures DigitOf(CharOf(d)) == d && IsDigitChar(CharOf(d))
  {
  }

  lemma CharOfDigit(c: char)
    requires IsDigitChar(c)
    ensures CharOf(DigitOf(c)) == c
  {
  }

  lemma OneIsZero()
    ensures DigitOf('1') == 0 && CharOf(0) == '1'
  {
  }

  /** The alphabet is the digits and letters of ASCII, but for "0", "I", "O" and "l", in their ASCII order. */
  lemma AlphabetIs(c: char, d: nat, e: nat)
    requires d < e < 58
    ensures IsDigitChar(c) <==> ('0' <= c <= '9' || 'A' <= c <= 'Z' || 'a' <= c <= 'z') && c !in "0IOl"
    ensures CharOf(d) < CharOf(e) && DigitOf(CharOf(d)) == d
  {
  }

  // ----- lists -----

  function Rev<T>(s: seq<T>): (r: seq<T>)
    ensures |r| == |s|
  {
    seq(|s|, i requires 0 <= i < |s| => s[|s| - 1 - i])
  }

  lemma RevRev<T>(s: seq<T>)
    ensures Rev(Rev(s)) == s
  {
  }

  /** The number a list of digits stands for, most significant digit first. */
  function Horner(b: nat, s: seq<nat>): nat {
    if s == [] then 0 else b * Horner(b, s[..|s| - 1]) + s[|s| - 1]
  }

  lemma {:induction false} HornerIsVal(b: nat, s: seq<nat>)
    ensures Horner(b, s) == Val(b, Rev(s))
    decreases |s|
  {
    if s != [] {
      var init, last := s[..|s| - 1], s[|s| - 1];
      HornerIsVal(b, init);
      assert Rev(s) == [last] + Rev(init);
      ConsVal(b, last, Rev(init));
    }
  }

  lemma RevDigits(b: nat, s: seq<nat>)
    requires Digits(b, s)
    ensures Digits(b, Rev(s))
  {
  }

  /** How often a list starts with `x`. */
  function Leading<T(==)>(s: seq<T>, x: T): (n: nat)
    ensures n <= |s| && (forall i | 0 <= i < n :: s[i] == x) && (n < |s| ==> s[n] != x)
  {
    if s == [] || s[0] != x then 0 else 1 + Leading(s[1..], x)
  }

  function Repeat<T>(x: T, n: nat): (s: seq<T>)
    ensures |s| == n && forall i | 0 <= i < n :: s[i] == x
  {
    seq(n, _ => x)
  }

  lemma LeadingIs<T>(x: T, n: nat, rest: seq<T>)
    requires rest != [] ==> rest[0] != x
    ensures Leading(Repeat(x, n) + rest, x) == n && (Repeat(x, n) + rest)[n..] == rest
  {
    var s := Repeat(x, n) + rest;
    assert rest != [] ==> s[n] == rest[0];
  }

  lemma LeadingSplit<T>(s: seq<T>, x: T)
    ensures var n := Leading(s, x); s == Repeat(x, n) + s[n..] && (s[n..] != [] ==> s[n..][0] != x)
  {
  }

  /** The digits of a number, most significant first; rewriting digits in their own base changes nothing. */
  function Written(b: nat, v: nat): seq<nat>
    requires b > 1
  {
    Rev(ToDigits(b, v))
  }

  lemma WrittenLaws(b: nat, v: nat)
    requires b > 1
    ensures Digits(b, Written(b, v)) && Horner(b, Written(b, v)) == v
    ensures v > 0 <==> Written(b, v) != []
    ensures Written(b, v) != [] ==> Written(b, v)[0] != 0
    ensures IsLength(b, v, |Written(b, v)|)
  {
    ToDigitsVal(b, v);
    ToDigitsLength(b, v);
    RevDigits(b, ToDigits(b, v));
    HornerIsVal(b, Written(b, v));
    RevRev(ToDigits(b, v));
    ToDigitsUnfolds(b, v);
  }

  lemma WrittenBack(b: nat, s: seq<nat>)
    requires b > 1 && Digits(b, s) && (s != [] ==> s[0] != 0)
    ensures Written(b, Horner(b, s)) == s
  {
    HornerIsVal(b, s);
    RevDigits(b, s);
    DigitsOfVal(b, Rev(s));
    RevRev(s);
  }

  // ----- encoding and decoding -----

  predicate IsSpace(c: char) { c == ' ' || 9 <= c as int <= 13 }

  function ToChars(ds: seq<nat>): (s: string)
    requires Digits(58, ds)
    ensures |s| == |ds|
  {
    seq(|ds|, i requires 0 <= i < |ds| => CharOf(ds[i]))
  }

  function ToDigitList(s: string): (ds: seq<nat>)
    ensures |ds| == |s|
  {
    seq(|s|, i requires 0 <= i < |s| => DigitOf(s[i]))
  }

  function Encode(bytes: seq<nat>): string {
    var zeroes := Leading(bytes, 0);
    WrittenLaws(58, Horner(256, bytes[zeroes..]));
    Repeat('1', zeroes) + ToChars(Written(58, Horner(256, bytes[zeroes..])))
  }

  predicate AllSpaces(s: string) { forall i | 0 <= i < |s| :: IsSpace(s[i]) }

  predicate AllDigits(s: string) { forall i | 0 <= i < |s| :: IsDigitChar(s[i]) }

  /** How many characters come before a space. */
  function Word(s: string): (n: nat)
    ensures n <= |s| && (forall i | 0 <= i < n :: !IsSpace(s[i])) && (n < |s| ==> IsSpace(s[n]))
  {
    if s == "" || IsSpace(s[0]) then 0 else 1 + Word(s[1..])
  }

  function Spaces(s: string): (n: nat)
    ensures n <= |s| && (forall i | 0 <= i < n :: IsSpace(s[i])) && (n < |s| ==> !IsSpace(s[n]))
  {
    if s == "" || !IsSpace(s[0]) then 0 else 1 + Spaces(s[1..])
  }

  /** The bytes, or nothing: a foreign character, something after the spaces at the end, or too long. */
  function Decode(s: string, maxLen: int): Option<seq<nat>> {
    var t := s[Spaces(s)..];
    var ones := Leading(t, '1');
    var rest := t[ones..];
    var n := Word(rest);
    var word := rest[..n];
    if !AllDigits(word) || !AllSpaces(rest[n..]) then None else Finish(ones, word, maxLen)
  }

  function Finish(ones: nat, word: string, maxLen: int): Option<seq<nat>> {
    var bytes := Written(256, Horner(58, ToDigitList(word)));
    if (ones > 0 || word != "") && ones + |bytes| > maxLen then None
    else Some(Repeat(0, ones) + bytes)
  }

  /** On '1's and a word of the alphabet there is nothing to skip. */
  lemma DecodePlain(ones: nat, word: string, maxLen: int)
    requires AllDigits(word) && (word != "" ==> word[0] != '1') && forall i | 0 <= i < |word| :: !IsSpace(word[i])
    ensures Decode(Repeat('1', ones) + word, maxLen) == Finish(ones, word, maxLen)
  {
    hide AllDigits, Finish;
    var s := Repeat('1', ones) + word;
    EncodedPlain(ones, word);
    hide IsSpace;
    NoSpacesWord(s);
    NoSpacesWord(word);
    assert s[0..] == s;
    LeadingIs('1', ones, word);
    assert word[..|word|] == word && word[|word|..] == "";
  }

  lemma CharsAreDigits(ds: seq<nat>)
    requires Digits(58, ds)
    ensures AllDigits(ToChars(ds)) && ToDigitList(ToChars(ds)) == ds
    ensures forall i | 0 <= i < |ds| :: !IsSpace(ToChars(ds)[i])
    ensures ds != [] && ds[0] != 0 ==> ToChars(ds)[0] != '1'
  {
    hide DigitOf, CharOf;
    forall i | 0 <= i < |ds|
      ensures DigitOf(CharOf(ds[i])) == ds[i] && IsDigitChar(CharOf(ds[i])) && !IsSpace(CharOf(ds[i]))
    {
      DigitOfChar(ds[i]);
      NotSpace(ds[i]);
    }
    OneIsZero();
  }

  lemma NotSpace(d: nat)
    requires d < 58
    ensures !IsSpace(CharOf(d)) && CharOf(d) >= '1'
  {
  }

  lemma DigitsAreChars(s: string)
    requires AllDigits(s)
    ensures Digits(58, ToDigitList(s)) && ToChars(ToDigitList(s)) == s
    ensures s != "" && s[0] != '1' ==> ToDigitList(s)[0] != 0
  {
    hide DigitOf, CharOf;
    forall i | 0 <= i < |s| ensures DigitOf(s[i]) < 58 && CharOf(DigitOf(s[i])) == s[i] {
      DigitBound(s[i]);
      CharOfDigit(s[i]);
    }
    OneIsZero();
  }

  lemma DigitBound(c: char)
    requires IsDigitChar(c)
    ensures DigitOf(c) < 58
  {
  }

  lemma NoSpacesWord(s: string)
    requires forall i | 0 <= i < |s| :: !IsSpace(s[i])
    ensures Word(s) == |s| && Spaces(s) == 0
  {
  }

  /** Decoding an encoding succeeds exactly within the length limit, and gives back every byte. */
  lemma DecodeEncode(bytes: seq<nat>, maxLen: int)
    requires Digits(256, bytes)
    ensures Decode(Encode(bytes), maxLen) == if bytes == [] || |bytes| <= maxLen then Some(bytes) else None
  {
    hide IsSpace, ToChars, ToDigitList, Horner, AllDigits, Written, Digits, Decode;
    var z := Leading(bytes, 0);
    var rest := bytes[z..];
    LeadingSplit(bytes, 0);
    DigitsSuffix(256, bytes, z);
    var v := Horner(256, rest);
    var ds := Written(58, v);
    WrittenLaws(58, v);
    WrittenBack(256, rest);
    CharsAreDigits(ds);
    WrittenLaws(256, v);
    DecodePlain(z, ToChars(ds), maxLen);
  }

  lemma DigitsSuffix(b: nat, s: seq<nat>, k: nat)
    requires Digits(b, s) && k <= |s|
    ensures Digits(b, s[k..])
  {
  }

  lemma EncodedPlain(z: nat, s: string)
    requires forall i | 0 <= i < |s| :: !IsSpace(s[i])
    ensures forall i | 0 <= i < z + |s| :: !IsSpace((Repeat('1', z) + s)[i])
  {
  }

  /** Encoding what was decoded gives the string back, when there are no spaces around it. */
  lemma EncodeDecode(s: string, maxLen: int)
    requires Decode(s, maxLen).Some?
    requires s != "" ==> !IsSpace(s[0]) && !IsSpace(s[|s| - 1])
    ensures Encode(Decode(s, maxLen).value) == s && Digits(256, Decode(s, maxLen).value)
  {
    hide IsSpace, ToChars, ToDigitList, Horner, AllDigits, Written, Digits;
    assert s[0..] == s;
    var ones := Leading(s, '1');
    var rest := s[ones..];
    LeadingSplit(s, '1');
    NoTail(rest, s);
    assert rest[..|rest|] == rest;
    DigitsAreChars(rest);
    var ds := ToDigitList(rest);
    var w := Horner(58, ds);
    var bytes := Written(256, w);
    WrittenLaws(256, w);
    WrittenBack(58, ds);
    LeadingIs(0, ones, bytes);
    RepeatDigits(ones, bytes);
  }

  lemma NoTail(rest: string, s: string)
    requires AllSpaces(rest[Word(rest)..])
        && (rest != "" ==> s != "" && !IsSpace(s[|s| - 1]) && rest[|rest| - 1] == s[|s| - 1])
    ensures Word(rest) == |rest|
  {
  }

  lemma RepeatDigits(n: nat, bytes: seq<nat>)
    requires Digits(256, bytes)
    ensures Digits(256, Repeat(0, n) + bytes)
  {
  }

  // ----- spaces -----

  lemma {:induction false} SpacesSkipped(a: string, w: string)
    requires AllSpaces(a)
    ensures Spaces(a + w) == |a| + Spaces(w) && (a + w)[|a| + Spaces(w)..] == w[Spaces(w)..]
  {
    if a == "" {
      assert a + w == w;
    } else {
      SpacesSkipped(a[1..], w);
      assert (a + w)[1..] == a[1..] + w;
      assert IsSpace(a[0]);
    }
  }

  lemma WordBefore(w: string, b: string)
    requires AllSpaces(b)
    ensures Word(w + b) == Word(w) && (w + b)[..Word(w)] == w[..Word(w)]
    ensures (w + b)[Word(w)..] == w[Word(w)..] + b
    ensures AllSpaces((w + b)[Word(w)..]) <==> AllSpaces(w[Word(w)..])
  {
    var n := Word(w);
    var t := w + b;
    WordIs(t, n);
    var rest := w[n..];
    assert t[n..] == rest + b;
    if AllSpaces(rest + b) {
      forall i | 0 <= i < |rest| ensures IsSpace(rest[i]) {
        assert rest[i] == (rest + b)[i];
      }
    }
  }

  lemma WordIs(t: string, n: nat)
    requires n <= |t| && (forall i | 0 <= i < n :: !IsSpace(t[i])) && (n < |t| ==> IsSpace(t[n]))
    ensures Word(t) == n
  {
  }

  lemma OnlyTheRest(s: string, t: string, maxLen: int)
    requires s[Spaces(s)..] == t[Spaces(t)..]
    ensures Decode(s, maxLen) == Decode(t, maxLen)
  {
    hide Finish, AllDigits, AllSpaces, Spaces, Word, Leading;
  }

  lemma TailIgnored(u: string, b: string, maxLen: int)
    requires AllSpaces(b) && u != "" && !IsSpace(u[0])
    ensures Decode(u + b, maxLen) == Decode(u, maxLen)
  {
    hide AllSpaces, AllDigits, Finish, IsSpace, Word, Leading, Spaces;
    SpacesIs(u, 0);
    SpacesIs(u + b, 0);
    assert u[0..] == u && (u + b)[0..] == u + b;
    LeadingOnes(u, b);
    var ones := Leading(u, '1');
    assert (u + b)[ones..] == u[ones..] + b;
    WordBefore(u[ones..], b);
  }

  /** Spaces before and after a string change nothing, whatever the string. */
  lemma SpacesAround(a: string, w: string, b: string, maxLen: int)
    requires AllSpaces(a) && AllSpaces(b)
    ensures Decode(a + w + b, maxLen) == Decode(w, maxLen)
  {
    hide AllSpaces, IsSpace, Decode;
    assert a + w + b == a + (w + b);
    SpacesSkipped(a, w + b);
    OnlyTheRest(a + (w + b), w + b, maxLen);
    var u := w[Spaces(w)..];
    if u == "" {
      AllSpacesThrough(w);
      SpacesJoin(w, b);
      NothingButSpaces(w + b);
      OnlyTheRest(w + b, w, maxLen);
    } else {
      SpacesEnd(w, b);
      SpacesIs(u, 0);
      SpacesIs(u + b, 0);
      assert u[0..] == u && (u + b)[0..] == u + b;
      OnlyTheRest(w + b, u + b, maxLen);
      OnlyTheRest(w, u, maxLen);
      TailIgnored(u, b, maxLen);
    }
  }

  lemma AllSpacesThrough(w: string)
    requires w[Spaces(w)..] == ""
    ensures AllSpaces(w)
  {
  }

  lemma SpacesJoin(w: string, b: string)
    requires AllSpaces(w) && AllSpaces(b)
    ensures AllSpaces(w + b)
  {
  }

  lemma NothingButSpaces(w: string)
    requires AllSpaces(w)
    ensures w[Spaces(w)..] == ""
  {
  }

  lemma SpacesEnd(w: string, b: string)
    requires w[Spaces(w)..] != ""
    ensures Spaces(w + b) == Spaces(w) && (w + b)[Spaces(w)..] == w[Spaces(w)..] + b
  {
    SpacesIs(w + b, Spaces(w));
  }

  lemma SpacesIs(t: string, n: nat)
    requires n < |t| && (forall i | 0 <= i < n :: IsSpace(t[i])) && !IsSpace(t[n])
    ensures Spaces(t) == n
  {
  }

  lemma LeadingOnes(u: string, b: string)
    requires AllSpaces(b)
    ensures Leading(u + b, '1') == Leading(u, '1')
  {
    var n := Leading(u, '1');
    assert n < |u + b| ==> (u + b)[n] != '1' by {
      if n == |u| < |u + b| {
        assert IsSpace(b[0]);
      }
    }
  }

  /**
   Exactly what is accepted, and as what: the encoding of some bytes, no more of them than the limit, with nothing
   around it but blanks, tabs, line feeds, vertical tabs, form feeds and carriage returns.
   */
  lemma DecodesIff(s: string, maxLen: int, bytes: seq<nat>)
    ensures Decode(s, maxLen) == Some(bytes)
            <==> && Digits(256, bytes) && (bytes == [] || |bytes| <= maxLen)
                 && exists i, j | 0 <= i <= j <= |s| :: s[i..j] == Encode(bytes) && Blank(s[..i]) && Blank(s[j..])
  {
    hide Decode, Encode, Digits, IsSpace, AllSpaces, Blank;
    if Decode(s, maxLen) == Some(bytes) {
      var i, j := Trimmed(s, maxLen);
      SameBlank(s[..i]);
      SameBlank(s[j..]);
      assert s == s[..i] + s[i..j] + s[j..];
      SpacesAround(s[..i], s[i..j], s[j..], maxLen);
      EncodeDecode(s[i..j], maxLen);
      DecodeEncode(bytes, maxLen);
    }
    if exists i, j | 0 <= i <= j <= |s| :: s[i..j] == Encode(bytes) && Blank(s[..i]) && Blank(s[j..]) {
      var i, j :| 0 <= i <= j <= |s| && s[i..j] == Encode(bytes) && Blank(s[..i]) && Blank(s[j..]);
      SameBlank(s[..i]);
      SameBlank(s[j..]);
      assert s == s[..i] + s[i..j] + s[j..];
      SpacesAround(s[..i], s[i..j], s[j..], maxLen);
      if Digits(256, bytes) {
        DecodeEncode(bytes, maxLen);
      }
    }
  }

  predicate Blank(s: string) {
    forall c | c in s :: c in " \t\n\r" || c as int == 11 || c as int == 12
  }

  lemma SameBlank(s: string)
    ensures Blank(s) <==> AllSpaces(s)
  {
    forall c: char ensures IsSpace(c) <==> c in " \t\n\r" || c as int == 11 || c as int == 12 {
    }
    if Blank(s) {
      forall i | 0 <= i < |s| ensures IsSpace(s[i]) {
        assert s[i] in s;
      }
    }
  }

  /** Where the word of an accepted string begins and ends. */
  lemma Trimmed(s: string, maxLen: int) returns (i: nat, j: nat)
    requires Decode(s, maxLen).Some?
    ensures i <= j <= |s| && AllSpaces(s[..i]) && AllSpaces(s[j..])
    ensures i < j ==> !IsSpace(s[i]) && !IsSpace(s[j - 1])
  {
    hide IsSpace, Finish, AllDigits;
    i := Spaces(s);
    var t := s[i..];
    var ones := Leading(t, '1');
    var rest := t[ones..];
    j := i + ones + Word(rest);
    assert rest[Word(rest)..] == s[j..];
    assert ones > 0 ==> t[ones - 1] == '1';
    OneIsNoSpace();
    if i < j {
      assert s[j - 1] == if Word(rest) > 0 then rest[Word(rest) - 1] else t[ones - 1];
    }
  }

  lemma OneIsNoSpace()
    ensures !IsSpace('1')
  {
  }
}
