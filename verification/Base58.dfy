/** Base58 text for byte strings: conversion of the radix in a buffer sized beforehand. */
module Base58 {
  import opened Powers
  import opened Radix

  // ---- The buffers are large enough ----

  /** From one comparison of powers to all of them: if x^a <= y^b then x^n <= y^m for every
      n and m with b * n <= a * m. */
  lemma PowersCompare(x: nat, a: nat, y: nat, b: nat, n: nat, m: nat)
    requires x > 0 && y > 0 && a > 0 && Pow(x, a) <= Pow(y, b) && b * n <= a * m
    ensures Pow(x, n) <= Pow(y, m)
  {
    hide Pow;
    PowersRaised(x, a, y, b, n, m, b * n, a * m);
    if Pow(y, m) < Pow(x, n) {
      PowStrictBase(Pow(y, m), Pow(x, n), a);
    }
  }

  lemma PowersRaised(x: nat, a: nat, y: nat, b: nat, n: nat, m: nat, bn: nat, am: nat)
    requires y > 0 && Pow(x, a) <= Pow(y, b) && bn == b * n && am == a * m && bn <= am
    ensures Pow(Pow(x, n), a) <= Pow(Pow(y, m), a)
  {
    hide Pow;
    PowSwap(x, n, a);
    PowMonotoneBase(Pow(x, a), Pow(y, b), n);
    PowPow(y, b, n);
    PowMonotoneExp(y, bn, am);
    PowPow(y, a, m);
    PowSwap(y, a, m);
  }

  lemma PowSwap(x: nat, n: nat, a: nat)
    ensures Pow(Pow(x, n), a) == Pow(Pow(x, a), n)
  {
    hide Pow;
    PowPow(x, n, a);
    PowPow(x, a, n);
    assert n * a == a * n;
  }

  /** 256^8 <= 58^11. */
  lemma EncodeRatio()
    ensures Pow(256, 8) <= Pow(58, 11)
  {
    PowSmall(256);
    PowSmall(58);
    hide Pow;
    PowAdd(256, 4, 4);
    PowAdd(58, 4, 4);
    PowAdd(58, 8, 3);
  }

  lemma PowSmall(b: nat)
    ensures Pow(b, 3) == b * b * b && Pow(b, 4) == (b * b) * (b * b)
  {
    assert Pow(b, 1) == b;
    assert Pow(b, 2) == b * b;
    assert Pow(b, 3) == b * (b * b);
    assert Pow(b, 4) == b * (b * (b * b));
  }

  /** 58^71 <= 256^52. */
  lemma DecodeRatio()
    ensures Pow(58, 71) <= Pow(256, 52)
  {
    hide Pow;
    PowSmall(256);
    PowSmall(58);
    PowSum(58, 4, 11316496, 3, 195112);
    PowSum(58, 4, 11316496, 4, 11316496);
    PowSum(58, 8, 128063081718016, 8, 128063081718016);
    PowSum(58, 16, 16400152899115243850138976256, 16, 16400152899115243850138976256);
    PowSum(58, 32, 268965015114358137726910587140455987105619365599731777536, 32,
           268965015114358137726910587140455987105619365599731777536);
    PowSum(58, 64, 72342179355466901471258927612150153907721848234316445933056526044582001260898145151856420451025374266490194231296,
           7, 2207984167552);
    PowSum(256, 4, 4294967296, 4, 4294967296);
    PowSum(256, 8, 18446744073709551616, 8, 18446744073709551616);
    PowSum(256, 16, 340282366920938463463374607431768211456, 4, 4294967296);
    PowSum(256, 16, 340282366920938463463374607431768211456, 16, 340282366920938463463374607431768211456);
    PowSum(256, 32,
           115792089237316195423570985008687907853269984665640564039457584007913129639936,
           20, 1461501637330902918203684832716283019655932542976);
  }

  lemma PowSum(b: nat, m: nat, v: nat, n: nat, w: nat)
    requires Pow(b, m) == v && Pow(b, n) == w
    ensures Pow(b, m + n) == v * w
  {
    PowAdd(b, m, n);
  }

  function EncodeSize(n: nat): nat {
    n * 138 / 100 + 1
  }

  function DecodeSize(n: nat): nat {
    n * 733 / 1000 + 1
  }

  /** The base 58 buffer holds every number of n bytes. */
  lemma EncodeFits(n: nat)
    ensures Pow(256, n) <= Pow(58, EncodeSize(n))
  {
    EncodeRatio();
    hide Pow;
    PowersCompare(256, 8, 58, 11, n, EncodeSize(n));
  }

  /** The base 256 buffer holds every number of n base 58 digits. */
  lemma DecodeFits(n: nat)
    ensures Pow(58, n) <= Pow(256, DecodeSize(n))
  {
    DecodeRatio();
    hide Pow;
    PowersCompare(58, 71, 256, 52, n, DecodeSize(n));
  }

  // ---- Characters ----

  type Byte = x: nat | x < 256

  datatype Decoded = Bad | Bytes(v: seq<Byte>)

  /** All alphanumeric characters except 0, I, O and l, in ascending order. */
  const ALPHABET: string :=
    "123456789" + "ABCDEFGH" + "JKLMN" + "PQRSTUVWXYZ" + "abcdefghijk" + "mnopqrstuvwxyz"

  lemma LowLetters(i: nat)
    requires i < 21
    ensures |ALPHABET| == 58 && ALPHABET[i] < ALPHABET[i + 1]
  {
  }

  lemma MiddleLetters(i: nat)
    requires 21 <= i < 40
    ensures |ALPHABET| == 58 && ALPHABET[i] < ALPHABET[i + 1]
  {
  }

  lemma HighLetters(i: nat)
    requires 40 <= i < 57
    ensures |ALPHABET| == 58 && ALPHABET[i] < ALPHABET[i + 1]
  {
  }

  lemma FirstLetter()
    ensures |ALPHABET| == 58 && ALPHABET[0] == '1'
  {
  }

  lemma {:induction false} LettersAscend(i: nat, j: nat)
    requires i < j < 58
    ensures |ALPHABET| == 58 && ALPHABET[i] < ALPHABET[j]
    decreases j - i
  {
    hide *;
    if i < 21 {
      LowLetters(i);
    } else if i < 40 {
      MiddleLetters(i);
    } else {
      HighLetters(i);
    }
    if i + 1 < j {
      LettersAscend(i + 1, j);
    }
  }

  /** The value of a letter, or -1: the search of the alphabet. */
  function Strchr(c: char): (r: int)
    ensures -1 <= r < 58
  {
    SearchFrom(c, 0)
  }

  function SearchFrom(c: char, i: nat): (r: int)
    requires i <= 58
    ensures -1 <= r < 58
    decreases 58 - i
  {
    FirstLetter();
    if i == 58 then -1 else if ALPHABET[i] == c then i else SearchFrom(c, i + 1)
  }

  lemma {:induction false} SearchFinds(c: char, i: nat)
    requires i <= 58
    ensures var r := SearchFrom(c, i);
            |ALPHABET| == 58
            && (r == -1 ==> forall k :: i <= k < 58 ==> ALPHABET[k] != c)
            && (r != -1 ==> i <= r && ALPHABET[r] == c)
    decreases 58 - i
  {
    hide *;
    FirstLetter();
    SearchNext(c, i);
    if i < 58 && ALPHABET[i] != c {
      SearchFinds(c, i + 1);
    }
  }

  lemma SearchNext(c: char, i: nat)
    requires i <= 58
    ensures |ALPHABET| == 58
    ensures SearchFrom(c, i) == if i == 58 then -1 else if ALPHABET[i] == c then i else SearchFrom(c, i + 1)
  {
    FirstLetter();
  }

  /** The letter of a digit. */
  function Letter(d: nat): char
    requires d < 58
  {
    FirstLetter();
    ALPHABET[d]
  }

  predicate IsLetter(c: char) {
    Strchr(c) >= 0
  }

  lemma LetterOfDigit(d: nat)
    requires d < 58
    ensures Strchr(Letter(d)) == d
  {
    hide SearchFrom;
    SearchFinds(Letter(d), 0);
    var r := Strchr(Letter(d));
    if 0 <= r < d {
      LettersAscend(r, d);
    } else if d < r {
      LettersAscend(d, r);
    }
  }

  lemma DigitOfLetter(c: char)
    ensures IsLetter(c) ==> Letter(Strchr(c)) == c
  {
    hide SearchFrom;
    SearchFinds(c, 0);
  }

  /** The character of a digit, by the six runs of characters the alphabet consists of. */
  ghost function CharOf(d: nat): int
    requires d < 58
  {
    if d < 9 then '1' as int + d
    else if d < 17 then 'A' as int + (d - 9)
    else if d < 22 then 'J' as int + (d - 17)
    else if d < 33 then 'P' as int + (d - 22)
    else if d < 44 then 'a' as int + (d - 33)
    else 'm' as int + (d - 44)
  }

  lemma LowChars(d: nat)
    requires d < 22
    ensures Letter(d) as int == CharOf(d)
  {
  }

  lemma MiddleChars(d: nat)
    requires 22 <= d < 44
    ensures Letter(d) as int == CharOf(d)
  {
  }

  lemma HighChars(d: nat)
    requires 44 <= d < 58
    ensures Letter(d) as int == CharOf(d)
  {
  }

  lemma LetterIs(d: nat)
    requires d < 58
    ensures Letter(d) as int == CharOf(d)
  {
    hide Letter, CharOf;
    if d < 22 {
      LowChars(d);
    } else if d < 44 {
      MiddleChars(d);
    } else {
      HighChars(d);
    }
  }

  /** The letters are exactly the digits and letters of ASCII except 0, I, O and l. */
  lemma AlphabetExactly(c: char)
    ensures IsLetter(c) <==>
      || '1' <= c <= '9'
      || ('A' <= c <= 'Z' && c != 'I' && c != 'O')
      || ('a' <= c <= 'z' && c != 'l')
  {
    hide Letter, Strchr;
    if IsLetter(c) {
      DigitOfLetter(c);
      LetterIs(Strchr(c));
    }
    var n := c as int;
    if '1' <= c <= '9' {
      LetterFound(c, n - '1' as int);
    } else if 'A' <= c <= 'H' {
      LetterFound(c, n - 'A' as int + 9);
    } else if 'J' <= c <= 'N' {
      LetterFound(c, n - 'J' as int + 17);
    } else if 'P' <= c <= 'Z' {
      LetterFound(c, n - 'P' as int + 22);
    } else if 'a' <= c <= 'k' {
      LetterFound(c, n - 'a' as int + 33);
    } else if 'm' <= c <= 'z' {
      LetterFound(c, n - 'm' as int + 44);
    }
  }

  lemma LetterFound(c: char, d: nat)
    requires d < 58 && c as int == CharOf(d)
    ensures IsLetter(c)
  {
    hide Letter, Strchr;
    LetterIs(d);
    LetterOfDigit(d);
  }

  predicate IsSpace(c: char) {
    c == ' ' || '\t' <= c <= '\r'
  }

  lemma LettersPlain(c: char)
    requires IsLetter(c)
    ensures !IsSpace(c) && c != '\0' && (c == '1' <==> Strchr(c) == 0)
  {
    hide SearchFrom;
    FirstLetter();
    SearchFinds(c, 0);
    var r := Strchr(c);
    if r > 0 {
      LettersAscend(0, r);
    }
  }

  // ---- What the two directions compute ----

  /** The length of the longest prefix with a property. */
  function Run<T>(s: seq<T>, p: T -> bool): (n: nat)
    ensures n <= |s| && (forall i :: 0 <= i < n ==> p(s[i])) && (n < |s| ==> !p(s[n]))
  {
    if s != [] && p(s[0]) then 1 + Run(s[1..], p) else 0
  }

  lemma {:induction false} RunIs<T>(s: seq<T>, p: T -> bool, n: nat)
    requires n <= |s| && (forall i :: 0 <= i < n ==> p(s[i])) && (n < |s| ==> !p(s[n]))
    ensures Run(s, p) == n
  {
    if n > 0 {
      RunIs(s[1..], p, n - 1);
    }
  }

  function Zeros(v: seq<Byte>): nat {
    Run(v, (x: Byte) => x == 0)
  }

  ghost predicate AllLetters(t: string) {
    forall i :: 0 <= i < |t| ==> IsLetter(t[i])
  }

  function Text(ds: seq<nat>): string
    requires Digital(58, ds)
  {
    seq(|ds|, i requires 0 <= i < |ds| => Letter(ds[i]))
  }

  function Values(t: string): (ds: seq<nat>)
    requires AllLetters(t)
    ensures |ds| == |t| && Digital(58, ds)
  {
    seq(|t|, i requires 0 <= i < |t| => Strchr(t[i]))
  }

  /** One 1 for every leading zero byte, then the number in base 58. */
  ghost function Encoded(v: seq<Byte>): string {
    DigitsCanonical(58, Val(256, v));
    seq(Zeros(v), _ => '1') + Text(Digits(58, Val(256, v)))
  }

  /** A C string ends at its first NUL. */
  function CString(s: string): string {
    s[..Run(s, (c: char) => c != '\0')]
  }

  /** The text between the leading and the first following white space. */
  function Start(c: string): nat {
    Run(c, (x: char) => IsSpace(x))
  }

  function End(c: string): (j: nat)
    ensures Start(c) <= j <= |c|
  {
    Start(c) + Run(c[Start(c)..], (x: char) => !IsSpace(x))
  }

  function Token(c: string): string {
    c[Start(c)..End(c)]
  }

  ghost predicate AllSpaces(t: string) {
    forall i :: 0 <= i < |t| ==> IsSpace(t[i])
  }

  /** One zero byte for every leading 1, then the number in base 256. */
  ghost function BytesOf(t: string): seq<Byte>
    requires AllLetters(t)
  {
    var n := Val(58, Values(t));
    DigitsCanonical(256, n);
    BytesFit(Digits(256, n));
    seq(Run(t, (c: char) => c == '1'), _ => 0) + Digits(256, n)
  }

  lemma BytesFit(ds: seq<nat>)
    requires Digital(256, ds)
    ensures forall i :: 0 <= i < |ds| ==> ds[i] < 256
  {
  }

  ghost function DecodedFrom(s: string): Decoded {
    var c := CString(s);
    if AllLetters(Token(c)) && AllSpaces(c[End(c)..]) then Bytes(BytesOf(Token(c))) else Bad
  }

  /** A blank, a tab, or one of the four characters that end a line or page. */
  ghost predicate Blank(c: char) {
    var n := c as int;
    n == 9 || n == 10 || n == 11 || n == 12 || n == 13 || n == 32
  }

  lemma BlankIs(c: char)
    ensures Blank(c) <==> IsSpace(c)
    ensures Blank(c) ==> c != '\0'
  {
  }

  lemma Padded(before: string, t: string, after: string)
    requires AllLetters(t) && forall c :: c in before || c in after ==> Blank(c)
    ensures var s, m, n := before + t + after, |before|, |before| + |t|;
            && (forall i :: 0 <= i < |s| ==> s[i] != '\0')
            && (forall i :: 0 <= i < m ==> IsSpace(s[i]))
            && (forall i :: m <= i < n ==> !IsSpace(s[i]))
            && (forall i :: n <= i < |s| ==> IsSpace(s[i]))
  {
    hide IsLetter, IsSpace, Blank;
    var s, m, n := before + t + after, |before|, |before| + |t|;
    forall i | 0 <= i < |s|
      ensures s[i] != '\0' && (IsSpace(s[i]) <==> !(m <= i < n))
    {
      if i < m {
        assert s[i] == before[i] && before[i] in before;
        BlankIs(s[i]);
      } else if i < n {
        assert s[i] == t[i - m];
        LettersPlain(t[i - m]);
      } else {
        assert s[i] == after[i - n] && after[i - n] in after;
        BlankIs(s[i]);
      }
    }
  }

  /** What follows the first NUL is not part of the text. */
  lemma NulEnds(text: string, rest: string)
    requires '\0' !in text
    ensures DecodedFrom(text + ['\0'] + rest) == DecodedFrom(text)
  {
    hide IsSpace, IsLetter, BytesOf;
    var s := text + ['\0'] + rest;
    RunIs(s, (c: char) => c != '\0', |text|);
    RunIs(text, (c: char) => c != '\0', |text|);
    assert s[..|text|] == text == text[..|text|];
  }

  /** White space around a text of letters does not matter ... */
  lemma PaddingIgnored(before: string, t: string, after: string)
    requires AllLetters(t) && t != []
    requires forall c :: c in before || c in after ==> Blank(c)
    ensures DecodedFrom(before + t + after) == Bytes(BytesOf(t))
  {
    Padded(before, t, after);
    hide IsSpace, IsLetter, BytesOf, Blank;
    var s, m, n := before + t + after, |before|, |before| + |t|;
    RunIs(s, (c: char) => c != '\0', |s|);
    assert s[..|s|] == s;
    RunIs(s, (x: char) => IsSpace(x), m);
    RunIs(s[m..], (x: char) => !IsSpace(x), |t|);
    assert s[m..n] == t;
  }

  /** ... and any character that is neither makes a text bad. */
  lemma OthersRejected(s: string, k: nat)
    requires k < |s| && (forall i :: 0 <= i <= k ==> s[i] != '\0') && !Blank(s[k]) && !IsLetter(s[k])
    ensures DecodedFrom(s) == Bad
  {
    var c := CString(s);
    assert k < |c| && c[k] == s[k];
    assert !IsSpace(c[k]);
    hide IsSpace, IsLetter, BytesOf, CString;
    assert Start(c) <= k;
    if k < End(c) {
      assert Token(c)[k - Start(c)] == c[k];
    } else {
      assert c[End(c)..][k - End(c)] == c[k];
    }
  }

  // ---- Encoding ----

  /** The first nonzero digit, and the digits from there on. */
  method Strip(b: array<nat>, base: nat) returns (it: nat)
    requires base >= 2 && Digital(base, b[..])
    ensures it <= b.Length && b[it..] == Digits(base, Val(base, b[..]))
  {
    it := 0;
    while it != b.Length && b[it] == 0
      invariant it <= b.Length && forall k :: 0 <= k < it ==> b[k] == 0
      decreases b.Length - it
    {
      it := it + 1;
    }
    ValStrip(base, b[..], it);
    assert b[..][it..] == b[it..];
    CanonicalDigits(base, b[it..]);
  }

  /** Base 58 digits of the bytes from a position on; the carry out of the buffer is
      always zero. */
  method ToBase58(v: seq<Byte>, from: nat) returns (b58: array<nat>)
    requires from <= |v|
    ensures fresh(b58) && Digital(58, b58[..]) && Val(58, b58[..]) == Val(256, v[from..])
  {
    hide Val, Pow;
    var size := EncodeSize(|v| - from);
    b58 := new nat[size](_ => 0);
    ZeroBuffer(58, b58[..]);
    var p := from;
    assert v[from..p] == [];
    EmptyValue(256);
    while p != |v|
      invariant from <= p <= |v| && fresh(b58) && b58.Length == size
      invariant Digital(58, b58[..]) && Val(58, b58[..]) == Val(256, v[from..p])
      decreases |v| - p
    {
      var carry := MulAdd(b58, 58, 256, v[p]);
      NextByte(v[from..p], v[p], |v| - from);
      assert v[from..p + 1] == v[from..p] + [v[p]];
      NoCarry(carry, Pow(58, size), Val(58, b58[..]), Val(256, v[from..p + 1]));
      assert carry == 0;
      p := p + 1;
    }
    assert v[from..p] == v[from..];
  }

  lemma ZeroBuffer(base: nat, s: seq<nat>)
    requires forall i :: 0 <= i < |s| ==> s[i] == 0
    ensures Val(base, s) == 0
  {
    ValStrip(base, s, |s|);
  }

  lemma EmptyValue(base: nat)
    ensures Val(base, []) == 0
  {
  }

  /** Reading one more byte multiplies by 256 and stays within the buffer. */
  lemma NextByte(t: seq<Byte>, x: Byte, n: nat)
    requires |t| < n
    ensures Val(256, t + [x]) == Val(256, t) * 256 + x && Val(256, t + [x]) < Pow(58, EncodeSize(n))
  {
    assert (t + [x])[..|t|] == t;
    hide Pow, EncodeSize;
    ValBelow(256, t + [x]);
    PowMonotoneExp(256, |t| + 1, n);
    EncodeFits(n);
  }

  method Encode(v: seq<Byte>) returns (str: string)
    ensures str == Encoded(v)
  {
    hide Val, Letter, Digits;
    var zeroes := 0;
    while zeroes != |v| && v[zeroes] == 0
      invariant zeroes <= |v| && forall k :: 0 <= k < zeroes ==> v[k] == 0
      decreases |v| - zeroes
    {
      zeroes := zeroes + 1;
    }
    RunIs(v, (x: Byte) => x == 0, zeroes);
    ValStrip(256, v, zeroes);
    var b58 := ToBase58(v, zeroes);
    var it := Strip(b58, 58);
    ghost var ds := b58[it..];
    DigitsCanonical(58, Val(256, v));
    str := seq(zeroes, _ => '1');
    ghost var start := it;
    while it != b58.Length
      invariant start <= it <= b58.Length && b58[start..] == ds
      invariant |str| == zeroes + (it - start)
      invariant forall k :: 0 <= k < zeroes ==> str[k] == '1'
      invariant forall k :: 0 <= k < it - start ==> str[zeroes + k] == Letter(ds[k])
      decreases b58.Length - it
    {
      str := str + [Letter(b58[it])];
      it := it + 1;
    }
    assert str == Encoded(v);
  }

  // ---- Decoding ----

  /** Reads letters up to white space or the end into base 256; stops at any other
      character. The carry out of the buffer is always zero. */
  method ToBase256(c: string, from: nat) returns (ok: bool, b256: array<nat>, p: nat)
    requires from <= |c|
    ensures fresh(b256) && Digital(256, b256[..]) && from <= p <= |c|
    ensures AllLetters(c[from..p]) && Val(256, b256[..]) == Val(58, Values(c[from..p]))
    ensures ok ==> p == |c| || IsSpace(c[p])
    ensures !ok ==> p < |c| && !IsSpace(c[p]) && !IsLetter(c[p])
  {
    hide Val, Pow, Strchr, IsSpace;
    var size := DecodeSize(|c| - from);
    b256 := new nat[size](_ => 0);
    ZeroBuffer(256, b256[..]);
    p := from;
    assert c[from..p] == [];
    EmptyValue(58);
    assert Values(c[from..p]) == [];
    while p != |c| && !IsSpace(c[p])
      invariant from <= p <= |c| && fresh(b256) && b256.Length == size
      invariant AllLetters(c[from..p])
      invariant Digital(256, b256[..]) && Val(256, b256[..]) == Val(58, Values(c[from..p]))
      decreases |c| - p
    {
      var ch := Strchr(c[p]);
      if ch == -1 {
        return false, b256, p;
      }
      var carry := MulAdd(b256, 256, 58, ch);
      assert c[from..p + 1] == c[from..p] + [c[p]];
      NextLetter(c[from..p], c[p], |c| - from);
      NoCarry(carry, Pow(256, size), Val(256, b256[..]), Val(58, Values(c[from..p + 1])));
      assert carry == 0;
      p := p + 1;
    }
    ok := true;
  }

  lemma NextLetter(t: string, x: char, n: nat)
    requires |t| < n && AllLetters(t) && IsLetter(x)
    ensures AllLetters(t + [x]) && Val(58, Values(t + [x])) == Val(58, Values(t)) * 58 + Strchr(x)
    ensures Val(58, Values(t + [x])) < Pow(256, DecodeSize(n))
  {
    hide Strchr;
    var ds := Values(t + [x]);
    assert ds[..|t|] == Values(t);
    hide Pow, DecodeSize;
    ValBelow(58, ds);
    PowMonotoneExp(58, |t| + 1, n);
    DecodeFits(n);
  }

  /** Where the token starts and ends, and whether it is made of letters, as the scan
      finds out. */
  lemma Boundaries(c: string, i: nat, q: nat, p: nat, ok: bool)
    requires i <= q <= p <= |c| && (forall k :: 0 <= k < i ==> IsSpace(c[k])) && (i < |c| ==> !IsSpace(c[i]))
    requires (forall k :: i <= k < q ==> c[k] == '1') && AllLetters(c[q..p])
    requires if ok then p == |c| || IsSpace(c[p]) else p < |c| && !IsSpace(c[p]) && !IsLetter(c[p])
    ensures Start(c) == i && AllLetters(c[i..p])
    ensures if ok then End(c) == p else !AllLetters(Token(c))
  {
    hide Strchr, IsSpace, Run, End;
    RunIs(c, (x: char) => IsSpace(x), i);
    LetterOne();
    forall k | i <= k < p
      ensures IsLetter(c[k])
    {
      assert k >= q ==> c[k] == c[q..p][k - q];
    }
    forall k | i <= k < p
      ensures !IsSpace(c[k])
    {
      LettersPlain(c[k]);
    }
    TokenEnds(c, i, p, ok);
  }

  lemma TokenEnds(c: string, i: nat, p: nat, ok: bool)
    requires i <= p <= |c| && Start(c) == i && forall k :: i <= k < p ==> !IsSpace(c[k])
    requires if ok then p == |c| || IsSpace(c[p]) else p < |c| && !IsSpace(c[p]) && !IsLetter(c[p])
    ensures if ok then End(c) == p else !AllLetters(Token(c))
  {
    hide Strchr, IsSpace, Run, Start;
    if ok {
      RunIs(c[i..], (x: char) => !IsSpace(x), p - i);
    } else {
      RunBeyond(c[i..], (x: char) => !IsSpace(x), p - i);
      assert Token(c)[p - i] == c[p];
    }
  }

  lemma RunBeyond<T>(s: seq<T>, p: T -> bool, n: nat)
    requires n < |s| && forall i :: 0 <= i <= n ==> p(s[i])
    ensures Run(s, p) > n
  {
  }

  lemma LetterOne()
    ensures IsLetter('1') && Strchr('1') == 0
  {
    FirstLetter();
    LetterOfDigit(0);
  }

  /** The bytes of a token with the leading 1s set apart. */
  lemma TokenBytes(t: string, z: nat)
    requires AllLetters(t) && z <= |t| && (forall k :: 0 <= k < z ==> t[k] == '1') && (z < |t| ==> t[z] != '1')
    ensures AllLetters(t[z..]) && Digital(256, Digits(256, Val(58, Values(t[z..]))))
    ensures BytesOf(t) == seq(z, _ => 0) + Digits(256, Val(58, Values(t[z..])))
  {
    hide Strchr, Val, Digits;
    RunIs(t, (c: char) => c == '1', z);
    LetterOne();
    ValStrip(58, Values(t), z);
    assert Values(t)[z..] == Values(t[z..]);
    DigitsCanonical(256, Val(58, Values(t)));
  }

  method Decode(s: string) returns (r: Decoded)
    ensures r == DecodedFrom(s)
  {
    hide Val, Strchr, IsSpace, Digits, Start, End, Run;
    var c := CString(s);
    var psz := 0;
    while psz != |c| && IsSpace(c[psz])
      invariant psz <= |c| && forall k :: 0 <= k < psz ==> IsSpace(c[k])
      decreases |c| - psz
    {
      psz := psz + 1;
    }
    ghost var i := psz;
    var zeroes := 0;
    while psz != |c| && c[psz] == '1'
      invariant i <= psz <= |c| && zeroes == psz - i && forall k :: i <= k < psz ==> c[k] == '1'
      decreases |c| - psz
    {
      zeroes := zeroes + 1;
      psz := psz + 1;
    }
    var ok, b256, p := ToBase256(c, psz);
    Boundaries(c, i, psz, p, ok);
    if !ok {
      return Bad;
    }
    ghost var j := p;
    while p != |c| && IsSpace(c[p])
      invariant j <= p <= |c| && forall k :: j <= k < p ==> IsSpace(c[k])
      decreases |c| - p
    {
      p := p + 1;
    }
    if p != |c| {
      assert c[j..][p - j] == c[p];
      return Bad;
    }
    assert AllSpaces(c[j..]);
    var it := Strip(b256, 256);
    assert Token(c)[zeroes..] == c[i + zeroes..j];
    TokenBytes(Token(c), zeroes);
    var vch: seq<Byte> := seq(zeroes, _ => 0);
    var rest := b256[it..];
    BytesFit(rest);
    return Bytes(vch + rest);
  }

  // ---- The two directions undo each other ----

  /** Text made of letters only is its own token. */
  lemma PlainText(t: string)
    requires AllLetters(t)
    ensures CString(t) == t && Token(t) == t && DecodedFrom(t) == Bytes(BytesOf(t))
  {
    hide Strchr, Run, BytesOf;
    forall i | 0 <= i < |t|
      ensures !IsSpace(t[i]) && t[i] != '\0'
    {
      LettersPlain(t[i]);
    }
    RunIs(t, (c: char) => c != '\0', |t|);
    RunIs(t, (x: char) => IsSpace(x), 0);
    assert t[0..] == t;
    RunIs(t, (x: char) => !IsSpace(x), |t|);
  }

  /** Reading the letters of digits gives the digits back. */
  lemma ValuesOfText(ds: seq<nat>)
    requires Digital(58, ds)
    ensures AllLetters(Text(ds)) && Values(Text(ds)) == ds
  {
    hide Strchr, Letter;
    forall i | 0 <= i < |ds|
      ensures Strchr(Letter(ds[i])) == ds[i]
    {
      LetterOfDigit(ds[i]);
    }
  }

  lemma TextOfValues(t: string)
    requires AllLetters(t)
    ensures Text(Values(t)) == t
  {
    hide Strchr, Letter;
    forall i | 0 <= i < |t|
      ensures Letter(Strchr(t[i])) == t[i]
    {
      DigitOfLetter(t[i]);
    }
  }

  /** Every byte string survives encoding and decoding, leading zeros included. */
  lemma DecodeEncode(v: seq<Byte>)
    ensures DecodedFrom(Encoded(v)) == Bytes(v)
  {
    hide Strchr, Letter, Val, Digits, Run, DecodedFrom;
    var z, n := Zeros(v), Val(256, v);
    var ds := Digits(58, n);
    DigitsCanonical(58, n);
    var t := Encoded(v);
    ValuesOfText(ds);
    LetterOne();
    forall i | 0 <= i < |t|
      ensures IsLetter(t[i])
    {
      assert i >= z ==> t[i] == Text(ds)[i - z];
    }
    assert t[z..] == Text(ds);
    if ds != [] {
      LettersPlain(t[z]);
      assert Values(Text(ds))[0] == Strchr(t[z]);
    }
    TokenBytes(t, z);
    ZerosSplit(v);
    PlainText(t);
  }

  /** The bytes after the leading zeros are the digits of the number. */
  lemma ZerosSplit(v: seq<Byte>)
    ensures seq(Zeros(v), _ => 0) + Digits(256, Val(256, v)) == v
  {
    hide Val, Digits, Run;
    var z := Zeros(v);
    ValStrip(256, v, z);
    CanonicalDigits(256, v[z..]);
    assert v[..z] == seq(z, _ => 0);
    assert v == v[..z] + v[z..];
  }

  /** Text that decodes is encoded back to its token, with the white space around it gone. */
  lemma EncodeDecode(s: string)
    requires DecodedFrom(s).Bytes?
    ensures Encoded(DecodedFrom(s).v) == Token(CString(s))
  {
    hide Strchr, Letter, Val, Digits, Run, Start, End;
    EncodeBytes(Token(CString(s)));
  }

  lemma EncodeBytes(t: string)
    requires AllLetters(t)
    ensures Encoded(BytesOf(t)) == t
  {
    hide Strchr, Letter, Val, Digits;
    var z := Run(t, (c: char) => c == '1');
    TokenBytes(t, z);
    var n := Val(58, Values(t[z..]));
    var ds := Digits(256, n);
    DigitsCanonical(256, n);
    var v := BytesOf(t);
    RunIs(v, (x: Byte) => x == 0, z);
    ValStrip(256, v, z);
    assert v[z..] == ds;
    if z < |t| {
      LettersPlain(t[z]);
    }
    CanonicalDigits(58, Values(t[z..]));
    TextOfValues(t[z..]);
    assert t[..z] == seq(z, _ => '1');
    assert t == t[..z] + t[z..];
  }
}
