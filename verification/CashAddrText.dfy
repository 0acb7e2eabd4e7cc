/** CashAddr text: a prefix, a colon and one character for every 5-bit value, the last
    eight of which are the checksum. */
module CashAddrText {
  import opened CashAddr

  const INVALID: bv64 := 0xff

  predicate IsLower(c: char) {
    'a' <= c <= 'z'
  }

  predicate IsUpper(c: char) {
    'A' <= c <= 'Z'
  }

  predicate IsDigit(c: char) {
    '0' <= c <= '9'
  }

  function LowerCase(c: char): char {
    if IsUpper(c) then c + 32 as char else c
  }

  function FirstLetters(d: bv64): char {
    if d == 0 then 'q'
    else if d == 1 then 'p'
    else if d == 2 then 'z'
    else if d == 3 then 'r'
    else if d == 4 then 'y'
    else if d == 5 then '9'
    else if d == 6 then 'x'
    else if d == 7 then '8'
    else if d == 8 then 'g'
    else if d == 9 then 'f'
    else if d == 10 then '2'
    else if d == 11 then 't'
    else if d == 12 then 'v'
    else if d == 13 then 'd'
    else if d == 14 then 'w'
    else '0'
  }

  function LastLetters(d: bv64): char {
    if d == 16 then 's'
    else if d == 17 then '3'
    else if d == 18 then 'j'
    else if d == 19 then 'n'
    else if d == 20 then '5'
    else if d == 21 then '4'
    else if d == 22 then 'k'
    else if d == 23 then 'h'
    else if d == 24 then 'c'
    else if d == 25 then 'e'
    else if d == 26 then '6'
    else if d == 27 then 'm'
    else if d == 28 then 'u'
    else if d == 29 then 'a'
    else if d == 30 then '7'
    else 'l'
  }

  /** The character of a value. */
  function Letter(d: bv64): char {
    if d < 16 then FirstLetters(d) else LastLetters(d)
  }

  function LowerRev(c: char): bv64 {
    match c
    case '0' => 15
    case '2' => 10
    case '3' => 17
    case '4' => 21
    case '5' => 20
    case '6' => 26
    case '7' => 30
    case '8' => 7
    case '9' => 5
    case 'a' => 29
    case 'c' => 24
    case 'd' => 13
    case 'e' => 25
    case 'f' => 9
    case 'g' => 8
    case 'h' => 23
    case 'j' => 18
    case 'k' => 22
    case 'l' => 31
    case 'm' => 27
    case 'n' => 19
    case 'p' => 1
    case 'q' => 0
    case 'r' => 3
    case 's' => 16
    case 't' => 11
    case 'u' => 28
    case 'v' => 12
    case 'w' => 14
    case 'x' => 6
    case 'y' => 4
    case 'z' => 2
    case _ => INVALID
  }

  /** The value of a character in either case, if it has one. */
  function Rev(c: char): bv64 {
    LowerRev(LowerCase(c))
  }

  lemma RevOfLetter0(d: bv64)
    requires d < 4
    ensures Rev(Letter(d)) == d && (IsLower(Letter(d)) || IsDigit(Letter(d)))
  {
  }

  lemma RevOfLetter4(d: bv64)
    requires 4 <= d < 8
    ensures Rev(Letter(d)) == d && (IsLower(Letter(d)) || IsDigit(Letter(d)))
  {
  }

  lemma RevOfLetter8(d: bv64)
    requires 8 <= d < 12
    ensures Rev(Letter(d)) == d && (IsLower(Letter(d)) || IsDigit(Letter(d)))
  {
  }

  lemma RevOfLetter12(d: bv64)
    requires 12 <= d < 16
    ensures Rev(Letter(d)) == d && (IsLower(Letter(d)) || IsDigit(Letter(d)))
  {
  }

  lemma RevOfLetter16(d: bv64)
    requires 16 <= d < 20
    ensures Rev(Letter(d)) == d && (IsLower(Letter(d)) || IsDigit(Letter(d)))
  {
  }

  lemma RevOfLetter20(d: bv64)
    requires 20 <= d < 24
    ensures Rev(Letter(d)) == d && (IsLower(Letter(d)) || IsDigit(Letter(d)))
  {
  }

  lemma RevOfLetter24(d: bv64)
    requires 24 <= d < 28
    ensures Rev(Letter(d)) == d && (IsLower(Letter(d)) || IsDigit(Letter(d)))
  {
  }

  lemma RevOfLetter28(d: bv64)
    requires 28 <= d < 32
    ensures Rev(Letter(d)) == d && (IsLower(Letter(d)) || IsDigit(Letter(d)))
  {
  }

  /** The two tables are inverse. */
  lemma RevOfLetter(d: bv64)
    requires d < 32
    ensures Rev(Letter(d)) == d && (IsLower(Letter(d)) || IsDigit(Letter(d)))
  {
    hide Rev, Letter;
    if d < 4 {
      RevOfLetter0(d);
    } else if d < 8 {
      RevOfLetter4(d);
    } else if d < 12 {
      RevOfLetter8(d);
    } else if d < 16 {
      RevOfLetter12(d);
    } else if d < 20 {
      RevOfLetter16(d);
    } else if d < 24 {
      RevOfLetter20(d);
    } else if d < 28 {
      RevOfLetter24(d);
    } else {
      RevOfLetter28(d);
    }
  }

  // ---- What the two directions compute ----

  datatype Outcome =
    | Rejected                                            // the empty pair
    | Accepted(prefix: string, values: seq<bv64>)
    | Underrun                                            // fewer values than a checksum has

  function Letters(values: seq<bv64>): (t: string)
    ensures |t| == |values|
  {
    seq(|values|, i requires 0 <= i < |values| => Letter(values[i]))
  }

  function Encoded(prefix: string, values: seq<bv64>): string {
    prefix + [':'] + Letters(values + Checksum(prefix, values))
  }

  predicate Allowed(c: char) {
    IsLower(c) || IsUpper(c) || IsDigit(c) || c == ':'
  }

  /** Only letters, digits and a separator, which follows at least one letter and letters
      only; and not both cases. */
  ghost predicate WellFormed(str: string) {
    && (forall i :: 0 <= i < |str| ==> Allowed(str[i]))
    && (forall i :: 0 <= i < |str| && str[i] == ':' ==> i > 0)
    && (forall i, j :: 0 <= j < i < |str| && str[i] == ':' ==> IsLower(str[j]) || IsUpper(str[j]))
    && !((exists i :: 0 <= i < |str| && IsUpper(str[i])) && (exists i :: 0 <= i < |str| && IsLower(str[i])))
  }

  /** The place of the first colon, or the length if there is none. */
  function Colon(str: string): (k: nat)
    ensures k <= |str| && (forall j :: 0 <= j < k ==> str[j] != ':') && (k < |str| ==> str[k] == ':')
  {
    if str == [] || str[0] == ':' then 0 else 1 + Colon(str[1..])
  }

  lemma {:induction false} ColonIs(str: string, k: nat)
    requires k <= |str| && (forall j :: 0 <= j < k ==> str[j] != ':') && (k < |str| ==> str[k] == ':')
    ensures Colon(str) == k
  {
    if k > 0 {
      ColonIs(str[1..], k - 1);
    }
  }

  function Lowered(s: string): (r: string)
    ensures |r| == |s|
  {
    seq(|s|, i requires 0 <= i < |s| => LowerCase(s[i]))
  }

  function Values(t: string): (v: seq<bv64>)
    ensures |v| == |t|
  {
    seq(|t|, i requires 0 <= i < |t| => Rev(t[i]))
  }

  ghost predicate AllValid(t: string) {
    forall i :: 0 <= i < |t| ==> t[i] <= 127 as char && Rev(t[i]) != INVALID
  }

  /** What becomes of the text after the separator. */
  ghost function Judged(prefix: string, body: string): Outcome {
    if !AllValid(body) || !Verifies(prefix, Values(body)) then Rejected
    else if |body| < 8 then Underrun
    else Accepted(prefix, Values(body)[..|body| - 8])
  }

  ghost function DecodedFrom(str: string, defaultPrefix: string): Outcome {
    var k := Colon(str);
    if !WellFormed(str) then Rejected
    else if k == |str| then Judged(defaultPrefix, str)
    else Judged(Lowered(str[..k]), str[k + 1..])
  }

  // ---- Encoding ----

  method Encode(prefix: string, values: seq<bv64>) returns (ret: string)
    requires InField(values)
    ensures ret == Encoded(prefix, values)
  {
    hide Letter, Checksum;
    var checksum := CreateChecksum(prefix, values);
    var combined := values + checksum;
    ChecksumVerifies(prefix, values);
    ret := prefix + [':'];
    for i := 0 to |combined|
      invariant ret == prefix + [':'] + Letters(combined[..i])
    {
      assert combined[i] < 32;
      assert Letters(combined[..i + 1]) == Letters(combined[..i]) + [Letter(combined[i])];
      ret := ret + [Letter(combined[i])];
    }
    assert combined[..|combined|] == combined;
  }

  // ---- Decoding ----

  /** Goes over the text for the sanity checks; the separator's place is zero if there is
      none. */
  method Scan(str: string) returns (ok: bool, prefixSize: nat)
    ensures ok <==> WellFormed(str)
    ensures ok ==> if prefixSize == 0 then Colon(str) == |str| else Colon(str) == prefixSize < |str|
  {
    var lower, upper, hasNumber := false, false, false;
    prefixSize := 0;
    for i := 0 to |str|
      invariant forall j :: 0 <= j < i ==> Allowed(str[j])
      invariant lower <==> exists j :: 0 <= j < i && IsLower(str[j])
      invariant upper <==> exists j :: 0 <= j < i && IsUpper(str[j])
      invariant hasNumber <==> exists j :: 0 <= j < i && IsDigit(str[j])
      invariant prefixSize > 0 ==> prefixSize < i && str[prefixSize] == ':'
      invariant prefixSize > 0 ==> forall j :: 0 <= j < prefixSize ==> IsLower(str[j]) || IsUpper(str[j])
      invariant forall j :: 0 <= j < i && str[j] == ':' ==> j == prefixSize > 0
    {
      var c := str[i];
      if IsLower(c) {
        lower := true;
      } else if IsUpper(c) {
        upper := true;
      } else if IsDigit(c) {
        hasNumber := true;
      } else if c == ':' {
        if hasNumber || i == 0 || prefixSize != 0 {
          return false, 0;
        }
        prefixSize := i;
      } else {
        return false, 0;
      }
    }
    ok := !(upper && lower);
    ColonIs(str, if prefixSize == 0 then |str| else prefixSize);
  }

  method Decode(str: string, defaultPrefix: string) returns (r: Outcome)
    ensures r == DecodedFrom(str, defaultPrefix)
  {
    hide WellFormed, Rev, LowerCase, Verifies;
    var ok, prefixSize := Scan(str);
    if !ok {
      return Rejected;
    }
    var prefix := defaultPrefix;
    var start := 0;
    if prefixSize != 0 {
      prefix := [];
      for i := 0 to prefixSize
        invariant |prefix| == i && forall k :: 0 <= k < i ==> prefix[k] == LowerCase(str[k])
      {
        prefix := prefix + [LowerCase(str[i])];
      }
      assert prefix == Lowered(str[..prefixSize]);
      start := prefixSize + 1;
    }
    r := DecodeBody(prefix, str[start..]);
    assert str[0..] == str;
  }

  method DecodeBody(prefix: string, body: string) returns (r: Outcome)
    ensures r == Judged(prefix, body)
  {
    hide Rev, Fold;
    var values := [];
    for i := 0 to |body|
      invariant |values| == i && forall k :: 0 <= k < i ==> values[k] == Rev(body[k])
      invariant forall k :: 0 <= k < i ==> body[k] <= 127 as char && Rev(body[k]) != INVALID
    {
      var c := body[i];
      if c > 127 as char || Rev(c) == INVALID {
        return Rejected;
      }
      values := values + [Rev(c)];
    }
    assert values == Values(body);
    var check := PolyMod(Expanded(prefix) + values);
    if check != 1 {
      return Rejected;
    }
    if |values| < 8 {
      return Underrun;
    }
    return Accepted(prefix, values[..|values| - 8]);
  }

  // ---- The two directions undo each other ----

  ghost predicate AllLower(s: string) {
    forall i :: 0 <= i < |s| ==> IsLower(s[i])
  }

  ghost predicate AllLetters(s: string) {
    forall i :: 0 <= i < |s| ==> IsLower(s[i]) || IsUpper(s[i])
  }

  ghost predicate MixedCase(s: string) {
    (exists i :: 0 <= i < |s| && IsUpper(s[i])) && (exists i :: 0 <= i < |s| && IsLower(s[i]))
  }

  /** Checksums do not see the case of the prefix. */
  lemma LowerSameChecksum(prefix: string)
    ensures Expanded(Lowered(prefix)) == Expanded(prefix)
  {
    hide Element;
    forall i | 0 <= i < |prefix|
      ensures Lowered(prefix)[i] as int % 32 == prefix[i] as int % 32
    {
    }
  }

  /** The characters of values are read back, and none is a colon or upper case. */
  lemma LettersBack(values: seq<bv64>)
    requires InField(values)
    ensures AllValid(Letters(values)) && Values(Letters(values)) == values
    ensures forall i :: 0 <= i < |values| ==> IsLower(Letters(values)[i]) || IsDigit(Letters(values)[i])
  {
    hide Rev, Letter;
    forall i | 0 <= i < |values|
      ensures Rev(Letter(values[i])) == values[i] && (IsLower(Letter(values[i])) || IsDigit(Letter(values[i])))
    {
      RevOfLetter(values[i]);
    }
  }

  /** A character with a lower-case letter of ASCII turned into upper case. */
  ghost function Capital(c: char): char {
    if 97 <= c as int <= 122 then (c as int - 32) as char else c
  }

  ghost function Capitals(s: string): (r: string)
    ensures |r| == |s|
  {
    seq(|s|, i requires 0 <= i < |s| => Capital(s[i]))
  }

  ghost predicate NoCapitals(s: string) {
    forall i :: 0 <= i < |s| ==> !(65 <= s[i] as int <= 90)
  }

  /** One character is the other in capitals, as far as decoding can tell. */
  ghost predicate Alike(c: char, d: char) {
    && (IsUpper(d) <==> IsLower(c)) && !IsUpper(c) && !IsLower(d) && (IsDigit(d) <==> IsDigit(c))
    && (d == ':' <==> c == ':') && LowerCase(d) == LowerCase(c) && (d <= 127 as char <==> c <= 127 as char)
  }

  lemma CapitalAlike(c: char)
    requires !(65 <= c as int <= 90)
    ensures Alike(c, Capital(c))
  {
  }

  ghost predicate AllAlike(t: string, u: string) {
    |t| == |u| && forall i :: 0 <= i < |t| ==> Alike(t[i], u[i])
  }

  /** A text decodes the same in capitals. */
  lemma CapitalsDecode(str: string, defaultPrefix: string)
    requires NoCapitals(str)
    ensures DecodedFrom(Capitals(str), defaultPrefix) == DecodedFrom(str, defaultPrefix)
  {
    hide Alike, Capital;
    forall i | 0 <= i < |str|
      ensures Alike(str[i], Capitals(str)[i])
    {
      CapitalAlike(str[i]);
    }
    AlikeDecode(str, Capitals(str), defaultPrefix);
  }

  lemma AlikeDecode(t: string, u: string, defaultPrefix: string)
    requires AllAlike(t, u)
    ensures DecodedFrom(u, defaultPrefix) == DecodedFrom(t, defaultPrefix)
  {
    hide Alike, WellFormed, Values, AllValid, Verifies, Lowered;
    var k := Colon(t);
    AlikeColon(t, u);
    AlikeFormed(t, u);
    if k < |t| {
      AlikeBody(t[k + 1..], u[k + 1..]);
      AlikePrefix(t[..k], u[..k]);
    } else {
      AlikeBody(t, u);
    }
  }

  lemma AlikeColon(t: string, u: string)
    requires AllAlike(t, u)
    ensures Colon(u) == Colon(t)
  {
    ColonIs(u, Colon(t));
  }

  lemma AlikePrefix(t: string, u: string)
    requires AllAlike(t, u)
    ensures Lowered(u) == Lowered(t)
  {
    hide LowerCase, IsUpper, IsLower, IsDigit;
  }

  lemma AlikeBody(t: string, u: string)
    requires AllAlike(t, u)
    ensures Values(u) == Values(t) && (AllValid(u) <==> AllValid(t))
  {
    hide LowerCase, LowerRev, IsUpper, IsLower, IsDigit;
    forall i | 0 <= i < |t|
      ensures Rev(u[i]) == Rev(t[i]) && (u[i] <= 127 as char <==> t[i] <= 127 as char)
    {
      assert Alike(t[i], u[i]);
    }
    hide Rev, Alike;
  }

  lemma AlikeFormed(t: string, u: string)
    requires AllAlike(t, u)
    ensures WellFormed(u) <==> WellFormed(t)
  {
    hide IsUpper, IsLower, IsDigit, LowerCase;
    forall i | 0 <= i < |t|
      ensures Allowed(u[i]) <==> Allowed(t[i])
    {
      assert Alike(t[i], u[i]);
    }
  }

  /** Decoding an encoded address, for every prefix and every sequence of 5-bit values: it
      is accepted exactly when the prefix is a nonempty run of letters and the whole text
      is in one case, and then the values come back with the prefix in lower case. */
  lemma DecodeEncode(prefix: string, values: seq<bv64>, defaultPrefix: string)
    requires InField(values)
    ensures DecodedFrom(Encoded(prefix, values), defaultPrefix)
         == if prefix != [] && AllLetters(prefix) && !MixedCase(Encoded(prefix, values))
            then Accepted(Lowered(prefix), values) else Rejected
  {
    hide Rev, Letter, Checksum, Verifies, LowerCase, Colon;
    var check := Checksum(prefix, values);
    ChecksumVerifies(prefix, values);
    var combined := values + check;
    var text := Letters(combined);
    LettersBack(combined);
    var str := Encoded(prefix, values);
    EncodedWellFormed(prefix, text);
    if WellFormed(str) {
      ColonIs(str, |prefix|);
      assert str[..|prefix|] == prefix && str[|prefix| + 1..] == text;
      VerifiesLower(prefix, combined);
      assert combined[..|combined| - 8] == values;
    }
  }

  lemma VerifiesLower(prefix: string, values: seq<bv64>)
    ensures Verifies(Lowered(prefix), values) <==> Verifies(prefix, values)
  {
    hide Fold, Expanded;
    LowerSameChecksum(prefix);
  }

  lemma EncodedWellFormed(prefix: string, text: string)
    requires forall i :: 0 <= i < |text| ==> IsLower(text[i]) || IsDigit(text[i])
    ensures var str := prefix + [':'] + text;
            WellFormed(str) <==> prefix != [] && AllLetters(prefix) && !MixedCase(str)
    ensures var str := prefix + [':'] + text;
            WellFormed(str) ==> forall i :: 0 <= i < |prefix| ==> str[i] != ':'
  {
    var str := prefix + [':'] + text;
    assert str[|prefix|] == ':';
    assert forall i :: 0 <= i < |prefix| ==> str[i] == prefix[i];
    assert forall i :: |prefix| < i < |str| ==> str[i] == text[i - |prefix| - 1];
  }

  /** A prefix and values survive the round trip exactly when the prefix is a nonempty run
      of lower-case letters. */
  lemma RoundTrip(prefix: string, values: seq<bv64>, defaultPrefix: string)
    requires InField(values)
    ensures DecodedFrom(Encoded(prefix, values), defaultPrefix) == Accepted(prefix, values)
      <==> prefix != [] && AllLower(prefix)
  {
    hide DecodedFrom, Checksum, Letter;
    DecodeEncode(prefix, values, defaultPrefix);
    ChecksumVerifies(prefix, values);
    LettersBack(values + Checksum(prefix, values));
    LowerOnly(prefix, Letters(values + Checksum(prefix, values)));
  }

  lemma LowerOnly(prefix: string, text: string)
    requires forall i :: 0 <= i < |text| ==> IsLower(text[i]) || IsDigit(text[i])
    ensures AllLower(prefix) ==> AllLetters(prefix) && Lowered(prefix) == prefix && !MixedCase(prefix + [':'] + text)
    ensures AllLetters(prefix) && Lowered(prefix) == prefix ==> AllLower(prefix)
  {
    forall i | 0 <= i < |prefix|
      ensures Lowered(prefix)[i] == LowerCase(prefix[i])
    {
    }
  }

  // ---- Texts shorter than a checksum, and texts in upper case ----

  /** The prefix and the text after the colon that are judged. */
  function PrefixOf(str: string, defaultPrefix: string): string {
    if Colon(str) == |str| then defaultPrefix else Lowered(str[..Colon(str)])
  }

  function BodyOf(str: string): string {
    if Colon(str) == |str| then str else str[Colon(str) + 1..]
  }

  /** The step before the start of the values happens exactly on well-formed text with
      valid characters, fewer than eight of them, whose checksum nevertheless holds; so
      never when there are eight characters or more. */
  lemma UnderrunExactly(str: string, defaultPrefix: string)
    ensures DecodedFrom(str, defaultPrefix) == Underrun
      <==> WellFormed(str) && AllValid(BodyOf(str)) && |BodyOf(str)| < 8
           && Verifies(PrefixOf(str, defaultPrefix), Values(BodyOf(str)))
    ensures |BodyOf(str)| >= 8 ==> DecodedFrom(str, defaultPrefix) != Underrun
  {
  }

  lemma FoldTo(v: seq<bv64>, w: seq<bv64>, c: bv64, d: bv64, c': bv64)
    requires w == v + [d] && Fold(1, v) == c && Step(c, d) == c'
    ensures Fold(1, w) == c'
  {
    FoldNext(1, v, d);
  }

  lemma SevenValues()
    ensures Fold(1, [3, 0, 0, 12, 13, 4, 10, 2, 17]) == 1
  {
    hide Fold;
    FoldNext(1, [], 0);
    FoldTo([], [3], 1, 3, 35);
    FoldTo([3], [3, 0], 35, 0, 1120);
    FoldTo([3, 0], [3, 0, 0], 1120, 0, 35840);
    FoldTo([3, 0, 0], [3, 0, 0, 12], 35840, 12, 1146892);
    FoldTo([3, 0, 0, 12], [3, 0, 0, 12, 13], 1146892, 13, 36700557);
    FoldTo([3, 0, 0, 12, 13], [3, 0, 0, 12, 13, 4], 36700557, 4, 1174417828);
    FoldTo([3, 0, 0, 12, 13, 4], [3, 0, 0, 12, 13, 4, 10], 1174417828, 10, 37581370506);
    FoldTo([3, 0, 0, 12, 13, 4, 10], [3, 0, 0, 12, 13, 4, 10, 2], 37581370506, 2, 553823903523);
    FoldTo([3, 0, 0, 12, 13, 4, 10, 2], [3, 0, 0, 12, 13, 4, 10, 2, 17], 553823903523, 17, 1);
  }

  lemma SevenCharacters()
    ensures AllValid("qvdy2z3") && Values("qvdy2z3") == [0, 12, 13, 4, 10, 2, 17] && Expanded("c") == [3, 0]
  {
  }

  /** Text put together from letters, a colon and lower-case letters or digits. */
  lemma JudgeText(prefix: string, text: string, defaultPrefix: string)
    requires prefix != [] && AllLetters(prefix) && !MixedCase(prefix + [':'] + text)
    requires forall i :: 0 <= i < |text| ==> IsLower(text[i]) || IsDigit(text[i])
    ensures DecodedFrom(prefix + [':'] + text, defaultPrefix) == Judged(Lowered(prefix), text)
  {
    hide WellFormed, Colon, Judged, MixedCase;
    var str := prefix + [':'] + text;
    EncodedWellFormed(prefix, text);
    ColonIs(str, |prefix|);
    assert str[..|prefix|] == prefix && str[|prefix| + 1..] == text;
  }

  /** A text with seven values that verifies. */
  lemma UnderrunReached(defaultPrefix: string)
    ensures DecodedFrom("c:qvdy2z3", defaultPrefix) == Underrun
  {
    hide Fold, AllValid, Values, Expanded, DecodedFrom;
    assert "c:qvdy2z3" == "c" + [':'] + "qvdy2z3";
    JudgeText("c", "qvdy2z3", defaultPrefix);
    assert Lowered("c") == "c";
    SevenCharacters();
    assert Expanded("c") + Values("qvdy2z3") == [3, 0, 0, 12, 13, 4, 10, 2, 17];
    SevenValues();
  }

  lemma EightDigits()
    ensures Fold(1, [4, 25, 20, 0, 10, 21, 5, 15, 21, 15, 10, 21]) == 1
  {
    hide Fold;
    FoldNext(1, [], 0);
    FoldTo([], [4], 1, 4, 36);
    FoldTo([4], [4, 25], 36, 25, 1177);
    FoldTo([4, 25], [4, 25, 20], 1177, 20, 37684);
    FoldTo([4, 25, 20], [4, 25, 20, 0], 37684, 0, 1205888);
    FoldTo([4, 25, 20, 0], [4, 25, 20, 0, 10], 1205888, 10, 38588426);
    FoldTo([4, 25, 20, 0, 10], [4, 25, 20, 0, 10, 21], 38588426, 21, 1234829653);
    FoldTo([4, 25, 20, 0, 10, 21], [4, 25, 20, 0, 10, 21, 5], 1234829653, 5, 39514548901);
    FoldTo([4, 25, 20, 0, 10, 21, 5], [4, 25, 20, 0, 10, 21, 5, 15], 39514548901, 15, 818639657678);
    FoldTo([4, 25, 20, 0, 10, 21, 5, 15], [4, 25, 20, 0, 10, 21, 5, 15, 21], 818639657678, 21, 959454779874);
    FoldTo([4, 25, 20, 0, 10, 21, 5, 15, 21], [4, 25, 20, 0, 10, 21, 5, 15, 21, 15], 959454779874, 15, 813275163924);
    FoldTo([4, 25, 20, 0, 10, 21, 5, 15, 21, 15], [4, 25, 20, 0, 10, 21, 5, 15, 21, 15, 10],
           813275163924, 10, 719063671485);
    FoldTo([4, 25, 20, 0, 10, 21, 5, 15, 21, 15, 10], [4, 25, 20, 0, 10, 21, 5, 15, 21, 15, 10, 21],
           719063671485, 21, 1);
  }

  lemma EightCharacters()
    ensures AllValid("24904024") && Values("24904024") == [10, 21, 5, 15, 21, 15, 10, 21]
    ensures Expanded("dyt") == [4, 25, 20, 0]
  {
  }

  /** A prefix in upper case with digits only is accepted, in lower case. */
  lemma UpperCaseAccepted(defaultPrefix: string)
    ensures DecodedFrom("DYT:24904024", defaultPrefix) == Accepted("dyt", [])
  {
    hide Fold, AllValid, Values, Expanded, DecodedFrom;
    assert "DYT:24904024" == "DYT" + [':'] + "24904024";
    JudgeText("DYT", "24904024", defaultPrefix);
    assert Lowered("DYT") == "dyt";
    EightCharacters();
    assert Expanded("dyt") + Values("24904024") == [4, 25, 20, 0, 10, 21, 5, 15, 21, 15, 10, 21];
    EightDigits();
  }
}
