// Which byte strings the UTF-8 decoder accepts: the encodings of scalar values,
// and those with malformed lead bytes, which it takes for one-byte characters.
module Utf8Accepted {
  import opened Blocks
  import opened Utf

  // What a byte adds to the code point, after the bits that mark it.
  function Digit(b: bv8, marks: bv8): bv32 {
    b as bv32 - marks as bv32
  }

  // One more digit to base 64.
  function Append(c: bv32, digit: bv32): bv32 {
    c * 64 + digit
  }

  predicate Between(b: bv8, low: bv8, high: bv8) {
    low <= b <= high
  }

  // The table in section 3 of RFC 3629: ranges of lead and tail bytes, and the
  // code point as a number to base 64. Nothing here exceeds 21 bits.
  predicate IsUtf8(s: seq<bv8>, c: bv32) {
    match |s|
    case 1 => c < 0x80 && s[0] as bv32 == c
    case 2 =>
      && 0x80 <= c < 0x800 && Between(s[0], 0xc2, 0xdf) && Between(s[1], 0x80, 0xbf)
      && c == Append(Digit(s[0], 0xc0), Digit(s[1], 0x80))
    case 3 =>
      && 0x800 <= c <= 0xffff && Between(s[0], 0xe0, 0xef) && Between(s[1], 0x80, 0xbf) && Between(s[2], 0x80, 0xbf)
      && c == Append(Append(Digit(s[0], 0xe0), Digit(s[1], 0x80)), Digit(s[2], 0x80))
    case 4 =>
      && 0x10000 <= c <= 0x10ffff && Between(s[0], 0xf0, 0xf4)
      && Between(s[1], 0x80, 0xbf) && Between(s[2], 0x80, 0xbf) && Between(s[3], 0x80, 0xbf)
      && c == Append(Append(Append(Digit(s[0], 0xf0), Digit(s[1], 0x80)), Digit(s[2], 0x80)), Digit(s[3], 0x80))
    case _ => false
  }

  lemma EncodedBytes(c: bv32)
    requires IsScalar(c)
    ensures IsUtf8(Encode(c), c)
  {
    hide Digit, Append, Between, Lead2, Lead3, Lead4, Tail0, Tail1, Tail2;
    Sixes(c);
    TailDigits(c);
    if c < 0x80 {
    } else if c < 0x800 {
      LeadDigit2(c);
    } else if c <= 0xffff {
      LeadDigit3(c);
    } else {
      LeadDigit4(c);
    }
  }

  lemma TailDigits(c: bv32)
    ensures Digit(Tail0(c), 0x80) == c & 0x3f && Between(Tail0(c), 0x80, 0xbf)
    ensures Digit(Tail1(c), 0x80) == (c >> 6) & 0x3f && Between(Tail1(c), 0x80, 0xbf)
    ensures Digit(Tail2(c), 0x80) == (c >> 12) & 0x3f && Between(Tail2(c), 0x80, 0xbf)
  {
  }

  lemma LeadDigit2(c: bv32)
    requires 0x80 <= c < 0x800
    ensures Digit(Lead2(c), 0xc0) == c >> 6 && Between(Lead2(c), 0xc2, 0xdf)
  {
  }

  lemma LeadDigit3(c: bv32)
    requires 0x800 <= c <= 0xffff
    ensures Digit(Lead3(c), 0xe0) == c >> 12 && Between(Lead3(c), 0xe0, 0xef)
  {
  }

  lemma LeadDigit4(c: bv32)
    requires 0x10000 <= c <= 0x10ffff
    ensures Digit(Lead4(c), 0xf0) == c >> 18 && Between(Lead4(c), 0xf0, 0xf4)
  {
  }

  // Six bits at a time.
  lemma Sixes(c: bv32)
    requires c <= 0x10ffff
    ensures c == Append(c >> 6, c & 0x3f)
    ensures c >> 6 == Append(c >> 12, (c >> 6) & 0x3f)
    ensures c >> 12 == Append(c >> 18, (c >> 12) & 0x3f)
  {
    hide Append;
    LastSix(c);
    MiddleSix(c);
    FirstSix(c);
  }

  lemma LastSix(c: bv32)
    requires c <= 0x10ffff
    ensures c == Append(c >> 6, c & 0x3f)
  {
  }

  lemma MiddleSix(c: bv32)
    requires c <= 0x10ffff
    ensures c >> 6 == Append(c >> 12, (c >> 6) & 0x3f)
  {
  }

  lemma FirstSix(c: bv32)
    requires c <= 0x10ffff
    ensures c >> 12 == Append(c >> 18, (c >> 12) & 0x3f)
  {
  }

  // The units of UTF-16 as numbers: the two surrogates hold ten bits each
  // (section 2.1 of RFC 2781).
  function Combined(high: bv32, low: bv32): bv32 {
    0x10000 + ((high - 0xd800) * 0x400 + (low - 0xdc00))
  }

  predicate IsUtf16(u: seq<bv32>, c: bv32) {
    match |u|
    case 1 => c < 0x10000 && u[0] == c
    case 2 =>
      && 0x10000 <= c <= 0x10ffff && 0xd800 <= u[0] <= 0xdbff && 0xdc00 <= u[1] <= 0xdfff
      && c == Combined(u[0], u[1])
    case _ => false
  }

  lemma UnitsAreUtf16(c: bv32)
    requires IsScalar(c)
    ensures IsUtf16(Units(c), c)
  {
    hide High, Low, Combined;
    if c >= 0x10000 {
      SurrogateRanges(c);
      SurrogatesCombine(c);
    }
  }

  lemma SurrogateRanges(c: bv32)
    requires 0x10000 <= c <= 0x10ffff
    ensures 0xd800 <= High(c) <= 0xdbff && 0xdc00 <= Low(c) <= 0xdfff
  {
  }

  lemma SurrogatesCombine(c: bv32)
    requires 0x10000 <= c <= 0x10ffff
    ensures Combined(High(c), Low(c)) == c
  {
    TenBits(c - 0x10000);
  }

  lemma TenBits(d: bv32)
    requires d <= 0xfffff
    ensures d == (d >> 10) * 0x400 + (d & 0x3ff)
  {
  }

  // A byte that starts no character (section 3 of RFC 3629), but has the length
  // of one in the decoder's table.
  predicate MalformedLead(b: bv8) {
    0x80 <= b < 0xc0 || 0xf8 <= b
  }

  lemma MalformedIsOneByte(s0: bv8, s1: bv8, s2: bv8, s3: bv8)
    requires MalformedLead(s0)
    ensures Decode(s0, s1, s2, s3) == Step(Visit((s0 & 0x7f) as bv32, 0), 1)
  {
  }

  lemma OneAccepted(s0: bv8, s1: bv8, s2: bv8, s3: bv8)
    requires s0 < 0x80
    ensures Decode(s0, s1, s2, s3) == Step(Visit(s0 as bv32, 0), 1)
  {
  }

  lemma TwoAccepted(s0: bv8, s1: bv8, s2: bv8, s3: bv8)
    requires 0xc0 <= s0 < 0xe0
    ensures var d := Decode(s0, s1, s2, s3);
            && d.length == 2
            && (d.value.error == 0 ==> 0x80 <= d.value.cp < 0x800 && s0 == Lead2(d.value.cp) && s1 == Tail0(d.value.cp))
  {
  }

  predicate IsTail(b: bv8) {
    b & 0xc0 == 0x80
  }

  // What no error bits say about a character of three bytes, and of four.
  lemma ThreeClean(cp: bv32, s1: bv8, s2: bv8, s3: bv8)
    requires DropPairs(ErrorBits(cp, 2048, s1, s2, s3) ^ 0x2a, 3) == 0
    ensures 2048 <= cp <= 0x10ffff && cp >> 11 != 0x1b && IsTail(s1) && IsTail(s2)
  {
  }

  lemma FourClean(cp: bv32, s1: bv8, s2: bv8, s3: bv8)
    requires ErrorBits(cp, 65536, s1, s2, s3) ^ 0x2a == 0
    ensures 65536 <= cp <= 0x10ffff && IsTail(s1) && IsTail(s2) && IsTail(s3)
  {
  }

  // From the code point back to the bytes it was put together from.
  lemma ThreeBack(s0: bv8, s1: bv8, s2: bv8, s3: bv8, cp: bv32)
    requires 0xe0 <= s0 < 0xf0 && IsTail(s1) && IsTail(s2)
    requires cp == DropSixes(CodePoint(s0 & 0x0f, s1, s2, s3), 3)
    ensures cp <= 0xffff && (cp >= 0x800 ==> s0 == Lead3(cp) && s1 == Tail1(cp) && s2 == Tail0(cp))
  {
  }

  lemma FourBack(s0: bv8, s1: bv8, s2: bv8, s3: bv8, cp: bv32)
    requires 0xf0 <= s0 < 0xf8 && IsTail(s1) && IsTail(s2) && IsTail(s3)
    requires cp == CodePoint(s0 & 0x07, s1, s2, s3) && 0x10000 <= cp <= 0x10ffff
    ensures s0 == Lead4(cp) && s1 == Tail2(cp) && s2 == Tail1(cp) && s3 == Tail0(cp)
  {
  }

  lemma NotSurrogate(cp: bv32)
    requires cp >> 11 != 0x1b && cp <= 0x10ffff
    ensures IsScalar(cp)
  {
  }

  lemma ThreeAccepted(s0: bv8, s1: bv8, s2: bv8, s3: bv8)
    requires 0xe0 <= s0 < 0xf0
    ensures var d := Decode(s0, s1, s2, s3);
            && d.length == 3
            && (d.value.error == 0 ==> 0x800 <= d.value.cp <= 0xffff && IsScalar(d.value.cp))
            && (d.value.error == 0 ==> s0 == Lead3(d.value.cp) && s1 == Tail1(d.value.cp) && s2 == Tail0(d.value.cp))
  {
    hide Decode, ErrorBits, CodePoint, DropSixes, DropPairs, IsTail, IsScalar;
    ThreeDecoded(s0, s1, s2, s3);
    var cp := DropSixes(CodePoint(s0 & 0x0f, s1, s2, s3), 3);
    if DropPairs(ErrorBits(cp, 2048, s1, s2, s3) ^ 0x2a, 3) == 0 {
      ThreeClean(cp, s1, s2, s3);
      ThreeBack(s0, s1, s2, s3, cp);
      NotSurrogate(cp);
    }
  }

  lemma ThreeDecoded(s0: bv8, s1: bv8, s2: bv8, s3: bv8)
    requires 0xe0 <= s0 < 0xf0
    ensures var cp := DropSixes(CodePoint(s0 & 0x0f, s1, s2, s3), 3);
            Decode(s0, s1, s2, s3) == Step(Visit(cp, DropPairs(ErrorBits(cp, 2048, s1, s2, s3) ^ 0x2a, 3)), 3)
  {
    hide CodePointLength, DecodeLength;
    LengthOf(s0);
    OfThree(s0, s1, s2, s3);
  }

  lemma OfThree(s0: bv8, s1: bv8, s2: bv8, s3: bv8)
    ensures var cp := DropSixes(CodePoint(s0 & 0x0f, s1, s2, s3), 3);
            DecodeLength(3, s0, s1, s2, s3) == Step(Visit(cp, DropPairs(ErrorBits(cp, 2048, s1, s2, s3) ^ 0x2a, 3)), 3)
  {
    hide ErrorBits, CodePoint, DropSixes, DropPairs;
  }

  lemma OfFour(s0: bv8, s1: bv8, s2: bv8, s3: bv8)
    ensures var cp := CodePoint(s0 & 0x07, s1, s2, s3);
            DecodeLength(4, s0, s1, s2, s3) == Step(Visit(cp, ErrorBits(cp, 65536, s1, s2, s3) ^ 0x2a), 4)
  {
    hide ErrorBits, CodePoint;
  }

  lemma LengthOf(s0: bv8)
    requires 0xe0 <= s0 < 0xf8
    ensures CodePointLength(s0) == if s0 < 0xf0 then 3 else 4
  {
  }

  lemma FourAccepted(s0: bv8, s1: bv8, s2: bv8, s3: bv8)
    requires 0xf0 <= s0 < 0xf8
    ensures var d := Decode(s0, s1, s2, s3);
            && d.length == 4
            && (d.value.error == 0 ==> 0x10000 <= d.value.cp <= 0x10ffff)
            && (d.value.error == 0 ==> s0 == Lead4(d.value.cp) && s1 == Tail2(d.value.cp) && s2 == Tail1(d.value.cp) && s3 == Tail0(d.value.cp))
  {
    hide Decode, ErrorBits, CodePoint, IsTail;
    FourDecoded(s0, s1, s2, s3);
    var cp := CodePoint(s0 & 0x07, s1, s2, s3);
    if ErrorBits(cp, 65536, s1, s2, s3) ^ 0x2a == 0 {
      FourClean(cp, s1, s2, s3);
      FourBack(s0, s1, s2, s3, cp);
    }
  }

  lemma FourDecoded(s0: bv8, s1: bv8, s2: bv8, s3: bv8)
    requires 0xf0 <= s0 < 0xf8
    ensures var cp := CodePoint(s0 & 0x07, s1, s2, s3);
            Decode(s0, s1, s2, s3) == Step(Visit(cp, ErrorBits(cp, 65536, s1, s2, s3) ^ 0x2a), 4)
  {
    hide CodePointLength, DecodeLength;
    LengthOf(s0);
    OfFour(s0, s1, s2, s3);
  }

  // No error if and only if the bytes are the encoding of the scalar value that
  // is visited, for every lead byte that is not malformed.
  lemma AcceptedExactly(s0: bv8, s1: bv8, s2: bv8, s3: bv8)
    requires !MalformedLead(s0)
    ensures var d := Decode(s0, s1, s2, s3);
            d.value.error == 0 <==> IsScalar(d.value.cp) && Encode(d.value.cp) == [s0, s1, s2, s3][..d.length]
  {
    hide Decode;
    var d := Decode(s0, s1, s2, s3);
    if s0 < 0x80 {
      OneAccepted(s0, s1, s2, s3);
    } else if s0 < 0xe0 {
      TwoAccepted(s0, s1, s2, s3);
    } else if s0 < 0xf0 {
      ThreeAccepted(s0, s1, s2, s3);
    } else {
      FourAccepted(s0, s1, s2, s3);
    }
    if IsScalar(d.value.cp) && Encode(d.value.cp) == [s0, s1, s2, s3][..d.length] {
      EncodingIsClean(s0, s1, s2, s3, d.value.cp, d.length);
    }
  }

  lemma EncodingIsClean(s0: bv8, s1: bv8, s2: bv8, s3: bv8, c: bv32, length: nat)
    requires IsScalar(c) && length <= 4 && Encode(c) == [s0, s1, s2, s3][..length]
    ensures Decode(s0, s1, s2, s3) == Step(Visit(c, 0), length)
  {
    hide Decode;
    var s := [s0, s1, s2, s3];
    assert forall k :: 0 <= k < length ==> Encode(c)[k] == At(0, s, 0 + k);
    DecodePadded(s, 0, c);
  }

  // The leads that a reading from p on meets.
  ghost predicate LeadsOk(s: seq<bv8>, p: nat)
    decreases |s| - p
  {
    p >= |s| || (!MalformedLead(s[p]) && LeadsOk(s, p + DecodeAt(Decode, 0, s, p).length))
  }

  // A string read without an error, and without a malformed lead, is the
  // encoding of what was visited.
  lemma {:induction false} CleanFrom(s: seq<bv8>, p: nat)
    requires p <= |s| && NoErrors(Visits(Decode, 0, s, p)) && LeadsOk(s, p)
    ensures var cs := CodePoints(Visits(Decode, 0, s, p)); AllScalars(cs) && EncodeAll(cs) == s[p..]
    decreases |s| - p
  {
    hide Decode, Encode, IsScalar, MalformedLead;
    if p < |s| {
      var d := DecodeAt(Decode, 0, s, p);
      var rest := Visits(Decode, 0, s, p + d.length);
      FirstAndRest(d.value, rest);
      OneCharacter(s, p);
      CleanFrom(s, p + d.length);
      assert CodePoints([d.value] + rest)[1..] == CodePoints(rest);
      assert s[p..] == s[p..p + d.length] + s[p + d.length..];
    }
  }

  lemma FirstAndRest(v: Visit, rest: seq<Visit>)
    ensures NoErrors([v] + rest) ==> v.error == 0 && NoErrors(rest)
    ensures CodePoints([v] + rest) == [v.cp] + CodePoints(rest)
  {
    var visits := [v] + rest;
    if NoErrors(visits) {
      assert visits[0] == v && forall k :: 0 <= k < |rest| ==> rest[k] == visits[k + 1];
    }
    var a, b := CodePoints(visits), [v.cp] + CodePoints(rest);
    forall k | 0 <= k < |a|
      ensures a[k] == b[k]
    {
      assert k > 0 ==> visits[k] == rest[k - 1];
    }
  }

  // It ends within the string: the zeros beyond it are no tail bytes.
  lemma OneCharacter(s: seq<bv8>, p: nat)
    requires p < |s| && !MalformedLead(s[p]) && DecodeAt(Decode, 0, s, p).value.error == 0
    ensures var d := DecodeAt(Decode, 0, s, p);
            p + d.length <= |s| && IsScalar(d.value.cp) && Encode(d.value.cp) == s[p..p + d.length]
  {
    hide Decode, Encode, IsScalar, MalformedLead;
    var s0, s1, s2, s3 := At(0, s, p), At(0, s, p + 1), At(0, s, p + 2), At(0, s, p + 3);
    AcceptedExactly(s0, s1, s2, s3);
    var d := Decode(s0, s1, s2, s3);
    var e := Encode(d.value.cp);
    assert d.value.error == 0 && e == [s0, s1, s2, s3][..d.length];
    forall k | 0 <= k < |e|
      ensures e[k] == At(0, s, p + k) && (k > 0 ==> p + k < |s|)
    {
      assert e[k] == [s0, s1, s2, s3][k];
      if k > 0 {
        TailIsNotZero(d.value.cp, k);
      }
    }
    assert e[|e| - 1] == At(0, s, p + (|e| - 1));
  }

  lemma TailIsNotZero(c: bv32, k: nat)
    requires IsScalar(c) && 0 < k < |Encode(c)|
    ensures Encode(c)[k] != 0
  {
  }

  // The strings without malformed leads that are read without an error are
  // exactly the encodings of sequences of scalar values.
  lemma AcceptedStrings(s: seq<bv8>)
    ensures NoErrors(Visited(s)) && LeadsOk(s, 0) <==> exists cs :: AllScalars(cs) && EncodeAll(cs) == s
  {
    if NoErrors(Visited(s)) && LeadsOk(s, 0) {
      CleanFrom(s, 0);
      assert s[0..] == s;
      var cs := CodePoints(Visited(s));
      assert AllScalars(cs) && EncodeAll(cs) == s;
    }
    if cs: seq<bv32> :| AllScalars(cs) && EncodeAll(cs) == s {
      VisitsInvertEncoding(cs);
      EncodingLeads(cs, [], s);
    }
  }

  lemma {:induction false} EncodingLeads(cs: seq<bv32>, before: seq<bv8>, s: seq<bv8>)
    requires AllScalars(cs) && s == before + EncodeAll(cs)
    ensures LeadsOk(s, |before|)
    decreases |cs|
  {
    hide Decode, Encode, IsScalar;
    if cs == [] {
      assert s == before;
    } else {
      var e := Encode(cs[0]);
      assert s == before + e + EncodeAll(cs[1..]);
      assert StandsAt(0, s, |before|, e);
      DecodePadded(s, |before|, cs[0]);
      EncodedLead(cs[0]);
      EncodingLeads(cs[1..], before + e, s);
    }
  }

  lemma EncodedLead(c: bv32)
    requires IsScalar(c)
    ensures !MalformedLead(Encode(c)[0])
  {
  }

  // A stray tail byte is taken for a zero.
  lemma StrayTail(s1: bv8, s2: bv8, s3: bv8)
    ensures Decode(0x80, s1, s2, s3) == Step(Visit(0, 0), 1)
  {
    MalformedIsOneByte(0x80, s1, s2, s3);
  }
}
