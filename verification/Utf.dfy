// UTF-8 encoding, the branchless decoder that always reads four bytes, and the
// two conversions between UTF-8 and UTF-16.
module Utf {
  import opened Wrappers
  import opened Blocks

  // Unicode scalar values: code points without the surrogates.
  predicate IsScalar(c: bv32) {
    c <= 0xd7ff || 0xe000 <= c <= 0x10ffff
  }

  // Tail bytes: the top bits 10 and six bits of the code point.
  function Tail0(c: bv32): bv8 {
    (0x80 | (c & 0x3f)) as bv8
  }

  function Tail1(c: bv32): bv8 {
    (0x80 | ((c & 0xfff) >> 6)) as bv8
  }

  function Tail2(c: bv32): bv8 {
    (0x80 | ((c & 0x3ffff) >> 12)) as bv8
  }

  function Lead2(c: bv32): bv8
    requires 0x80 <= c < 0x800
  {
    (0xc0 | (c >> 6)) as bv8
  }

  function Lead3(c: bv32): bv8
    requires 0x800 <= c <= 0xffff
  {
    (0xe0 | (c >> 12)) as bv8
  }

  function Lead4(c: bv32): bv8
    requires 0x10000 <= c <= 0x10ffff
  {
    (0xf0 | (c >> 18)) as bv8
  }

  function Encode(c: bv32): (s: seq<bv8>)
    requires IsScalar(c)
    ensures 1 <= |s| <= 4
  {
    if c < 0x80 then [c as bv8]
    else if c < 0x800 then [Lead2(c), Tail0(c)]
    else if c <= 0xffff then [Lead3(c), Tail1(c), Tail0(c)]
    else [Lead4(c), Tail2(c), Tail1(c), Tail0(c)]
  }

  ghost predicate AllScalars(cs: seq<bv32>) {
    forall k :: 0 <= k < |cs| ==> IsScalar(cs[k])
  }

  ghost function EncodeAll(cs: seq<bv32>): seq<bv8>
    requires AllScalars(cs)
  {
    if cs == [] then [] else Encode(cs[0]) + EncodeAll(cs[1..])
  }

  // The table is indexed by the top five bits; a zero entry counts as one.
  function CodePointLength(lead: bv8): Length
  {
    var row := lead >> 3;
    if row < 24 then 1 else if row < 28 then 2 else if row < 30 then 3 else if row == 30 then 4 else 1
  }

  // A visited code point and the error bits that came with it.
  datatype Visit = Visit(cp: bv32, error: bv32)

  function Flag(b: bool): bv32 {
    if b then 1 else 0
  }

  function Mask(length: nat): bv8 {
    match length
    case 1 => 0x7f
    case 2 => 0x1f
    case 3 => 0x0f
    case _ => 0x07
  }

  function Least(length: nat): bv32 {
    match length
    case 1 => 0
    case 2 => 128
    case 3 => 2048
    case _ => 65536
  }

  function CodePoint(s0: bv8, s1: bv8, s2: bv8, s3: bv8): bv32 {
    ((s0 as bv32) << 18) | (((s1 & 0x3f) as bv32) << 12) | (((s2 & 0x3f) as bv32) << 6) | ((s3 & 0x3f) as bv32)
  }

  function ErrorBits(cp: bv32, least: bv32, s1: bv8, s2: bv8, s3: bv8): bv32 {
    (Flag(cp < least) << 6) | (Flag(cp >> 11 == 0x1b) << 7) | (Flag(cp > 0x10ffff) << 8)
    | (((s1 & 0xc0) as bv32) >> 2) | (((s2 & 0xc0) as bv32) >> 4) | ((s3 as bv32) >> 6)
  }

  // Six bits of the code point, and two error bits, for each missing byte.
  function DropSixes(all: bv32, length: nat): bv32 {
    match length
    case 1 => all >> 18
    case 2 => all >> 12
    case 3 => all >> 6
    case _ => all
  }

  function DropPairs(errors: bv32, length: nat): bv32 {
    match length
    case 1 => errors >> 6
    case 2 => errors >> 4
    case 3 => errors >> 2
    case _ => errors
  }

  // Decodes the character at the start of four bytes, whatever its length: bits
  // of the bytes that do not belong to it are shifted out.
  function Decode(s0: bv8, s1: bv8, s2: bv8, s3: bv8): Step<Visit> {
    DecodeLength(CodePointLength(s0), s0, s1, s2, s3)
  }

  function DecodeLength(length: Length, s0: bv8, s1: bv8, s2: bv8, s3: bv8): Step<Visit> {
    var cp := DropSixes(CodePoint(s0 & Mask(length), s1, s2, s3), length);
    Step(Visit(cp, DropPairs(ErrorBits(cp, Least(length), s1, s2, s3) ^ 0x2a, length)), length)
  }

  lemma DecodeOne(c: bv32, s1: bv8, s2: bv8, s3: bv8)
    requires c < 0x80
    ensures Decode(c as bv8, s1, s2, s3) == Step(Visit(c, 0), 1)
  {
  }

  lemma TwoBits(c: bv32, s2: bv8, s3: bv8)
    requires 0x80 <= c < 0x800
    ensures CodePointLength(Lead2(c)) == 2
    ensures CodePoint(Lead2(c) & 0x1f, Tail0(c), s2, s3) >> 12 == c
  {
  }

  lemma TwoErrors(c: bv32, s2: bv8, s3: bv8)
    requires 0x80 <= c < 0x800
    ensures (ErrorBits(c, 128, Tail0(c), s2, s3) ^ 0x2a) >> 4 == 0
  {
  }

  lemma DecodeTwo(c: bv32, s2: bv8, s3: bv8)
    requires 0x80 <= c < 0x800
    ensures Decode(Lead2(c), Tail0(c), s2, s3) == Step(Visit(c, 0), 2)
  {
    TwoBits(c, s2, s3);
    TwoErrors(c, s2, s3);
  }

  lemma ThreeBits(c: bv32, s3: bv8)
    requires 0x800 <= c <= 0xffff
    ensures CodePointLength(Lead3(c)) == 3
    ensures CodePoint(Lead3(c) & 0x0f, Tail1(c), Tail0(c), s3) >> 6 == c
  {
  }

  lemma ThreeErrors(c: bv32, s3: bv8)
    requires 0x800 <= c <= 0xffff && IsScalar(c)
    ensures (ErrorBits(c, 2048, Tail1(c), Tail0(c), s3) ^ 0x2a) >> 2 == 0
  {
  }

  lemma DecodeThree(c: bv32, s3: bv8)
    requires 0x800 <= c <= 0xffff && IsScalar(c)
    ensures Decode(Lead3(c), Tail1(c), Tail0(c), s3) == Step(Visit(c, 0), 3)
  {
    ThreeBits(c, s3);
    ThreeErrors(c, s3);
  }

  lemma FourBits(c: bv32)
    requires 0x10000 <= c <= 0x10ffff
    ensures CodePointLength(Lead4(c)) == 4
    ensures CodePoint(Lead4(c) & 0x07, Tail2(c), Tail1(c), Tail0(c)) == c
  {
  }

  lemma FourErrors(c: bv32)
    requires 0x10000 <= c <= 0x10ffff
    ensures ErrorBits(c, 65536, Tail2(c), Tail1(c), Tail0(c)) ^ 0x2a == 0
  {
  }

  lemma DecodeFour(c: bv32)
    requires 0x10000 <= c <= 0x10ffff
    ensures Decode(Lead4(c), Tail2(c), Tail1(c), Tail0(c)) == Step(Visit(c, 0), 4)
  {
    FourBits(c);
    FourErrors(c);
  }

  ghost function Clean(cs: seq<bv32>): seq<Visit> {
    seq(|cs|, i requires 0 <= i < |cs| => Visit(cs[i], 0))
  }

  lemma DecodePadded(s: seq<bv8>, p: nat, c: bv32)
    requires IsScalar(c) && StandsAt(0, s, p, Encode(c))
    ensures Decode(At(0, s, p), At(0, s, p + 1), At(0, s, p + 2), At(0, s, p + 3)) == Step(Visit(c, 0), |Encode(c)|)
  {
    var e, s0, s1, s2, s3 := Encode(c), At(0, s, p + 0), At(0, s, p + 1), At(0, s, p + 2), At(0, s, p + 3);
    if c < 0x80 {
      assert s0 == e[0];
      DecodeOne(c, s1, s2, s3);
    } else if c < 0x800 {
      assert s0 == e[0] && s1 == e[1];
      DecodeTwo(c, s2, s3);
    } else if c <= 0xffff {
      assert s0 == e[0] && s1 == e[1] && s2 == e[2];
      DecodeThree(c, s3);
    } else {
      assert s0 == e[0] && s1 == e[1] && s2 == e[2] && s3 == e[3];
      DecodeFour(c);
    }
  }

  lemma DecodeInvertsEncode(c: bv32)
    requires IsScalar(c)
    ensures DecodesTo(Decode, 0, Encode(c), Visit(c, 0))
  {
    forall s: seq<bv8>, p: nat | StandsAt(0, s, p, Encode(c))
      ensures DecodeAt(Decode, 0, s, p) == Step(Visit(c, 0), |Encode(c)|)
    {
      DecodePadded(s, p, c);
    }
  }

  ghost function Parts(cs: seq<bv32>): seq<seq<bv8>>
    requires AllScalars(cs)
  {
    seq(|cs|, i requires 0 <= i < |cs| => Encode(cs[i]))
  }

  lemma {:induction false} EncodeAllIsFlatten(cs: seq<bv32>)
    requires AllScalars(cs)
    ensures EncodeAll(cs) == Flatten(Parts(cs))
  {
    if cs != [] {
      EncodeAllIsFlatten(cs[1..]);
      assert Parts(cs)[1..] == Parts(cs[1..]);
    }
  }

  // What reading a whole byte string visits.
  ghost function Visited(s: seq<bv8>): seq<Visit> {
    Visits(Decode, 0, s, 0)
  }

  method ForEachCodepoint(s: seq<bv8>) returns (visited: seq<Visit>)
    ensures visited == Visited(s)
  {
    visited := ForEach(Decode, 0, s);
  }

  // Every sequence of scalar values survives encoding and decoding.
  lemma VisitsInvertEncoding(cs: seq<bv32>)
    requires AllScalars(cs)
    ensures Visited(EncodeAll(cs)) == Clean(cs)
  {
    forall k | 0 <= k < |cs|
      ensures DecodesTo(Decode, 0, Parts(cs)[k], Clean(cs)[k])
    {
      DecodeInvertsEncode(cs[k]);
    }
    EncodeAllIsFlatten(cs);
    VisitsParts(Decode, 0, [], Parts(cs), Clean(cs));
    assert [] + EncodeAll(cs) == EncodeAll(cs);
  }

  function High(c: bv32): bv32 {
    0xd800 + ((c - 0x10000) >> 10)
  }

  function Low(c: bv32): bv32 {
    0xdc00 + ((c - 0x10000) & 0x3ff)
  }

  function Combine(high: bv32, low: bv32): bv32 {
    (high << 10) + low - 0x35fdc00
  }

  function Units(c: bv32): (u: seq<bv32>)
    ensures 1 <= |u| <= 2
  {
    if c <= 0xffff then [c] else [High(c), Low(c)]
  }

  ghost function Utf16(cs: seq<bv32>): seq<bv32> {
    if cs == [] then [] else Units(cs[0]) + Utf16(cs[1..])
  }

  lemma {:induction false} Utf16Append(cs: seq<bv32>, c: bv32)
    ensures Utf16(cs + [c]) == Utf16(cs) + Units(c)
  {
    if cs == [] {
      assert [c][1..] == [] && [] + [c] == [c];
    } else {
      assert (cs + [c])[1..] == cs[1..] + [c];
      Utf16Append(cs[1..], c);
    }
  }

  ghost function CodePoints(visits: seq<Visit>): seq<bv32> {
    seq(|visits|, i requires 0 <= i < |visits| => visits[i].cp)
  }

  ghost predicate NoErrors(visits: seq<Visit>) {
    forall k :: 0 <= k < |visits| ==> visits[k].error == 0
  }

  lemma UnitsSoFar(visits: seq<Visit>, i: nat)
    requires i < |visits|
    ensures Utf16(CodePoints(visits[..i + 1])) == Utf16(CodePoints(visits[..i])) + Units(visits[i].cp)
  {
    Utf16Append(CodePoints(visits[..i]), visits[i].cp);
    assert CodePoints(visits[..i + 1]) == CodePoints(visits[..i]) + [visits[i].cp];
  }

  // The units of the visited code points and a closing zero, or an exception at
  // the first error.
  method Utf8ToUtf16(s: seq<bv8>) returns (r: Option<seq<bv32>>)
    ensures r == if NoErrors(Visited(s)) then Some(Utf16(CodePoints(Visited(s))) + [0]) else None
  {
    var visits := ForEachCodepoint(s);
    r := Convert(visits);
  }

  method Convert(visits: seq<Visit>) returns (r: Option<seq<bv32>>)
    ensures r == if NoErrors(visits) then Some(Utf16(CodePoints(visits)) + [0]) else None
  {
    var buffer, i := [], 0;
    while i < |visits|
      invariant 0 <= i <= |visits| && NoErrors(visits[..i])
      invariant buffer == Utf16(CodePoints(visits[..i]))
    {
      if visits[i].error != 0 {
        return None;
      }
      UnitsSoFar(visits, i);
      buffer := PushUnits(buffer, visits[i].cp);
      i := i + 1;
    }
    assert visits[..i] == visits;
    r := Some(buffer + [0]);
  }

  method PushUnits(buffer: seq<bv32>, codePoint: bv32) returns (r: seq<bv32>)
    ensures r == buffer + Units(codePoint)
  {
    var cp := codePoint;
    if cp <= 0xffff {
      r := buffer + [cp];
    } else {
      cp := cp - 0x10000;
      r := buffer + [0xd800 + (cp >> 10)];
      r := r + [0xdc00 + (cp & 0x3ff)];
    }
  }

  // The code points that the encoder reads off its units; `sixteen` says that
  // they are 16 bits wide, in which case surrogates have to come in pairs.
  ghost function Read(units: seq<bv32>, sixteen: bool): Option<seq<bv32>> {
    if units == [] then Some([])
    else if sixteen && 0xd800 <= units[0] <= 0xdfff then
      if |units| == 1 || units[0] & 0xfc00 != 0xd800 || units[1] & 0xfc00 != 0xdc00 then None
      else Push(Combine(units[0], units[1]), Read(units[2..], sixteen))
    else Push(units[0], Read(units[1..], sixteen))
  }

  ghost function Push(c: bv32, rest: Option<seq<bv32>>): Option<seq<bv32>> {
    if rest.Some? && IsScalar(c) then Some([c] + rest.value) else None
  }

  lemma {:induction false} ReadScalars(units: seq<bv32>, sixteen: bool)
    ensures Read(units, sixteen).Some? ==> AllScalars(Read(units, sixteen).value)
  {
    if units != [] {
      ReadScalars(units[1..], sixteen);
      if |units| > 1 {
        ReadScalars(units[2..], sixteen);
      }
    }
  }

  // What is still to be appended to `done`.
  ghost function Rest(done: seq<bv8>, units: seq<bv32>, sixteen: bool): Option<seq<bv8>> {
    ReadScalars(units, sixteen);
    match Read(units, sixteen)
    case None => None
    case Some(cs) => Some(done + EncodeAll(cs))
  }

  method EncodeUnits(units: seq<bv32>, sixteen: bool) returns (r: Option<seq<bv8>>)
    ensures r == Rest([], units, sixteen)
  {
    var str, p := [], 0;
    assert units[0..] == units;
    while p < |units|
      invariant 0 <= p <= |units| && Rest(str, units[p..], sixteen) == Rest([], units, sixteen)
      decreases |units| - p
    {
      ghost var from := p;
      var ok, c;
      ok, c, p := ReadOne(units, p, sixteen);
      if !ok {
        return None;
      }
      EncodeStep(str, units, from, p, c, sixteen);
      ok, str := PushUtf8(str, c);
      if !ok {
        return None;
      }
    }
    assert units[p..] == [] && str + EncodeAll([]) == str;
    r := Some(str);
  }

  // Takes a unit, or a surrogate pair, from the front.
  method ReadOne(units: seq<bv32>, p: nat, sixteen: bool) returns (ok: bool, c: bv32, next: nat)
    requires p < |units|
    ensures ok ==> p < next <= |units| && Read(units[p..], sixteen) == Push(c, Read(units[next..], sixteen))
    ensures !ok ==> Read(units[p..], sixteen) == None
  {
    ReadStep(units, p, sixteen);
    c, next := units[p], p;
    if sixteen && 0xd800 <= c <= 0xdfff {
      next := next + 1;
      if next == |units| || c & 0xfc00 != 0xd800 || units[next] & 0xfc00 != 0xdc00 {
        return false, c, next;
      }
      c := (c << 10) + units[next] - 0x35fdc00;
    }
    return true, c, next + 1;
  }

  method PushUtf8(str: seq<bv8>, c: bv32) returns (ok: bool, r: seq<bv8>)
    ensures ok <==> IsScalar(c)
    ensures ok ==> r == str + Encode(c)
  {
    if c < 0x80 {
      return true, str + [c as bv8];
    } else if c < 0x800 {
      return true, str + [Lead2(c)] + [Tail0(c)];
    } else if 0x800 <= c <= 0xd7ff || 0xe000 <= c <= 0xffff {
      return true, str + [Lead3(c)] + [Tail1(c)] + [Tail0(c)];
    } else if 0x10000 <= c <= 0x10ffff {
      return true, str + [Lead4(c)] + [Tail2(c)] + [Tail1(c)] + [Tail0(c)];
    } else {
      return false, str;
    }
  }

  ghost predicate Broken(units: seq<bv32>, from: nat)
    requires from < |units|
  {
    from + 1 == |units| || units[from] & 0xfc00 != 0xd800 || units[from + 1] & 0xfc00 != 0xdc00
  }

  lemma ReadStep(units: seq<bv32>, from: nat, sixteen: bool)
    requires from < |units|
    ensures Read(units[from..], sixteen)
            == if !(sixteen && 0xd800 <= units[from] <= 0xdfff) then Push(units[from], Read(units[from + 1..], sixteen))
               else if Broken(units, from) then None
               else Push(Combine(units[from], units[from + 1]), Read(units[from + 2..], sixteen))
  {
    assert units[from..][1..] == units[from + 1..];
    if from + 1 < |units| {
      assert units[from..][2..] == units[from + 2..];
    }
  }

  lemma EncodeStep(done: seq<bv8>, units: seq<bv32>, from: nat, to: nat, c: bv32, sixteen: bool)
    requires from < to <= |units| && Read(units[from..], sixteen) == Push(c, Read(units[to..], sixteen))
    ensures IsScalar(c) ==> Rest(done, units[from..], sixteen) == Rest(done + Encode(c), units[to..], sixteen)
    ensures !IsScalar(c) ==> Rest(done, units[from..], sixteen) == None
  {
    ReadScalars(units[to..], sixteen);
    if IsScalar(c) && Read(units[to..], sixteen).Some? {
      var cs := Read(units[to..], sixteen).value;
      assert ([c] + cs)[1..] == cs;
      assert done + (Encode(c) + EncodeAll(cs)) == done + Encode(c) + EncodeAll(cs);
    }
  }

  // Surrogate pairs, both ways.
  lemma PairCombines(c: bv32)
    requires 0x10000 <= c <= 0x10ffff
    ensures Combine(High(c), Low(c)) == c
  {
  }

  lemma PairRanges(c: bv32)
    requires 0x10000 <= c <= 0x10ffff
    ensures 0xd800 <= High(c) <= 0xdbff && High(c) & 0xfc00 == 0xd800
    ensures 0xdc00 <= Low(c) <= 0xdfff && Low(c) & 0xfc00 == 0xdc00
  {
  }

  lemma PairIsUnits(high: bv32, low: bv32)
    requires 0xd800 <= high <= 0xdfff && low <= 0xffff && high & 0xfc00 == 0xd800 && low & 0xfc00 == 0xdc00
    ensures var c := Combine(high, low);
            0x10000 <= c <= 0x10ffff && High(c) == high && Low(c) == low
  {
  }

  lemma {:induction false} ReadInvertsUtf16(cs: seq<bv32>)
    requires AllScalars(cs)
    ensures Read(Utf16(cs), true) == Some(cs)
  {
    if cs != [] {
      var u, rest := Units(cs[0]), Utf16(cs[1..]);
      ReadInvertsUtf16(cs[1..]);
      assert [cs[0]] + cs[1..] == cs;
      if cs[0] > 0xffff {
        PairCombines(cs[0]);
        PairRanges(cs[0]);
        assert Utf16(cs)[2..] == rest;
      } else {
        assert Utf16(cs)[1..] == rest;
      }
    }
  }

  // Sixteen-bit units are accepted exactly when they are the UTF-16 form of some
  // scalar values.
  lemma {:induction false} AcceptedIsUtf16(units: seq<bv32>)
    requires forall k :: 0 <= k < |units| ==> units[k] <= 0xffff
    requires Read(units, true).Some?
    ensures Utf16(Read(units, true).value) == units
  {
    if units != [] {
      var cs := Read(units, true).value;
      if 0xd800 <= units[0] <= 0xdfff {
        PairIsUnits(units[0], units[1]);
        AcceptedIsUtf16(units[2..]);
        assert cs[1..] == Read(units[2..], true).value;
        assert units == [units[0], units[1]] + units[2..];
      } else {
        AcceptedIsUtf16(units[1..]);
        assert cs[1..] == Read(units[1..], true).value;
        assert units == [units[0]] + units[1..];
      }
    }
  }

  // Encoding UTF-16 as UTF-8 and converting back is the identity.
  lemma Utf16RoundTrip(cs: seq<bv32>)
    requires AllScalars(cs)
    ensures Rest([], Utf16(cs), true) == Some(EncodeAll(cs))
    ensures NoErrors(Visited(EncodeAll(cs))) && Utf16(CodePoints(Visited(EncodeAll(cs)))) == Utf16(cs)
  {
    ReadInvertsUtf16(cs);
    assert [] + EncodeAll(cs) == EncodeAll(cs);
    VisitsInvertEncoding(cs);
    assert CodePoints(Clean(cs)) == cs;
  }

  // With 32-bit units every scalar value is read as it stands, and only those.
  lemma {:induction false} ReadWide(units: seq<bv32>)
    ensures Read(units, false) == if AllScalars(units) then Some(units) else None
  {
    if units != [] {
      ReadWide(units[1..]);
      assert [units[0]] + units[1..] == units;
      assert AllScalars(units) ==> AllScalars(units[1..]);
      assert AllScalars(units[1..]) && IsScalar(units[0]) ==> AllScalars(units);
    }
  }
}
