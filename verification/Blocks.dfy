// Reading a string whose decoder always takes four elements at once.
module Blocks {

  // A decoder goes on by one to four elements whatever it is given.
  type Length = n: nat | 1 <= n <= 4 witness 1

  datatype Step<V> = Step(value: V, length: Length)

  type Decoder<!B, V> = (B, B, B, B) -> Step<V>

  // Element i, in a string that goes on with zeros.
  function At<B>(zero: B, s: seq<B>, i: nat): B {
    if i < |s| then s[i] else zero
  }

  ghost function DecodeAt<B, V>(decode: Decoder<B, V>, zero: B, s: seq<B>, p: nat): Step<V> {
    decode(At(zero, s, p), At(zero, s, p + 1), At(zero, s, p + 2), At(zero, s, p + 3))
  }

  // What a reading of s from p on, one step after the other, sees.
  ghost function Visits<B, V>(decode: Decoder<B, V>, zero: B, s: seq<B>, p: nat): seq<V>
    decreases |s| - p
  {
    if p >= |s| then []
    else
      var d := DecodeAt(decode, zero, s, p);
      [d.value] + Visits(decode, zero, s, p + d.length)
  }

  lemma VisitStep<B, V>(decode: Decoder<B, V>, zero: B, visited: seq<V>, s: seq<B>, p: nat, d: Step<V>)
    requires p < |s| && d == DecodeAt(decode, zero, s, p)
    ensures visited + Visits(decode, zero, s, p) == visited + [d.value] + Visits(decode, zero, s, p + d.length)
  {
    var rest := Visits(decode, zero, s, p + d.length);
    assert visited + ([d.value] + rest) == visited + [d.value] + rest;
  }

  // Decodes at q in a buffer that holds the elements of s from p on, padded.
  method DecodeBlock<B, V>(decode: Decoder<B, V>, zero: B, buf: seq<B>, q: nat, ghost s: seq<B>, ghost p: nat) returns (d: Step<V>)
    requires q + 4 <= |buf| && forall k :: 0 <= k < |buf| ==> buf[k] == At(zero, s, p + k)
    ensures d == DecodeAt(decode, zero, s, p + q)
  {
    assert buf[q] == At(zero, s, p + q) && buf[q + 1] == At(zero, s, p + (q + 1));
    assert buf[q + 2] == At(zero, s, p + (q + 2)) && buf[q + 3] == At(zero, s, p + (q + 3));
    d := decode(buf[q], buf[q + 1], buf[q + 2], buf[q + 3]);
  }

  // Whole blocks of four are decoded in place, the last few elements in a copy
  // padded with zeros. For every string, well formed or not, no read is out of
  // bounds and the split cannot be seen from outside.
  method ForEach<B, V>(decode: Decoder<B, V>, zero: B, s: seq<B>) returns (visited: seq<V>)
    ensures visited == Visits(decode, zero, s, 0)
  {
    visited := [];
    var p := 0;
    assert visited + Visits(decode, zero, s, 0) == Visits(decode, zero, s, 0);
    while p + 4 <= |s|
      invariant 0 <= p <= |s| && visited + Visits(decode, zero, s, p) == Visits(decode, zero, s, 0)
      decreases |s| - p
    {
      var d := DecodeBlock(decode, zero, s, p, s, 0);
      VisitStep(decode, zero, visited, s, p, d);
      visited := visited + [d.value];
      p := p + d.length;
    }
    if p < |s| {
      var tail := DecodeTail(decode, zero, s, p);
      visited := visited + tail;
    } else {
      assert Visits(decode, zero, s, p) == [];
    }
  }

  function PadTail<B>(zero: B, s: seq<B>, p: nat): (buf: seq<B>)
    requires p < |s| < p + 4
    ensures |buf| == 7 && forall k :: 0 <= k < 7 ==> buf[k] == At(zero, s, p + k)
  {
    s[p..] + seq(7 - (|s| - p), _ => zero)
  }

  method DecodeTail<B, V>(decode: Decoder<B, V>, zero: B, s: seq<B>, p: nat) returns (visited: seq<V>)
    requires p < |s| < p + 4
    ensures visited == Visits(decode, zero, s, p)
  {
    var left := |s| - p;
    var buf := PadTail(zero, s, p);
    visited := [];
    var q := 0;
    assert visited + Visits(decode, zero, s, p) == Visits(decode, zero, s, p);
    while q < left
      invariant 0 <= q && visited + Visits(decode, zero, s, p + q) == Visits(decode, zero, s, p)
      decreases left - q
    {
      var d := DecodeBlock(decode, zero, buf, q, s, p);
      VisitStep(decode, zero, visited, s, p + q, d);
      visited := visited + [d.value];
      q := q + d.length;
    }
    assert visited + [] == visited;
  }

  ghost predicate StandsAt<B>(zero: B, s: seq<B>, p: nat, e: seq<B>) {
    forall k :: 0 <= k < |e| ==> At(zero, s, p + k) == e[k]
  }

  // Wherever the elements of e stand and whatever follows, they decode to v.
  ghost predicate DecodesTo<B(!new), V>(decode: Decoder<B, V>, zero: B, e: seq<B>, v: V) {
    && 1 <= |e| <= 4
    && forall s: seq<B>, p: nat :: StandsAt(zero, s, p, e) ==> DecodeAt(decode, zero, s, p) == Step(v, |e|)
  }

  ghost function Flatten<B>(parts: seq<seq<B>>): seq<B> {
    if parts == [] then [] else parts[0] + Flatten(parts[1..])
  }

  lemma VisitPart<B(!new), V>(decode: Decoder<B, V>, zero: B, pre: seq<B>, e: seq<B>, v: V, tail: seq<B>)
    requires DecodesTo(decode, zero, e, v)
    ensures Visits(decode, zero, pre + (e + tail), |pre|) == [v] + Visits(decode, zero, (pre + e) + tail, |pre + e|)
  {
    var s := pre + (e + tail);
    assert s == (pre + e) + tail;
    assert StandsAt(zero, s, |pre|, e);
  }

  // A string put together from parts that decode is read part by part.
  lemma {:induction false} VisitsParts<B(!new), V>(decode: Decoder<B, V>, zero: B, pre: seq<B>, parts: seq<seq<B>>, vs: seq<V>)
    requires |parts| == |vs| && forall k :: 0 <= k < |vs| ==> DecodesTo(decode, zero, parts[k], vs[k])
    ensures Visits(decode, zero, pre + Flatten(parts), |pre|) == vs
    decreases |vs|
  {
    if vs != [] {
      assert DecodesTo(decode, zero, parts[0], vs[0]);
      VisitPart(decode, zero, pre, parts[0], vs[0], Flatten(parts[1..]));
      VisitsParts(decode, zero, pre + parts[0], parts[1..], vs[1..]);
    }
  }
}
