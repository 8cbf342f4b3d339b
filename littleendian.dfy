/**
 * Little-endian unsigned integers over byte sequences: the word reads
 * (le64toh / le32toh) that the graph file format relies on, and the matching
 * writer used to state what a well-formed file holds.
 */
module LittleEndian {

  newtype byte = x: int | 0 <= x < 256

  /** 256 to the power w: one more than the largest w-byte word. */
  function Pow256(w: nat): (p: nat)
    ensures p >= 1
  {
    if w == 0 then 1 else 256 * Pow256(w - 1)
  }

  /** The unsigned little-endian number spelled by the bytes of s, lowest first. */
  function Value(s: seq<byte>): (v: nat)
    ensures v < Pow256(|s|)
  {
    if s == [] then 0 else s[0] as nat + 256 * Value(s[1..])
  }

  /** The unsigned w-byte little-endian word at byte offset off of m. */
  function Decode(m: seq<byte>, off: nat, w: nat): (v: nat)
    requires off + w <= |m|
    ensures v < Pow256(w)
  {
    Value(m[off..off + w])
  }

  /** The w bytes, lowest first, that spell v. */
  function Encode(v: nat, w: nat): (s: seq<byte>)
    requires v < Pow256(w)
    ensures |s| == w
    decreases w
  {
    if w == 0 then [] else [(v % 256) as byte] + Encode(v / 256, w - 1)
  }

  lemma {:induction false} ValueEncode(v: nat, w: nat)
    requires v < Pow256(w)
    ensures Value(Encode(v, w)) == v
    decreases w
  {
    if w > 0 {
      var s := Encode(v, w);
      ValueEncode(v / 256, w - 1);
      assert s[1..] == Encode(v / 256, w - 1);
    }
  }

  lemma DecodeEncode(v: nat, w: nat)
    requires v < Pow256(w)
    ensures Decode(Encode(v, w), 0, w) == v
  {
    ValueEncode(v, w);
    assert Encode(v, w)[0..w] == Encode(v, w);
  }

  /** A word read past a prefix is the word read in the rest. */
  lemma DecodeShift(a: seq<byte>, b: seq<byte>, off: nat, w: nat)
    requires off + w <= |b|
    ensures Decode(a + b, |a| + off, w) == Decode(b, off, w)
  {
    assert (a + b)[|a| + off..|a| + off + w] == b[off..off + w];
  }

  /** A word read inside a prefix ignores what follows it. */
  lemma DecodePrefix(a: seq<byte>, b: seq<byte>, off: nat, w: nat)
    requires off + w <= |a|
    ensures Decode(a + b, off, w) == Decode(a, off, w)
  {
    assert (a + b)[off..off + w] == a[off..off + w];
  }

  /** The words of xs, each w bytes wide, one after another. */
  function EncodeAll(xs: seq<nat>, w: nat): (s: seq<byte>)
    requires forall i :: 0 <= i < |xs| ==> xs[i] < Pow256(w)
    ensures |s| == |xs| * w
  {
    if xs == [] then [] else Encode(xs[0], w) + EncodeAll(xs[1..], w)
  }

  /** Word i of an encoded sequence decodes to xs[i]. */
  lemma {:induction false} DecodeEncodeAll(xs: seq<nat>, w: nat, i: nat)
    requires forall j :: 0 <= j < |xs| ==> xs[j] < Pow256(w)
    requires i < |xs|
    ensures i * w + w <= |EncodeAll(xs, w)|
    ensures Decode(EncodeAll(xs, w), i * w, w) == xs[i]
  {
    var head := Encode(xs[0], w);
    var tail := EncodeAll(xs[1..], w);
    assert EncodeAll(xs, w) == head + tail;
    if i == 0 {
      DecodePrefix(head, tail, 0, w);
      DecodeEncode(xs[0], w);
    } else {
      DecodeEncodeAll(xs[1..], w, i - 1);
      assert i * w == w + (i - 1) * w;
      DecodeShift(head, tail, (i - 1) * w, w);
    }
  }
}
