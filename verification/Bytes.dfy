/** Octets, fixed-width integers and the two byte orders every wire format of
    the system is written in. */
module Bytes {

  type byte = x: int | 0 <= x < 256
  type u16 = x: int | 0 <= x < 0x1_0000
  type u32 = x: int | 0 <= x < 0x1_0000_0000
  type Bytes = seq<byte>

  datatype Option<+T> = None | Some(value: T)

  lemma Assoc<T>(a: seq<T>, b: seq<T>, c: seq<T>)
    ensures a + (b + c) == a + b + c
  {
  }

  /** One sequence split in two ways: the longer front goes on with the other rest. */
  lemma SplitAt<T>(a: seq<T>, b: seq<T>, c: seq<T>, d: seq<T>)
    requires a + b == c + d && |a| >= |c|
    ensures a[..|c|] == c && a[|c|..] + b == d
  {
    assert (a + b)[..|c|] == a[..|c|] && (c + d)[..|c|] == c;
    assert (a + b)[|c|..] == a[|c|..] + b && (c + d)[|c|..] == d;
  }

  lemma SplitEqual<T>(a: seq<T>, b: seq<T>, c: seq<T>, d: seq<T>)
    requires |a| == |c|
    ensures a + b == c + d <==> a == c && b == d
  {
    if a + b == c + d {
      SplitAt(a, b, c, d);
      assert a[..|c|] == a && a[|c|..] + b == b;
    }
  }

  /** Concatenation of a list of byte strings, in order. */
  function Flat(parts: seq<Bytes>): Bytes {
    if parts == [] then [] else parts[0] + Flat(parts[1..])
  }

  lemma {:induction false} FlatAppend(a: seq<Bytes>, b: seq<Bytes>)
    ensures Flat(a + b) == Flat(a) + Flat(b)
  {
    if a == [] {
      assert a + b == b;
    } else {
      FlatAppend(a[1..], b);
      assert (a + b)[0] == a[0] && (a + b)[1..] == a[1..] + b;
      Assoc(a[0], Flat(a[1..]), Flat(b));
    }
  }

  lemma FlatSnoc(a: seq<Bytes>, x: Bytes)
    ensures Flat(a + [x]) == Flat(a) + x
  {
    FlatAppend(a, [x]);
    assert Flat([x]) == x;
  }

  function Zeros(n: nat): (z: Bytes)
    ensures |z| == n && forall i :: 0 <= i < n ==> z[i] == 0
  {
    seq(n, _ => 0)
  }

  // ---------------------------------------------------------------- 16 bits

  function Be16(v: u16): Bytes {
    [v / 0x100, v % 0x100]
  }

  function U16At(b: Bytes, at: nat, bigEndian: bool): u16
    requires at + 2 <= |b|
  {
    if bigEndian then b[at] as int * 0x100 + b[at + 1] else b[at + 1] as int * 0x100 + b[at]
  }

  // ---------------------------------------------------------------- 32 bits

  /** Four octets, most significant first, in Horner form. */
  function Word(b3: byte, b2: byte, b1: byte, b0: byte): u32 {
    ((b3 as int * 0x100 + b2 as int) * 0x100 + b1 as int) * 0x100 + b0 as int
  }

  /** The last `n` octets of a number, most significant first. */
  function Octets(v: nat, n: nat): (b: Bytes)
    ensures |b| == n
  {
    if n == 0 then [] else Octets(v / 0x100, n - 1) + [v % 0x100]
  }

  /** The last `n` octets of a number, least significant first. */
  function LowFirst(v: nat, n: nat): (b: Bytes)
    ensures |b| == n
  {
    if n == 0 then [] else [v % 0x100] + LowFirst(v / 0x100, n - 1)
  }

  function Be32(v: u32): (b: Bytes)
    ensures |b| == 4
  {
    Octets(v, 4)
  }

  function Le32(v: u32): (b: Bytes)
    ensures |b| == 4
  {
    LowFirst(v, 4)
  }

  lemma OctetsStep(hi: nat, lo: byte, n: nat)
    ensures Octets(hi * 0x100 + lo, n + 1) == Octets(hi, n) + [lo]
    ensures LowFirst(hi * 0x100 + lo, n + 1) == [lo] + LowFirst(hi, n)
  {
    Horner(hi, lo);
    OctetsUnfold(hi * 0x100 + lo, n + 1);
    hide Octets, LowFirst;
  }

  lemma Horner(hi: int, lo: byte)
    ensures (hi * 0x100 + lo) / 0x100 == hi && (hi * 0x100 + lo) % 0x100 == lo
  {
  }

  lemma OctetsUnfold(v: nat, n: nat)
    requires n > 0
    ensures Octets(v, n) == Octets(v / 0x100, n - 1) + [v % 0x100]
    ensures LowFirst(v, n) == [v % 0x100] + LowFirst(v / 0x100, n - 1)
  {
  }

  lemma OctetsOfWord(b3: byte, b2: byte, b1: byte, b0: byte)
    ensures Be32(Word(b3, b2, b1, b0)) == [b3, b2, b1, b0] && Le32(Word(b3, b2, b1, b0)) == [b0, b1, b2, b3]
  {
    var w2: nat := b3 as int * 0x100 + b2;
    var w1: nat := w2 * 0x100 + b1;
    OctetsStep(w1, b0, 3);
    OctetsStep(w2, b1, 2);
    OctetsStep(b3, b2, 1);
    OctetsStep(0, b3, 0);
    assert Octets(0, 0) == [] && LowFirst(0, 0) == [];
    hide Octets, LowFirst;
  }

  /** Every number of 32 bits is the word of its octets. */
  lemma WordOfOctets(v: u32)
    ensures var d := Be32(v); v == Word(d[0], d[1], d[2], d[3]) && Le32(v) == [d[3], d[2], d[1], d[0]]
  {
    OctetsOfWord(v / 0x100 / 0x100 / 0x100, v / 0x100 / 0x100 % 0x100, v / 0x100 % 0x100, v % 0x100);
  }

  function U32At(b: Bytes, at: nat, bigEndian: bool): u32
    requires at + 4 <= |b|
  {
    if bigEndian then
      Word(b[at], b[at + 1], b[at + 2], b[at + 3])
    else
      Word(b[at + 3], b[at + 2], b[at + 1], b[at])
  }

  lemma ReadBe32(b: Bytes, at: nat, v: u32)
    requires at + 4 <= |b| && b[at..at + 4] == Be32(v)
    ensures U32At(b, at, true) == v
  {
    hide Word, Be32, Le32;
    WordOfOctets(v);
    var d := b[at..at + 4];
    assert b[at] == d[0] && b[at + 1] == d[1] && b[at + 2] == d[2] && b[at + 3] == d[3];
  }

  lemma ReadLe32(b: Bytes, at: nat, v: u32)
    requires at + 4 <= |b| && b[at..at + 4] == Le32(v)
    ensures U32At(b, at, false) == v
  {
    hide Word, Be32, Le32;
    WordOfOctets(v);
    var d := b[at..at + 4];
    assert b[at] == d[0] && b[at + 1] == d[1] && b[at + 2] == d[2] && b[at + 3] == d[3];
  }

  /** Reading inside a longer string is reading the piece itself. */
  lemma ReadInside(pre: Bytes, b: Bytes, post: Bytes, at: nat, bigEndian: bool)
    requires at + 4 <= |b|
    ensures U32At(pre + b + post, |pre| + at, bigEndian) == U32At(b, at, bigEndian)
  {
    hide Word;
    var s := pre + b + post;
    assert s[|pre| + at] == b[at] && s[|pre| + at + 1] == b[at + 1];
    assert s[|pre| + at + 2] == b[at + 2] && s[|pre| + at + 3] == b[at + 3];
  }

  /** A list of big-endian words. */
  function Be32s(vs: seq<u32>): (b: Bytes)
    ensures |b| == 4 * |vs|
  {
    if vs == [] then [] else Be32(vs[0]) + Be32s(vs[1..])
  }

  lemma {:induction false} ReadBe32s(vs: seq<u32>, k: nat)
    requires k < |vs|
    ensures U32At(Be32s(vs), 4 * k, true) == vs[k]
  {
    hide U32At;
    var head, tail := Be32(vs[0]), Be32s(vs[1..]);
    assert [] + head + tail == head + tail && head + tail + [] == head + tail;
    if k == 0 {
      ReadInside([], head, tail, 0, true);
      ReadBe32(head, 0, vs[0]);
    } else {
      ReadBe32s(vs[1..], k - 1);
      ReadInside(head, tail, [], 4 * (k - 1), true);
    }
  }

  lemma Be32sFirst(vs: seq<u32>)
    ensures Be32s(vs) == if vs == [] then [] else Be32(vs[0]) + Be32s(vs[1..])
  {
  }

  /** Words read one after the other encode back to the octets they came from. */
  lemma {:induction false} WriteBe32s(b: Bytes, at: nat, vs: seq<u32>)
    requires at + 4 * |vs| <= |b|
    requires forall k :: 0 <= k < |vs| ==> vs[k] == U32At(b, at + 4 * k, true)
    ensures Be32s(vs) == b[at..at + 4 * |vs|]
    decreases |vs|
  {
    hide U32At, Be32, Be32s;
    Be32sFirst(vs);
    if vs != [] {
      var end := at + 4 * |vs|;
      assert forall k :: 0 <= k < |vs[1..]| ==> vs[1..][k] == U32At(b, at + 4 + 4 * k, true) by {
        forall k | 0 <= k < |vs[1..]| ensures vs[1..][k] == U32At(b, at + 4 + 4 * k, true) {
          assert vs[k + 1] == U32At(b, at + 4 * (k + 1), true);
        }
      }
      assert vs[0] == U32At(b, at + 4 * 0, true);
      WriteBe32(b, at);
      WriteBe32s(b, at + 4, vs[1..]);
      assert b[at..end] == b[at..at + 4] + b[at + 4..end];
    }
  }

  /** A list of little-endian words. */
  function Le32s(vs: seq<u32>): (b: Bytes)
    ensures |b| == 4 * |vs|
  {
    if vs == [] then [] else Le32(vs[0]) + Le32s(vs[1..])
  }

  lemma {:induction false} ReadLe32s(vs: seq<u32>, k: nat)
    requires k < |vs|
    ensures U32At(Le32s(vs), 4 * k, false) == vs[k]
  {
    hide U32At;
    var head, tail := Le32(vs[0]), Le32s(vs[1..]);
    assert [] + head + tail == head + tail && head + tail + [] == head + tail;
    if k == 0 {
      ReadInside([], head, tail, 0, false);
      ReadLe32(head, 0, vs[0]);
    } else {
      ReadLe32s(vs[1..], k - 1);
      ReadInside(head, tail, [], 4 * (k - 1), false);
    }
  }

  /** The four octets at a position are the encoding of the number read there. */
  lemma WriteBe32(b: Bytes, at: nat)
    requires at + 4 <= |b|
    ensures Be32(U32At(b, at, true)) == b[at..at + 4]
  {
    hide Word, Be32;
    OctetsOfWord(b[at], b[at + 1], b[at + 2], b[at + 3]);
  }
}
