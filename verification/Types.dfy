/** Small types and word-size constants shared by every component. */
module Types {
  datatype Option<+T> = None | Some(value: T)

  type Byte = b: int | 0 <= b < 256

  const TWO32: int := 0x1_0000_0000
  const TWO64: int := 0x1_0000_0000_0000_0000

  /** `n` copies of `x`. */
  function Repeat<T>(x: T, n: nat): (r: seq<T>)
    ensures |r| == n && forall k | 0 <= k < n :: r[k] == x
  {
    if n == 0 then [] else Repeat(x, n - 1) + [x]
  }

  function RoundUp4(size: int): (r: int)
    ensures r % 4 == 0 && size <= r < size + 4
  {
    (size + 3) / 4 * 4
  }

  // Little-endian words
  function Word16(b: seq<Byte>, at: int): (w: int)
    requires 0 <= at && at + 2 <= |b|
    ensures 0 <= w < 0x1_0000
  {
    b[at] as int + 256 * b[at + 1] as int
  }

  function Word32(b: seq<Byte>, at: int): (w: int)
    requires 0 <= at && at + 4 <= |b|
    ensures 0 <= w < TWO32
  {
    Word16(b, at) + 0x1_0000 * Word16(b, at + 2)
  }

  function Word64(b: seq<Byte>, at: int): (w: int)
    requires 0 <= at && at + 8 <= |b|
    ensures 0 <= w < TWO64
  {
    Word32(b, at) + TWO32 * Word32(b, at + 4)
  }

  function Bytes16(x: int): (b: seq<Byte>)
    ensures |b| == 2 && (0 <= x < 0x1_0000 ==> Word16(b, 0) == x)
  {
    [(x % 256) as Byte, (x / 256 % 256) as Byte]
  }

  function Bytes32(x: int): (b: seq<Byte>)
    ensures |b| == 4 && (0 <= x < TWO32 ==> Word32(b, 0) == x)
  {
    var low, high := Bytes16(x % 0x1_0000), Bytes16(x / 0x1_0000);
    assert Word16(low + high, 0) == Word16(low, 0) && Word16(low + high, 2) == Word16(high, 0);
    low + high
  }

  function Bytes64(x: int): (b: seq<Byte>)
    ensures |b| == 8 && (0 <= x < TWO64 ==> Word64(b, 0) == x)
  {
    var low, high := Bytes32(x % TWO32), Bytes32(x / TWO32);
    assert Word32(low + high, 0) == Word32(low, 0) && Word32(low + high, 4) == Word32(high, 0);
    low + high
  }

  /** The lowest byte of a word comes first. */
  lemma LittleEndian(b: seq<Byte>, at: int)
    requires 0 <= at && at + 8 <= |b|
    ensures Word16(b, at) == b[at] as int + 0x100 * b[at + 1] as int
    ensures Word32(b, at) == Word16(b, at) + 0x1_0000 * b[at + 2] as int + 0x100_0000 * b[at + 3] as int
    ensures Word64(b, at) % TWO32 == Word32(b, at) && Word64(b, at) / TWO32 == Word32(b, at + 4)
  {
  }

  /** Words of a part of a sequence of bytes are words of the whole. */
  lemma WordsOfPart(whole: seq<Byte>, part: seq<Byte>, from: int, at: int)
    requires 0 <= from && from + |part| <= |whole| && part == whole[from..from + |part|] && 0 <= at
    ensures at + 2 <= |part| ==> Word16(whole, from + at) == Word16(part, at)
    ensures at + 4 <= |part| ==> Word32(whole, from + at) == Word32(part, at)
    ensures at + 8 <= |part| ==> Word64(whole, from + at) == Word64(part, at)
  {
    assert forall k | 0 <= k < |part| :: part[k] == whole[from + k];
  }

  /** The words at offset `at` of `whole` are those that `field` starts with. */
  ghost predicate FieldAt(whole: seq<Byte>, at: int, field: seq<Byte>) {
    && 0 <= at && at + |field| <= |whole|
    && (|field| >= 1 ==> whole[at] == field[0])
    && (|field| >= 2 ==> Word16(whole, at) == Word16(field, 0))
    && (|field| >= 4 ==> Word32(whole, at) == Word32(field, 0))
    && (|field| >= 8 ==> Word64(whole, at) == Word64(field, 0))
  }

  lemma SliceIsField(whole: seq<Byte>, at: int, field: seq<Byte>)
    requires 0 <= at && at + |field| <= |whole| && whole[at..at + |field|] == field
    ensures FieldAt(whole, at, field)
  {
    WordsOfPart(whole, field, at, 0);
  }

  /** Four fields one after the other, behind `before` and in front of `behind`. */
  lemma FourFields(before: seq<Byte>, a: seq<Byte>, b: seq<Byte>, c: seq<Byte>, d: seq<Byte>, behind: seq<Byte>)
    ensures var w, at := before + (a + b + c + d) + behind, |before|;
            && FieldAt(w, at, a) && FieldAt(w, at + |a|, b) && FieldAt(w, at + |a| + |b|, c)
            && FieldAt(w, at + |a| + |b| + |c|, d)
  {
    var w := before + (a + b + c + d) + behind;
    assert w == before + (a + b) + ((c + d) + behind);
    assert w == (before + (a + b)) + (c + d) + behind;
    TwoFields(before, a, b, (c + d) + behind);
    TwoFields(before + (a + b), c, d, behind);
  }

  lemma TwoFields(before: seq<Byte>, a: seq<Byte>, b: seq<Byte>, behind: seq<Byte>)
    ensures var w := before + (a + b) + behind; FieldAt(w, |before|, a) && FieldAt(w, |before| + |a|, b)
  {
    var w, at := before + (a + b) + behind, |before|;
    assert w[at..at + |a|] == a;
    assert w[at + |a|..at + |a| + |b|] == b;
    SliceIsField(w, at, a);
    SliceIsField(w, at + |a|, b);
  }
}
