/** The djb2 checksum `hash` that every strategy returns over its final buffer. */
module Checksum {
  import opened Numerics

  const Seed: U32 := 5381
  const Modulus: int := 0x1_0000_0000

  /** One round of the hash: multiply by 33 and add the byte, in UInt32 arithmetic. */
  function Step(h: U32, b: Byte): U32 {
    (h * 33 + b) % Modulus
  }

  /** Left fold of `Step` over `s`, in index order, starting from the state `h`. */
  function Fold(h: U32, s: seq<Byte>): U32
    decreases |s|
  {
    if s == [] then h else Fold(Step(h, s[0]), s[1..])
  }

  /** The checksum of a byte sequence. */
  function Djb2(s: seq<Byte>): U32 {
    Fold(Seed, s)
  }

  /** The same recurrence over unbounded integers: the hash without any wrap-around. */
  function ExactFold(h: int, s: seq<Byte>): int
    decreases |s|
  {
    if s == [] then h else ExactFold(h * 33 + s[0], s[1..])
  }

  /** Folding over a concatenation continues the fold of the first part over the second. */
  lemma {:induction false} FoldAppend(h: U32, a: seq<Byte>, b: seq<Byte>)
    ensures Fold(h, a + b) == Fold(Fold(h, a), b)
    decreases |a|
  {
    if a == [] {
      assert a + b == b;
    } else {
      assert (a + b)[0] == a[0];
      assert (a + b)[1..] == a[1..] + b;
      FoldAppend(Step(h, a[0]), a[1..], b);
    }
  }

  /** Appending one byte applies exactly one more round. */
  lemma FoldSnoc(h: U32, s: seq<Byte>, b: Byte)
    ensures Fold(h, s + [b]) == Step(Fold(h, s), b)
  {
    FoldAppend(h, s, [b]);
    assert [b][1..] == [];
  }

  /** The checksum of `a + b` is the fold over `b` started from the checksum of `a`. */
  lemma Djb2Append(a: seq<Byte>, b: seq<Byte>)
    ensures Djb2(a + b) == Fold(Djb2(a), b)
  {
    FoldAppend(Seed, a, b);
  }

  /** Adding a multiple of the modulus does not change a residue. */
  lemma ModShift(q: int, y: int)
    ensures (q * Modulus + y) % Modulus == y % Modulus
  {
  }

  /** Reducing the state before a round gives the same result as reducing after it. */
  lemma StepReduces(h: int, b: Byte)
    ensures Step(h % Modulus, b) == (h * 33 + b) % Modulus
  {
    var q := h / Modulus;
    assert h * 33 + b == (q * 33) * Modulus + ((h % Modulus) * 33 + b);
    ModShift(q * 33, (h % Modulus) * 33 + b);
  }

  /** Wrapping at every round is the same as computing exactly and wrapping once at the end. */
  lemma {:induction false} FoldIsExactMod(h: int, s: seq<Byte>)
    ensures Fold(h % Modulus, s) == ExactFold(h, s) % Modulus
    decreases |s|
  {
    if s != [] {
      StepReduces(h, s[0]);
      FoldIsExactMod(h * 33 + s[0], s[1..]);
    }
  }

  /** The checksum is the exact djb2 value `5381*33^n + ...` reduced modulo 2^32. */
  lemma Djb2IsExactMod(s: seq<Byte>)
    ensures Djb2(s) == ExactFold(5381, s) % Modulus
  {
    FoldIsExactMod(5381, s);
  }

  /** `hash(byte[] data)`: the foreach loop over the array with a UInt32 accumulator. */
  method Hash(data: array<Byte>) returns (h: U32)
    ensures h == Djb2(data[..])
  {
    h := Seed;
    for i := 0 to data.Length
      invariant h == Djb2(data[..i])
    {
      assert data[..i + 1] == data[..i] + [data[i]];
      FoldSnoc(Seed, data[..i], data[i]);
      h := (h * 33 + data[i]) % Modulus;
    }
    assert data[..data.Length] == data[..];
  }
}
