/**
  The Protocol Buffers wire format as the generated codec reads and writes it: base 128
  varints in 64-bit arithmetic, tags, and the skipping of fields a message does not know.

  The helper package of the generated code is not part of the repository; `Varint` and
  `SizeOfVarint` follow the Protocol Buffers Encoding specification, section "Base 128
  Varints". What is assumed of `Skip` is said in WireFields.
 */
module Wire {
  type byte = b: int | 0 <= b < 256
  type bytes = seq<byte>

  const TWO32: int := 0x1_0000_0000
  const TWO63: int := 0x8000_0000_0000_0000
  const TWO64: int := 0x1_0000_0000_0000_0000
  const MAX_INT: int := 0x7fff_ffff_ffff_ffff

  /** The 64-bit signed integer an unbounded result wraps to. */
  function ToInt64(x: int): int {
    if x % TWO64 >= TWO63 then x % TWO64 - TWO64 else x % TWO64
  }

  function ToInt32(x: int): int {
    if x % TWO32 >= 0x8000_0000 then x % TWO32 - TWO32 else x % TWO32
  }

  datatype WireError =
    | IntOverflow
    | UnexpectedEOF
    | InvalidLength
    | EndGroupForNonGroup
    | IllegalTag
    | WrongWireType(field: int)
    | UnexpectedEndOfGroup
    | IllegalWireType

  // ---------- Varints ----------

  datatype Reading = Read(raw: nat, size: nat) | Unread(error: WireError)

  /**
    Reads the rest of a varint of which `k` bytes are already read. `raw` is the value
    before it is cut to 64 bits: the tenth byte contributes only its lowest bit.
   */
  function ReadFrom(s: bytes, k: nat): (r: Reading)
    ensures r.Read? ==> 0 < r.size <= |s| && k + r.size <= 10
    decreases |s|
  {
    if k >= 10 then Unread(IntOverflow)
    else if s == [] then Unread(UnexpectedEOF)
    else if s[0] < 128 then Read(s[0], 1)
    else
      match ReadFrom(s[1..], k + 1)
      case Read(raw, size) => Read(s[0] - 128 + 128 * raw, size + 1)
      case Unread(e) => Unread(e)
  }

  function Varint(v: nat): (s: bytes)
    ensures |s| > 0
  {
    if v < 128 then [v] else [v % 128 + 128] + Varint(v / 128)
  }

  lemma VarintStep(v: nat)
    ensures v < 128 ==> Varint(v) == [v]
    ensures v >= 128 ==> Varint(v)[0] == v % 128 + 128 && Varint(v)[1..] == Varint(v / 128)
  {
  }

  /** What a varint may look like on the wire; longer than necessary is allowed. */
  predicate IsVarint(s: bytes) {
    0 < |s| <= 10 && s[|s| - 1] < 128 && forall i :: 0 <= i < |s| - 1 ==> s[i] >= 128
  }

  function RawValue(s: bytes): nat {
    if s == [] then 0 else s[0] % 128 + 128 * RawValue(s[1..])
  }

  function Value(s: bytes): nat {
    RawValue(s) % TWO64
  }

  lemma {:induction false} ReadSound(s: bytes, k: nat)
    requires ReadFrom(s, k).Read?
    ensures IsVarint(s[..ReadFrom(s, k).size]) && RawValue(s[..ReadFrom(s, k).size]) == ReadFrom(s, k).raw
    decreases |s|
  {
    var n := ReadFrom(s, k).size;
    if s[0] < 128 {
      assert s[..1][1..] == [];
    } else {
      ReadSound(s[1..], k + 1);
      assert s[..n][1..] == s[1..][..n - 1];
    }
  }

  lemma {:induction false} ReadComplete(t: bytes, rest: bytes, k: nat)
    requires IsVarint(t) && k + |t| <= 10
    ensures ReadFrom(t + rest, k) == Read(RawValue(t), |t|)
    decreases |t|
  {
    if |t| == 1 {
      assert t[1..] == [];
    } else {
      ReadComplete(t[1..], rest, k + 1);
      assert (t + rest)[1..] == t[1..] + rest;
    }
  }

  lemma {:induction false} VarintIsVarint(v: nat, k: nat)
    requires v < Pow128(k) && 0 < k <= 10
    ensures IsVarint(Varint(v)) && |Varint(v)| <= k && RawValue(Varint(v)) == v
    decreases v
  {
    if v < 128 {
      assert Varint(v)[1..] == [];
    } else {
      VarintIsVarint(v / 128, k - 1);
      assert Varint(v)[1..] == Varint(v / 128);
    }
  }

  function Pow128(k: nat): nat {
    if k == 0 then 1 else 128 * Pow128(k - 1)
  }

  /** Where the seven bits of a byte stand: each weighs 128 times as much as the one before. */
  lemma {:induction false} ValueByPosition(s: bytes, b: byte)
    ensures RawValue(s + [b]) == RawValue(s) + Times(b % 128, Pow128(|s|))
    decreases |s|
  {
    if s == [] {
      assert [b][1..] == [];
      assert RawValue([]) == 0;
    } else {
      ValueByPosition(s[1..], b);
      assert (s + [b])[1..] == s[1..] + [b];
      assert 128 * (b % 128 * Pow128(|s| - 1)) == b % 128 * (128 * Pow128(|s| - 1));
    }
  }

  function Times(a: nat, b: nat): (c: nat)
    ensures c == a * b
  {
    a * b
  }

  /** The example of the specification: 150 is the bytes 96 01. */
  lemma VarintOf150()
    ensures Varint(150) == [0x96, 0x01] && RawValue([0x96, 0x01]) == 150
    ensures ReadFrom([0x96, 0x01], 0) == Read(150, 2)
  {
    assert [0x96, 0x01][1..] == [0x01] && [0x01][1..] == [];
    assert RawValue([]) == 0 && RawValue([0x01]) == 1;
    VarintRoundTrip(150, []);
    assert Varint(150) + [] == Varint(150);
  }

  /**
    A varint is unreadable in exactly two ways: ten bytes say that more follow, or all bytes do and
    there are fewer than ten.
   */
  lemma {:induction false} UnreadableExactly(s: bytes, k: nat)
    requires k <= 10
    ensures ReadFrom(s, k) == Unread(IntOverflow) <==> |s| >= 10 - k && forall i :: 0 <= i < 10 - k ==> s[i] >= 128
    ensures ReadFrom(s, k) == Unread(UnexpectedEOF) <==> |s| < 10 - k && forall i :: 0 <= i < |s| ==> s[i] >= 128
    ensures ReadFrom(s, k).Unread? ==> ReadFrom(s, k).error == IntOverflow || ReadFrom(s, k).error == UnexpectedEOF
    decreases |s|
  {
    if k == 10 || s == [] {
    } else {
      UnreadableExactly(s[1..], k + 1);
      assert forall i :: 0 <= i < |s| - 1 ==> s[1..][i] == s[i + 1];
      assert forall i :: 1 <= i < |s| ==> s[i] == s[1..][i - 1];
    }
  }

  /** Reading undoes writing, for every 64-bit value and whatever follows. */
  lemma VarintRoundTrip(v: nat, rest: bytes)
    requires v < TWO64
    ensures ReadFrom(Varint(v) + rest, 0) == Read(v, |Varint(v)|)
  {
    assert Pow128(10) > TWO64 by {
      assert Pow128(5) == 128 * 128 * 128 * 128 * 128;
      assert Pow128(10) == 128 * 128 * 128 * 128 * 128 * Pow128(5);
    }
    VarintIsVarint(v, 10);
    ReadComplete(Varint(v), rest, 0);
  }

  /** What is read stays the same when more bytes follow. */
  lemma {:induction false} ReadExtends(s: bytes, t: bytes, k: nat)
    requires ReadFrom(s, k).Read?
    ensures ReadFrom(s + t, k) == ReadFrom(s, k)
    decreases |s|
  {
    if s[0] < 128 {
    } else {
      ReadExtends(s[1..], t, k + 1);
      assert (s + t)[1..] == s[1..] + t;
    }
  }

  lemma {:induction false} VarintGrows(a: nat, b: nat)
    requires a <= b
    ensures |Varint(a)| <= |Varint(b)|
    decreases a
  {
    if a < 128 {
    } else {
      VarintGrows(a / 128, b / 128);
    }
  }

  /** No reading of a value is shorter than writing it. */
  lemma {:induction false} VarintIsShortest(s: bytes, k: nat)
    requires ReadFrom(s, k).Read?
    ensures |Varint(ReadFrom(s, k).raw)| <= ReadFrom(s, k).size
    decreases |s|
  {
    if s[0] < 128 {
    } else {
      VarintIsShortest(s[1..], k + 1);
    }
  }

  // ---------- Bits ----------

  function Pow2(n: nat): nat {
    if n == 0 then 1 else 2 * Pow2(n - 1)
  }

  lemma Pow2By7(n: nat)
    ensures Pow2(n + 7) == 128 * Pow2(n)
  {
    assert Pow2(n + 2) == 4 * Pow2(n) && Pow2(n + 4) == 4 * Pow2(n + 2);
    assert Pow2(n + 6) == 4 * Pow2(n + 4) && Pow2(n + 7) == 2 * Pow2(n + 6);
  }

  /** `a | b`, bit by bit from the lowest. */
  function Or(a: nat, b: nat): nat {
    if a == 0 then b
    else 2 * Or(a / 2, b / 2) + if a % 2 == 1 || b % 2 == 1 then 1 else 0
  }

  /** Of two numbers that share no bit, `|` is the sum. */
  lemma {:induction false} OrDisjoint(a: nat, q: nat, n: nat)
    requires a < Pow2(n)
    ensures Or(a, q * Pow2(n)) == a + q * Pow2(n)
    decreases n
  {
    if a == 0 {
    } else {
      var half := q * Pow2(n - 1);
      assert q * Pow2(n) == 2 * half;
      OrDisjoint(a / 2, q, n - 1);
    }
  }

  lemma {:induction false} OrZero(a: nat)
    ensures Or(a, 0) == a
  {
    if a == 0 {
    } else {
      OrZero(a / 2);
    }
  }

  lemma {:induction false} OrOne(x: nat)
    ensures Or(x, 1) == if x % 2 == 0 then x + 1 else x
  {
    OrZero(x / 2);
  }

  // ---------- The size of a varint ----------

  function BitLen(x: nat): nat {
    if x == 0 then 0 else 1 + BitLen(x / 2)
  }

  function SizeOfVarint(x: nat): nat {
    (BitLen(Or(x, 1)) + 6) / 7
  }

  /** The bit-length formula gives the length of what is written. */
  lemma {:induction false} SizeOfVarintIsExact(x: nat)
    ensures SizeOfVarint(x) == |Varint(x)|
    decreases x
  {
    hide Or;
    OrOne(x);
    if x < 128 {
      SmallBitLen(Or(x, 1));
    } else {
      SizeOfVarintIsExact(x / 128);
      OrOne(x / 128);
      BitLenBy7(x);
      assert Or(x, 1) / 2 == x / 2;
      assert Or(x / 128, 1) / 2 == x / 128 / 2;
    }
  }

  lemma SmallBitLen(x: nat)
    requires 0 < x < 128
    ensures 1 <= BitLen(x) <= 7
  {
    assert BitLen(x) == 1 + BitLen(x / 2);
    BitLenBound(x, 7);
  }

  lemma {:induction false} BitLenBound(x: nat, n: nat)
    requires x < Pow2(n)
    ensures BitLen(x) <= n
    decreases n
  {
    if x == 0 {
    } else {
      BitLenBound(x / 2, n - 1);
    }
  }

  lemma BitLenBy7(x: nat)
    requires x >= 128
    ensures BitLen(x) == 7 + BitLen(x / 128)
  {
    assert x / 2 / 2 == x / 4 && x / 4 / 2 == x / 8 && x / 8 / 2 == x / 16;
    assert x / 16 / 2 == x / 32 && x / 32 / 2 == x / 64 && x / 64 / 2 == x / 128;
    assert BitLen(x) == 1 + BitLen(x / 2) && BitLen(x / 2) == 1 + BitLen(x / 4);
    assert BitLen(x / 4) == 1 + BitLen(x / 8) && BitLen(x / 8) == 1 + BitLen(x / 16);
    assert BitLen(x / 16) == 1 + BitLen(x / 32) && BitLen(x / 32) == 1 + BitLen(x / 64);
    assert BitLen(x / 64) == 1 + BitLen(x / 128);
  }
}
