/**
  The generated codec of api/kms/kms_vtproto.pb.go: marshalling fills a buffer from the
  back, unmarshalling walks an index through it. The nested loops that read a varint, which
  the generated code repeats inline, are one method here, and so are the lines that write
  or read one length-delimited field.
 */
module Codec {
  import opened Options
  import opened Wire
  import opened WireFields
  import opened Messages
  import opened CodecLaws

  // ---------- Writing into a buffer ----------

  /** Go's `copy(dst[at:], src)` where it fits. */
  method CopyTo(dst: array<byte>, at: nat, src: bytes)
    requires at + |src| <= dst.Length
    modifies dst
    ensures dst[..at] == old(dst[..at]) && dst[at..at + |src|] == src
    ensures dst[at + |src|..] == old(dst[at + |src|..])
  {
    for i := 0 to |src|
      invariant forall j :: 0 <= j < dst.Length ==>
                  dst[j] == if at <= j < at + i then src[j - at] else old(dst[j])
    {
      dst[at + i] := src[i];
    }
  }

  /** Writes `v` so that it ends at `offset`, and returns where it begins. */
  method EncodeVarint(dAtA: array<byte>, offset: nat, v: nat) returns (base: nat)
    requires |Varint(v)| <= offset <= dAtA.Length
    modifies dAtA
    ensures base == offset - |Varint(v)|
    ensures dAtA[..base] == old(dAtA[..base]) && dAtA[base..offset] == Varint(v)
    ensures dAtA[offset..] == old(dAtA[offset..])
  {
    hide Varint, SizeOfVarint;
    SizeOfVarintIsExact(v);
    ghost var code := Varint(v);
    base := offset - SizeOfVarint(v);
    var i, x := base, v;
    while x >= 128
      invariant base <= i < offset && code[i - base..] == Varint(x)
      invariant forall j :: 0 <= j < dAtA.Length ==>
                  dAtA[j] == if base <= j < i then code[j - base] else old(dAtA[j])
      decreases x
    {
      VarintStep(x);
      assert code[i - base] == x % 128 + 128 && code[i + 1 - base..] == code[i - base..][1..];
      dAtA[i] := x % 128 + 128;
      x := x / 128;
      i := i + 1;
    }
    VarintStep(x);
    assert code[i - base..] == [x] && i == offset - 1 && code[i - base] == x;
    dAtA[i] := x;
    assert dAtA[base..offset] == code;
  }

  method PrependBytes(dAtA: array<byte>, i: nat, src: bytes) returns (front: nat)
    requires |src| <= i <= dAtA.Length
    modifies dAtA
    ensures front == i - |src|
    ensures dAtA[..front] == old(dAtA[..front]) && dAtA[front..] == src + old(dAtA[i..])
  {
    front := i - |src|;
    CopyTo(dAtA, front, src);
    assert dAtA[front..] == dAtA[front..i] + dAtA[i..];
  }

  method PrependVarint(dAtA: array<byte>, i: nat, v: nat) returns (front: nat)
    requires |Varint(v)| <= i <= dAtA.Length
    modifies dAtA
    ensures front == i - |Varint(v)|
    ensures dAtA[..front] == old(dAtA[..front]) && dAtA[front..] == Varint(v) + old(dAtA[i..])
  {
    front := EncodeVarint(dAtA, i, v);
    assert dAtA[front..] == dAtA[front..i] + dAtA[i..];
  }

  method PrependTag(dAtA: array<byte>, i: nat, tag: byte) returns (front: nat)
    requires 1 <= i <= dAtA.Length
    modifies dAtA
    ensures front == i - 1
    ensures dAtA[..front] == old(dAtA[..front]) && dAtA[front..] == [tag] + old(dAtA[i..])
  {
    front := i - 1;
    dAtA[front] := tag;
    assert dAtA[front..] == [tag] + dAtA[i..];
  }

  /** Writes field `f` in front of index `i` unless its value is empty; returns the new front. */
  method PutField(dAtA: array<byte>, i: nat, f: nat, value: bytes) returns (front: nat)
    requires 1 <= f <= 15 && |EncodeField(f, value)| <= i <= dAtA.Length
    modifies dAtA
    ensures front == i - |EncodeField(f, value)|
    ensures dAtA[..front] == old(dAtA[..front]) && dAtA[front..] == EncodeField(f, value) + old(dAtA[i..])
  {
    hide Varint, EncodeField;
    FieldText(f, value, dAtA[i..]);
    if |value| == 0 {
      return i;
    }
    ghost var initial := dAtA[..];
    var at := PrependBytes(dAtA, i, value);
    Shorter(dAtA[..], initial, at);
    front := PrependVarint(dAtA, at, |value|);
    Shorter(dAtA[..], initial, front);
    front := PrependTag(dAtA, front, 8 * f + 2);
    Shorter(dAtA[..], initial, front);
  }

  /** The parts of a field in front of what follows it. */
  lemma {:induction false} FieldText(f: nat, value: bytes, tail: bytes)
    requires 1 <= f <= 15
    ensures value == [] ==> EncodeField(f, value) + tail == tail && |EncodeField(f, value)| == 0
    ensures value != [] ==>
              && EncodeField(f, value) + tail == [8 * f + 2] + (Varint(|value|) + (value + tail))
              && |EncodeField(f, value)| == 1 + |Varint(|value|)| + |value|
  {
    hide Varint;
  }

  lemma {:induction false} Shorter(x: bytes, y: bytes, n: nat)
    requires n <= |x| && n <= |y|
    ensures x[..n] == y[..n] ==> forall k :: 0 <= k <= n ==> x[..k] == y[..k]
  {
    forall k | 0 <= k <= n && x[..n] == y[..n] ensures x[..k] == y[..k] {
      assert x[..k] == x[..n][..k] && y[..k] == y[..n][..k];
    }
  }

  // ---------- Reading a varint in 64-bit arithmetic ----------

  /** `x << shift` in 64 bits. */
  function Shl64(x: nat, shift: nat): nat {
    (x * Pow2(shift)) % TWO64
  }

  lemma {:induction false} Pow2IsPow128(k: nat)
    ensures Pow2(7 * k) == Pow128(k)
  {
    if k == 0 {
    } else {
      Pow2IsPow128(k - 1);
      Pow2By7(7 * (k - 1));
      assert 7 * (k - 1) + 7 == 7 * k;
    }
  }

  lemma {:induction false} Pow128Bound(k: nat)
    requires k <= 9
    ensures 1 <= Pow128(k) <= TWO63 && (k <= 8 ==> 128 * Pow128(k) <= TWO63) && (k == 9 ==> Pow128(k) == TWO63)
    decreases 9 - k
  {
    if k == 9 {
      assert Pow128(3) == 128 * 128 * 128;
      assert Pow128(6) == 128 * 128 * 128 * Pow128(3);
      assert Pow128(9) == 128 * 128 * 128 * Pow128(6);
    } else {
      Pow128Bound(k + 1);
    }
  }

  /** The shifted bits of the next byte are a multiple of the weight of its lowest bit. */
  lemma {:induction false} ShiftedIsMultiple(k: nat, b: nat) returns (q: nat)
    requires k <= 9 && b < 128
    ensures Shl64(b, 7 * k) == Product(q, Pow2(7 * k))
  {
    hide Pow2, Pow128;
    Pow2IsPow128(k);
    Pow128Bound(k);
    if k <= 8 {
      q := b;
      LowBits(0, Pow2(7 * k), b);
    } else {
      q := b % 2;
      assert b * TWO63 == b / 2 * TWO64 + b % 2 * TWO63;
    }
  }

  /** Seven more bits: the operands share no bit, so `|` is `+`, and only the tenth byte is cut. */
  lemma {:induction false} OrIsPlus(k: nat, v: nat, b: nat)
    requires k <= 9 && v < Pow2(7 * k) && b < 128
    ensures Or(v, Shl64(b, 7 * k)) == v + Shl64(b, 7 * k) == (v + Product(Pow2(7 * k), b)) % TWO64
    ensures k <= 8 ==> Or(v, Shl64(b, 7 * k)) == v + Product(Pow2(7 * k), b) < Pow2(7 * (k + 1))
  {
    hide Pow2, Pow128, Shl64;
    var q := ShiftedIsMultiple(k, b);
    OrDisjoint(v, q, 7 * k);
    ShiftAndAdd(k, v, b);
  }

  lemma {:induction false} ShiftAndAdd(k: nat, v: nat, b: nat)
    requires k <= 9 && v < Pow2(7 * k) && b < 128
    ensures v + Shl64(b, 7 * k) == (v + Product(Pow2(7 * k), b)) % TWO64
    ensures k <= 8 ==> v + Shl64(b, 7 * k) == v + Product(Pow2(7 * k), b) < Pow2(7 * (k + 1))
  {
    hide Pow2, Pow128;
    var p := Pow2(7 * k);
    Pow2IsPow128(k);
    Pow128Bound(k);
    if k <= 8 {
      Pow2By7(7 * k);
      assert 7 * (k + 1) == 7 * k + 7;
      LowBits(v, p, b);
    } else {
      TopBit(v, b);
    }
  }

  lemma {:induction false} LowBits(v: nat, p: nat, b: nat)
    requires 128 * p <= TWO63 && v < p && b < 128
    ensures v + (b * p) % TWO64 == v + Product(p, b) == (v + Product(p, b)) % TWO64
    ensures v + Product(p, b) < 128 * p
  {
    assert b * p == p * b <= p * 127;
  }

  lemma {:induction false} TopBit(v: nat, b: nat)
    requires v < TWO63
    ensures v + (b * TWO63) % TWO64 == (v + Product(TWO63, b)) % TWO64
  {
    var q, r := b / 2, b % 2;
    assert b * TWO63 == q * TWO64 + r * TWO63;
    CutTo64(q, r * TWO63);
    CutTo64(q, v + r * TWO63);
  }

  lemma {:induction false} CutTo64(q: nat, x: nat)
    requires x < TWO64
    ensures (q * TWO64 + x) % TWO64 == x
  {
  }

  /** The shift-and-or loop; on an error the index no longer matters. */
  method ReadUvarint(dAtA: bytes, start: nat) returns (v: nat, iNdEx: nat, err: Option<WireError>)
    requires start <= |dAtA|
    ensures match ReadFrom(dAtA[start..], 0)
            case Read(raw, n) => err == None && v == raw % TWO64 && iNdEx == start + n
            case Unread(e) => err == Some(e)
  {
    hide Pow2, Shl64, Or, Product, ReadFrom;
    v, iNdEx, err := 0, start, None;
    var shift := 0;
    ghost var k := 0;
    NothingRead(dAtA[start..]);
    while true
      invariant shift == 7 * k && k <= 10 && iNdEx == start + k <= |dAtA|
      invariant k <= 9 ==> v < Pow2(shift)
      invariant k <= 9 ==>
                  ReadFrom(dAtA[start..], 0) == Behind(v, Pow2(shift), k, ReadFrom(dAtA[iNdEx..], k))
      invariant k == 10 ==> ReadFrom(dAtA[start..], 0) == Unread(IntOverflow)
      decreases 10 - k
    {
      if shift >= 64 {
        return v, iNdEx, Some(IntOverflow);
      }
      if iNdEx >= |dAtA| {
        assert dAtA[iNdEx..] == [] && ReadFrom([], k) == Unread(UnexpectedEOF);
        return v, iNdEx, Some(UnexpectedEOF);
      }
      var b := dAtA[iNdEx];
      OrIsPlus(k, v, b % 128);
      ReadOneByte(dAtA[start..], dAtA[iNdEx..], k, v);
      assert dAtA[iNdEx..][1..] == dAtA[iNdEx + 1..];
      iNdEx := iNdEx + 1;
      v := Or(v, Shl64(b % 128, shift));
      if b < 0x80 {
        assert b % 128 == b && Pow2(shift) == Pow2(7 * k);
        return;
      }
      assert shift + 7 == 7 * (k + 1);
      shift := shift + 7;
      k := k + 1;
    }
  }

  /** A reading with `k` bytes and the bits `v` in front of it; `p` is the weight of its lowest bit. */
  function Behind(v: nat, p: nat, k: nat, r: Reading): Reading {
    match r
    case Read(raw, n) => Read(v + Product(p, raw), k + n)
    case Unread(e) => Unread(e)
  }

  function Product(a: nat, b: nat): (p: nat)
    ensures p == a * b
  {
    a * b
  }

  lemma {:induction false} NothingRead(s: bytes)
    ensures ReadFrom(s, 0) == Behind(0, Pow2(0), 0, ReadFrom(s, 0)) && Pow2(0) == 1
    ensures forall k :: 0 <= k <= 9 ==> ReadFrom([], k) == Unread(UnexpectedEOF)
  {
  }

  /** How the reading of `rest` takes one byte. */
  lemma {:induction false} ReadOneByte(s: bytes, rest: bytes, k: nat, v: nat)
    requires k <= 9 && rest != []
    requires ReadFrom(s, 0) == Behind(v, Pow2(7 * k), k, ReadFrom(rest, k))
    ensures rest[0] < 128 ==> ReadFrom(s, 0) == Read(v + Product(Pow2(7 * k), rest[0]), k + 1)
    ensures rest[0] >= 128 ==>
              ReadFrom(s, 0) == Behind(v + Product(Pow2(7 * k), rest[0] % 128), Pow2(7 * (k + 1)), k + 1,
                                       ReadFrom(rest[1..], k + 1))
    ensures rest[0] >= 128 && k == 9 ==> ReadFrom(s, 0) == Unread(IntOverflow)
  {
    hide Pow2;
    Pow2By7(7 * k);
    assert 7 * (k + 1) == 7 * k + 7;
    if rest[0] >= 128 && ReadFrom(rest[1..], k + 1).Read? {
      Weigh(Pow2(7 * k), rest[0] - 128, ReadFrom(rest[1..], k + 1).raw);
    }
  }

  lemma {:induction false} Weigh(p: nat, b: nat, raw: nat)
    ensures Product(p, b + 128 * raw) == Product(p, b) + Product(128 * p, raw)
  {
    assert p * (b + 128 * raw) == p * b + (128 * p) * raw;
  }

  // ---------- Reading fields ----------

  /** The lines that read the value of a known field whose tag ends at `iNdEx` and began at `pre`. */
  method ReadField(dAtA: bytes, pre: nat, iNdEx: nat, ghost f: nat)
    returns (value: bytes, postIndex: int, err: Option<WireError>)
    requires pre < iNdEx <= |dAtA| <= MAX_INT
    ensures match ParseKnown(f, iNdEx - pre, dAtA[pre..], pre)
            case Known(_, head, size) =>
              err == None && value == dAtA[pre..][head..size] && postIndex == pre + size
            case Unknown(_) => false
            case Bad(e) => err == Some(e)
  {
    hide ReadFrom;
    value, postIndex := [], 0;
    assert dAtA[pre..][iNdEx - pre..] == dAtA[iNdEx..];
    var len, next, e := ReadUvarint(dAtA, iNdEx);
    if e.Some? {
      return value, postIndex, e;
    }
    var intLen := ToInt64(len);
    if intLen < 0 {
      return value, postIndex, Some(InvalidLength);
    }
    postIndex := ToInt64(next + intLen);
    if postIndex < 0 {
      return value, postIndex, Some(InvalidLength);
    }
    if postIndex > |dAtA| {
      return value, postIndex, Some(UnexpectedEOF);
    }
    err := None;
    WrapIsHarmless(next, intLen, |dAtA| - next);
    value := dAtA[next..postIndex];
    assert dAtA[next..postIndex] == dAtA[pre..][next - pre..postIndex - pre];
  }

  /** The lines that skip an unknown field that begins at `pre`. */
  method SkipUnknown(dAtA: bytes, pre: nat) returns (postIndex: int, err: Option<WireError>)
    requires pre <= |dAtA| <= MAX_INT
    ensures match ParseUnknown(dAtA[pre..], pre)
            case Unknown(size) => err == None && postIndex == pre + size
            case Known(_, _, _) => false
            case Bad(e) => err == Some(e)
  {
    hide SkipFrom;
    postIndex := 0;
    var scan := Skip(dAtA[pre..]);
    if scan.Failed? {
      return postIndex, Some(scan.error);
    }
    if ToInt64(pre + scan.size) < 0 {
      return postIndex, Some(InvalidLength);
    }
    if ToInt64(pre + scan.size) > |dAtA| {
      return postIndex, Some(UnexpectedEOF);
    }
    WrapIsHarmless(pre, scan.size, |dAtA| - pre);
    postIndex := pre + scan.size;
    err := None;
  }

  /** What one iteration of the loop read. */
  datatype Step =
    | TookField(field: nat, value: bytes, next: nat)
    | TookUnknown(raw: bytes, next: nat)
    | Stop(error: WireError)

  /** One iteration of the loop of UnmarshalVT, for a message with `k` known fields. */
  method ReadStep(k: nat, dAtA: bytes, pre: nat) returns (step: Step)
    requires pre < |dAtA| <= MAX_INT
    ensures var s := dAtA[pre..];
            match ParseField(k, s, pre)
            case Known(f, head, size) => step == TookField(f, s[head..size], pre + size)
            case Unknown(size) => step == TookUnknown(s[..size], pre + size)
            case Bad(e) => step == Stop(e)
  {
    hide ReadFrom, SkipFrom, ParseKnown, ParseUnknown;
    var wire, iNdEx, err := ReadUvarint(dAtA, pre);
    if err.Some? {
      return Stop(err.value);
    }
    var fieldNum, wireType := ToInt32(wire / 8), wire % 8;
    if wireType == 4 {
      return Stop(EndGroupForNonGroup);
    }
    if fieldNum <= 0 {
      return Stop(IllegalTag);
    }
    if fieldNum <= k {
      if wireType != 2 {
        return Stop(WrongWireType(fieldNum));
      }
      var value, postIndex, e := ReadField(dAtA, pre, iNdEx, fieldNum);
      if e.Some? {
        return Stop(e.value);
      }
      return TookField(fieldNum, value, postIndex);
    }
    var postIndex, e := SkipUnknown(dAtA, pre);
    if e.Some? {
      return Stop(e.value);
    }
    assert dAtA[pre..postIndex] == dAtA[pre..][..postIndex - pre];
    return TookUnknown(dAtA[pre..postIndex], postIndex);
  }

  /** `ReadStep` is one unfolding of `Unmarshal`. */
  lemma {:induction false} UnmarshalStep(m: Message, dAtA: bytes, pre: nat)
    requires pre < |dAtA| <= MAX_INT
    ensures var s, p := dAtA[pre..], ParseField(|m.fields|, dAtA[pre..], pre);
            Unmarshal(m, s, pre) ==
            if p.Bad? then Outcome(m, Some(p.error))
            else Unmarshal(AfterField(m, s, p), dAtA[pre + p.size..], pre + p.size)
  {
    hide ParseField;
    var s, p := dAtA[pre..], ParseField(|m.fields|, dAtA[pre..], pre);
    if !p.Bad? {
      assert s[p.size..] == dAtA[pre + p.size..];
    }
  }

  // ---------- The messages ----------

  class Request {
    var nodeUuid: bytes
    var data: bytes
    var unknownFields: bytes

    ghost function Abs(): Message
      reads this
    {
      Message([nodeUuid, data], unknownFields)
    }

    constructor ()
      ensures Abs() == NewMessage(2)
    {
      nodeUuid, data, unknownFields := [], [], [];
    }

    predicate EqualVT(that: Request)
      reads this, that
      ensures EqualVT(that) <==> Abs() == that.Abs()
    {
      nodeUuid == that.nodeUuid && data == that.data && unknownFields == that.unknownFields
    }

    method SizeVT() returns (n: nat)
      ensures n == |Encode(Abs())|
      ensures n == (if nodeUuid == [] then 0 else 1 + |Varint(|nodeUuid|)| + |nodeUuid|)
                   + (if data == [] then 0 else 1 + |Varint(|data|)| + |data|) + |unknownFields|
    {
      TwoFields(nodeUuid, data, unknownFields);
      n := 0;
      var l := |nodeUuid|;
      if l > 0 {
        SizeOfVarintIsExact(l);
        n := n + 1 + l + SizeOfVarint(l);
      }
      l := |data|;
      if l > 0 {
        SizeOfVarintIsExact(l);
        n := n + 1 + l + SizeOfVarint(l);
      }
      n := n + |unknownFields|;
    }

    /** Fills the end of the buffer from the back; what lies in front is not touched. */
    method MarshalToSizedBufferVT(dAtA: array<byte>) returns (n: nat)
      requires |Encode(Abs())| <= dAtA.Length
      modifies dAtA
      ensures n == |Encode(Abs())|
      ensures dAtA[dAtA.Length - n..] == Encode(Abs())
      ensures dAtA[dAtA.Length - n..] ==
              (if nodeUuid == [] then [] else [0x0a] + Varint(|nodeUuid|) + nodeUuid)
              + (if data == [] then [] else [0x12] + Varint(|data|) + data)
              + unknownFields
      ensures dAtA[..dAtA.Length - n] == old(dAtA[..dAtA.Length - n])
    {
      hide Encode, EncodeField, EncodeFrom, Varint;
      TwoFields(nodeUuid, data, unknownFields);
      TwoFieldsText(nodeUuid, data, unknownFields);
      ghost var initial, text := dAtA[..], Encode(Abs());
      var i := dAtA.Length;
      i := PrependBytes(dAtA, i, unknownFields);
      assert dAtA[i..] == unknownFields;
      Shorter(dAtA[..], initial, i);
      i := PutField(dAtA, i, 2, data);
      assert dAtA[i..] == EncodeField(2, data) + unknownFields;
      Shorter(dAtA[..], initial, i);
      i := PutField(dAtA, i, 1, nodeUuid);
      Shorter(dAtA[..], initial, i);
      assert dAtA[i..] == text;
      n := dAtA.Length - i;
    }

    /** MarshalVT: a buffer of exactly SizeVT bytes, filled to its front. */
    method MarshalVT() returns (dAtA: array<byte>)
      ensures fresh(dAtA) && dAtA[..] == Encode(Abs())
      ensures dAtA[..] ==
              (if nodeUuid == [] then [] else [0x0a] + Varint(|nodeUuid|) + nodeUuid)
              + (if data == [] then [] else [0x12] + Varint(|data|) + data)
              + unknownFields
    {
      hide Encode;
      var size := SizeVT();
      dAtA := new byte[size](_ => 0);
      var n := MarshalToSizedBufferVT(dAtA);
      assert dAtA[..] == dAtA[dAtA.Length - n..];
    }

    /** Decodes on top of what the message holds; on an error the fields read before it stay. */
    method UnmarshalVT(dAtA: bytes) returns (err: Option<WireError>, ghost fields: seq<Field>)
      requires |dAtA| <= MAX_INT
      modifies this
      ensures Outcome(Abs(), err) == Decode(old(Abs()), dAtA)
      ensures AllWellFormed(fields) && AllAcceptable(2, fields) && Texts(fields) <= dAtA
      ensures err == None <==> Texts(fields) == dAtA
      ensures nodeUuid == match LastValue(fields, 1) case Some(value) => value case None => old(nodeUuid)
      ensures data == match LastValue(fields, 2) case Some(value) => value case None => old(data)
      ensures unknownFields == old(unknownFields) + UnknownTexts(2, fields)
    {
      hide Unmarshal, ParseField, TakeAll, AllWellFormed, AllAcceptable, Texts, LastValue, UnknownTexts;
      fields := EveryByteIsAccountedFor(Abs(), dAtA, 0);
      LastOneWins(Abs(), fields, 1);
      LastOneWins(Abs(), fields, 2);
      UnknownsAreAppended(Abs(), fields);
      var iNdEx := 0;
      assert dAtA[0..] == dAtA;
      while iNdEx < |dAtA|
        invariant iNdEx <= |dAtA|
        invariant Decode(old(Abs()), dAtA) == Unmarshal(Abs(), dAtA[iNdEx..], iNdEx)
        decreases |dAtA| - iNdEx
      {
        ghost var before, s, p := Abs(), dAtA[iNdEx..], ParseField(2, dAtA[iNdEx..], iNdEx);
        UnmarshalStep(before, dAtA, iNdEx);
        var step := ReadStep(2, dAtA, iNdEx);
        match step
        case Stop(e) => return Some(e), fields;
        case TookField(f, value, next) =>
          if f == 1 {
            nodeUuid := value;
          } else {
            data := value;
          }
          assert Abs().fields == AfterField(before, s, p).fields;
          iNdEx := next;
        case TookUnknown(raw, next) =>
          unknownFields := unknownFields + raw;
          iNdEx := next;
      }
      assert dAtA[iNdEx..] == [];
      NothingLeft(Abs(), iNdEx);
      err := None;
    }
  }

  class Response {
    var data: bytes
    var unknownFields: bytes

    ghost function Abs(): Message
      reads this
    {
      Message([data], unknownFields)
    }

    constructor ()
      ensures Abs() == NewMessage(1)
    {
      data, unknownFields := [], [];
    }

    predicate EqualVT(that: Response)
      reads this, that
      ensures EqualVT(that) <==> Abs() == that.Abs()
    {
      data == that.data && unknownFields == that.unknownFields
    }

    method SizeVT() returns (n: nat)
      ensures n == |Encode(Abs())|
      ensures n == (if data == [] then 0 else 1 + |Varint(|data|)| + |data|) + |unknownFields|
    {
      OneField(data, unknownFields);
      n := 0;
      var l := |data|;
      if l > 0 {
        SizeOfVarintIsExact(l);
        n := n + 1 + l + SizeOfVarint(l);
      }
      n := n + |unknownFields|;
    }

    method MarshalToSizedBufferVT(dAtA: array<byte>) returns (n: nat)
      requires |Encode(Abs())| <= dAtA.Length
      modifies dAtA
      ensures n == |Encode(Abs())|
      ensures dAtA[dAtA.Length - n..] == Encode(Abs())
      ensures dAtA[dAtA.Length - n..] ==
              (if data == [] then [] else [0x0a] + Varint(|data|) + data) + unknownFields
      ensures dAtA[..dAtA.Length - n] == old(dAtA[..dAtA.Length - n])
    {
      hide Encode, EncodeField, EncodeFrom, Varint;
      OneField(data, unknownFields);
      OneFieldText(data, unknownFields);
      ghost var initial, text := dAtA[..], Encode(Abs());
      var i := dAtA.Length;
      i := PrependBytes(dAtA, i, unknownFields);
      assert dAtA[i..] == unknownFields;
      Shorter(dAtA[..], initial, i);
      i := PutField(dAtA, i, 1, data);
      Shorter(dAtA[..], initial, i);
      assert dAtA[i..] == text;
      n := dAtA.Length - i;
    }

    method MarshalVT() returns (dAtA: array<byte>)
      ensures fresh(dAtA) && dAtA[..] == Encode(Abs())
      ensures dAtA[..] ==
              (if data == [] then [] else [0x0a] + Varint(|data|) + data) + unknownFields
    {
      hide Encode;
      var size := SizeVT();
      dAtA := new byte[size](_ => 0);
      var n := MarshalToSizedBufferVT(dAtA);
      assert dAtA[..] == dAtA[dAtA.Length - n..];
    }

    method UnmarshalVT(dAtA: bytes) returns (err: Option<WireError>, ghost fields: seq<Field>)
      requires |dAtA| <= MAX_INT
      modifies this
      ensures Outcome(Abs(), err) == Decode(old(Abs()), dAtA)
      ensures AllWellFormed(fields) && AllAcceptable(1, fields) && Texts(fields) <= dAtA
      ensures err == None <==> Texts(fields) == dAtA
      ensures data == match LastValue(fields, 1) case Some(value) => value case None => old(data)
      ensures unknownFields == old(unknownFields) + UnknownTexts(1, fields)
    {
      hide Unmarshal, ParseField, TakeAll, AllWellFormed, AllAcceptable, Texts, LastValue, UnknownTexts;
      fields := EveryByteIsAccountedFor(Abs(), dAtA, 0);
      LastOneWins(Abs(), fields, 1);
      UnknownsAreAppended(Abs(), fields);
      var iNdEx := 0;
      assert dAtA[0..] == dAtA;
      while iNdEx < |dAtA|
        invariant iNdEx <= |dAtA|
        invariant Decode(old(Abs()), dAtA) == Unmarshal(Abs(), dAtA[iNdEx..], iNdEx)
        decreases |dAtA| - iNdEx
      {
        ghost var before, s, p := Abs(), dAtA[iNdEx..], ParseField(1, dAtA[iNdEx..], iNdEx);
        UnmarshalStep(before, dAtA, iNdEx);
        var step := ReadStep(1, dAtA, iNdEx);
        match step
        case Stop(e) => return Some(e), fields;
        case TookField(_, value, next) =>
          data := value;
          assert Abs().fields == AfterField(before, s, p).fields;
          iNdEx := next;
        case TookUnknown(raw, next) =>
          unknownFields := unknownFields + raw;
          iNdEx := next;
      }
      assert dAtA[iNdEx..] == [];
      NothingLeft(Abs(), iNdEx);
      err := None;
    }
  }

  /** The encoding of two fields, byte by byte. */
  lemma {:induction false} TwoFieldsText(first: bytes, second: bytes, unknown: bytes)
    ensures Encode(Message([first, second], unknown)) ==
            (if first == [] then [] else [0x0a] + Varint(|first|) + first)
            + (if second == [] then [] else [0x12] + Varint(|second|) + second)
            + unknown
  {
    hide EncodeFrom, Varint;
    TwoFields(first, second, unknown);
    Assoc(EncodeField(1, first), EncodeField(2, second), unknown);
  }

  lemma {:induction false} OneFieldText(first: bytes, unknown: bytes)
    ensures Encode(Message([first], unknown)) == (if first == [] then [] else [0x0a] + Varint(|first|) + first) + unknown
  {
    hide EncodeFrom, Varint;
    OneField(first, unknown);
  }

  lemma {:induction false} TwoFields(first: bytes, second: bytes, unknown: bytes)
    ensures Encode(Message([first, second], unknown)) == EncodeField(1, first) + (EncodeField(2, second) + unknown)
  {
    hide EncodeField;
    var fields := [first, second];
    assert EncodeFrom(fields, 2) == [];
    assert EncodeFrom(fields, 1) == EncodeField(2, second);
    assert EncodeFrom(fields, 0) == EncodeField(1, first) + EncodeField(2, second);
  }

  lemma {:induction false} OneField(first: bytes, unknown: bytes)
    ensures Encode(Message([first], unknown)) == EncodeField(1, first) + unknown
  {
    hide EncodeField;
    assert EncodeFrom([first], 1) == [];
    assert EncodeFrom([first], 0) == EncodeField(1, first);
  }

  lemma {:induction false} NothingLeft(m: Message, at: nat)
    requires at <= MAX_INT
    ensures Unmarshal(m, [], at) == Outcome(m, None)
  {
  }
}
