/**
  What the generated codec computes, as functions on byte strings. A message with `k`
  known fields is a list of `k` byte strings (fields 1 to k, all length-delimited) and the
  raw text of its unknown fields: Request has two known fields, Response one.
 */
module Messages {
  import opened Options
  import opened Wire
  import opened WireFields

  datatype Message = Message(fields: seq<bytes>, unknown: bytes)

  /** A message type whose tags fit one byte. */
  predicate Small(m: Message) {
    |m.fields| <= 15
  }

  function NewMessage(k: nat): (m: Message)
    ensures |m.fields| == k
  {
    Message(seq(k, _ => []), [])
  }

  // ---------- Writing ----------

  function EncodeField(f: nat, value: bytes): bytes
    requires 1 <= f <= 15
  {
    if value == [] then [] else [8 * f + 2] + Varint(|value|) + value
  }

  /** The known fields from index `i` on, in order. */
  function EncodeFrom(fields: seq<bytes>, i: nat): bytes
    requires i <= |fields| <= 15
    decreases |fields| - i
  {
    if i == |fields| then [] else EncodeField(i + 1, fields[i]) + EncodeFrom(fields, i + 1)
  }

  function Encode(m: Message): bytes
    requires Small(m)
  {
    EncodeFrom(m.fields, 0) + m.unknown
  }

  // ---------- Reading ----------

  datatype Parse =
    | Known(field: nat, head: nat, size: nat)  // the value is bytes head to size
    | Unknown(size: nat)
    | Bad(error: WireError)

  /** The number of the field a tag that was read as `raw` announces, cut to 32 bits. */
  function FieldNum(raw: nat): int {
    ToInt32((raw % TWO64) / 8)
  }

  /** The number is cut to a signed 32-bit integer; small numbers are themselves. */
  lemma FieldNumExactly(raw: nat)
    requires raw < TWO64
    ensures -0x8000_0000 <= FieldNum(raw) < 0x8000_0000
    ensures (raw / 8 - FieldNum(raw)) % TWO32 == 0
    ensures raw / 8 < 0x8000_0000 ==> FieldNum(raw) == raw / 8
    ensures WireType(raw) == raw % 8
  {
  }

  /** One iteration of the UnmarshalVT loop; `at` is the index of `s` in the buffer. */
  function ParseField(k: nat, s: bytes, at: nat): (p: Parse)
    requires at + |s| <= MAX_INT
    ensures p.Known? ==> 1 <= p.field <= k && 0 < p.head <= p.size <= |s|
    ensures p.Unknown? ==> 0 < p.size <= |s|
  {
    match ReadFrom(s, 0)
    case Unread(e) => Bad(e)
    case Read(raw, n) =>
      if WireType(raw) == 4 then Bad(EndGroupForNonGroup)
      else if FieldNum(raw) <= 0 then Bad(IllegalTag)
      else if FieldNum(raw) <= k then
        if WireType(raw) != 2 then Bad(WrongWireType(FieldNum(raw))) else ParseKnown(FieldNum(raw), n, s, at)
      else ParseUnknown(s, at)
  }

  /** A known field: the length, then that many bytes. */
  function ParseKnown(f: nat, n: nat, s: bytes, at: nat): (p: Parse)
    requires at + |s| <= MAX_INT && 0 < n <= |s|
    ensures p.Known? ==> p.field == f && n < p.head <= p.size <= |s|
    ensures !p.Unknown?
  {
    match ReadFrom(s[n..], 0)
    case Unread(e) => Bad(e)
    case Read(raw, m) =>
      var post := ToInt64(at + n + m + Length(raw));
      if Length(raw) < 0 || post < 0 then Bad(InvalidLength)
      else if post > at + |s| then Bad(UnexpectedEOF)
      else Known(f, n + m, n + m + Length(raw))
  }

  function ParseUnknown(s: bytes, at: nat): (p: Parse)
    requires at + |s| <= MAX_INT
    ensures p.Unknown? ==> 0 < p.size <= |s|
    ensures !p.Known?
  {
    match Skip(s)
    case Failed(e) => Bad(e)
    case Scanned(size) =>
      var post := ToInt64(at + size);
      if post < 0 then Bad(InvalidLength)
      else if post > at + |s| then Bad(UnexpectedEOF)
      else Unknown(size)
  }

  /** The errors of a tag that could be read, in the order in which they are found. */
  lemma TagErrors(k: nat, s: bytes, at: nat, raw: nat, n: nat)
    requires at + |s| <= MAX_INT && ReadFrom(s, 0) == Read(raw, n) && raw < TWO64
    ensures raw % 8 == 4 ==> ParseField(k, s, at) == Bad(EndGroupForNonGroup)
    ensures raw % 8 != 4 && FieldNum(raw) <= 0 ==> ParseField(k, s, at) == Bad(IllegalTag)
    ensures 0 < FieldNum(raw) <= k && raw % 8 != 2 && raw % 8 != 4 ==>
              ParseField(k, s, at) == Bad(WrongWireType(FieldNum(raw)))
  {
    hide SkipFrom, ReadFrom, FieldNum;
  }

  /** The errors of the length of a known field: negative as a 64-bit integer, or beyond the buffer. */
  lemma LengthErrors(f: nat, n: nat, s: bytes, at: nat, raw: nat, m: nat)
    requires at + |s| <= MAX_INT && 0 < n <= |s| && ReadFrom(s[n..], 0) == Read(raw, m) && raw < TWO64
    ensures raw >= TWO63 ==> ParseKnown(f, n, s, at) == Bad(InvalidLength)
    ensures raw < TWO63 && at + n + m + raw > MAX_INT ==> ParseKnown(f, n, s, at) == Bad(InvalidLength)
    ensures at + n + m + raw <= MAX_INT && n + m + raw > |s| ==> ParseKnown(f, n, s, at) == Bad(UnexpectedEOF)
    ensures n + m + raw <= |s| ==> ParseKnown(f, n, s, at) == Known(f, n + m, n + m + raw)
  {
    hide ReadFrom;
  }

  /** The errors of an unknown field: those of the scan, and one that reaches beyond the buffer. */
  lemma UnknownErrors(s: bytes, at: nat)
    requires at + |s| <= MAX_INT
    ensures Skip(s).Failed? ==> ParseUnknown(s, at) == Bad(Skip(s).error)
    ensures Skip(s).Scanned? && Skip(s).size > |s| && at + Skip(s).size <= MAX_INT ==> ParseUnknown(s, at) == Bad(UnexpectedEOF)
    ensures Skip(s).Scanned? && Skip(s).size <= |s| ==> ParseUnknown(s, at) == Unknown(Skip(s).size)
  {
    hide SkipFrom;
  }

  datatype Outcome = Outcome(msg: Message, err: Option<WireError>)

  /** UnmarshalVT on top of `m`; an error keeps what was read before it. */
  function Unmarshal(m: Message, s: bytes, at: nat): (r: Outcome)
    requires at + |s| <= MAX_INT
    ensures |r.msg.fields| == |m.fields|
    decreases |s|
  {
    if s == [] then Outcome(m, None)
    else
      match ParseField(|m.fields|, s, at)
      case Bad(e) => Outcome(m, Some(e))
      case Known(f, head, size) =>
        Unmarshal(m.(fields := m.fields[f - 1 := s[head..size]]), s[size..], at + size)
      case Unknown(size) =>
        Unmarshal(m.(unknown := m.unknown + s[..size]), s[size..], at + size)
  }

  function Decode(m: Message, s: bytes): Outcome
    requires |s| <= MAX_INT
  {
    Unmarshal(m, s, 0)
  }

  // ---------- A parsed field does not depend on its surroundings ----------

  lemma {:induction false} WrapIsHarmless(at: nat, size: nat, len: nat)
    requires at + len <= MAX_INT
    ensures size <= len ==> ToInt64(at + size) == at + size
    ensures size <= MAX_INT && 0 <= ToInt64(at + size) <= at + len ==> size <= len
  {
  }

  lemma {:induction false} ParseKnownMoves(f: nat, n: nat, s: bytes, t: bytes, at: nat, at': nat)
    requires at + |s| <= MAX_INT && at' + |s + t| <= MAX_INT && 0 < n <= |s|
    requires ParseKnown(f, n, s, at).Known?
    ensures ParseKnown(f, n, s + t, at') == ParseKnown(f, n, s, at)
  {
    ReadExtends(s[n..], t, 0);
    assert (s + t)[n..] == s[n..] + t;
  }

  lemma {:induction false} ParseUnknownMoves(s: bytes, t: bytes, at: nat, at': nat)
    requires at + |s| <= MAX_INT && at' + |s + t| <= MAX_INT
    requires ParseUnknown(s, at).Unknown?
    ensures ParseUnknown(s + t, at') == ParseUnknown(s, at)
  {
    hide SkipFrom;
    SkipExtends(s, t);
  }

  /** Elsewhere in the buffer, and whatever follows, the same field is parsed. */
  lemma {:induction false} ParseFieldMoves(k: nat, s: bytes, t: bytes, at: nat, at': nat)
    requires at + |s| <= MAX_INT && at' + |s + t| <= MAX_INT
    requires !ParseField(k, s, at).Bad?
    ensures ParseField(k, s + t, at') == ParseField(k, s, at)
  {
    hide SkipFrom, ReadFrom;
    ReadExtends(s, t, 0);
    var Read(raw, n) := ReadFrom(s, 0);
    if FieldNum(raw) <= k {
      ParseKnownMoves(FieldNum(raw), n, s, t, at, at');
    } else {
      ParseUnknownMoves(s, t, at, at');
    }
  }

  /**
    Decoding a concatenation is decoding the second part on top of the first: the later of
    two values of a known field wins, and unknown fields are appended in order.
   */
  lemma {:induction false} DecodeConcat(m: Message, a: bytes, b: bytes, at: nat)
    requires at + |a + b| <= MAX_INT && Unmarshal(m, a, at).err == None
    ensures Unmarshal(m, a + b, at) == Unmarshal(Unmarshal(m, a, at).msg, b, at + |a|)
    decreases |a|
  {
    hide ParseField;
    if a == [] {
      assert a + b == b;
    } else {
      var p := ParseField(|m.fields|, a, at);
      ParseFieldMoves(|m.fields|, a, b, at, at);
      assert (a + b)[p.size..] == a[p.size..] + b;
      assert (a + b)[..p.size] == a[..p.size];
      if p.Known? {
        assert (a + b)[p.head..p.size] == a[p.head..p.size];
        DecodeConcat(m.(fields := m.fields[p.field - 1 := a[p.head..p.size]]), a[p.size..], b, at + p.size);
      } else {
        DecodeConcat(m.(unknown := m.unknown + a[..p.size]), a[p.size..], b, at + p.size);
      }
    }
  }

  /** What is accepted at one index is accepted at every other, with the same result. */
  lemma {:induction false} DecodeMoves(m: Message, s: bytes, at: nat, at': nat)
    requires at + |s| <= MAX_INT && at' + |s| <= MAX_INT && Unmarshal(m, s, at).err == None
    ensures Unmarshal(m, s, at') == Unmarshal(m, s, at)
    decreases |s|
  {
    hide ParseField;
    if s == [] {
    } else {
      var p := ParseField(|m.fields|, s, at);
      ParseFieldMoves(|m.fields|, s, [], at, at');
      assert s + [] == s;
      if p.Known? {
        DecodeMoves(m.(fields := m.fields[p.field - 1 := s[p.head..p.size]]), s[p.size..], at + p.size, at' + p.size);
      } else {
        DecodeMoves(m.(unknown := m.unknown + s[..p.size]), s[p.size..], at + p.size, at' + p.size);
      }
    }
  }

  /** Merging: if both parts are accepted, so is the concatenation, as the second decoded onto the first. */
  lemma MergeLaw(m: Message, a: bytes, b: bytes)
    requires |a + b| <= MAX_INT
    requires Decode(m, a).err == None && Decode(Decode(m, a).msg, b).err == None
    ensures Decode(m, a + b) == Decode(Decode(m, a).msg, b)
  {
    hide Unmarshal;
    DecodeConcat(m, a, b, 0);
    DecodeMoves(Decode(m, a).msg, b, 0, |a|);
  }
}
