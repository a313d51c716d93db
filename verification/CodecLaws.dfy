/** Printer and parser undo each other, and what the parser does with every byte. */
module CodecLaws {
  import opened Options
  import opened Wire
  import opened WireFields
  import opened Readings
  import opened Messages

  // ---------- The fields of a message ----------

  function NumberOf(f: Field): int {
    FieldNum(RawValue(f.tag))
  }

  /** A field that a message with `k` known fields takes: numbered, and length-delimited if it is a known one. */
  predicate Acceptable(k: nat, f: Field) {
    NumberOf(f) > 0 && (NumberOf(f) <= k ==> f.LenField?)
  }

  predicate AllAcceptable(k: nat, fs: seq<Field>) {
    forall i :: 0 <= i < |fs| ==> Acceptable(k, fs[i])
  }

  /** What a field means: a known one replaces the value, an unknown one is kept as text. */
  function Take(m: Message, f: Field): (r: Message)
    requires Acceptable(|m.fields|, f)
    ensures |r.fields| == |m.fields|
  {
    if NumberOf(f) <= |m.fields|
    then m.(fields := m.fields[NumberOf(f) - 1 := f.value])
    else m.(unknown := m.unknown + Text(f))
  }

  function TakeAll(m: Message, fs: seq<Field>): (r: Message)
    requires AllAcceptable(|m.fields|, fs)
    ensures |r.fields| == |m.fields|
    decreases |fs|
  {
    if fs == [] then m else TakeAll(Take(m, fs[0]), fs[1..])
  }

  /** The message after the first field of `s`. */
  function AfterField(m: Message, s: bytes, p: Parse): (r: Message)
    requires p.Known? ==> 1 <= p.field <= |m.fields| && p.head <= p.size <= |s|
    requires p.Unknown? ==> p.size <= |s|
    ensures |r.fields| == |m.fields|
  {
    match p
    case Known(f, head, size) => m.(fields := m.fields[f - 1 := s[head..size]])
    case Unknown(size) => m.(unknown := m.unknown + s[..size])
    case Bad(_) => m
  }

  lemma {:induction false} LenParts(tag: bytes, len: bytes, value: bytes, rest: bytes)
    ensures var s := tag + len + value + rest;
            && s[|tag|..] == len + (value + rest)
            && s[|tag| + |len|..|tag| + |len| + |value|] == value
  {
  }

  lemma {:induction false} ThreeParts(s: bytes, a: nat, b: nat, c: nat)
    requires a <= b <= c <= |s|
    ensures s[a..][..b - a] == s[a..b]
    ensures s[..c] == s[..a] + s[a..b] + s[b..c]
  {
  }

  lemma {:induction false} ParseLenField(f: Field, rest: bytes, at: nat, number: nat)
    requires WellFormed(f) && f.LenField? && at + |Text(f) + rest| <= MAX_INT
    ensures var head := |f.tag| + |f.len|;
            && ParseKnown(number, |f.tag|, Text(f) + rest, at) == Known(number, head, |Text(f)|)
            && (Text(f) + rest)[head..|Text(f)|] == f.value
  {
    hide ReadFrom;
    LenParts(f.tag, f.len, f.value, rest);
    ReadComplete(f.len, f.value + rest, 0);
    LengthOf(f.len, |f.value|);
  }

  /** A field of the grammar is parsed as itself. */
  lemma {:induction false} ParseAcceptable(m: Message, f: Field, rest: bytes, at: nat)
    requires WellFormed(f) && Acceptable(|m.fields|, f) && at + |Text(f) + rest| <= MAX_INT
    ensures var s, p := Text(f) + rest, ParseField(|m.fields|, Text(f) + rest, at);
            !p.Bad? && p.size == |Text(f)| && AfterField(m, s, p) == Take(m, f)
  {
    hide SkipFrom, ReadFrom, ParseKnown;
    TextIsTagAndTail(f);
    Assoc(f.tag, Tail(f), rest);
    ReadComplete(f.tag, Tail(f) + rest, 0);
    assert (Text(f) + rest)[..|Text(f)|] == Text(f);
    if f.LenField? {
      ParseLenField(f, rest, at, if NumberOf(f) > 0 then NumberOf(f) else 0);
    }
    SkipField(f, rest, 0, 0);
  }

  /** The text of acceptable fields is accepted and means what the fields mean. */
  lemma {:induction false} DecodeTexts(m: Message, fs: seq<Field>, at: nat)
    requires AllWellFormed(fs) && AllAcceptable(|m.fields|, fs) && at + |Texts(fs)| <= MAX_INT
    ensures Unmarshal(m, Texts(fs), at) == Outcome(TakeAll(m, fs), None)
    decreases |fs|
  {
    hide ParseField, Acceptable, Take;
    if fs == [] {
    } else {
      var f, rest := fs[0], Texts(fs[1..]);
      ParseAcceptable(m, f, rest, at);
      assert (Text(f) + rest)[|Text(f)|..] == rest;
      assert Text(f) != [] by {
        TextIsTagAndTail(f);
      }
      DecodeStep(m, Text(f) + rest, at);
      DecodeTexts(Take(m, f), fs[1..], at + |Text(f)|);
    }
  }

  lemma {:induction false} DecodeStep(m: Message, s: bytes, at: nat)
    requires at + |s| <= MAX_INT && s != [] && !ParseField(|m.fields|, s, at).Bad?
    ensures var p := ParseField(|m.fields|, s, at);
            Unmarshal(m, s, at) == Unmarshal(AfterField(m, s, p), s[p.size..], at + p.size)
  {
    hide ParseField;
  }

  /** Whatever one iteration parses is an acceptable field of the grammar, and means what that field means. */
  lemma {:induction false} ParsedIsField(m: Message, s: bytes, at: nat) returns (f: Field)
    requires at + |s| <= MAX_INT && !ParseField(|m.fields|, s, at).Bad?
    ensures var p := ParseField(|m.fields|, s, at);
            && WellFormed(f) && Acceptable(|m.fields|, f) && Text(f) == s[..p.size]
            && AfterField(m, s, p) == Take(m, f)
            && (p.Unknown? <==> NumberOf(f) > |m.fields|)
  {
    hide SkipFrom, ReadFrom, ParseKnown;
    var Read(raw, n) := ReadFrom(s, 0);
    ReadSound(s, 0);
    if FieldNum(raw) <= |m.fields| {
      f := KnownIsField(s, at, n, FieldNum(raw));
    } else {
      f := SkippedIsField(s);
    }
  }

  lemma {:induction false} KnownIsField(s: bytes, at: nat, n: nat, number: nat) returns (f: Field)
    requires at + |s| <= MAX_INT && 0 < n <= |s| && IsTag(s[..n], 2)
    requires ParseKnown(number, n, s, at).Known?
    ensures var p := ParseKnown(number, n, s, at);
            && WellFormed(f) && f.LenField? && f.tag == s[..n]
            && f.value == s[p.head..p.size] && Text(f) == s[..p.size]
  {
    hide ReadFrom;
    var p := ParseKnown(number, n, s, at);
    ReadSound(s[n..], 0);
    ThreeParts(s, n, p.head, p.size);
    LengthIsValue(s[n..p.head]);
    f := LenField(s[..n], s[n..p.head], s[p.head..p.size]);
  }

  lemma {:induction false} FieldsRead(m: Message, s: bytes, at: nat) returns (fs: seq<Field>)
    requires at + |s| <= MAX_INT
    ensures AllWellFormed(fs) && AllAcceptable(|m.fields|, fs) && Texts(fs) <= s
    ensures Unmarshal(m, s, at).msg == TakeAll(m, fs)
    ensures Unmarshal(m, s, at).err == None <==> Texts(fs) == s
    ensures Unmarshal(m, s, at).err.Some? ==>
              forall f :: WellFormed(f) && Acceptable(|m.fields|, f) ==> !(Text(f) <= s[|Texts(fs)|..])
    decreases |s|
  {
    hide ParseField, Acceptable, Take;
    fs := [];
    if s == [] {
    } else {
      var p := ParseField(|m.fields|, s, at);
      if p.Bad? {
        NoFieldBegins(m, s, at);
      } else {
        var f := ParsedIsField(m, s, at);
        var rest := FieldsRead(Take(m, f), s[p.size..], at + p.size);
        DecodeStep(m, s, at);
        fs := [f] + rest;
        assert fs[1..] == rest;
        PrefixBehind(s, p.size, Texts(rest));
      }
    }
  }

  lemma {:induction false} PrefixBehind(s: bytes, n: nat, t: bytes)
    requires n <= |s| && t <= s[n..]
    ensures s[..n] + t <= s && (s[..n] + t == s <==> t == s[n..])
    ensures s[|s[..n] + t|..] == s[n..][|t|..]
  {
    assert s == s[..n] + s[n..];
    assert s[..n + |t|] == s[..n] + s[n..][..|t|];
  }

  lemma {:induction false} NoFieldBegins(m: Message, s: bytes, at: nat)
    requires at + |s| <= MAX_INT && ParseField(|m.fields|, s, at).Bad?
    ensures forall f :: WellFormed(f) && Acceptable(|m.fields|, f) ==> !(Text(f) <= s)
  {
    hide ParseField, Acceptable, WellFormed, Take, AfterField;
    forall f | WellFormed(f) && Acceptable(|m.fields|, f) ensures !(Text(f) <= s) {
      if Text(f) <= s {
        assert s == Text(f) + s[|Text(f)|..];
        ParseAcceptable(m, f, s[|Text(f)|..], at);
        assert false;
      }
    }
  }

  /**
    Every byte is accounted for: the decoder reads a prefix that is the text of acceptable
    fields, the message is what those fields mean, the input is accepted exactly if that
    prefix is all of it, behind an error no acceptable field begins,
    and the prefix has no other reading.
   */
  lemma {:induction false} EveryByteIsAccountedFor(m: Message, s: bytes, at: nat) returns (fs: seq<Field>)
    requires at + |s| <= MAX_INT
    ensures AllWellFormed(fs) && AllAcceptable(|m.fields|, fs) && Texts(fs) <= s
    ensures Unmarshal(m, s, at).msg == TakeAll(m, fs)
    ensures Unmarshal(m, s, at).err == None <==> Texts(fs) == s
    ensures Unmarshal(m, s, at).err.Some? ==>
              forall f :: WellFormed(f) && Acceptable(|m.fields|, f) ==> !(Text(f) <= s[|Texts(fs)|..])
    ensures forall gs :: AllWellFormed(gs) && Texts(gs) == Texts(fs) ==> gs == fs
  {
    hide Unmarshal, Texts, AllWellFormed, AllAcceptable, TakeAll, WellFormed, Acceptable, Text;
    fs := FieldsRead(m, s, at);
    forall gs | AllWellFormed(gs) && Texts(gs) == Texts(fs) ensures gs == fs {
      OneReading(gs, fs);
    }
  }

  /** What the decoder accepts is exactly the language of acceptable fields. */
  lemma {:induction false} AcceptedExactly(m: Message, s: bytes)
    requires |s| <= MAX_INT
    ensures Decode(m, s).err == None <==>
            exists fs :: AllWellFormed(fs) && AllAcceptable(|m.fields|, fs) && Texts(fs) == s
  {
    hide Unmarshal, AllWellFormed, AllAcceptable, Texts;
    if Decode(m, s).err == None {
      var fs := EveryByteIsAccountedFor(m, s, 0);
    }
    forall fs | AllWellFormed(fs) && AllAcceptable(|m.fields|, fs) && Texts(fs) == s
      ensures Decode(m, s).err == None
    {
      DecodeTexts(m, fs, 0);
    }
  }

  predicate AllMatched(fs: seq<Field>) {
    forall i :: 0 <= i < |fs| ==> Matched(fs[i])
  }

  /** The input is such fields of the specification. */
  ghost predicate Specified(k: nat, s: bytes) {
    exists fs :: AllWellFormed(fs) && AllAcceptable(k, fs) && AllMatched(fs) && Texts(fs) == s
  }

  /**
    The decoder against the specification: an input it accepts has one reading, which is
    produced, and it is a message of the specification if and only if all groups of that
    reading end with their own number. What it does not accept never is one.
   */
  lemma {:induction false} SpecifiedMessageExactly(m: Message, s: bytes) returns (fs: seq<Field>)
    requires |s| <= MAX_INT
    ensures Decode(m, s).err == None ==>
              && AllWellFormed(fs) && AllAcceptable(|m.fields|, fs) && Texts(fs) == s
              && Decode(m, s).msg == TakeAll(m, fs)
    ensures Specified(|m.fields|, s) <==> Decode(m, s).err == None && AllMatched(fs)
  {
    hide Unmarshal, AllWellFormed, AllAcceptable, Texts, TakeAll, AllMatched;
    fs := EveryByteIsAccountedFor(m, s, 0);
    AcceptedExactly(m, s);
  }

  /** The value of the last field with number `n`, if there is one. */
  function LastValue(fs: seq<Field>, n: nat): Option<bytes> {
    if fs == [] then None
    else
      var later := LastValue(fs[1..], n);
      if later.Some? then later
      else if fs[0].LenField? && NumberOf(fs[0]) == n then Some(fs[0].value)
      else None
  }

  predicate HasNumber(f: Field, n: nat) {
    f.LenField? && NumberOf(f) == n
  }

  lemma {:induction false} NoValueExactly(fs: seq<Field>, n: nat)
    ensures LastValue(fs, n) == None <==> forall i :: 0 <= i < |fs| ==> !HasNumber(fs[i], n)
    decreases |fs|
  {
    hide NumberOf;
    if fs == [] {
    } else {
      NoValueExactly(fs[1..], n);
      assert fs == [fs[0]] + fs[1..];
    }
  }

  /** It is the value of the field with that number behind which there is no other. */
  lemma {:induction false} LastValueExactly(fs: seq<Field>, n: nat, i: nat)
    requires i < |fs| && HasNumber(fs[i], n)
    requires forall j :: i < j < |fs| ==> !HasNumber(fs[j], n)
    ensures LastValue(fs, n) == Some(fs[i].value)
    decreases |fs|
  {
    hide NumberOf;
    if i == 0 {
      NoValueExactly(fs[1..], n);
    } else {
      LastValueExactly(fs[1..], n, i - 1);
    }
  }

  /** A known field ends with the last of its values. */
  lemma {:induction false} LastOneWins(m: Message, fs: seq<Field>, n: nat)
    requires AllAcceptable(|m.fields|, fs) && 1 <= n <= |m.fields|
    ensures TakeAll(m, fs).fields[n - 1] == if LastValue(fs, n).Some? then LastValue(fs, n).value else m.fields[n - 1]
    decreases |fs|
  {
    hide Text, FieldNum, RawValue;
    if fs == [] {
    } else {
      LastOneWins(Take(m, fs[0]), fs[1..], n);
    }
  }

  function UnknownTexts(k: nat, fs: seq<Field>): bytes {
    if fs == [] then []
    else (if NumberOf(fs[0]) > k then Text(fs[0]) else []) + UnknownTexts(k, fs[1..])
  }

  /** The unknown fields are appended in order, byte for byte. */
  lemma {:induction false} UnknownsAreAppended(m: Message, fs: seq<Field>)
    requires AllAcceptable(|m.fields|, fs)
    ensures TakeAll(m, fs).unknown == m.unknown + UnknownTexts(|m.fields|, fs)
    decreases |fs|
  {
    hide Text, FieldNum, RawValue;
    if fs == [] {
    } else {
      UnknownsAreAppended(Take(m, fs[0]), fs[1..]);
    }
  }

  // ---------- Unknown fields ----------

  /** A field whose number is not one of the `k` known ones. */
  predicate Foreign(k: nat, f: Field) {
    NumberOf(f) > k
  }

  predicate AllForeign(k: nat, fs: seq<Field>) {
    forall i :: 0 <= i < |fs| ==> Foreign(k, fs[i])
  }

  /** The text of well-formed fields unknown to the message. */
  ghost predicate ForeignText(k: nat, s: bytes) {
    exists fs :: AllWellFormed(fs) && AllForeign(k, fs) && Texts(fs) == s
  }

  lemma {:induction false} ForeignTextExtends(k: nat, s: bytes, f: Field)
    requires ForeignText(k, s) && WellFormed(f) && Foreign(k, f)
    ensures ForeignText(k, s + Text(f))
  {
    var fs :| AllWellFormed(fs) && AllForeign(k, fs) && Texts(fs) == s;
    TextsConcat(fs, [f]);
    assert Texts([f]) == Text(f) by {
      assert [f][1..] == [];
      assert Texts([]) == [];
    }
    assert AllWellFormed([f]) by {
      assert [f][1..] == [];
    }
    assert AllForeign(k, fs + [f]);
  }

  /** The unknown text of a decoded message is always well-formed, even after an error. */
  lemma {:induction false} DecodedUnknownIsForeign(m: Message, s: bytes, at: nat)
    requires at + |s| <= MAX_INT && ForeignText(|m.fields|, m.unknown)
    ensures ForeignText(|m.fields|, Unmarshal(m, s, at).msg.unknown)
    decreases |s|
  {
    hide ParseField, Acceptable, Take;
    if s == [] || ParseField(|m.fields|, s, at).Bad? {
    } else {
      var p := ParseField(|m.fields|, s, at);
      var f := ParsedIsField(m, s, at);
      DecodeStep(m, s, at);
      hide Unmarshal;
      if p.Unknown? {
        ForeignTextExtends(|m.fields|, m.unknown, f);
      }
      DecodedUnknownIsForeign(AfterField(m, s, p), s[p.size..], at + p.size);
    }
  }

  /** Foreign fields only add to the unknown text. */
  lemma {:induction false} TakeForeign(m: Message, fs: seq<Field>)
    requires AllForeign(|m.fields|, fs)
    ensures AllAcceptable(|m.fields|, fs) && TakeAll(m, fs) == m.(unknown := m.unknown + Texts(fs))
    decreases |fs|
  {
    hide FieldNum, RawValue;
    if fs == [] {
    } else {
      TakeForeign(Take(m, fs[0]), fs[1..]);
      Assoc(m.unknown, Text(fs[0]), Texts(fs[1..]));
    }
  }

  // ---------- Known fields ----------

  lemma {:induction false} TagByteRead(f: nat, rest: bytes)
    requires 1 <= f <= 15
    ensures ReadFrom([8 * f + 2] + rest, 0) == Read(8 * f + 2, 1)
    ensures WireType(8 * f + 2) == 2 && FieldNum(8 * f + 2) == f
  {
  }

  lemma {:induction false} ParseEncodedValue(f: nat, value: bytes, rest: bytes, at: nat)
    requires 1 <= f <= 15 && value != []
    requires at + |[8 * f + 2] + Varint(|value|) + value + rest| <= MAX_INT
    ensures var head := 1 + |Varint(|value|)|;
            ParseKnown(f, 1, [8 * f + 2] + Varint(|value|) + value + rest, at) == Known(f, head, head + |value|)
  {
    hide ReadFrom, Varint;
    LenParts([8 * f + 2], Varint(|value|), value, rest);
    VarintRoundTrip(|value|, value + rest);
  }

  lemma {:induction false} ParseEncoded(k: nat, f: nat, value: bytes, rest: bytes, at: nat)
    requires 1 <= f <= k <= 15 && value != [] && at + |EncodeField(f, value) + rest| <= MAX_INT
    ensures var head := 1 + |Varint(|value|)|;
            ParseField(k, EncodeField(f, value) + rest, at) == Known(f, head, head + |value|)
            && |EncodeField(f, value)| == head + |value|
  {
    hide ReadFrom, Varint, ParseKnown, ParseUnknown, FieldNum, WireType;
    var s := EncodeField(f, value) + rest;
    assert s == [8 * f + 2] + (Varint(|value|) + value + rest);
    TagByteRead(f, Varint(|value|) + value + rest);
    ParseEncodedValue(f, value, rest, at);
  }

  lemma {:induction false} DecodeEncodedField(m: Message, f: nat, value: bytes, rest: bytes, at: nat)
    requires Small(m) && 1 <= f <= |m.fields| && value != [] && at + |EncodeField(f, value) + rest| <= MAX_INT
    ensures Unmarshal(m, EncodeField(f, value) + rest, at) ==
            Unmarshal(m.(fields := m.fields[f - 1 := value]), rest, at + |EncodeField(f, value)|)
  {
    hide ParseField, Varint;
    ParseEncoded(|m.fields|, f, value, rest, at);
    var s, head := EncodeField(f, value) + rest, 1 + |Varint(|value|)|;
    assert s[head..head + |value|] == value;
    assert s[head + |value|..] == rest;
  }

  /** `cur` has the fields of `m` before index `i` and nothing from there on. */
  predicate DecodedUpTo(cur: Message, m: Message, i: nat) {
    && |cur.fields| == |m.fields| && i <= |m.fields|
    && forall j :: 0 <= j < |m.fields| ==> cur.fields[j] == if j < i then m.fields[j] else []
  }

  lemma {:induction false} DecodeEncodedFields(cur: Message, m: Message, i: nat, rest: bytes, at: nat)
    requires Small(m) && DecodedUpTo(cur, m, i) && at + |EncodeFrom(m.fields, i) + rest| <= MAX_INT
    ensures Unmarshal(cur, EncodeFrom(m.fields, i) + rest, at) ==
            Unmarshal(cur.(fields := m.fields), rest, at + |EncodeFrom(m.fields, i)|)
    decreases |m.fields| - i
  {
    hide Unmarshal, EncodeField;
    if i == |m.fields| {
      assert EncodeFrom(m.fields, i) + rest == rest;
      assert cur.fields == m.fields;
    } else {
      var head, tail := EncodeField(i + 1, m.fields[i]), EncodeFrom(m.fields, i + 1) + rest;
      Assoc(head, EncodeFrom(m.fields, i + 1), rest);
      var next := cur.(fields := cur.fields[i := m.fields[i]]);
      if m.fields[i] == [] {
        EmptyFieldIsOmitted(i + 1);
        assert next.fields == cur.fields && head + tail == tail;
      } else {
        DecodeEncodedField(cur, i + 1, m.fields[i], tail, at);
      }
      DecodeEncodedFields(next, m, i + 1, rest, at + |head|);
    }
  }

  lemma {:induction false} EmptyFieldIsOmitted(f: nat)
    requires 1 <= f <= 15
    ensures EncodeField(f, []) == []
  {
  }

  /** Decoding the encoded message gives the known fields, then decodes the unknown text. */
  lemma {:induction false} DecodeEncode(m: Message)
    requires Small(m) && |Encode(m)| <= MAX_INT
    ensures Decode(NewMessage(|m.fields|), Encode(m)) ==
            Unmarshal(Message(m.fields, []), m.unknown, |EncodeFrom(m.fields, 0)|)
  {
    hide Unmarshal;
    DecodeEncodedFields(NewMessage(|m.fields|), m, 0, m.unknown, 0);
  }

  // ---------- Round trips ----------

  /**
    Decoding what was encoded gives the message back if and only if its unknown text is a
    sequence of well-formed fields with numbers the message does not know.
   */
  lemma {:induction false} RoundTrip(m: Message)
    requires Small(m) && |Encode(m)| <= MAX_INT
    ensures Decode(NewMessage(|m.fields|), Encode(m)) == Outcome(m, None) <==> ForeignText(|m.fields|, m.unknown)
  {
    hide Unmarshal;
    if Decode(NewMessage(|m.fields|), Encode(m)) == Outcome(m, None) {
      NothingIsForeign(|m.fields|);
      DecodedUnknownIsForeign(NewMessage(|m.fields|), Encode(m), 0);
    }
    if ForeignText(|m.fields|, m.unknown) {
      var fs :| AllWellFormed(fs) && AllForeign(|m.fields|, fs) && Texts(fs) == m.unknown;
      DecodeEncode(m);
      TakeForeign(Message(m.fields, []), fs);
      DecodeTexts(Message(m.fields, []), fs, |EncodeFrom(m.fields, 0)|);
      assert [] + m.unknown == m.unknown;
    }
  }

  lemma NothingIsForeign(k: nat)
    ensures ForeignText(k, [])
  {
    var none: seq<Field> := [];
    assert AllWellFormed(none) && AllForeign(k, none) && Texts(none) == [];
  }

  lemma {:induction false} EncodedUpdateSize(fields: seq<bytes>, i: nat, j: nat, value: bytes)
    requires i <= |fields| <= 15 && j < |fields|
    ensures |EncodeFrom(fields[j := value], i)| <= |EncodeFrom(fields, i)| + |EncodeField(j + 1, value)|
    decreases |fields| - i
  {
    hide EncodeField;
    if i == |fields| {
    } else {
      EncodedUpdateSize(fields, i + 1, j, value);
      if i == j {
        EncodedSameAfter(fields, i + 1, j, value);
      }
    }
  }

  lemma {:induction false} EncodedSameAfter(fields: seq<bytes>, i: nat, j: nat, value: bytes)
    requires j < i <= |fields| <= 15
    ensures EncodeFrom(fields[j := value], i) == EncodeFrom(fields, i)
    decreases |fields| - i
  {
    hide EncodeField;
    if i == |fields| {
    } else {
      EncodedSameAfter(fields, i + 1, j, value);
    }
  }

  /** A known field is never shorter on the wire than its encoding. */
  lemma {:induction false} ParsedKnownSize(k: nat, s: bytes, at: nat)
    requires at + |s| <= MAX_INT && k <= 15 && ParseField(k, s, at).Known?
    ensures var p := ParseField(k, s, at); |EncodeField(p.field, s[p.head..p.size])| <= p.size
  {
    hide ReadFrom, Varint, SkipFrom;
    var p, n := ParseField(k, s, at), ReadFrom(s, 0).size;
    var raw := ReadFrom(s[n..], 0).raw;
    VarintIsShortest(s[n..], 0);
    assert p.size - p.head <= raw;
    VarintGrows(p.size - p.head, raw);
  }

  lemma {:induction false} DecodedSize(m: Message, s: bytes, at: nat)
    requires Small(m) && at + |s| <= MAX_INT
    ensures |Encode(Unmarshal(m, s, at).msg)| <= |Encode(m)| + |s|
    decreases |s|
  {
    hide ParseField, EncodeFrom, EncodeField;
    if s == [] {
    } else {
      var p := ParseField(|m.fields|, s, at);
      if p.Known? {
        ParsedKnownSize(|m.fields|, s, at);
        EncodedUpdateSize(m.fields, 0, p.field - 1, s[p.head..p.size]);
        DecodedSize(m.(fields := m.fields[p.field - 1 := s[p.head..p.size]]), s[p.size..], at + p.size);
      } else if p.Unknown? {
        DecodedSize(m.(unknown := m.unknown + s[..p.size]), s[p.size..], at + p.size);
      }
    }
  }

  lemma {:induction false} NewMessageIsEmpty(k: nat, i: nat)
    requires i <= k <= 15
    ensures EncodeFrom(NewMessage(k).fields, i) == []
    decreases k - i
  {
    hide Varint;
    if i == k {
    } else {
      NewMessageIsEmpty(k, i + 1);
      EmptyFieldIsOmitted(i + 1);
    }
  }

  /**
    Whatever was accepted, in however wasteful an encoding, encodes to at most as many bytes
    and decodes to the same message again.
   */
  lemma {:induction false} ReencodingIsStable(k: nat, s: bytes)
    requires k <= 15 && |s| <= MAX_INT
    ensures var m := Decode(NewMessage(k), s).msg;
            && |Encode(m)| <= |s|
            && Decode(NewMessage(k), Encode(m)) == Outcome(m, None)
  {
    hide Unmarshal, EncodeFrom;
    var m := Decode(NewMessage(k), s).msg;
    NewMessageIsEmpty(k, 0);
    assert Encode(NewMessage(k)) == [];
    DecodedSize(NewMessage(k), s, 0);
    NothingIsForeign(k);
    DecodedUnknownIsForeign(NewMessage(k), s, 0);
    RoundTrip(m);
  }
}
