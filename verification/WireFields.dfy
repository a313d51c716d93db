/**
  Skipping an unknown field. `Skip` is a flat scan that counts the depth of open groups and,
  as is assumed of the helper the generated code calls, does not compare their numbers;
  `Field` is the grammar of the Protocol Buffers Encoding specification, section "Message
  Structure", except that a group may end in an end tag with another number than its own
  (`Matched` is the rule the scan does not look at). The two agree exactly: the scan stops
  at `n` if and only if the first `n` bytes are the text of a well-formed field.
 */
module WireFields {
  import opened Wire

  // ---------- The scan ----------

  datatype Kind = Plain | Open | Close

  datatype Token = Tok(size: nat, kind: Kind) | BadTok(error: WireError)

  /**
    One tag and, unless it opens or closes a group, its value; `at` is the index of `s` in
    the scanned slice. The size may point behind the end of `s`: the scan does not look.
   */
  function ReadToken(s: bytes, at: nat): (t: Token)
    requires at + |s| <= MAX_INT
    ensures t.Tok? ==> t.size > 0 && at + t.size <= MAX_INT
  {
    match ReadFrom(s, 0)
    case Unread(e) => BadTok(e)
    case Read(raw, n) => ReadValue(WireType(raw), n, s[n..], at)
  }

  /** The wire type of a tag that was read as `raw`. */
  function WireType(raw: nat): nat {
    (raw % TWO64) % 8
  }

  /** A length that was read as `raw`, as a 64-bit signed integer. */
  function Length(raw: nat): int {
    ToInt64(raw % TWO64)
  }

  /** The value behind a tag of `n` bytes; `tail` is what follows the tag. */
  function ReadValue(wireType: nat, n: nat, tail: bytes, at: nat): (t: Token)
    ensures n > 0 && t.Tok? ==> t.size > 0
    ensures at + n + |tail| <= MAX_INT && t.Tok? ==> at + t.size <= MAX_INT
  {
    match wireType
    case 0 =>
      (match ReadFrom(tail, 0)
       case Unread(e) => BadTok(e)
       case Read(_, m) => Tok(n + m, Plain))
    case 1 => Sized(at, n, 8)
    case 2 =>
      (match ReadFrom(tail, 0)
       case Unread(e) => BadTok(e)
       case Read(len, m) => if Length(len) < 0 then BadTok(InvalidLength) else Sized(at, n + m, Length(len)))
    case 3 => Tok(n, Open)
    case 4 => Tok(n, Close)
    case 5 => Sized(at, n, 4)
    case _ => BadTok(IllegalWireType)
  }

  /** The index behind the token, unless the 64-bit sum wrapped to a negative one. */
  function Sized(at: nat, head: nat, len: nat): (t: Token)
    ensures at + head <= MAX_INT && len <= MAX_INT && t.Tok? ==> at + head + len <= MAX_INT
  {
    if ToInt64(at + head + len) < 0 then BadTok(InvalidLength) else Tok(head + len, Plain)
  }

  datatype Scan = Scanned(size: nat) | Failed(error: WireError)

  function Plus(n: nat, r: Scan): Scan {
    match r
    case Scanned(m) => Scanned(n + m)
    case Failed(e) => Failed(e)
  }

  function DepthAfter(kind: Kind, depth: nat): nat
    requires kind == Close ==> depth > 0
  {
    match kind case Plain => depth case Open => depth + 1 case Close => depth - 1
  }

  /** The loop of Skip from index `at` on, with `depth` groups open. */
  function SkipFrom(s: bytes, at: nat, depth: nat): (r: Scan)
    requires at + |s| <= MAX_INT
    ensures r.Scanned? ==> r.size > 0 && at + r.size <= MAX_INT
    decreases |s|
  {
    if s == [] then Failed(UnexpectedEOF)
    else
      match ReadToken(s, at)
      case BadTok(e) => Failed(e)
      case Tok(size, kind) =>
        if kind == Close && depth == 0 then Failed(UnexpectedEndOfGroup)
        else
          var depth' := DepthAfter(kind, depth);
          if depth' == 0 then Scanned(size)
          else if size > |s| then Failed(UnexpectedEOF)
          else Plus(size, SkipFrom(s[size..], at + size, depth'))
  }

  function Skip(s: bytes): Scan
    requires |s| <= MAX_INT
  {
    SkipFrom(s, 0, 0)
  }

  /** What each wire type takes, on the bytes, for a one-byte tag and, where there is one, a one-byte varint. */
  lemma {:induction false} SkipByType(tag: byte, next: byte, rest: bytes)
    requires tag < 128 && next < 128 && |rest| + 2 <= MAX_INT - 8
    ensures var r := Skip([tag] + ([next] + rest));
            match tag % 8
            case 0 => r == Scanned(2)
            case 1 => r == Scanned(9)
            case 2 => r == Scanned(2 + next)
            case 4 => r == Failed(UnexpectedEndOfGroup)
            case 5 => r == Scanned(5)
            case 6 => r == Failed(IllegalWireType)
            case 7 => r == Failed(IllegalWireType)
            case _ => true
  {
    var s := [tag] + ([next] + rest);
    assert s[1..] == [next] + rest;
    assert ReadFrom(s, 0) == Read(tag, 1);
    assert ReadFrom(s[1..], 0) == Read(next, 1);
  }

  // ---------- The grammar ----------

  datatype Field =
    | VarintField(tag: bytes, value: bytes)
    | Fixed64Field(tag: bytes, value: bytes)
    | LenField(tag: bytes, len: bytes, value: bytes)
    | GroupField(tag: bytes, body: seq<Field>, end: bytes)
    | Fixed32Field(tag: bytes, value: bytes)

  predicate IsTag(tag: bytes, wireType: nat) {
    IsVarint(tag) && Value(tag) % 8 == wireType
  }

  predicate WellFormed(f: Field)
    decreases f
  {
    match f
    case VarintField(tag, value) => IsTag(tag, 0) && IsVarint(value)
    case Fixed64Field(tag, value) => IsTag(tag, 1) && |value| == 8
    case LenField(tag, len, value) => IsTag(tag, 2) && IsVarint(len) && Value(len) == |value|
    case GroupField(tag, body, end) => IsTag(tag, 3) && AllWellFormed(body) && IsTag(end, 4)
    case Fixed32Field(tag, value) => IsTag(tag, 5) && |value| == 4
  }

  predicate AllWellFormed(fs: seq<Field>)
    decreases fs
  {
    fs == [] || (WellFormed(fs[0]) && AllWellFormed(fs[1..]))
  }

  /** Every group ends with an end tag of its own field number. */
  predicate Matched(f: Field)
    decreases f
  {
    match f
    case GroupField(tag, body, end) =>
      Value(tag) / 8 == Value(end) / 8 && forall i :: 0 <= i < |body| ==> Matched(body[i])
    case _ => true
  }

  function Text(f: Field): bytes
    decreases f
  {
    match f
    case VarintField(tag, value) => tag + value
    case Fixed64Field(tag, value) => tag + value
    case LenField(tag, len, value) => tag + len + value
    case GroupField(tag, body, end) => tag + Texts(body) + end
    case Fixed32Field(tag, value) => tag + value
  }

  function Texts(fs: seq<Field>): bytes
    decreases fs
  {
    if fs == [] then [] else Text(fs[0]) + Texts(fs[1..])
  }

  lemma {:induction false} TextsConcat(a: seq<Field>, b: seq<Field>)
    ensures Texts(a + b) == Texts(a) + Texts(b)
    ensures AllWellFormed(a + b) <==> AllWellFormed(a) && AllWellFormed(b)
    decreases |a|
  {
    if a == [] {
      assert a + b == b;
    } else {
      TextsConcat(a[1..], b);
      assert (a + b)[1..] == a[1..] + b;
    }
  }

  lemma {:induction false} TextsCons(f: Field, fs: seq<Field>)
    ensures Texts([f] + fs) == Text(f) + Texts(fs)
    ensures AllWellFormed([f] + fs) <==> WellFormed(f) && AllWellFormed(fs)
  {
    hide Text, WellFormed;
    assert ([f] + fs)[1..] == fs;
  }

  // ---------- Every field is skipped ----------

  /** The wire type of a field and the text behind its tag. */
  function TypeOf(f: Field): nat {
    match f
    case VarintField(_, _) => 0
    case Fixed64Field(_, _) => 1
    case LenField(_, _, _) => 2
    case GroupField(_, _, _) => 3
    case Fixed32Field(_, _) => 5
  }

  function Tail(f: Field): bytes {
    match f
    case LenField(_, len, value) => len + value
    case GroupField(_, body, end) => Texts(body) + end
    case _ => f.value
  }

  lemma {:induction false} TextIsTagAndTail(f: Field)
    ensures Text(f) == f.tag + Tail(f)
    ensures WellFormed(f) ==> IsTag(f.tag, TypeOf(f))
  {
  }

  lemma {:induction false} TagRead(tag: bytes, rest: bytes, at: nat, wireType: nat)
    requires IsTag(tag, wireType) && at + |tag + rest| <= MAX_INT
    ensures ReadToken(tag + rest, at) == ReadValue(wireType, |tag|, rest, at)
  {
    ReadComplete(tag, rest, 0);
    assert (tag + rest)[|tag|..] == rest;
  }

  lemma {:induction false} NoWrap(at: nat, head: nat, len: nat)
    requires at + head + len <= MAX_INT
    ensures Sized(at, head, len) == Tok(head + len, Plain)
  {
  }

  lemma {:induction false} LengthOf(len: bytes, n: nat)
    requires Value(len) == n && n <= MAX_INT
    ensures Length(RawValue(len)) == n
  {
  }

  lemma {:induction false} PlainValue(f: Field, rest: bytes, at: nat)
    requires WellFormed(f) && !f.GroupField? && at + |f.tag| + |Tail(f)| <= MAX_INT
    ensures ReadValue(TypeOf(f), |f.tag|, Tail(f) + rest, at) == Tok(|f.tag| + |Tail(f)|, Plain)
  {
    if f.VarintField? {
      ReadComplete(f.value, rest, 0);
    } else if f.LenField? {
      Assoc(f.len, f.value, rest);
      ReadComplete(f.len, f.value + rest, 0);
      LengthOf(f.len, |f.value|);
      NoWrap(at, |f.tag| + |f.len|, |f.value|);
    } else {
      NoWrap(at, |f.tag|, |f.value|);
    }
  }

  lemma {:induction false} Assoc(a: bytes, b: bytes, c: bytes)
    ensures (a + b) + c == a + (b + c)
  {
  }

  lemma {:induction false} PlainToken(f: Field, rest: bytes, at: nat)
    requires WellFormed(f) && !f.GroupField? && at + |Text(f) + rest| <= MAX_INT
    ensures ReadToken(Text(f) + rest, at) == Tok(|Text(f)|, Plain)
  {
    TextIsTagAndTail(f);
    Assoc(f.tag, Tail(f), rest);
    TagRead(f.tag, Tail(f) + rest, at, TypeOf(f));
    PlainValue(f, rest, at);
  }

  /** One step of the scan over a token that lies within the slice. */
  lemma {:induction false} SkipToken(s: bytes, rest: bytes, at: nat, depth: nat, kind: Kind)
    requires s != [] && at + |s + rest| <= MAX_INT && ReadToken(s + rest, at) == Tok(|s|, kind)
    requires kind == Close ==> depth > 0
    ensures var depth' := DepthAfter(kind, depth);
            SkipFrom(s + rest, at, depth) ==
            if depth' == 0 then Scanned(|s|) else Plus(|s|, SkipFrom(rest, at + |s|, depth'))
  {
    hide ReadToken, ReadFrom;
    assert (s + rest)[|s|..] == rest;
  }

  lemma {:induction false} SkipField(f: Field, rest: bytes, at: nat, depth: nat)
    requires WellFormed(f) && at + |Text(f) + rest| <= MAX_INT
    ensures SkipFrom(Text(f) + rest, at, depth) ==
            if depth == 0 then Scanned(|Text(f)|)
            else Plus(|Text(f)|, SkipFrom(rest, at + |Text(f)|, depth))
    decreases f
  {
    hide SkipFrom, ReadToken;
    if f.GroupField? {
      SkipFields(f.body, f.end + rest, at + |f.tag|, depth + 1) by {
        Assoc(Texts(f.body), f.end, rest);
      }
      SkipGroup(f.tag, Texts(f.body), f.end, rest, at, depth);
    } else {
      PlainToken(f, rest, at);
      TextIsTagAndTail(f);
      SkipToken(Text(f), rest, at, depth, Plain);
    }
  }

  /** A group whose body the scan crosses at the next depth. */
  lemma {:induction false} SkipGroup(tag: bytes, body: bytes, end: bytes, rest: bytes, at: nat, depth: nat)
    requires IsTag(tag, 3) && IsTag(end, 4) && at + |tag + body + end + rest| <= MAX_INT
    requires SkipFrom(body + (end + rest), at + |tag|, depth + 1) ==
             Plus(|body|, SkipFrom(end + rest, at + |tag| + |body|, depth + 1))
    ensures SkipFrom(tag + body + end + rest, at, depth) ==
            if depth == 0 then Scanned(|tag + body + end|)
            else Plus(|tag + body + end|, SkipFrom(rest, at + |tag + body + end|, depth))
  {
    hide SkipFrom, ReadToken, ReadFrom;
    var inner, at' := body + (end + rest), at + |tag| + |body|;
    assert tag + body + end + rest == tag + inner;
    TagRead(tag, inner, at, 3);
    SkipToken(tag, inner, at, depth, Open);
    TagRead(end, rest, at', 4);
    SkipToken(end, rest, at', depth + 1, Close);
  }

  lemma {:induction false} SkipFields(fs: seq<Field>, rest: bytes, at: nat, depth: nat)
    requires AllWellFormed(fs) && at + |Texts(fs) + rest| <= MAX_INT && depth > 0
    ensures SkipFrom(Texts(fs) + rest, at, depth) == Plus(|Texts(fs)|, SkipFrom(rest, at + |Texts(fs)|, depth))
    decreases fs
  {
    hide SkipFrom, ReadToken;
    if fs == [] {
      assert Texts(fs) + rest == rest;
    } else {
      assert Texts(fs) + rest == Text(fs[0]) + (Texts(fs[1..]) + rest);
      SkipField(fs[0], Texts(fs[1..]) + rest, at, depth);
      SkipFields(fs[1..], rest, at + |Text(fs[0])|, depth);
    }
  }

  /** Nothing to read and an unreadable tag, the errors of a scan at its start. */
  lemma {:induction false} SkipErrors(s: bytes)
    requires |s| <= MAX_INT
    ensures s == [] ==> Skip(s) == Failed(UnexpectedEOF)
    ensures s != [] && ReadFrom(s, 0).Unread? ==> Skip(s) == Failed(ReadFrom(s, 0).error)
  {
    hide ReadFrom;
  }

  /** A group that is not closed runs into the end. */
  lemma {:induction false} OpenGroupFails(tag: bytes, body: seq<Field>)
    requires IsTag(tag, 3) && AllWellFormed(body) && |tag + Texts(body)| <= MAX_INT
    ensures Skip(tag + Texts(body)) == Failed(UnexpectedEOF)
  {
    hide SkipFrom, ReadToken, ReadFrom, Texts, AllWellFormed, IsVarint, Value;
    var text := Texts(body);
    TagRead(tag, text, 0, 3);
    SkipToken(tag, text, 0, 0, Open);
    SkipFields(body, [], |tag|, 1);
    assert text + [] == text;
    NothingToSkip(|tag| + |text|, 1);
  }

  lemma NothingToSkip(at: nat, depth: nat)
    requires at <= MAX_INT
    ensures SkipFrom([], at, depth) == Failed(UnexpectedEOF)
  {
  }

  // ---------- Whatever is skipped is a field ----------

  /** The unread remainder of one open group: fields, then its end tag. */
  datatype Level = Level(body: seq<Field>, end: bytes)

  predicate LevelsWellFormed(ls: seq<Level>) {
    forall i :: 0 <= i < |ls| ==> AllWellFormed(ls[i].body) && IsTag(ls[i].end, 4)
  }

  function LevelsText(ls: seq<Level>): bytes {
    if ls == [] then [] else Texts(ls[0].body) + ls[0].end + LevelsText(ls[1..])
  }

  /** A scanned token that is not a group tag is the text of a field. */
  lemma {:induction false} TokenIsField(s: bytes, at: nat) returns (f: Field)
    requires at + |s| <= MAX_INT && ReadToken(s, at).Tok? && ReadToken(s, at).kind == Plain
    requires ReadToken(s, at).size <= |s|
    ensures WellFormed(f) && Text(f) == s[..ReadToken(s, at).size]
    ensures f.tag == s[..ReadFrom(s, 0).size]
  {
    hide ReadToken, ReadFrom, ReadValue, FieldOf, WellFormed, Text, Tail, IsVarint, Value;
    TagFits(s, at);
    var n, size := ReadFrom(s, 0).size, ReadToken(s, at).size;
    ValueIsField(s[..n], s[n..], at, size - n);
    f := FieldOf(s[..n], s[n..][..size - n]);
    SplitAt(s, n, size);
    TextIsTagAndTail(f);
  }

  lemma {:induction false} TagFits(s: bytes, at: nat)
    requires at + |s| <= MAX_INT && ReadToken(s, at).Tok?
    ensures ReadFrom(s, 0).Read? && ReadFrom(s, 0).size <= ReadToken(s, at).size
    ensures var tag := s[..ReadFrom(s, 0).size];
            IsVarint(tag) && ReadToken(s, at) == ReadValue(Value(tag) % 8, |tag|, s[|tag|..], at)
  {
    hide ReadFrom, IsVarint;
    ReadSound(s, 0);
  }

  /** The field a tag and the text behind it stand for. */
  function FieldOf(tag: bytes, tail: bytes): Field {
    match Value(tag) % 8
    case 0 => VarintField(tag, tail)
    case 1 => Fixed64Field(tag, tail)
    case 2 =>
      (match ReadFrom(tail, 0)
       case Read(_, m) => LenField(tag, tail[..m], tail[m..])
       case Unread(_) => LenField(tag, [], tail))
    case _ => Fixed32Field(tag, tail)
  }

  lemma {:induction false} ValueIsField(tag: bytes, rest: bytes, at: nat, size: int)
    requires IsVarint(tag) && 0 <= size <= |rest|
    requires ReadValue(Value(tag) % 8, |tag|, rest, at) == Tok(|tag| + size, Plain)
    ensures var f := FieldOf(tag, rest[..size]);
            WellFormed(f) && f.tag == tag && Tail(f) == rest[..size]
  {
    var tail := rest[..size];
    if Value(tag) % 8 == 0 {
      ReadSound(rest, 0);
    } else if Value(tag) % 8 == 2 {
      ReadSound(rest, 0);
      var m := ReadFrom(rest, 0).size;
      assert rest[..m] == tail[..m];
      assert tail == rest[..m] + tail[m..];
      ReadComplete(rest[..m], tail[m..], 0);
      LengthIsValue(rest[..m]);
    }
  }

  lemma {:induction false} LengthIsValue(len: bytes)
    requires Length(RawValue(len)) >= 0
    ensures Value(len) == Length(RawValue(len))
  {
  }

  lemma {:induction false} TokenIsTag(s: bytes, at: nat)
    requires at + |s| <= MAX_INT && ReadToken(s, at).Tok? && ReadToken(s, at).kind != Plain
    ensures var size := ReadToken(s, at).size;
            && size <= |s| && size == ReadFrom(s, 0).size
            && IsTag(s[..size], if ReadToken(s, at).kind == Open then 3 else 4)
  {
    ReadSound(s, 0);
  }

  lemma {:induction false} SplitAt(s: bytes, size: nat, n: nat)
    requires size <= n <= |s|
    ensures s[..n] == s[..size] + s[size..][..n - size]
  {
  }

  /** What a successful scan says about its first token. */
  lemma {:induction false} FirstToken(s: bytes, at: nat, depth: nat)
    requires at + |s| <= MAX_INT
    requires SkipFrom(s, at, depth).Scanned? && SkipFrom(s, at, depth).size <= |s|
    ensures var t, n := ReadToken(s, at), SkipFrom(s, at, depth).size;
            && t.Tok? && 0 < t.size <= n && (t.kind == Close ==> depth > 0)
            && (DepthAfter(t.kind, depth) == 0 ==> t.size == n)
            && (DepthAfter(t.kind, depth) > 0 ==>
                  SkipFrom(s[t.size..], at + t.size, DepthAfter(t.kind, depth)) == Scanned(n - t.size))
  {
  }

  lemma {:induction false} SkippedLevels(s: bytes, at: nat, depth: nat) returns (ls: seq<Level>)
    requires at + |s| <= MAX_INT && depth > 0
    requires SkipFrom(s, at, depth).Scanned? && SkipFrom(s, at, depth).size <= |s|
    ensures |ls| == depth && LevelsWellFormed(ls) && LevelsText(ls) == s[..SkipFrom(s, at, depth).size]
    decreases |s|
  {
    hide SkipFrom, ReadToken, ReadFrom;
    FirstToken(s, at, depth);
    var n := SkipFrom(s, at, depth).size;
    var Tok(size, kind) := ReadToken(s, at);
    SplitAt(s, size, n);
    match kind
    case Plain =>
      var f := TokenIsField(s, at);
      var rest := SkippedLevels(s[size..], at + size, depth);
      PrependField(f, rest);
      ls := Prepended(f, rest);
    case Open =>
      TokenIsTag(s, at);
      var rest := SkippedLevels(s[size..], at + size, depth + 1);
      CloseGroup(s[..size], rest);
      ls := Prepended(GroupField(s[..size], rest[0].body, rest[0].end), rest[1..]);
    case Close =>
      TokenIsTag(s, at);
      var rest := [];
      if depth > 1 {
        rest := SkippedLevels(s[size..], at + size, depth - 1);
      }
      PrependLevel(s[..size], rest);
      ls := [Level([], s[..size])] + rest;
  }

  function Prepended(f: Field, rest: seq<Level>): seq<Level>
    requires rest != []
  {
    [Level([f] + rest[0].body, rest[0].end)] + rest[1..]
  }

  lemma {:induction false} PrependLevel(end: bytes, rest: seq<Level>)
    requires IsTag(end, 4) && LevelsWellFormed(rest)
    ensures var ls := [Level([], end)] + rest;
            LevelsWellFormed(ls) && LevelsText(ls) == end + LevelsText(rest)
  {
    var ls := [Level([], end)] + rest;
    assert ls[1..] == rest;
    assert Texts(ls[0].body) == [];
  }

  lemma {:induction false} PrependField(f: Field, rest: seq<Level>)
    requires WellFormed(f) && rest != [] && LevelsWellFormed(rest)
    ensures var ls := Prepended(f, rest);
            |ls| == |rest| && LevelsWellFormed(ls) && LevelsText(ls) == Text(f) + LevelsText(rest)
  {
    hide Text, WellFormed, IsTag, Texts, AllWellFormed;
    var ls := Prepended(f, rest);
    TextsCons(f, rest[0].body);
    assert ls[1..] == rest[1..];
    Assoc(Text(f), Texts(rest[0].body), rest[0].end);
    Assoc(Text(f), Texts(rest[0].body) + rest[0].end, LevelsText(rest[1..]));
    forall i | 0 <= i < |ls| ensures AllWellFormed(ls[i].body) && IsTag(ls[i].end, 4) {
      if i > 0 {
        assert ls[i] == rest[i];
      }
    }
  }

  lemma {:induction false} CloseGroup(tag: bytes, rest: seq<Level>)
    requires IsTag(tag, 3) && |rest| > 1 && LevelsWellFormed(rest)
    ensures var group := GroupField(tag, rest[0].body, rest[0].end);
            var ls := Prepended(group, rest[1..]);
            |ls| == |rest| - 1 && LevelsWellFormed(ls) && LevelsText(ls) == tag + LevelsText(rest)
  {
    var group := GroupField(tag, rest[0].body, rest[0].end);
    assert WellFormed(group);
    forall i | 0 <= i < |rest[1..]| ensures AllWellFormed(rest[1..][i].body) && IsTag(rest[1..][i].end, 4) {
      assert rest[1..][i] == rest[i + 1];
    }
    PrependField(group, rest[1..]);
    var tail := LevelsText(rest[1..]);
    assert Text(group) + tail == tag + (Texts(rest[0].body) + rest[0].end + tail);
  }

  /** The scan returns `n` within the slice only behind the text of a well-formed field. */
  lemma {:induction false} SkippedIsField(s: bytes) returns (f: Field)
    requires |s| <= MAX_INT && Skip(s).Scanned? && Skip(s).size <= |s|
    ensures WellFormed(f) && Text(f) == s[..Skip(s).size] && f.tag == s[..ReadFrom(s, 0).size]
  {
    hide SkipFrom, ReadToken, ReadFrom;
    FirstToken(s, 0, 0);
    var n := Skip(s).size;
    var Tok(size, kind) := ReadToken(s, 0);
    SplitAt(s, size, n);
    if kind == Plain {
      f := TokenIsField(s, 0);
    } else {
      TokenIsTag(s, 0);
      var ls := SkippedLevels(s[size..], size, 1);
      f := GroupField(s[..size], ls[0].body, ls[0].end);
      assert ls[1..] == [];
      assert LevelsText(ls) == Texts(ls[0].body) + ls[0].end;
      assert Text(f) == s[..size] + (Texts(ls[0].body) + ls[0].end);
    }
  }

  /** The scan and the grammar agree exactly. */
  lemma SkipIsExact(s: bytes, n: nat)
    requires |s| <= MAX_INT && n <= |s|
    ensures Skip(s) == Scanned(n) <==> exists f :: WellFormed(f) && Text(f) == s[..n]
  {
    if Skip(s) == Scanned(n) {
      var f := SkippedIsField(s);
    }
    forall f | WellFormed(f) && Text(f) == s[..n] ensures Skip(s) == Scanned(n) {
      assert s == Text(f) + s[n..];
      SkipField(f, s[n..], 0, 0);
    }
  }

  lemma {:induction false} OneByteVarint(t: bytes)
    requires IsVarint(t) && t[0] < 128
    ensures t == [t[0]] && Value(t) == t[0]
  {
    assert t[1..] == [];
    assert RawValue(t[1..]) == 0;
  }

  /** The scan takes a group of field 1 that ends with the end tag of field 2; the specification has no such field. */
  lemma {:induction false} MismatchedGroupWitness()
    ensures Skip([11, 20]) == Scanned(2)
    ensures forall f :: WellFormed(f) && Text(f) == [11, 20] ==> !Matched(f)
  {
    var s: bytes := [11, 20];
    var group := GroupField([11], [], [20]);
    OneByteVarint([11]);
    OneByteVarint([20]);
    assert Text(group) == s && s[..2] == s;
    SkipIsExact(s, 2);
    hide WellFormed, Text, Matched, Skip;
    forall f | WellFormed(f) && Text(f) == s ensures !Matched(f) {
      NotMatched(f);
    }
  }

  lemma {:induction false} NotMatched(f: Field)
    requires WellFormed(f) && Text(f) == [11, 20]
    ensures !Matched(f)
  {
    hide Text, RawValue, Texts;
    TextIsTagAndTail(f);
    assert f.tag[0] == Text(f)[0];
    OneByteVarint(f.tag);
    assert Tail(f) == Text(f)[1..] == [20];
    assert f.end[|f.end| - 1] == Tail(f)[|Tail(f)| - 1];
    assert f.end == [20];
    OneByteVarint(f.end);
  }

  /** A successful scan does not depend on what follows the field. */
  lemma SkipExtends(s: bytes, t: bytes)
    requires |s + t| <= MAX_INT && Skip(s).Scanned? && Skip(s).size <= |s|
    ensures Skip(s + t) == Skip(s)
  {
    var f := SkippedIsField(s);
    var n := Skip(s).size;
    assert s + t == Text(f) + (s[n..] + t);
    SkipField(f, s[n..] + t, 0, 0);
  }
}
