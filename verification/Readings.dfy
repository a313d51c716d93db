/**
  The grammar of WireFields is unambiguous: a text has at most one reading. So whether what
  the scan skipped is also a field of the specification, whose groups must end with their own
  number, is settled by the one reading there is.
 */
module Readings {
  import opened Wire
  import opened WireFields

  lemma {:induction false} SameSplit(a: bytes, b: bytes, r: bytes, q: bytes)
    requires a + r == b + q && |a| == |b|
    ensures a == b && r == q
  {
    assert a == (a + r)[..|a|] && b == (b + q)[..|b|];
    assert r == (a + r)[|a|..] && q == (b + q)[|b|..];
  }

  /** No varint is the beginning of another. */
  lemma {:induction false} VarintIsPrefixFree(t: bytes, u: bytes, r: bytes, q: bytes)
    requires IsVarint(t) && IsVarint(u) && t + r == u + q
    ensures t == u && r == q
  {
    hide ReadFrom;
    ReadComplete(t, r, 0);
    ReadComplete(u, q, 0);
    SameSplit(t, u, r, q);
  }

  /** The end of a group body or of the whole text: no field begins here. */
  ghost predicate Stops(e: bytes) {
    e == [] || exists tag, rest :: IsTag(tag, 4) && e == tag + rest
  }

  lemma {:induction false} NoFieldAtStop(f: Field, r: bytes, e: bytes)
    requires WellFormed(f) && Stops(e)
    ensures Text(f) + r != e
  {
    TextIsTagAndTail(f);
    hide Text, Tail, WellFormed;
    if e != [] && Text(f) + r == e {
      var tag, rest :| IsTag(tag, 4) && e == tag + rest;
      Assoc(f.tag, Tail(f), r);
      VarintIsPrefixFree(f.tag, tag, Tail(f) + r, rest);
    }
  }

  /** Behind the same tag, a field that is not a group. */
  lemma {:induction false} OneTail(f: Field, g: Field, r: bytes, q: bytes)
    requires WellFormed(f) && WellFormed(g) && !f.GroupField? && TypeOf(f) == TypeOf(g)
    requires f.tag == g.tag && Tail(f) + r == Tail(g) + q
    ensures f == g && r == q
  {
    if f.VarintField? {
      VarintIsPrefixFree(f.value, g.value, r, q);
    } else if f.LenField? {
      Assoc(f.len, f.value, r);
      Assoc(g.len, g.value, q);
      VarintIsPrefixFree(f.len, g.len, f.value + r, g.value + q);
      SameSplit(f.value, g.value, r, q);
    } else {
      SameSplit(f.value, g.value, r, q);
    }
  }

  /** Two fields at the front of one text are the same field. */
  lemma {:induction false} OneField(f: Field, g: Field, r: bytes, q: bytes)
    requires WellFormed(f) && WellFormed(g) && Text(f) + r == Text(g) + q
    ensures f == g && r == q
    decreases f
  {
    hide Text, Texts;
    TextIsTagAndTail(f);
    TextIsTagAndTail(g);
    Assoc(f.tag, Tail(f), r);
    Assoc(g.tag, Tail(g), q);
    VarintIsPrefixFree(f.tag, g.tag, Tail(f) + r, Tail(g) + q);
    if f.GroupField? {
      Assoc(Texts(f.body), f.end, r);
      Assoc(Texts(g.body), g.end, q);
      OneReadingBefore(f.body, g.body, f.end + r, g.end + q);
      VarintIsPrefixFree(f.end, g.end, r, q);
    } else {
      OneTail(f, g, r, q);
    }
  }

  lemma {:induction false} OneReadingBefore(fs: seq<Field>, gs: seq<Field>, e: bytes, d: bytes)
    requires AllWellFormed(fs) && AllWellFormed(gs) && Stops(e) && Stops(d)
    requires Texts(fs) + e == Texts(gs) + d
    ensures fs == gs && e == d
    decreases fs
  {
    hide Text, WellFormed, Stops;
    if fs == [] && gs == [] {
      assert [] + e == e && [] + d == d;
    } else if fs == [] {
      Assoc(Text(gs[0]), Texts(gs[1..]), d);
      NoFieldAtStop(gs[0], Texts(gs[1..]) + d, e);
    } else if gs == [] {
      Assoc(Text(fs[0]), Texts(fs[1..]), e);
      NoFieldAtStop(fs[0], Texts(fs[1..]) + e, d);
    } else {
      Assoc(Text(fs[0]), Texts(fs[1..]), e);
      Assoc(Text(gs[0]), Texts(gs[1..]), d);
      OneField(fs[0], gs[0], Texts(fs[1..]) + e, Texts(gs[1..]) + d);
      OneReadingBefore(fs[1..], gs[1..], e, d);
      assert fs == [fs[0]] + fs[1..] && gs == [gs[0]] + gs[1..];
    }
  }

  /** A text has at most one reading as a sequence of fields. */
  lemma {:induction false} OneReading(fs: seq<Field>, gs: seq<Field>)
    requires AllWellFormed(fs) && AllWellFormed(gs) && Texts(fs) == Texts(gs)
    ensures fs == gs
  {
    hide Texts, AllWellFormed;
    assert Texts(fs) + [] == Texts(gs) + [];
    OneReadingBefore(fs, gs, [], []);
  }

  /**
    What the scan skips has one reading, which is produced, and it is a field of the
    specification if and only if every group of that reading ends with its own number.
   */
  lemma {:induction false} SkippedIsSpecifiedExactly(s: bytes) returns (f: Field)
    requires |s| <= MAX_INT && Skip(s).Scanned? && Skip(s).size <= |s|
    ensures WellFormed(f) && Text(f) == s[..Skip(s).size]
    ensures forall g :: WellFormed(g) && Text(g) == s[..Skip(s).size] ==> g == f
    ensures (exists g :: WellFormed(g) && Matched(g) && Text(g) == s[..Skip(s).size]) <==> Matched(f)
  {
    hide Text, WellFormed, Matched, Skip;
    f := SkippedIsField(s);
    forall g | WellFormed(g) && Text(g) == s[..Skip(s).size] ensures g == f {
      assert Text(g) + [] == Text(f) + [];
      OneField(g, f, [], []);
    }
  }

  /**
    The scan against the specification, for every input: the first `n` bytes are a field of the
    specification if and only if the scan stops at `n` and no reading of them has a mismatched group.
   */
  lemma {:induction false} SpecifiedExactly(s: bytes, n: nat)
    requires |s| <= MAX_INT && n <= |s|
    ensures (exists g :: WellFormed(g) && Matched(g) && Text(g) == s[..n]) <==>
            Skip(s) == Scanned(n) && forall f :: WellFormed(f) && Text(f) == s[..n] ==> Matched(f)
  {
    hide Text, WellFormed, Matched, Skip;
    SkipIsExact(s, n);
    if Skip(s) == Scanned(n) {
      var f := SkippedIsSpecifiedExactly(s);
    }
  }

  /** The rule reaches into groups: field 2 inside field 1 ends as field 3 in the first text, as itself in the second. */
  lemma {:induction false} NestedGroupWitness()
    ensures Skip([11, 19, 28, 12]) == Scanned(4) && forall f :: WellFormed(f) && Text(f) == [11, 19, 28, 12] ==> !Matched(f)
    ensures exists f :: WellFormed(f) && Matched(f) && Text(f) == [11, 19, 20, 12]
  {
    var s: bytes, t: bytes := [11, 19, 28, 12], [11, 19, 20, 12];
    var f, g := Nested(28), Nested(20);
    NestedIsField(28);
    NestedIsField(20);
    assert s[..4] == s;
    SkipIsExact(s, 4);
    hide WellFormed, Text, Matched, Skip;
    forall h | WellFormed(h) && Text(h) == s ensures !Matched(h) {
      assert Text(h) + [] == Text(f) + [];
      OneField(h, f, [], []);
    }
  }

  function Nested(end: byte): Field {
    GroupField([11], [GroupField([19], [], [end])], [12])
  }

  lemma {:induction false} NestedIsField(end: byte)
    requires end == 20 || end == 28
    ensures WellFormed(Nested(end)) && Text(Nested(end)) == [11, 19, end, 12]
    ensures Matched(Nested(end)) <==> end == 20
  {
    OneByteVarint([11]);
    OneByteVarint([19]);
    OneByteVarint([end]);
    OneByteVarint([12]);
    var inner := GroupField([19], [], [end]);
    assert WellFormed(inner) && Text(inner) == [19, end] && (Matched(inner) <==> end == 20);
    assert [inner][1..] == [];
    assert Texts([inner]) == Text(inner) + Texts([]) == [19, end];
    assert AllWellFormed([inner]);
    assert Nested(end).body == [inner];
  }
}
