/**
  The request signatures of pkg/server/hmac.go. The MAC is any keyed function of the message;
  "collision-free" is a hypothesis where it is needed. A signature is its decoded bytes, and
  `None` one that is missing or not hexadecimal. Timestamps are 64-bit signed integers.
 */
module Signatures {
  import opened Options
  import opened Wire

  type int64 = x: int | -TWO63 <= x < TWO63

  /** `ts / 30 * 30`, with division that truncates toward zero. */
  function RoundTimestamp(ts: int64): int64 {
    var n: int := ts;
    if n >= 0 then n / 30 * 30 else -((-n) / 30 * 30)
  }

  function Digits(n: nat): (s: string)
    ensures |s| > 0
  {
    if n < 10 then [('0' as int + n) as char] else Digits(n / 10) + [('0' as int + n % 10) as char]
  }

  /** `%d`. */
  function Decimal(n: int): string {
    if n < 0 then "-" + Digits(-n) else Digits(n)
  }

  lemma {:induction false} DigitsInjective(a: nat, b: nat)
    requires Digits(a) == Digits(b)
    ensures a == b
    decreases a
  {
    var da, db := Digits(a), Digits(b);
    assert da[|da| - 1] == db[|db| - 1];
    assert a % 10 == b % 10;
    if a < 10 || b < 10 {
    } else {
      assert Digits(a / 10) == da[..|da| - 1] && Digits(b / 10) == db[..|db| - 1];
      DigitsInjective(a / 10, b / 10);
    }
  }

  lemma {:induction false} DigitsHaveNoSign(n: nat)
    ensures Digits(n)[0] != '-'
  {
    if n < 10 {
    } else {
      DigitsHaveNoSign(n / 10);
    }
  }

  lemma {:induction false} DecimalInjective(a: int, b: int)
    requires Decimal(a) == Decimal(b)
    ensures a == b
  {
    if a < 0 && b < 0 {
      assert Digits(-a) == Decimal(a)[1..] && Digits(-b) == Decimal(b)[1..];
      DigitsInjective(-a, -b);
    } else if a >= 0 && b >= 0 {
      DigitsInjective(a, b);
    } else {
      DigitsHaveNoSign(if a >= 0 then a else b);
      assert false;
    }
  }

  /** What a string of digits says, read from the left. */
  function ReadDigits(s: string): int {
    if s == "" then 0 else 10 * ReadDigits(s[..|s| - 1]) + (s[|s| - 1] as int - '0' as int)
  }

  /** Decimal text: digits only, no leading zero but "0", and read back it is the number. */
  lemma {:induction false} DigitsSayTheNumber(n: nat)
    ensures ReadDigits(Digits(n)) == n
    ensures forall i :: 0 <= i < |Digits(n)| ==> '0' <= Digits(n)[i] <= '9'
    ensures n > 0 ==> Digits(n)[0] != '0'
    ensures n == 0 ==> Digits(n) == "0"
  {
    var s := Digits(n);
    if n < 10 {
      assert s[..0] == "";
      assert ReadDigits(s[..|s| - 1]) == 0;
    } else {
      DigitsSayTheNumber(n / 10);
      assert s[..|s| - 1] == Digits(n / 10);
    }
  }

  /** `%d` of any integer. */
  lemma DecimalSaysTheNumber(n: int)
    ensures n >= 0 ==> ReadDigits(Decimal(n)) == n && forall i :: 0 <= i < |Decimal(n)| ==> '0' <= Decimal(n)[i] <= '9'
    ensures n < 0 ==> Decimal(n)[0] == '-' && ReadDigits(Decimal(n)[1..]) == -n
    ensures n > 0 ==> Decimal(n)[0] != '0'
    ensures n < 0 ==> Decimal(n)[1] != '0'
  {
    DigitsSayTheNumber(if n < 0 then -n else n);
    if n < 0 {
      assert Decimal(n)[1..] == Digits(-n);
    }
  }

  /** The two timestamps next to a rounded one, with 64-bit wrap-around. */
  function Windows(rounded: int64): (ws: seq<int64>)
    ensures |ws| == 3
  {
    [rounded, ToInt64(rounded - 30), ToInt64(rounded + 30)]
  }

  datatype HMACAuth = HMACAuth(mac: string -> bytes) {

    ghost predicate CollisionFree() {
      forall x, y :: mac(x) == mac(y) ==> x == y
    }

    /** The signature over `subject` (node UUID and address, or the address alone) at a time. */
    function SignSubject(subject: string, ts: int64): bytes {
      mac(subject + Decimal(RoundTimestamp(ts)))
    }

    function Sign(uuid: string, ip: string, ts: int64): bytes {
      SignSubject(uuid + ip, ts)
    }

    function SignIdentify(ip: string, ts: int64): bytes {
      SignSubject(ip, ts)
    }

    /** Some window around the timestamp has this signature. */
    ghost predicate Accepts(subject: string, ts: int64, signature: Option<bytes>) {
      exists i :: 0 <= i < 3 && signature == Some(mac(subject + Decimal(Windows(RoundTimestamp(ts))[i])))
    }

    /** The three windows, spelled out. */
    lemma AcceptsExactly(subject: string, ts: int64, signature: Option<bytes>)
      ensures Accepts(subject, ts, signature) <==>
              || signature == Some(mac(subject + Decimal(RoundTimestamp(ts))))
              || signature == Some(mac(subject + Decimal(ToInt64(RoundTimestamp(ts) - 30))))
              || signature == Some(mac(subject + Decimal(ToInt64(RoundTimestamp(ts) + 30))))
    {
      var ws := Windows(RoundTimestamp(ts));
      assert ws[0] == RoundTimestamp(ts);
      assert ws[1] == ToInt64(RoundTimestamp(ts) - 30);
      assert ws[2] == ToInt64(RoundTimestamp(ts) + 30);
    }

    /** The loop of Verify and VerifyIdentify, with its early return. */
    method VerifySubject(subject: string, ts: int64, signature: Option<bytes>) returns (ok: bool)
      ensures ok <==> Accepts(subject, ts, signature)
    {
      if signature == None {
        return false;
      }
      var rounded := RoundTimestamp(ts);
      var windows := Windows(rounded);
      for i := 0 to |windows|
        invariant forall j :: 0 <= j < i ==> signature != Some(mac(subject + Decimal(windows[j])))
      {
        if mac(subject + Decimal(windows[i])) == signature.value {
          return true;
        }
      }
      return false;
    }

    method Verify(uuid: string, ip: string, ts: int64, signature: Option<bytes>) returns (ok: bool)
      ensures ok <==> Accepts(uuid + ip, ts, signature)
      ensures ok <==>
              || signature == Some(mac(uuid + ip + Decimal(RoundTimestamp(ts))))
              || signature == Some(mac(uuid + ip + Decimal(ToInt64(RoundTimestamp(ts) - 30))))
              || signature == Some(mac(uuid + ip + Decimal(ToInt64(RoundTimestamp(ts) + 30))))
    {
      AcceptsExactly(uuid + ip, ts, signature);
      ok := VerifySubject(uuid + ip, ts, signature);
    }

    method VerifyIdentify(ip: string, ts: int64, signature: Option<bytes>) returns (ok: bool)
      ensures ok <==> Accepts(ip, ts, signature)
      ensures ok <==>
              || signature == Some(mac(ip + Decimal(RoundTimestamp(ts))))
              || signature == Some(mac(ip + Decimal(ToInt64(RoundTimestamp(ts) - 30))))
              || signature == Some(mac(ip + Decimal(ToInt64(RoundTimestamp(ts) + 30))))
    {
      AcceptsExactly(ip, ts, signature);
      ok := VerifySubject(ip, ts, signature);
    }
  }

  /** For one subject, a signature is accepted exactly in the windows next to its own. */
  lemma {:induction false} AcceptsByWindow(a: HMACAuth, subject: string, ts: int64, signedAt: int64)
    requires a.CollisionFree()
    ensures a.Accepts(subject, ts, Some(a.SignSubject(subject, signedAt))) <==>
            RoundTimestamp(signedAt) in Windows(RoundTimestamp(ts))
  {
    var ws := Windows(RoundTimestamp(ts));
    forall i | 0 <= i < 3
      ensures a.mac(subject + Decimal(ws[i])) == a.SignSubject(subject, signedAt) ==> ws[i] == RoundTimestamp(signedAt)
    {
      if a.mac(subject + Decimal(ws[i])) == a.SignSubject(subject, signedAt) {
        var x, y := subject + Decimal(ws[i]), subject + Decimal(RoundTimestamp(signedAt));
        assert x == y;
        assert x[|subject|..] == Decimal(ws[i]) && y[|subject|..] == Decimal(RoundTimestamp(signedAt));
        DecimalInjective(ws[i], RoundTimestamp(signedAt));
      }
    }
  }

  /** Over all 64-bit times the windows are the rounded times next to each other: a wrapped window is no rounded time. */
  lemma {:induction false} WindowsOf(ts: int64, signedAt: int64)
    ensures RoundTimestamp(signedAt) in Windows(RoundTimestamp(ts)) <==>
            -30 <= RoundTimestamp(ts) - RoundTimestamp(signedAt) <= 30
  {
    var r: int, q: int := RoundTimestamp(ts), RoundTimestamp(signedAt);
    RoundedIsMultiple(ts);
    RoundedIsMultiple(signedAt);
    hide RoundTimestamp, ToInt64;
    WrapsTo(r - 30);
    WrapsTo(r + 30);
    var ws := Windows(r);
    assert q in ws <==> q == ws[0] || q == ws[1] || q == ws[2];
    assert TWO64 % 30 == 16;
  }

  lemma {:induction false} RoundedIsMultiple(ts: int64)
    ensures RoundTimestamp(ts) % 30 == 0
    ensures ts >= 0 ==> 0 <= ts - RoundTimestamp(ts) < 30 && RoundTimestamp(ts) == 30 * (ts / 30)
    ensures ts <= 0 ==> -30 < ts - RoundTimestamp(ts) <= 0
  {
    var n: int := ts;
    var t := if n >= 0 then n / 30 else -((-n) / 30);
    TimesThirty(t);
    assert RoundTimestamp(ts) == 30 * t;
  }

  lemma TimesThirty(t: int)
    ensures (30 * t) % 30 == 0
  {
  }

  /**
    For non-negative times: accepted exactly when the 30-second windows are the same or
    adjacent, so always up to 30 s apart and never more than 59 s apart.
   */
  lemma {:induction false} SignatureFreshness(a: HMACAuth, subject: string, ts: int64, signedAt: int64)
    requires a.CollisionFree() && ts >= 0 && signedAt >= 0
    ensures a.Accepts(subject, ts, Some(a.SignSubject(subject, signedAt))) <==>
            -1 <= ts / 30 - signedAt / 30 <= 1
    ensures -30 <= ts - signedAt <= 30 ==> a.Accepts(subject, ts, Some(a.SignSubject(subject, signedAt)))
    ensures a.Accepts(subject, ts, Some(a.SignSubject(subject, signedAt))) ==> -59 <= ts - signedAt <= 59
  {
    AcceptsByWindow(a, subject, ts, signedAt);
    WindowsOf(ts, signedAt);
    RoundedIsMultiple(ts);
    RoundedIsMultiple(signedAt);
  }

  // ---------- What a signature is good for ----------

  /** With the MAC out of the way: one of the three windows spells the signed text. */
  lemma {:induction false} SignatureServesExactly(a: HMACAuth, subject: string, ts: int64, signed: string, signedAt: int64)
    requires a.CollisionFree()
    ensures a.Accepts(subject, ts, Some(a.SignSubject(signed, signedAt))) <==>
            exists i :: 0 <= i < 3 &&
              subject + Decimal(Windows(RoundTimestamp(ts))[i]) == signed + Decimal(RoundTimestamp(signedAt))
  {
  }

  /** With node and address of the signed lengths: only for the signed node and address, in a window next to the signed one. */
  lemma {:induction false} SignatureBindsRequest(a: HMACAuth, uuid: string, ip: string, ts: int64,
                                                 uuid': string, ip': string, signedAt: int64)
    requires a.CollisionFree() && |uuid| == |uuid'| && |ip| == |ip'|
    ensures a.Accepts(uuid + ip, ts, Some(a.Sign(uuid', ip', signedAt))) <==>
            uuid == uuid' && ip == ip' && -30 <= RoundTimestamp(ts) - RoundTimestamp(signedAt) <= 30
  {
    var ws := Windows(RoundTimestamp(ts));
    if a.Accepts(uuid + ip, ts, Some(a.Sign(uuid', ip', signedAt))) {
      SignatureServesExactly(a, uuid + ip, ts, uuid' + ip', signedAt);
      var i :| 0 <= i < 3 && uuid + ip + Decimal(ws[i]) == uuid' + ip' + Decimal(RoundTimestamp(signedAt));
      SameSplit(uuid, ip, Decimal(ws[i]), uuid', ip', Decimal(RoundTimestamp(signedAt)));
    }
    if uuid == uuid' && ip == ip' {
      AcceptsByWindow(a, uuid + ip, ts, signedAt);
      WindowsOf(ts, signedAt);
    }
  }

  lemma {:induction false} SameSplit(x: string, y: string, z: string, x': string, y': string, z': string)
    requires |x| == |x'| && |y| == |y'| && x + y + z == x' + y' + z'
    ensures x == x' && y == y'
  {
    var t, t' := x + y + z, x' + y' + z';
    assert t[..|x|] == x && t'[..|x|] == x';
    assert t[|x|..|x| + |y|] == y && t'[|x|..|x| + |y|] == y';
  }

  // ---------- The timestamp check ----------

  /** Where a difference of two 64-bit integers wraps to. */
  lemma {:induction false} WrapsTo(d: int)
    requires -TWO64 < d < TWO64
    ensures ToInt64(d) == if d >= TWO63 then d - TWO64 else if d < -TWO63 then d + TWO64 else d
  {
    if d < 0 {
      assert d % TWO64 == d + TWO64;
    } else {
      assert d % TWO64 == d;
    }
  }

  /** ValidateTimestamp in 64-bit arithmetic; both the difference and its negation may wrap. */
  method ValidateTimestamp(timestamp: int64, now: int64) returns (ok: bool)
    ensures ok <==> TimestampOk(timestamp, now)
  {
    hide ToInt64;
    WrapsTo(now - timestamp);
    var diff := ToInt64(now - timestamp);
    if diff < 0 {
      WrapsTo(-diff);
      diff := ToInt64(-diff);
    }
    return diff <= 60;
  }

  /**
    What the check means over all 64-bit values: the readings are within 60 s of each other
    on the 64-bit circle, or exactly opposite on it.
   */
  predicate TimestampOk(timestamp: int64, now: int64) {
    var d := now - timestamp;
    || -60 <= d <= 60
    || -60 <= d - TWO64 <= 60 || -60 <= d + TWO64 <= 60
    || d == TWO63 || d == -TWO63
  }

  /** For a server clock that is not within a minute of overflowing, one timestamp is let in wrongly. */
  lemma TimestampCheckExactly(timestamp: int64, now: int64)
    requires 0 <= now < TWO63 - 60
    ensures TimestampOk(timestamp, now) <==> -60 <= now - timestamp <= 60 || timestamp == now - TWO63
  {
  }

  /**
    Both checks together, over all 64-bit timestamps and signing times: what is accepted was
    signed within 148 s of the server's clock if and only if the timestamp is not the one
    opposite the clock; and within 119 s if it was signed at a non-negative time.
   */
  lemma {:induction false} FreshnessExactly(a: HMACAuth, subject: string, ts: int64, signedAt: int64, now: int64)
    requires a.CollisionFree() && 0 <= now < TWO63 - 60
    requires TimestampOk(ts, now) && a.Accepts(subject, ts, Some(a.SignSubject(subject, signedAt)))
    ensures -148 <= now - signedAt <= 148 <==> ts != now - TWO63
    ensures signedAt >= 0 ==> -119 <= now - signedAt <= 119
  {
    hide TimestampOk;
    AcceptsByWindow(a, subject, ts, signedAt);
    WindowsOf(ts, signedAt);
    TimestampCheckExactly(ts, now);
    RoundedIsMultiple(ts);
    RoundedIsMultiple(signedAt);
  }

  /** The opposite timestamp does get in, for every clock: signed 2^63 s away from it. */
  lemma {:induction false} OppositeTimestampWitness(a: HMACAuth, subject: string, now: int64)
    requires 0 <= now
    ensures var ts := now - TWO63;
            && TimestampOk(ts, now) && a.Accepts(subject, ts, Some(a.SignSubject(subject, ts)))
            && now - ts == TWO63
  {
    var ts: int64 := now - TWO63;
    assert Windows(RoundTimestamp(ts))[0] == RoundTimestamp(ts);
  }

  /** And 148 s is reached, around the zero time, where rounding toward zero makes one window twice as wide. */
  lemma {:induction false} WideWindowWitness(a: HMACAuth, subject: string)
    ensures TimestampOk(29, 89) && a.Accepts(subject, 29, Some(a.SignSubject(subject, -59)))
  {
    assert RoundTimestamp(29) == 0 && RoundTimestamp(-59) == -30;
    WrapsTo(-30);
    assert Windows(0)[1] == -30;
  }

  /** A heartbeat the server accepts was signed within 119 s of the server's clock. */
  lemma {:induction false} HeartbeatFreshness(a: HMACAuth, uuid: string, ip: string, ts: int64, signedAt: int64, now: int64)
    requires a.CollisionFree() && signedAt >= 0 && 0 <= now < TWO63 - 60
    requires TimestampOk(ts, now) && a.Accepts(uuid + ip, ts, Some(a.Sign(uuid, ip, signedAt)))
    ensures -119 <= now - signedAt <= 119
  {
    FreshnessExactly(a, uuid + ip, ts, signedAt, now);
  }

  /** And so was an identify request. */
  lemma {:induction false} IdentifyFreshness(a: HMACAuth, ip: string, ts: int64, signedAt: int64, now: int64)
    requires a.CollisionFree() && signedAt >= 0 && 0 <= now < TWO63 - 60
    requires TimestampOk(ts, now) && a.Accepts(ip, ts, Some(a.SignIdentify(ip, signedAt)))
    ensures -119 <= now - signedAt <= 119
  {
    FreshnessExactly(a, ip, ts, signedAt, now);
  }

  // ---------- Which request a signature is good for ----------

  function Pow10(d: nat): nat {
    if d == 0 then 1 else 10 * Pow10(d - 1)
  }

  lemma {:induction false} DigitCount(n: nat, d: nat)
    requires d >= 1 && Pow10(d - 1) <= n < Pow10(d)
    ensures |Digits(n)| == d
    decreases d
  {
    if d == 1 {
      assert Pow10(0) == 1;
    } else {
      DigitCount(n / 10, d - 1);
    }
  }

  lemma {:induction false} Pow10Bound(d: nat)
    requires 1 <= d <= 18
    ensures 1 <= Pow10(d) <= 1_000_000_000_000_000_000
    decreases 18 - d
  {
    if d == 18 {
      assert Pow10(4) == 10_000 && Pow10(8) == 10_000 * Pow10(4);
      assert Pow10(12) == 10_000 * Pow10(8) && Pow10(16) == 10_000 * Pow10(12);
      assert Pow10(18) == 100 * Pow10(16);
    } else {
      Pow10Bound(d + 1);
    }
  }

  /** Text and digits of equal number: no digit can move between them. */
  lemma {:induction false} SameText(x: string, m: int, y: string, n: int)
    requires |Decimal(m)| == |Decimal(n)|
    ensures x + Decimal(m) == y + Decimal(n) <==> x == y && m == n
  {
    if x + Decimal(m) == y + Decimal(n) {
      assert (x + Decimal(m))[..|x|] == x && (y + Decimal(n))[..|y|] == y;
      assert (x + Decimal(m))[|x|..] == Decimal(m) && (y + Decimal(n))[|y|..] == Decimal(n);
      DecimalInjective(m, n);
    }
  }

  /** All windows of a timestamp have `d` digits if it is not within a minute of fewer or more. */
  lemma {:induction false} WindowDigits(ts: int64, d: nat, i: nat)
    requires 2 <= d <= 18 && Pow10(d - 1) + 60 <= ts < Pow10(d) - 30 && i < 3
    ensures |Decimal(Windows(RoundTimestamp(ts))[i])| == d
  {
    hide ToInt64, RoundTimestamp, Digits, Pow10;
    Pow10Bound(d);
    RoundedIsMultiple(ts);
    var r: int := RoundTimestamp(ts);
    WrapsTo(r - 30);
    WrapsTo(r + 30);
    DigitCount(Windows(r)[i], d);
  }

  /**
    While timestamps have a fixed number of digits, a signature is good for exactly the text of
    node and address that was signed, in the signed window or one next to it.
   */
  lemma {:induction false} SignatureBindsSubject(a: HMACAuth, subject: string, ts: int64, signed: string, signedAt: int64, d: nat)
    requires a.CollisionFree() && 2 <= d <= 18
    requires Pow10(d - 1) + 60 <= ts < Pow10(d) - 30 && Pow10(d - 1) + 60 <= signedAt < Pow10(d) - 30
    ensures a.Accepts(subject, ts, Some(a.SignSubject(signed, signedAt))) <==>
            subject == signed && -30 <= RoundTimestamp(ts) - RoundTimestamp(signedAt) <= 30
  {
    hide RoundTimestamp, Windows, Pow10, Decimal;
    var ws, q := Windows(RoundTimestamp(ts)), RoundTimestamp(signedAt);
    WindowDigits(signedAt, d, 0);
    FirstWindow(signedAt);
    forall i | 0 <= i < 3
      ensures subject + Decimal(ws[i]) == signed + Decimal(q) <==> subject == signed && ws[i] == q
    {
      WindowDigits(ts, d, i);
      SameText(subject, ws[i], signed, q);
    }
    SignatureServesExactly(a, subject, ts, signed, signedAt);
    WindowsOf(ts, signedAt);
  }

  lemma {:induction false} FirstWindow(ts: int64)
    ensures Windows(RoundTimestamp(ts))[0] == RoundTimestamp(ts)
  {
  }

  /**
    Both checks of a heartbeat, for a server clock and a signing time of ten digits (2001 to
    2286): unless the timestamp is the opposite one, a signature is good for the same text of
    node and address only, within a minute of the clock and a window of its own. For node names
    of one length that is one node and one address.
   */
  lemma {:induction false} SignatureBindsHeartbeat(a: HMACAuth, uuid: string, ip: string, ts: int64,
                                                   uuid': string, ip': string, signedAt: int64, now: int64)
    requires a.CollisionFree()
    requires 1_000_000_200 <= now < 9_999_999_800 && 1_000_000_100 <= signedAt < 9_999_999_900
    ensures ts != now - TWO63 ==>
              (TimestampOk(ts, now) && a.Accepts(uuid + ip, ts, Some(a.Sign(uuid', ip', signedAt))) <==>
               && -60 <= now - ts <= 60 && -30 <= RoundTimestamp(ts) - RoundTimestamp(signedAt) <= 30
               && uuid + ip == uuid' + ip')
    ensures |uuid| == |uuid'| ==> (uuid + ip == uuid' + ip' <==> uuid == uuid' && ip == ip')
  {
    hide TimestampOk, RoundTimestamp, Pow10;
    TimestampCheckExactly(ts, now);
    assert Pow10(9) == 1_000_000_000 && Pow10(10) == 10_000_000_000 by {
      TenDigits();
    }
    if -60 <= now - ts <= 60 {
      SignatureBindsSubject(a, uuid + ip, ts, uuid' + ip', signedAt, 10);
    }
    if |uuid| == |uuid'| && uuid + ip == uuid' + ip' {
      assert (uuid + ip)[..|uuid|] == uuid && (uuid' + ip')[..|uuid|] == uuid';
      assert (uuid + ip)[|uuid|..] == ip && (uuid' + ip')[|uuid|..] == ip';
    }
  }

  lemma TenDigits()
    ensures Pow10(9) == 1_000_000_000 && Pow10(10) == 10_000_000_000
  {
    assert Pow10(3) == 1_000 && Pow10(6) == 1_000 * Pow10(3) && Pow10(9) == 1_000 * Pow10(6);
  }

  /** Nothing separates node from address: at every time, the split may be another than the signed one. */
  lemma {:induction false} SplitWitness(a: HMACAuth, ts: int64, now: int64)
    requires -60 <= now - ts <= 60
    ensures TimestampOk(ts, now) && a.Accepts("u" + "10.0.0.1", ts, Some(a.Sign("u1", "0.0.0.1", ts)))
  {
    assert "u1" + "0.0.0.1" == "u" + "10.0.0.1";
    FirstWindow(ts);
  }

  /** The number of digits matters: around the zero time one can move into the address. */
  lemma {:induction false} ShiftedDigitWitness(a: HMACAuth)
    ensures TimestampOk(1, 30) && a.Accepts("u" + "10.0.0.13", 1, Some(a.Sign("u", "10.0.0.1", 30)))
  {
    assert RoundTimestamp(1) == 0 && RoundTimestamp(30) == 30;
    assert Decimal(30) == Digits(3) + ['0'] == ['3', '0'] && Decimal(0) == ['0'];
    var spelled, signed := "u" + "10.0.0.13" + Decimal(0), "u" + "10.0.0.1" + Decimal(30);
    assert spelled == signed;
    assert Windows(0)[0] == 0;
  }

  /** An agent whose clock is within a minute of the server's is always accepted, as it signs its own timestamp. */
  lemma {:induction false} HonestAgentIsAccepted(a: HMACAuth, uuid: string, ip: string, ts: int64, now: int64)
    requires -60 <= now - ts <= 60
    ensures TimestampOk(ts, now) && a.Accepts(uuid + ip, ts, Some(a.Sign(uuid, ip, ts)))
  {
    assert Windows(RoundTimestamp(ts))[0] == RoundTimestamp(ts);
  }
}
