/** The telemetry prefix of a video frame (protocol/annexb.cpp, FindNumber and ParseTelemetry). */
module Telemetry {
  import opened Bytes
  import opened Text
  import opened FlatJson

  predicate NumeralChar(c: char) { c == '-' || IsDigit(c) }

  function NumeralEnd(s: string, p: nat): (e: nat)
    requires p <= |s|
    ensures p <= e <= |s|
    decreases |s| - p
  {
    if p < |s| && NumeralChar(s[p]) then NumeralEnd(s, p + 1) else p
  }

  predicate IsInt64(n: int) { -0x8000_0000_0000_0000 <= n < 0x8000_0000_0000_0000 }

  /** std::stoll on a run of digits and minus signs; None where it throws. */
  function Stoll(t: string): Option<int> {
    var b: nat := if t != "" && t[0] == '-' then 1 else 0;
    var e := DigitsEnd(t, b);
    if e == b then None
    else
      var v: int := NatValue(t[b..e]);
      var n: int := if b == 1 then -v else v;
      if IsInt64(n) then Some(n) else None
  }

  /** The integer behind `"key":`, or -1 when absent or unparsable. */
  function FindNumber(json: string, key: string): int {
    var p := ValueStart(json, key, BLANKS);
    if p < 0 then -1
    else
      var e := NumeralEnd(json, p);
      if e == p then -1 else Stoll(json[p..e]).GetOr(-1)
  }

  /** Capture and send time of a telemetry prefix. */
  function Times(prefix: seq<byte>): (int, int) {
    if prefix == [] then (-1, -1)
    else (FindNumber(AsText(prefix), "cap"), FindNumber(AsText(prefix), "snd"))
  }

  method ScanNumber(json: string, key: string) returns (n: int)
    ensures n == FindNumber(json, key)
  {
    var needle := Quoted(key);
    var found := Find(json, needle, 0);
    if found < 0 {
      return -1;
    }
    var colon := Find(json, ":", found + |needle|);
    if colon < 0 {
      return -1;
    }
    var pos := colon + 1;
    while pos < |json| && json[pos] in BLANKS
      invariant pos <= |json|
      invariant SkipSpaces(json, pos, BLANKS) == ValueStart(json, key, BLANKS)
    {
      pos := pos + 1;
    }
    var end := pos;
    while end < |json| && NumeralChar(json[end])
      invariant pos <= end <= |json|
      invariant NumeralEnd(json, end) == NumeralEnd(json, pos)
    {
      end := end + 1;
    }
    if end == pos {
      return -1;
    }
    n := Stoll(json[pos..end]).GetOr(-1);
  }

  method ParseTelemetry(prefix: seq<byte>) returns (captureMs: int, sendMs: int)
    ensures (captureMs, sendMs) == Times(prefix)
  {
    captureMs, sendMs := -1, -1;
    if prefix == [] {
      return;
    }
    var json := AsText(prefix);
    captureMs := ScanNumber(json, "cap");
    sendMs := ScanNumber(json, "snd");
  }

  lemma NoPrefixNoTimes()
    ensures Times([]) == (-1, -1)
  {
  }

  // ----- Reading back what a sender prints ----------------------------------------------

  lemma {:induction false} NumeralEndsAt(s: string, p: nat, e: nat)
    requires p <= e <= |s|
    requires forall i | p <= i < e :: NumeralChar(s[i])
    requires e < |s| ==> !NumeralChar(s[e])
    ensures NumeralEnd(s, p) == e
    decreases e - p
  {
    if p < e {
      NumeralEndsAt(s, p + 1, e);
    }
  }

  lemma StollInverts(n: int)
    requires IsInt64(n)
    ensures Stoll(IntText(n)) == Some(n)
  {
    var t := IntText(n);
    if n < 0 {
      assert t[1..] == NatText(-n) == t[1..|t|];
      NatTextValue(-n);
    } else {
      assert t[0..|t|] == t;
      NatTextValue(n);
    }
  }

  lemma NumeralText(n: int)
    ensures forall i | 0 <= i < |IntText(n)| :: NumeralChar(IntText(n)[i])
  {
  }

  /** Every 64-bit integer field of a flat object is read back by its key. */
  lemma NumberReadBack(fields: seq<Field>, key: string, i: nat, n: int)
    requires FieldsOk(fields) && PlainKey(key) && KeyOf(fields, key, i)
    requires fields[i].value == Num(n) && IsInt64(n)
    ensures FindNumber(ObjectText(fields), key) == n
  {
    BehindStart(fields, i);
    var before := ValueFound(fields, key, i, BLANKS);
    var b := Behind(fields, i);
    assert !NumeralChar(b[0]);
    NumberAt(ObjectText(fields), key, before, n, b);
  }

  lemma NumberAt(s: string, key: string, a: string, n: int, b: string)
    requires s == a + (IntText(n) + b) && b != [] && !NumeralChar(b[0]) && IsInt64(n)
    requires ValueStart(s, key, BLANKS) == |a|
    ensures FindNumber(s, key) == n
  {
    NumeralText(n);
    StollInverts(n);
    NumeralIn(s, a, IntText(n), b);
  }

  lemma NumeralIn(s: string, a: string, t: string, b: string)
    requires s == a + (t + b) && b != [] && !NumeralChar(b[0])
    requires forall i | 0 <= i < |t| :: NumeralChar(t[i])
    ensures NumeralEnd(s, |a|) == |a| + |t| && s[|a|..|a| + |t|] == t
  {
    forall i | |a| <= i < |a| + |t|
      ensures NumeralChar(s[i])
    {
      assert s[i] == t[i - |a|];
    }
    assert s[|a| + |t|] == b[0];
    NumeralEndsAt(s, |a|, |a| + |t|);
  }

  function TelemetryFields(captureMs: int, sendMs: int): (f: seq<Field>)
    ensures |f| == 2 && FieldsOk(f) && KeyOf(f, "cap", 0) && KeyOf(f, "snd", 1)
    ensures f[0].value == Num(captureMs) && f[1].value == Num(sendMs)
    ensures PlainKey("cap") && PlainKey("snd")
  {
    [Field("cap", Num(captureMs), TIGHT), Field("snd", Num(sendMs), TIGHT)]
  }

  /** The prefix a sender puts before its access units. */
  function TelemetryText(captureMs: int, sendMs: int): string {
    ObjectText(TelemetryFields(captureMs, sendMs))
  }

  lemma TelemetryReadBack(captureMs: int, sendMs: int)
    requires IsInt64(captureMs) && IsInt64(sendMs)
    ensures IsByteText(TelemetryText(captureMs, sendMs))
    ensures Times(AsBytes(TelemetryText(captureMs, sendMs))) == (captureMs, sendMs)
  {
    var fields := TelemetryFields(captureMs, sendMs);
    NumberReadBack(fields, "cap", 0, captureMs);
    NumberReadBack(fields, "snd", 1, sendMs);
    TelemetryBytes(captureMs, sendMs);
    TimesOfText(ObjectText(fields), captureMs, sendMs);
  }

  lemma TelemetryBytes(captureMs: int, sendMs: int)
    ensures IsByteText(TelemetryText(captureMs, sendMs))
  {
    NumeralText(captureMs);
    NumeralText(sendMs);
    ByteFields(TelemetryFields(captureMs, sendMs));
  }

  lemma TimesOfText(s: string, captureMs: int, sendMs: int)
    requires s != "" && IsByteText(s) && FindNumber(s, "cap") == captureMs && FindNumber(s, "snd") == sendMs
    ensures Times(AsBytes(s)) == (captureMs, sendMs)
  {
    TextRoundTrip(s);
  }

  ghost predicate ByteField(f: Field) {
    && IsByteText(f.key) && IsByteText(ValueText(f.value))
    && IsByteText(f.gap.key) && IsByteText(f.gap.colon) && IsByteText(f.gap.value) && IsByteText(f.gap.end)
  }

  lemma FieldBytes(f: Field)
    requires ByteField(f)
    ensures IsByteText(FieldText(f))
  {
  }

  lemma {:induction false} ByteFields(fields: seq<Field>)
    requires forall k | 0 <= k < |fields| :: ByteField(fields[k])
    ensures IsByteText(FieldsText(fields))
  {
    if fields != [] {
      forall k | 0 <= k < |fields| - 1
        ensures ByteField(fields[1..][k])
      {
        assert fields[1..][k] == fields[k + 1];
      }
      ByteFields(fields[1..]);
      FieldBytes(fields[0]);
    }
  }

  /** An integer outside 64 bits counts as -1. */
  lemma NumberTooLarge(fields: seq<Field>, key: string, i: nat, n: int)
    requires FieldsOk(fields) && PlainKey(key) && KeyOf(fields, key, i)
    requires fields[i].value == Num(n) && !IsInt64(n)
    ensures FindNumber(ObjectText(fields), key) == -1
  {
    BehindStart(fields, i);
    var before := ValueFound(fields, key, i, BLANKS);
    var b := Behind(fields, i);
    assert !NumeralChar(b[0]);
    LargeAt(ObjectText(fields), key, before, n, b);
  }

  lemma LargeAt(s: string, key: string, a: string, n: int, b: string)
    requires s == a + (IntText(n) + b) && b != [] && !NumeralChar(b[0]) && !IsInt64(n)
    requires ValueStart(s, key, BLANKS) == |a|
    ensures FindNumber(s, key) == -1
  {
    NumeralText(n);
    StollFails(n);
    NumeralIn(s, a, IntText(n), b);
  }

  lemma StollFails(n: int)
    requires !IsInt64(n)
    ensures Stoll(IntText(n)) == None
  {
    var t := IntText(n);
    if n < 0 {
      assert t[1..] == NatText(-n) == t[1..|t|];
      NatTextValue(-n);
    } else {
      assert t[0..|t|] == t;
      NatTextValue(n);
    }
  }
}
