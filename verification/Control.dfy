/**
Control messages (protocol/control.cpp): the field scanner, the builders and
the parser.  A double is its exact value as a real number.
*/
module Control {
  import opened Bytes
  import opened Text
  import opened FlatJson
  import opened Doubles
  import opened Numerals

  method FindValueStart(json: string, key: string) returns (pos: int)
    ensures pos == ValueStart(json, key, SPACES)
  {
    var needle := Quoted(key);
    pos := Find(json, needle, 0);
    if pos < 0 {
      return -1;
    }
    pos := Find(json, ":", pos + |needle|);
    if pos < 0 {
      return -1;
    }
    pos := pos + 1;
    while pos < |json| && json[pos] in SPACES
      invariant 0 <= pos <= |json|
      invariant SkipSpaces(json, pos, SPACES) == ValueStart(json, key, SPACES)
    {
      pos := pos + 1;
    }
  }

  function FindString(json: string, key: string): Option<string> {
    var start := ValueStart(json, key, SPACES);
    if start < 0 || start >= |json| || json[start] != '"' then None
    else
      var end := Find(json, "\"", start + 1);
      if end < 0 then None else Some(json[start + 1..end])
  }

  function FindNumber(json: string, key: string): Number {
    var start := ValueStart(json, key, SPACES);
    if start < 0 || start >= |json| then Absent else Numeral(json[start..])
  }

  /** A finite number below 10^9 in magnitude, its fraction cut off; anything else counts as missing. */
  function Whole(v: Number): Option<int> {
    if v.Finite? && -1000000000.0 < v.v < 1000000000.0 then Some(Truncated(v.v)) else None
  }

  function Truncated(v: real): int { if v < 0.0 then -(-v).Floor else v.Floor }

  function FindInt(json: string, key: string): Option<int> { Whole(FindNumber(json, key)) }

  /** Fields without a default are kept with their absence. */
  datatype Body =
    | Pong(t: Number, mt: Number)
    | Ping(drops: Option<int>, pending: Option<int>, capFps: Number)
    | Welcome(pv: int, min: int)
    | UpdateRequired(target: string, store: string, message: string)
    | StreamConfig(codec: string, width: int, height: int, fps: int)
    | Cursor
    | CursorImg
    | Unknown

  datatype Message = Message(typeString: string, body: Body)

  function BodyOf(json: string, kind: string): Body {
    if kind == "pong" then Pong(FindNumber(json, "t"), FindNumber(json, "mt"))
    else if kind == "ping" then
      Ping(FindInt(json, "drops"), FindInt(json, "pending"), FindNumber(json, "capFps"))
    else if kind == "welcome" then Welcome(FindInt(json, "pv").GetOr(1), FindInt(json, "min").GetOr(1))
    else if kind == "updateRequired" then
      UpdateRequired(FindString(json, "target").GetOr(""), FindString(json, "store").GetOr(""),
                     FindString(json, "message").GetOr(""))
    else if kind == "streamConfig" then
      StreamConfig(FindString(json, "codec").GetOr("h264"), FindInt(json, "width").GetOr(0),
                   FindInt(json, "height").GetOr(0), FindInt(json, "framesPerSecond").GetOr(0))
    else if kind == "cursor" then Cursor
    else if kind == "cursorImg" then CursorImg
    else Unknown
  }

  /** The message type; None when the text is no object or names none. */
  function TypeOf(json: string): Option<string> {
    if json == "" || json[0] != '{' || json[|json| - 1] != '}' then None
    else FindString(json, "type")
  }

  function ParseText(json: string): Option<Message> {
    var kind :- TypeOf(json);
    Some(Message(kind, BodyOf(json, kind)))
  }

  function ParseControlMessage(payload: seq<byte>): Option<Message> {
    ParseText(AsText(payload))
  }

  // ----- Reading back ---------------------------------------------------------------------

  lemma SliceOf(s: string, a: string, b: string, c: string)
    requires s == a + (b + c)
    ensures |a| + |b| <= |s| && s[|a|..|a| + |b|] == b
  {
  }

  lemma FirstKey(s: string, key: string, v: string, rest: string)
    requires PlainKey(key) && QuoteFree(v)
    requires s == "{" + (Quoted(key) + (":" + (Quoted(v) + rest)))
    ensures FindString(s, key) == Some(v)
  {
    var w := Quoted(v) + rest;
    SliceOf(s, "{", Quoted(key), ":" + w);
    if MatchAt(s, Quoted(key), 0) {
      MatchStartsWithQuote(s, 0, key);
    }
    FindUnique(s, Quoted(key), 0, 1);
    assert "" + (":" + ("" + w)) == ":" + w;
    var before := ValueAfter(s, "{", key, "", "", w, SPACES);
    StringAt(s, before, v, rest, key);
  }

  lemma StringAt(s: string, a: string, t: string, b: string, key: string)
    requires s == a + (Quoted(t) + b) && QuoteFree(t)
    requires ValueStart(s, key, SPACES) == |a|
    ensures FindString(s, key) == Some(t)
  {
    QuotedAt(s, a, t, b);
    ClosingQuote(s, |a|, t);
    FoundString(s, key, |a|, |a| + 1 + |t|);
  }

  lemma FoundString(s: string, key: string, p: nat, e: nat)
    requires ValueStart(s, key, SPACES) == p < e < |s| && s[p] == '"'
    requires Find(s, "\"", p + 1) == e
    ensures FindString(s, key) == Some(s[p + 1..e])
  {
  }

  lemma ClosingQuote(s: string, p: nat, t: string)
    requires QuoteFree(t) && p + 1 + |t| < |s| && s[p + 1..p + 1 + |t|] == t && s[p + 1 + |t|] == '"'
    ensures Find(s, "\"", p + 1) == p + 1 + |t|
  {
    NoQuoteWithin(s, p + 1, t);
    FirstQuote(s, p + 1, p + 1 + |t|);
  }

  lemma QuotedAt(s: string, a: string, t: string, b: string)
    requires s == a + (Quoted(t) + b)
    ensures var p, e := |a|, |a| + 1 + |t|;
            e < |s| && s[p] == '"' && s[e] == '"' && s[p + 1..e] == t
  {
    var q := Quoted(t);
    assert s[|a|] == q[0] && s[|a| + 1 + |t|] == q[1 + |t|];
    assert q[1..1 + |t|] == t;
    SliceOf(s, a, q, b);
    assert s[|a| + 1..|a| + 1 + |t|] == s[|a|..|a| + |q|][1..1 + |t|];
  }

  lemma FirstQuote(s: string, p: nat, e: nat)
    requires p <= e < |s| && s[e] == '"'
    requires forall i | p <= i < e :: s[i] != '"'
    ensures Find(s, "\"", p) == e
  {
    assert s[e..e + 1] == "\"";
    forall q: nat | p <= q < e
      ensures !MatchAt(s, "\"", q)
    {
      assert s[q..q + 1][0] == s[q];
    }
    FindUnique(s, "\"", p, e);
  }

  ghost predicate ParsesAs(s: string, kind: string) {
    TypeOf(s) == Some(kind)
  }

  /** Whatever fields follow, a message that starts with its type is parsed to that type. */
  function Typed(kind: string, rest: string): (s: string)
    requires QuoteFree(kind)
    ensures ParsesAs(s, kind)
  {
    var s := "{" + "\"type\":" + Quoted(kind) + rest + "}";
    TypeFirst(s, kind, rest);
    s
  }

  lemma TypeFirst(s: string, kind: string, rest: string)
    requires QuoteFree(kind) && s == "{" + "\"type\":" + Quoted(kind) + rest + "}"
    ensures ParsesAs(s, kind)
  {
    assert s == "{" + (Quoted("type") + (":" + (Quoted(kind) + (rest + "}"))));
    FirstKey(s, "type", kind, rest + "}");
    assert s[0] == '{' && s[|s| - 1] == '}';
  }

  // ----- Builders -----------------------------------------------------------------------

  /** `,"key":value` for each field, as the builders append them. */
  function Appended(fields: seq<Field>): string
    decreases |fields|
  {
    if fields == [] then ""
    else ("," + (Quoted(fields[0].key) + (":" + ValueText(fields[0].value)))) + Appended(fields[1..])
  }

  function Plain(key: string, v: Value): Field { Field(key, v, TIGHT) }

  datatype HelloInfo = HelloInfo(pixelsWide: int, pixelsHigh: int, scale: real, device: string, id: string,
                                 pv: int, maxEncodeWide: Option<int>, maxEncodeHigh: Option<int>,
                                 bitrateKbps: Option<int>)

  function IdFields(id: string): seq<Field> { if id == "" then [] else [Plain("id", Str(id))] }

  function EncodeFields(wide: Option<int>, high: Option<int>): seq<Field> {
    if wide.Some? && high.Some?
    then [Plain("maxEncodeWide", Num(wide.value)), Plain("maxEncodeHigh", Num(high.value))] else []
  }

  function BitrateFields(kbps: Option<int>): seq<Field> {
    if kbps.Some? then [Plain("bitrateKbps", Num(kbps.value))] else []
  }

  function HelloFields(info: HelloInfo): seq<Field> {
    [Plain("pixelsWide", Num(info.pixelsWide)), Plain("pixelsHigh", Num(info.pixelsHigh)),
     Plain("scale", Raw(FormatNumber(info.scale))), Plain("device", Str(info.device))] +
    (IdFields(info.id) +
     ([Plain("pv", Num(info.pv))] +
      (EncodeFields(info.maxEncodeWide, info.maxEncodeHigh) + BitrateFields(info.bitrateKbps))))
  }

  function BuildHello(info: HelloInfo): (s: string)
    ensures ParsesAs(s, "hello")
  {
    Typed("hello", Appended(HelloFields(info)))
  }

  function PingFields(t: int): seq<Field> { [Plain("t", Num(t))] }

  function BuildPing(t: int): (s: string)
    ensures ParsesAs(s, "ping")
  {
    Typed("ping", Appended(PingFields(t)))
  }

  function PongFields(t: int, mt: int): seq<Field> { [Plain("t", Num(t)), Plain("mt", Num(mt))] }

  function BuildPong(t: int, mt: int): (s: string)
    ensures ParsesAs(s, "pong")
  {
    Typed("pong", Appended(PongFields(t, mt)))
  }

  function TouchFields(phase: string, x: real, y: real): seq<Field> {
    [Plain("phase", Str(phase)), Plain("x", Raw(FormatNumber(x))), Plain("y", Raw(FormatNumber(y)))]
  }

  function BuildTouch(phase: string, x: real, y: real): (s: string)
    ensures ParsesAs(s, "touch")
  {
    Typed("touch", Appended(TouchFields(phase, x, y)))
  }

  function ScrollFields(dx: real, dy: real): seq<Field> {
    [Plain("dx", Raw(FormatNumber(dx))), Plain("dy", Raw(FormatNumber(dy)))]
  }

  function BuildScroll(dx: real, dy: real): (s: string)
    ensures ParsesAs(s, "scroll")
  {
    Typed("scroll", Appended(ScrollFields(dx, dy)))
  }

  function BuildKeyframeRequest(): (s: string)
    ensures ParsesAs(s, "kf")
  {
    Typed("kf", "")
  }

  function BuildClosing(): (s: string)
    ensures ParsesAs(s, "closing")
  {
    assert QuoteFree("closing");
    Typed("closing", "")
  }

  function BuildSleeping(): (s: string)
    ensures ParsesAs(s, "sleeping")
  {
    Typed("sleeping", "")
  }

  function StatsFields(fps: int, mbps: int, rtt: int, e2e50: int, e2e95: int): seq<Field> {
    [Plain("transport", Str("tcp")), Plain("fps", Num(fps)), Plain("mbps", Num(mbps)), Plain("rtt", Num(rtt)),
     Plain("e2e50", Num(e2e50)), Plain("e2e95", Num(e2e95)), Plain("offsetKnown", Raw("true"))]
  }

  function BuildStats(fps: int, mbps: int, rtt: int, e2e50: int, e2e95: int): (s: string)
    ensures ParsesAs(s, "stats")
  {
    Typed("stats", Appended(StatsFields(fps, mbps, rtt, e2e50, e2e95)))
  }

  /** Every string field of a flat object is read back by its key, whatever whitespace is between the tokens. */
  lemma {:induction false} StringReadBack(fields: seq<Field>, key: string, i: nat, t: string)
    requires FieldsOk(fields) && PlainKey(key) && KeyOf(fields, key, i)
    requires fields[i].value == Str(t)
    ensures FindString(ObjectText(fields), key) == Some(t)
  {
    var before := ValueFound(fields, key, i, SPACES);
    assert FieldOk(fields[i]);
    StringAt(ObjectText(fields), before, t, Behind(fields, i), key);
  }

  /** Every integer field of a flat object is read back by its key, as the double nearest to it. */
  lemma {:induction false} NumberReadBack(fields: seq<Field>, key: string, i: nat, n: int)
    requires FieldsOk(fields) && PlainKey(key) && KeyOf(fields, key, i)
    requires fields[i].value == Num(n)
    ensures FindNumber(ObjectText(fields), key) == Signed(n as real)
    ensures -PRECISION <= n as real <= PRECISION ==> FindNumber(ObjectText(fields), key) == Finite(n as real)
  {
    BehindStart(fields, i);
    assert IntText(n)[0] !in SPACES;
    var before := ValueFound(fields, key, i, SPACES);
    NumeralAt(ObjectText(fields), before, IntText(n), Behind(fields, i));
    IntegerRead(n);
    if -PRECISION <= n as real <= PRECISION {
      WholeExact(n);
    }
  }

  lemma NumeralAt(s: string, a: string, t: string, b: string)
    requires s == a + (t + b) && b != [] && EndsValue(b[0])
    ensures |a| < |s| && Numeral(s[|a|..]) == Numeral(t)
  {
    assert s[|a|..] == t + b;
    NumeralBehind(t, b);
  }

  lemma {:induction false} FieldsEnd(fields: seq<Field>)
    ensures var s := FieldsText(fields); |s| > 0 && s[|s| - 1] == '}'
    decreases |fields|
  {
    if fields != [] {
      FieldsEnd(fields[1..]);
      LastOfConcat(FieldText(fields[0]), Sep(fields), FieldsText(fields[1..]));
    }
  }

  lemma LastOfConcat(a: string, b: string, c: string)
    requires c != []
    ensures var s := a + (b + c); s[|s| - 1] == c[|c| - 1]
  {
  }

  lemma ObjectEnds(fields: seq<Field>)
    ensures var s := ObjectText(fields); s[0] == '{' && s[|s| - 1] == '}'
  {
    FieldsEnd(fields);
  }
}
