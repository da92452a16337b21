/** What the receiver's own messages (protocol/control.cpp, the builders) read back as. */
module ControlBuilders {
  import opened Bytes
  import opened FlatJson
  import opened Control
  import opened ControlObjects
  import opened Doubles
  import opened Numerals

  // ----- A built text is a flat object --------------------------------------------------

  function TypeField(kind: string): Field { Plain("type", Str(kind)) }

  ghost predicate AllTight(fields: seq<Field>) {
    forall k | 0 <= k < |fields| :: fields[k].gap == TIGHT
  }

  lemma TightText(f: Field)
    requires f.gap == TIGHT
    ensures FieldText(f) == Quoted(f.key) + (":" + ValueText(f.value))
  {
    var v := ValueText(f.value);
    assert v + "" == v && "" + v == v && "" + (":" + v) == ":" + v;
  }

  /** Appending fields behind a first one and closing the brace prints the object. */
  lemma {:induction false} AppendedObject(f: Field, fields: seq<Field>)
    requires AllTight(fields)
    ensures FieldsText([f] + fields) == FieldText(f) + (Appended(fields) + "}")
    decreases |fields|
  {
    assert ([f] + fields)[1..] == fields;
    if fields == [] {
      assert "" + "}" == "}";
    } else {
      var g, more := fields[0], fields[1..];
      assert fields == [g] + more;
      AppendedObject(g, more);
      TightText(g);
      ConcatAssoc(",", FieldText(g), Appended(more) + "}");
      ConcatAssoc("," + FieldText(g), Appended(more), "}");
    }
  }

  lemma TypedText(kind: string, rest: string)
    requires QuoteFree(kind)
    ensures Typed(kind, rest) == "{" + (FieldText(TypeField(kind)) + (rest + "}"))
  {
    TightText(TypeField(kind));
    assert Quoted("type") + (":" + Quoted(kind)) == "\"type\":" + Quoted(kind);
    TypeText("\"type\":", Quoted(kind), rest);
  }

  lemma TypeText(a: string, k: string, rest: string)
    ensures "{" + a + k + rest + "}" == "{" + ((a + k) + (rest + "}"))
  {
    ConcatAssoc("{", a, k);
    ConcatAssoc("{", a + k, rest);
    ConcatAssoc("{", (a + k) + rest, "}");
    ConcatAssoc(a + k, rest, "}");
  }

  /** What a builder writes is the object of its fields behind the type. */
  lemma BuiltObject(kind: string, fields: seq<Field>)
    requires QuoteFree(kind) && AllTight(fields)
    ensures Typed(kind, Appended(fields)) == ObjectText([TypeField(kind)] + fields)
  {
    TypedText(kind, Appended(fields));
    AppendedObject(TypeField(kind), fields);
  }

  lemma TypeOk(kind: string, fields: seq<Field>, key: string)
    requires QuoteFree(kind) && ObjectOk(fields) && Searchable(fields, key) && key != "type" && key != kind
    ensures var all := [TypeField(kind)] + fields;
            ObjectOk(all) && Searchable(all, key) && Lookup(all, key) == Lookup(fields, key)
  {
    var all := [TypeField(kind)] + fields;
    assert all[1..] == fields;
    assert QuoteFree("type");
    forall k | 0 <= k < |all|
      ensures FieldOk(all[k]) && Readable(all[k].value) && all[k].value != Str(key)
    {
      if k > 0 {
        assert all[k] == fields[k - 1];
      }
    }
  }

  /** Every field a builder appends is read back by its key. */
  lemma BuiltRead(kind: string, fields: seq<Field>, key: string)
    requires QuoteFree(kind) && AllTight(fields) && ObjectOk(fields) && Searchable(fields, key)
    requires key != "type" && key != kind
    ensures FindString(Typed(kind, Appended(fields)), key) == TextOf(fields, key)
    ensures FindNumber(Typed(kind, Appended(fields)), key) == NumberOf(fields, key)
  {
    BuiltObject(kind, fields);
    TypeOk(kind, fields, key);
    FieldRead([TypeField(kind)] + fields, key);
  }

  // ----- Ping, pong, touch, scroll and statistics -------------------------------------------

  /** What FormatNumber prints is not empty, without quotes, and starts with no whitespace. */
  lemma FormatPlain(v: real)
    ensures Sound(Plain("n", Raw(FormatNumber(v))))
  {
    if PrintsWhole(v) {
      NumberQuoteFree(v.Floor);
    }
  }

  /** A tight field with a plain key and a printable value. */
  ghost predicate Sound(f: Field) { f.gap == TIGHT && PlainKey(f.key) && ValueOk(f.value) && Readable(f.value) }

  ghost predicate AllSound(fields: seq<Field>) {
    forall k | 0 <= k < |fields| :: Sound(fields[k])
  }

  lemma SoundPrintable(fields: seq<Field>)
    requires AllSound(fields)
    ensures AllTight(fields) && ObjectOk(fields)
  {
    forall k | 0 <= k < |fields|
      ensures FieldOk(fields[k]) && Readable(fields[k].value) && fields[k].gap == TIGHT
    {
      assert Sound(fields[k]);
    }
  }

  lemma {:induction false} LookupAt(fields: seq<Field>, i: nat)
    requires i < |fields| && forall j | 0 <= j < i :: fields[j].key != fields[i].key
    ensures Lookup(fields, fields[i].key) == Some(fields[i].value)
    decreases i
  {
    if i > 0 {
      LookupAt(fields[1..], i - 1);
    }
  }

  /** The i-th field is found when no earlier one has its key and no string is the same text. */
  ghost predicate Found(fields: seq<Field>, kind: string, i: nat) {
    && i < |fields| && AllSound(fields)
    && QuoteFree(kind) && fields[i].key != "type" && fields[i].key != kind
    && (forall j | 0 <= j < i :: fields[j].key != fields[i].key)
    && forall j | 0 <= j < |fields| :: fields[j].value != Str(fields[i].key)
  }

  /** Such a field is read back from the built text by its own key. */
  lemma FoundRead(fields: seq<Field>, kind: string, i: nat, s: string)
    requires Found(fields, kind, i) && s == Typed(kind, Appended(fields))
    ensures FindString(s, fields[i].key) == TextIn(fields[i].value)
    ensures FindNumber(s, fields[i].key) == NumberIn(fields[i].value)
  {
    SoundPrintable(fields);
    LookupAt(fields, i);
    assert Sound(fields[i]);
    BuiltRead(kind, fields, fields[i].key);
  }

  function TextIn(v: Value): Option<string> { if v.Str? then Some(v.text) else None }

  function NumberIn(v: Value): Number {
    match v
    case Str(_) => Absent
    case Num(n) => Signed(n as real)
    case Raw(t) => Numeral(t)
  }

  lemma PlainKeys()
    ensures PlainKey("t") && PlainKey("mt") && PlainKey("phase") && PlainKey("x") && PlainKey("y")
    ensures PlainKey("dx") && PlainKey("dy")
  {
  }

  /** The sender's clock comes back exactly up to 2^53 ms, and as the nearest double beyond. */
  lemma PingRead(t: int)
    ensures FindNumber(BuildPing(t), "t") == Signed(t as real)
    ensures -PRECISION <= t as real <= PRECISION ==> FindNumber(BuildPing(t), "t") == Finite(t as real)
  {
    PingFound(t);
    FoundRead(PingFields(t), "ping", 0, BuildPing(t));
    if -PRECISION <= t as real <= PRECISION {
      WholeExact(t);
    }
  }

  lemma PingFound(t: int)
    ensures Found(PingFields(t), "ping", 0)
  {
    PlainKeys();
  }

  lemma PongFound(t: int, mt: int)
    ensures Found(PongFields(t, mt), "pong", 0) && Found(PongFields(t, mt), "pong", 1)
  {
    PlainKeys();
  }

  /** A pong carries both clock readings back. */
  lemma PongReadBack(t: int, mt: int)
    ensures ParseText(BuildPong(t, mt)) == Some(Message("pong", Pong(Signed(t as real), Signed(mt as real))))
  {
    PongFound(t, mt);
    FoundRead(PongFields(t, mt), "pong", 0, BuildPong(t, mt));
    FoundRead(PongFields(t, mt), "pong", 1, BuildPong(t, mt));
  }

  lemma TouchFound(phase: string, x: real, y: real)
    requires QuoteFree(phase) && phase !in {"phase", "x", "y"}
    ensures forall i: nat | i < 3 :: Found(TouchFields(phase, x, y), "touch", i)
  {
    PlainKeys();
    FormatPlain(x);
    FormatPlain(y);
  }

  /** The phase comes back, and both coordinates to two decimals. */
  lemma TouchRead(phase: string, x: real, y: real)
    requires QuoteFree(phase) && phase !in {"phase", "x", "y"}
    ensures var s := BuildTouch(phase, x, y);
            && FindString(s, "phase") == Some(phase)
            && FindNumber(s, "x") == Printed(x) && FindNumber(s, "y") == Printed(y)
  {
    TouchFound(phase, x, y);
    FoundRead(TouchFields(phase, x, y), "touch", 0, BuildTouch(phase, x, y));
    FoundRead(TouchFields(phase, x, y), "touch", 1, BuildTouch(phase, x, y));
    FoundRead(TouchFields(phase, x, y), "touch", 2, BuildTouch(phase, x, y));
    FormatRead(x);
    FormatRead(y);
  }

  lemma ScrollFound(dx: real, dy: real)
    ensures Found(ScrollFields(dx, dy), "scroll", 0) && Found(ScrollFields(dx, dy), "scroll", 1)
  {
    PlainKeys();
    FormatPlain(dx);
    FormatPlain(dy);
  }

  lemma ScrollRead(dx: real, dy: real)
    ensures var s := BuildScroll(dx, dy);
            FindNumber(s, "dx") == Printed(dx) && FindNumber(s, "dy") == Printed(dy)
  {
    ScrollFound(dx, dy);
    FoundRead(ScrollFields(dx, dy), "scroll", 0, BuildScroll(dx, dy));
    FoundRead(ScrollFields(dx, dy), "scroll", 1, BuildScroll(dx, dy));
    FormatRead(dx);
    FormatRead(dy);
  }

  lemma StatsKeysPlain()
    ensures PlainKey("transport") && PlainKey("fps") && PlainKey("mbps") && PlainKey("rtt")
    ensures PlainKey("e2e50") && PlainKey("e2e95") && PlainKey("offsetKnown")
    ensures Sound(Plain("offsetKnown", Raw("true")))
  {
  }

  lemma StatsFound(fps: int, mbps: int, rtt: int, e2e50: int, e2e95: int)
    ensures forall i: nat | i < 7 :: Found(StatsFields(fps, mbps, rtt, e2e50, e2e95), "stats", i)
  {
    StatsKeysPlain();
  }

  lemma StatsRead(fps: int, mbps: int, rtt: int, e2e50: int, e2e95: int)
    ensures var s := BuildStats(fps, mbps, rtt, e2e50, e2e95);
            && FindString(s, "transport") == Some("tcp")
            && FindNumber(s, "fps") == Signed(fps as real) && FindNumber(s, "mbps") == Signed(mbps as real)
            && FindNumber(s, "rtt") == Signed(rtt as real)
            && FindNumber(s, "e2e50") == Signed(e2e50 as real) && FindNumber(s, "e2e95") == Signed(e2e95 as real)
  {
    var fields, s := StatsFields(fps, mbps, rtt, e2e50, e2e95), BuildStats(fps, mbps, rtt, e2e50, e2e95);
    StatsFound(fps, mbps, rtt, e2e50, e2e95);
    FoundRead(fields, "stats", 0, s);
    FoundRead(fields, "stats", 1, s);
    FoundRead(fields, "stats", 2, s);
    FoundRead(fields, "stats", 3, s);
    FoundRead(fields, "stats", 4, s);
    FoundRead(fields, "stats", 5, s);
  }

  // ----- Hello --------------------------------------------------------------------------

  ghost predicate NoText(fields: seq<Field>, key: string) {
    forall k | 0 <= k < |fields| :: fields[k].value != Str(key)
  }

  lemma KeyRead(fields: seq<Field>, kind: string, key: string, s: string)
    requires AllSound(fields) && NoText(fields, key) && PlainKey(key) && QuoteFree(kind)
    requires key != "type" && key != kind && s == Typed(kind, Appended(fields))
    ensures FindString(s, key) == TextOf(fields, key) && FindNumber(s, key) == NumberOf(fields, key)
  {
    SoundPrintable(fields);
    BuiltRead(kind, fields, key);
  }

  lemma {:induction false} LookupAppend(a: seq<Field>, b: seq<Field>, key: string)
    ensures Lookup(a + b, key) == if Lookup(a, key).Some? then Lookup(a, key) else Lookup(b, key)
    decreases |a|
  {
    if a == [] {
      assert a + b == b;
    } else {
      assert (a + b)[1..] == a[1..] + b;
      LookupAppend(a[1..], b, key);
    }
  }

  lemma {:induction false} LookupMissing(fields: seq<Field>, key: string)
    requires forall k | 0 <= k < |fields| :: fields[k].key != key
    ensures Lookup(fields, key) == None
    decreases |fields|
  {
    if fields != [] {
      LookupMissing(fields[1..], key);
    }
  }

  lemma AppendSound(a: seq<Field>, b: seq<Field>, key: string)
    ensures AllSound(a) && AllSound(b) ==> AllSound(a + b)
    ensures NoText(a, key) && NoText(b, key) ==> NoText(a + b, key)
  {
  }

  /** The device and the identifier are quote-free and none of the keys. */
  ghost predicate HelloOk(info: HelloInfo) {
    && QuoteFree(info.device) && QuoteFree(info.id)
    && info.device !in HELLO_KEYS && info.id !in HELLO_KEYS
  }

  const HELLO_KEYS :=
    {"pixelsWide", "pixelsHigh", "scale", "device", "id", "pv", "maxEncodeWide", "maxEncodeHigh", "bitrateKbps"}

  lemma HelloKeysPlain()
    ensures PlainKey("pixelsWide") && PlainKey("pixelsHigh") && PlainKey("scale") && PlainKey("device")
    ensures PlainKey("id") && PlainKey("pv") && PlainKey("bitrateKbps")
    ensures PlainKey("maxEncodeWide") && PlainKey("maxEncodeHigh")
  {
  }

  function FirstFour(info: HelloInfo): seq<Field> {
    [Plain("pixelsWide", Num(info.pixelsWide)), Plain("pixelsHigh", Num(info.pixelsHigh)),
     Plain("scale", Raw(FormatNumber(info.scale))), Plain("device", Str(info.device))]
  }

  lemma FirstFourLookup(info: HelloInfo)
    ensures Lookup(FirstFour(info), "pixelsWide") == Some(Num(info.pixelsWide))
    ensures Lookup(FirstFour(info), "pixelsHigh") == Some(Num(info.pixelsHigh))
    ensures Lookup(FirstFour(info), "scale") == Some(Raw(FormatNumber(info.scale)))
    ensures Lookup(FirstFour(info), "device") == Some(Str(info.device))
    ensures Lookup(FirstFour(info), "id") == None && Lookup(FirstFour(info), "pv") == None
    ensures Lookup(FirstFour(info), "maxEncodeWide") == None && Lookup(FirstFour(info), "maxEncodeHigh") == None
    ensures Lookup(FirstFour(info), "bitrateKbps") == None
  {
    var fields := FirstFour(info);
    LookupAt(fields, 0);
    LookupAt(fields, 1);
    LookupAt(fields, 2);
    LookupAt(fields, 3);
    LookupMissing(fields, "id");
    LookupMissing(fields, "pv");
    LookupMissing(fields, "maxEncodeWide");
    LookupMissing(fields, "maxEncodeHigh");
    LookupMissing(fields, "bitrateKbps");
  }

  lemma OneLookup(k: string, v: Value, key: string)
    ensures Lookup([Plain(k, v)], key) == if k == key then Some(v) else None
  {
    assert [Plain(k, v)][1..] == [];
  }

  lemma EncodeLookup(wide: Option<int>, high: Option<int>, key: string)
    ensures var e, both := EncodeFields(wide, high), wide.Some? && high.Some?;
            && (key != "maxEncodeWide" && key != "maxEncodeHigh" ==> Lookup(e, key) == None)
            && Lookup(e, "maxEncodeWide") == (if both then Some(Num(wide.value)) else None)
            && Lookup(e, "maxEncodeHigh") == (if both then Some(Num(high.value)) else None)
  {
    if wide.Some? && high.Some? {
      var a, b := [Plain("maxEncodeWide", Num(wide.value))], [Plain("maxEncodeHigh", Num(high.value))];
      assert EncodeFields(wide, high) == a + b;
      forall k: string
        ensures Lookup(a + b, k) == if Lookup(a, k).Some? then Lookup(a, k) else Lookup(b, k)
        ensures Lookup(a, k) == if "maxEncodeWide" == k then Some(Num(wide.value)) else None
        ensures Lookup(b, k) == if "maxEncodeHigh" == k then Some(Num(high.value)) else None
      {
        LookupAppend(a, b, k);
        OneLookup("maxEncodeWide", Num(wide.value), k);
        OneLookup("maxEncodeHigh", Num(high.value), k);
      }
    }
  }

  function FirstOf(a: Option<Value>, b: Option<Value>): Option<Value> { if a.Some? then a else b }

  /** A lookup in the fields of a hello goes through its five parts in order. */
  lemma HelloLookup(info: HelloInfo, key: string)
    ensures Lookup(HelloFields(info), key) ==
            FirstOf(Lookup(FirstFour(info), key),
            FirstOf(Lookup(IdFields(info.id), key),
            FirstOf(Lookup([Plain("pv", Num(info.pv))], key),
            FirstOf(Lookup(EncodeFields(info.maxEncodeWide, info.maxEncodeHigh), key),
                    Lookup(BitrateFields(info.bitrateKbps), key)))))
  {
    var id, pv := IdFields(info.id), [Plain("pv", Num(info.pv))];
    var enc, bit := EncodeFields(info.maxEncodeWide, info.maxEncodeHigh), BitrateFields(info.bitrateKbps);
    LookupAppend(enc, bit, key);
    LookupAppend(pv, enc + bit, key);
    LookupAppend(id, pv + (enc + bit), key);
    LookupAppend(FirstFour(info), id + (pv + (enc + bit)), key);
  }

  lemma HelloSound(info: HelloInfo, key: string)
    requires HelloOk(info) && key in HELLO_KEYS
    ensures AllSound(HelloFields(info)) && NoText(HelloFields(info), key)
  {
    var id, pv := IdFields(info.id), [Plain("pv", Num(info.pv))];
    var enc, bit := EncodeFields(info.maxEncodeWide, info.maxEncodeHigh), BitrateFields(info.bitrateKbps);
    HelloKeysPlain();
    FormatPlain(info.scale);
    assert AllSound(FirstFour(info)) && NoText(FirstFour(info), key);
    assert AllSound(enc) && AllSound(bit) && AllSound(pv) && AllSound(id);
    assert NoText(id, key);
    AppendSound(enc, bit, key);
    AppendSound(pv, enc + bit, key);
    AppendSound(id, pv + (enc + bit), key);
    AppendSound(FirstFour(info), id + (pv + (enc + bit)), key);
  }

  /** What each key of a hello stands for. */
  lemma HelloValues(info: HelloInfo)
    ensures var f := HelloFields(info);
            && Lookup(f, "pixelsWide") == Some(Num(info.pixelsWide))
            && Lookup(f, "pixelsHigh") == Some(Num(info.pixelsHigh))
            && Lookup(f, "scale") == Some(Raw(FormatNumber(info.scale)))
            && Lookup(f, "device") == Some(Str(info.device))
  {
    FirstFourLookup(info);
    HelloLookup(info, "pixelsWide");
    HelloLookup(info, "pixelsHigh");
    HelloLookup(info, "scale");
    HelloLookup(info, "device");
  }

  lemma HelloOptionalValues(info: HelloInfo)
    ensures var f, both := HelloFields(info), info.maxEncodeWide.Some? && info.maxEncodeHigh.Some?;
            && Lookup(f, "id") == (if info.id == "" then None else Some(Str(info.id)))
            && Lookup(f, "pv") == Some(Num(info.pv))
            && Lookup(f, "maxEncodeWide") == (if both then Some(Num(info.maxEncodeWide.value)) else None)
            && Lookup(f, "maxEncodeHigh") == (if both then Some(Num(info.maxEncodeHigh.value)) else None)
            && Lookup(f, "bitrateKbps") ==
               (if info.bitrateKbps.Some? then Some(Num(info.bitrateKbps.value)) else None)
  {
    FirstFourLookup(info);
    forall key: string
      ensures Lookup(IdFields(info.id), key) == if info.id != "" && "id" == key then Some(Str(info.id)) else None
      ensures Lookup([Plain("pv", Num(info.pv))], key) == if "pv" == key then Some(Num(info.pv)) else None
      ensures Lookup(BitrateFields(info.bitrateKbps), key) ==
              if info.bitrateKbps.Some? && "bitrateKbps" == key then Some(Num(info.bitrateKbps.value)) else None
    {
      OneLookup("id", Str(info.id), key);
      OneLookup("pv", Num(info.pv), key);
      OneLookup("bitrateKbps", Num(info.bitrateKbps.GetOr(0)), key);
    }
    EncodeLookup(info.maxEncodeWide, info.maxEncodeHigh, "id");
    EncodeLookup(info.maxEncodeWide, info.maxEncodeHigh, "pv");
    EncodeLookup(info.maxEncodeWide, info.maxEncodeHigh, "bitrateKbps");
    HelloLookup(info, "id");
    HelloLookup(info, "pv");
    HelloLookup(info, "maxEncodeWide");
    HelloLookup(info, "maxEncodeHigh");
    HelloLookup(info, "bitrateKbps");
  }

  lemma HelloKeyRead(info: HelloInfo, key: string, s: string)
    requires HelloOk(info) && key in HELLO_KEYS && s == Typed("hello", Appended(HelloFields(info)))
    ensures FindString(s, key) == TextOf(HelloFields(info), key)
    ensures FindNumber(s, key) == NumberOf(HelloFields(info), key)
  {
    HelloKeyPlain(key);
    HelloSound(info, key);
    KeyRead(HelloFields(info), "hello", key, s);
  }

  lemma HelloKeyPlain(key: string)
    requires key in HELLO_KEYS
    ensures PlainKey(key) && key != "type" && key != "hello" && QuoteFree("hello")
  {
    HelloKeysPlain();
  }

  /** The sizes, the scale and the device are read back, the scale as it was printed. */
  lemma HelloSizesRead(info: HelloInfo, s: string)
    requires HelloOk(info) && s == BuildHello(info)
    ensures FindNumber(s, "pixelsWide") == Signed(info.pixelsWide as real)
    ensures FindNumber(s, "pixelsHigh") == Signed(info.pixelsHigh as real)
    ensures FindNumber(s, "scale") == Printed(info.scale)
    ensures FindString(s, "device") == Some(info.device)
  {
    HelloValues(info);
    FormatRead(info.scale);
    HelloKeyRead(info, "pixelsWide", s);
    HelloKeyRead(info, "pixelsHigh", s);
    HelloKeyRead(info, "scale", s);
    HelloKeyRead(info, "device", s);
  }

  lemma HelloOptionsRead(info: HelloInfo, s: string)
    requires HelloOk(info) && s == BuildHello(info)
    ensures FindString(s, "id") == if info.id == "" then None else Some(info.id)
    ensures FindNumber(s, "pv") == Signed(info.pv as real)
    ensures var both := info.maxEncodeWide.Some? && info.maxEncodeHigh.Some?;
            && FindNumber(s, "maxEncodeWide") == (if both then Signed(info.maxEncodeWide.value as real) else Absent)
            && FindNumber(s, "maxEncodeHigh") == (if both then Signed(info.maxEncodeHigh.value as real) else Absent)
    ensures FindNumber(s, "bitrateKbps") ==
            if info.bitrateKbps.Some? then Signed(info.bitrateKbps.value as real) else Absent
  {
    HelloOptionalValues(info);
    HelloKeyRead(info, "id", s);
    HelloKeyRead(info, "pv", s);
    HelloKeyRead(info, "maxEncodeWide", s);
    HelloKeyRead(info, "maxEncodeHigh", s);
    HelloKeyRead(info, "bitrateKbps", s);
  }

  /** Every field of a hello is read back, the optional ones exactly when they are there. */
  lemma HelloRead(info: HelloInfo)
    requires HelloOk(info)
    ensures var s, both := BuildHello(info), info.maxEncodeWide.Some? && info.maxEncodeHigh.Some?;
            && FindNumber(s, "pixelsWide") == Signed(info.pixelsWide as real)
            && FindNumber(s, "pixelsHigh") == Signed(info.pixelsHigh as real)
            && FindNumber(s, "scale") == Printed(info.scale)
            && FindString(s, "device") == Some(info.device)
            && FindString(s, "id") == (if info.id == "" then None else Some(info.id))
            && FindNumber(s, "pv") == Signed(info.pv as real)
            && FindNumber(s, "maxEncodeWide") == (if both then Signed(info.maxEncodeWide.value as real) else Absent)
            && FindNumber(s, "maxEncodeHigh") == (if both then Signed(info.maxEncodeHigh.value as real) else Absent)
            && FindNumber(s, "bitrateKbps") ==
               (if info.bitrateKbps.Some? then Signed(info.bitrateKbps.value as real) else Absent)
  {
    HelloSizesRead(info, BuildHello(info));
    HelloOptionsRead(info, BuildHello(info));
  }
}
