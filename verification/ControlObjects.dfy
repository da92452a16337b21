/**
What the control parser (protocol/control.cpp) makes of any flat object: each
field of a message is the object's own field of that name, or its default.
*/
module ControlObjects {
  import opened Bytes
  import opened Text
  import opened FlatJson
  import opened Control
  import opened Doubles
  import opened Numerals
  import Telemetry

  /** The value of the first field with this key. */
  function Lookup(fields: seq<Field>, key: string): Option<Value> {
    if fields == [] then None
    else if fields[0].key == key then Some(fields[0].value)
    else Lookup(fields[1..], key)
  }

  function TextOf(fields: seq<Field>, key: string): Option<string> {
    match Lookup(fields, key)
    case Some(Str(t)) => Some(t)
    case _ => None
  }

  function NumberOf(fields: seq<Field>, key: string): Number {
    match Lookup(fields, key)
    case Some(Num(n)) => Signed(n as real)
    case Some(Raw(t)) => Numeral(t)
    case _ => Absent
  }

  function IntOf(fields: seq<Field>, key: string): Option<int> { Whole(NumberOf(fields, key)) }

  /** The key can be searched for: it is plain, and no string value is the same text. */
  ghost predicate Searchable(fields: seq<Field>, key: string) {
    PlainKey(key) && forall k | 0 <= k < |fields| :: fields[k].value != Str(key)
  }

  lemma {:induction false} LookupIndex(fields: seq<Field>, key: string) returns (i: nat)
    requires Searchable(fields, key) && Lookup(fields, key).Some?
    ensures KeyOf(fields, key, i) && Lookup(fields, key) == Some(fields[i].value)
    decreases |fields|
  {
    if fields[0].key == key {
      i := 0;
    } else {
      var rest := fields[1..];
      forall k | 0 <= k < |rest|
        ensures rest[k].value != Str(key)
      {
        assert rest[k] == fields[k + 1];
      }
      var m := LookupIndex(rest, key);
      i := m + 1;
      forall k | 0 <= k < i
        ensures fields[k].key != key && fields[k].value != Str(key)
      {
        if k > 0 {
          assert fields[k] == rest[k - 1];
        }
      }
    }
  }

  lemma {:induction false} LookupNone(fields: seq<Field>, key: string)
    requires Lookup(fields, key).None?
    ensures forall k | 0 <= k < |fields| :: fields[k].key != key
    decreases |fields|
  {
    if fields != [] {
      LookupNone(fields[1..], key);
      forall k | 0 <= k < |fields|
        ensures fields[k].key != key
      {
        if k > 0 {
          assert fields[k] == fields[1..][k - 1];
        }
      }
    }
  }

  // ----- A key that is not there ------------------------------------------------------------

  /** Nothing matches the quoted key when no piece between two quotes is the key. */
  lemma {:induction false} NoMatchAnywhere(pre: string, ts: seq<string>, key: string, q: nat)
    requires |ts| > 0 && AllQuoteFree(ts) && QuoteFree(key)
    requires forall j | 1 <= j < |ts| - 1 :: ts[j] != key
    requires |pre| <= q
    ensures !MatchAt(pre + Join(ts), Quoted(key), q)
    decreases |ts|
  {
    var s := pre + Join(ts);
    if |ts| == 1 || q < |pre| + |ts[0]| {
      if MatchAt(s, Quoted(key), q) {
        MatchStartsWithQuote(s, q, key);
      }
    } else {
      var t := ts[1..];
      PullFirst(pre, ts[0], Join(t));
      if q > |pre| + |ts[0]| {
        NoMatchAnywhere(pre + (ts[0] + "\""), t, key, q);
      } else if |t| > 1 {
        QuoteAhead(pre + (ts[0] + "\""), t[0], Join(t[1..]));
        if MatchAt(s, Quoted(key), q) {
          MatchAtQuote(s, q, ts[1], key);
        }
      } else {
        LastQuote(s, q, ts[1], key);
      }
    }
  }

  /** No quoted text begins at the last quote. */
  lemma LastQuote(s: string, q: nat, last: string, key: string)
    requires QuoteFree(last) && |s| == q + 1 + |last| && s[q + 1..] == last
    ensures !MatchAt(s, Quoted(key), q)
  {
    var m := |key| + 2;
    if q + m <= |s| {
      assert s[q..q + m][m - 1] == s[q + 1..][m - 2] == last[m - 2];
    }
  }

  /** No piece between the first and the last is the key. */
  ghost predicate NoneIs(ts: seq<string>, key: string) { forall j | 1 <= j < |ts| - 1 :: ts[j] != key }

  ghost predicate Missing(fields: seq<Field>, key: string) {
    forall k | 0 <= k < |fields| :: fields[k].key != key && fields[k].value != Str(key)
  }

  lemma MissingTail(fields: seq<Field>, key: string)
    requires fields != [] && Missing(fields, key)
    ensures Missing(fields[1..], key)
  {
    forall k | 0 <= k < |fields| - 1
      ensures fields[1..][k].key != key && fields[1..][k].value != Str(key)
    {
      assert fields[1..][k] == fields[k + 1];
    }
  }

  /** No piece inside the object's text is a key it does not have. */
  lemma {:induction false} PiecesAvoidMissing(lead: string, fields: seq<Field>, key: string)
    requires PlainKey(key) && Missing(fields, key)
    ensures NoneIs(FlatJson.Pieces(lead, fields), key)
    ensures fields != [] ==> |FlatJson.Pieces(lead, fields)| > 1
    decreases |fields|
  {
    if fields != [] {
      MissingTail(fields, key);
      PiecesAvoidMissing(NextLead(fields[0], Sep(fields)), fields[1..], key);
      FirstPiecesAvoid(lead, fields, key);
    }
  }

  lemma FirstPiecesAvoid(lead: string, fields: seq<Field>, key: string)
    requires PlainKey(key) && fields != [] && Missing(fields, key)
    requires NoneIs(FlatJson.Pieces(NextLead(fields[0], Sep(fields)), fields[1..]), key)
    ensures NoneIs(FlatJson.Pieces(lead, fields), key) && |FlatJson.Pieces(lead, fields)| > 1
  {
    var f, rest := fields[0], fields[1..];
    HeadAvoids(lead, f, key);
    if rest != [] {
      assert fields == [f] + rest;
      LeadAvoids(f, rest, key);
    } else {
      assert |FlatJson.Pieces(NextLead(f, Sep(fields)), rest)| == 1;
    }
    JoinedAvoid(Head(lead, f), FlatJson.Pieces(NextLead(f, Sep(fields)), rest), key);
  }

  lemma JoinedAvoid(h: seq<string>, us: seq<string>, key: string)
    requires h != [] && us != []
    requires forall j | 1 <= j < |h| :: h[j] != key
    requires forall j | 0 <= j < |us| - 1 :: us[j] != key
    ensures forall j | 1 <= j < |h + us| - 1 :: (h + us)[j] != key
  {
    forall j | 1 <= j < |h + us| - 1
      ensures (h + us)[j] != key
    {
      assert (h + us)[j] == if j < |h| then h[j] else us[j - |h|];
    }
  }

  lemma MissingKey(fields: seq<Field>, key: string, spaces: set<char>)
    requires FieldsOk(fields) && Searchable(fields, key) && Lookup(fields, key).None?
    ensures ValueStart(ObjectText(fields), key, spaces) == -1
  {
    var ts := FlatJson.Pieces("{", fields);
    LookupNone(fields, key);
    PiecesJoin("{", fields);
    PiecesQuoteFree("{", fields);
    PiecesAvoidMissing("{", fields, key);
    var s := ObjectText(fields);
    assert [] + s == s;
    forall q: nat
      ensures !MatchAt(s, Quoted(key), q)
    {
      NoMatchAnywhere([], ts, key, q);
    }
  }

  // ----- Fields are read back -----------------------------------------------------------------

  /** A literal or fractional value starts with none of the characters the scanner skips or takes for a string. */
  ghost predicate Readable(v: Value) {
    v.Raw? ==> v.text != "" && v.text[0] !in SPACES
  }

  ghost predicate ObjectOk(fields: seq<Field>) {
    FieldsOk(fields) && forall k | 0 <= k < |fields| :: Readable(fields[k].value)
  }

  /**
  Every lookup of the receiver in a flat object finds that object's own field,
  whatever whitespace is between its tokens.
  */
  lemma FieldRead(fields: seq<Field>, key: string)
    requires ObjectOk(fields) && Searchable(fields, key)
    ensures FindString(ObjectText(fields), key) == TextOf(fields, key)
    ensures FindNumber(ObjectText(fields), key) == NumberOf(fields, key)
  {
    if Lookup(fields, key).None? {
      MissingKey(fields, key, SPACES);
    } else {
      var i := LookupIndex(fields, key);
      assert FieldOk(fields[i]) && Readable(fields[i].value);
      match fields[i].value
      case Str(t) =>
        StringReadBack(fields, key, i, t);
        StringIsNoNumber(fields, key, i, t);
      case Num(n) =>
        NumberReadBack(fields, key, i, n);
        PlainIsNoString(fields, key, i);
      case Raw(t) =>
        RawReadBack(fields, key, i, t);
        PlainIsNoString(fields, key, i);
    }
  }

  lemma StringIsNoNumber(fields: seq<Field>, key: string, i: nat, t: string)
    requires FieldsOk(fields) && PlainKey(key) && KeyOf(fields, key, i) && fields[i].value == Str(t)
    ensures FindNumber(ObjectText(fields), key) == Absent
  {
    var before := ValueFound(fields, key, i, SPACES);
    var s := ObjectText(fields);
    assert s[|before|] == '"';
    QuoteIsNoNumber(s[|before|..]);
  }

  lemma QuoteIsNoNumber(t: string)
    requires t != "" && t[0] == '"'
    ensures Numeral(t) == Absent
  {
  }

  lemma PlainIsNoString(fields: seq<Field>, key: string, i: nat)
    requires FieldsOk(fields) && PlainKey(key) && KeyOf(fields, key, i)
    requires !fields[i].value.Str? && Readable(fields[i].value)
    ensures FindString(ObjectText(fields), key) == None
  {
    var v := ValueText(fields[i].value);
    assert FieldOk(fields[i]);
    if fields[i].value.Num? {
      NumberQuoteFree(fields[i].value.n);
      assert v[0] !in SPACES;
    }
    var before := ValueFound(fields, key, i, SPACES);
    assert ObjectText(fields)[|before|] == v[0];
  }

  lemma RawReadBack(fields: seq<Field>, key: string, i: nat, t: string)
    requires FieldsOk(fields) && PlainKey(key) && KeyOf(fields, key, i)
    requires fields[i].value == Raw(t) && Readable(fields[i].value)
    ensures FindNumber(ObjectText(fields), key) == Numeral(t)
  {
    BehindStart(fields, i);
    var before := ValueFound(fields, key, i, SPACES);
    NumeralAt(ObjectText(fields), before, t, Behind(fields, i));
  }

  // ----- Messages are read back ---------------------------------------------------------------

  /** An object whose `type` is this kind and whose given keys can be searched for. */
  ghost predicate IsMessage(fields: seq<Field>, kind: string, keys: seq<string>) {
    && ObjectOk(fields)
    && Lookup(fields, "type") == Some(Str(kind)) && Searchable(fields, "type")
    && forall k | 0 <= k < |keys| :: Searchable(fields, keys[k])
  }

  /** The text is a message of this kind, with its body still to be read. */
  lemma {:induction false} KindRead(fields: seq<Field>, kind: string, keys: seq<string>)
    requires IsMessage(fields, kind, keys)
    ensures var s := ObjectText(fields); ParseText(s) == Some(Message(kind, BodyOf(s, kind)))
    ensures forall k | 0 <= k < |keys| ::
              && FindString(ObjectText(fields), keys[k]) == TextOf(fields, keys[k])
              && FindNumber(ObjectText(fields), keys[k]) == NumberOf(fields, keys[k])
              && FindInt(ObjectText(fields), keys[k]) == IntOf(fields, keys[k])
  {
    FieldRead(fields, "type");
    ObjectEnds(fields);
    forall k | 0 <= k < |keys|
      ensures FindString(ObjectText(fields), keys[k]) == TextOf(fields, keys[k])
      ensures FindNumber(ObjectText(fields), keys[k]) == NumberOf(fields, keys[k])
    {
      FieldRead(fields, keys[k]);
    }
  }

  lemma PongRead(fields: seq<Field>)
    requires IsMessage(fields, "pong", ["t", "mt"])
    ensures ParseText(ObjectText(fields)) ==
            Some(Message("pong", Pong(NumberOf(fields, "t"), NumberOf(fields, "mt"))))
  {
    var keys := ["t", "mt"];
    KindRead(fields, "pong", keys);
    assert keys[0] == "t" && keys[1] == "mt";
  }

  lemma PingRead(fields: seq<Field>)
    requires IsMessage(fields, "ping", ["drops", "pending", "capFps"])
    ensures ParseText(ObjectText(fields)) ==
            Some(Message("ping", Ping(IntOf(fields, "drops"), IntOf(fields, "pending"), NumberOf(fields, "capFps"))))
  {
    var keys := ["drops", "pending", "capFps"];
    KindRead(fields, "ping", keys);
    assert keys[0] == "drops" && keys[1] == "pending" && keys[2] == "capFps";
  }

  /** Versions that are missing or out of range count as 1. */
  lemma WelcomeRead(fields: seq<Field>)
    requires IsMessage(fields, "welcome", ["pv", "min"])
    ensures ParseText(ObjectText(fields)) ==
            Some(Message("welcome", Welcome(IntOf(fields, "pv").GetOr(1), IntOf(fields, "min").GetOr(1))))
  {
    var keys := ["pv", "min"];
    KindRead(fields, "welcome", keys);
    assert keys[0] == "pv" && keys[1] == "min";
  }

  lemma UpdateRequiredRead(fields: seq<Field>)
    requires IsMessage(fields, "updateRequired", ["target", "store", "message"])
    ensures ParseText(ObjectText(fields)) ==
            Some(Message("updateRequired",
                         UpdateRequired(TextOf(fields, "target").GetOr(""), TextOf(fields, "store").GetOr(""),
                                        TextOf(fields, "message").GetOr(""))))
  {
    var keys := ["target", "store", "message"];
    KindRead(fields, "updateRequired", keys);
    assert keys[0] == "target" && keys[1] == "store" && keys[2] == "message";
  }

  lemma {:induction false} StreamConfigRead(fields: seq<Field>)
    requires IsMessage(fields, "streamConfig", ["codec", "width", "height", "framesPerSecond"])
    ensures ParseText(ObjectText(fields)) ==
            Some(Message("streamConfig",
                         StreamConfig(TextOf(fields, "codec").GetOr("h264"), IntOf(fields, "width").GetOr(0),
                                      IntOf(fields, "height").GetOr(0), IntOf(fields, "framesPerSecond").GetOr(0))))
  {
    var keys := ["codec", "width", "height", "framesPerSecond"];
    KindRead(fields, "streamConfig", keys);
    assert keys[0] == "codec" && keys[1] == "width" && keys[2] == "height" && keys[3] == "framesPerSecond";
  }

  // ----- Numbers as integers, other kinds and other texts -------------------------------------

  /** A number counts as an integer when it is finite and below 10^9 in magnitude; its fraction is cut off. */
  lemma WholeIff(v: Number)
    ensures Whole(v).Some? <==> v.Finite? && -1_000_000_000.0 < v.v < 1_000_000_000.0
    ensures Whole(v).Some? && v.v >= 0.0 ==> Whole(v).value as real <= v.v < Whole(v).value as real + 1.0
    ensures Whole(v).Some? && v.v <= 0.0 ==> Whole(v).value as real - 1.0 < v.v <= Whole(v).value as real
  {
  }

  /** Cursor messages carry nothing, and every kind without a body of its own is unknown. */
  lemma OtherKindsRead(fields: seq<Field>, kind: string)
    requires IsMessage(fields, kind, [])
    requires kind !in {"pong", "ping", "welcome", "updateRequired", "streamConfig"}
    ensures ParseText(ObjectText(fields)) ==
            Some(Message(kind, if kind == "cursor" then Cursor else if kind == "cursorImg" then CursorImg else Unknown))
  {
    KindRead(fields, kind, []);
  }

  /** An object without a type, or with a type that is no text, is no message. */
  lemma NoTypeRead(fields: seq<Field>)
    requires ObjectOk(fields) && Searchable(fields, "type") && TextOf(fields, "type") == None
    ensures ParseText(ObjectText(fields)) == None
  {
    FieldRead(fields, "type");
  }

  /** Neither is a text that is not in braces. */
  lemma NoObjectRead(s: string)
    requires s == "" || s[0] != '{' || s[|s| - 1] != '}'
    ensures ParseText(s) == None
  {
  }

  /** Telemetry without the key counts as -1. */
  lemma TelemetryMissing(fields: seq<Field>, key: string)
    requires FieldsOk(fields) && Searchable(fields, key) && Lookup(fields, key).None?
    ensures Telemetry.FindNumber(ObjectText(fields), key) == -1
  {
    MissingKey(fields, key, BLANKS);
  }
}
