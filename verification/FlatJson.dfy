/**
Flat JSON objects: how senders print them, and the key search that
protocol/annexb.cpp and protocol/control.cpp share.
*/
module FlatJson {
  import opened Bytes
  import opened Text

  // ----- The search -----------------------------------------------------------------

  function Quoted(s: string): string { "\"" + s + "\"" }

  /** Position of the value behind the first `"key"` and the next colon, spaces skipped; -1 if none. */
  function ValueStart(json: string, key: string, spaces: set<char>): (p: int)
    ensures -1 <= p <= |json|
  {
    var q := Find(json, Quoted(key), 0);
    if q < 0 then -1
    else
      var c := Find(json, ":", q + |Quoted(key)|);
      if c < 0 then -1 else SkipSpaces(json, c + 1, spaces)
  }

  // ----- Texts cut at their quotes ----------------------------------------------------

  ghost predicate QuoteFree(s: string) {
    forall i | 0 <= i < |s| :: s[i] != '"'
  }

  ghost predicate AllQuoteFree(ts: seq<string>) {
    forall k | 0 <= k < |ts| :: QuoteFree(ts[k])
  }

  /** The text whose pieces between quote characters are `ts`. */
  function Join(ts: seq<string>): string
    requires |ts| > 0
  {
    if |ts| == 1 then ts[0] else ts[0] + ("\"" + Join(ts[1..]))
  }

  lemma JoinCons(a: string, ts: seq<string>)
    requires |ts| > 0
    ensures Join([a] + ts) == a + ("\"" + Join(ts))
  {
    assert ([a] + ts)[1..] == ts;
  }

  lemma {:induction false} JoinAt(ts: seq<string>, k: nat)
    requires 0 < k < |ts|
    ensures Join(ts) == Join(ts[..k]) + ("\"" + Join(ts[k..]))
  {
    var t := ts[1..];
    if k == 1 {
      assert ts[..1] == [ts[0]];
    } else {
      JoinAt(t, k - 1);
      assert ts[..k] == [ts[0]] + t[..k - 1] && t[k - 1..] == ts[k..];
      JoinCons(ts[0], t[..k - 1]);
      var rest := "\"" + Join(ts[k..]);
      ConcatAssoc("\"", Join(t[..k - 1]), rest);
      ConcatAssoc(ts[0], "\"" + Join(t[..k - 1]), rest);
    }
  }

  /** A match at a quote that is followed by `y` and another quote is a match of `y`. */
  lemma MatchAtQuote(s: string, q: nat, y: string, key: string)
    requires QuoteFree(y) && QuoteFree(key)
    requires q + 1 + |y| < |s| && s[q + 1..q + 1 + |y|] == y && s[q + 1 + |y|] == '"'
    requires MatchAt(s, Quoted(key), q)
    ensures y == key
  {
    var m := s[q..q + |key| + 2];
    assert s[q + 1..q + 1 + |key|] == m[1..|key| + 1] == key;
    assert s[q + 1 + |key|] == m[|key| + 1] == '"';
    NoQuoteWithin(s, q + 1, y);
    NoQuoteWithin(s, q + 1, key);
  }

  lemma NoQuoteWithin(s: string, p: nat, y: string)
    requires QuoteFree(y) && p + |y| <= |s| && s[p..p + |y|] == y
    ensures forall i | p <= i < p + |y| :: s[i] != '"'
  {
    forall i | p <= i < p + |y|
      ensures s[i] != '"'
    {
      assert s[i] == s[p..p + |y|][i - p];
    }
  }

  lemma MatchStartsWithQuote(s: string, q: nat, key: string)
    requires MatchAt(s, Quoted(key), q)
    ensures s[q] == '"'
  {
    assert s[q] == s[q..q + |Quoted(key)|][0];
  }

  /** Up to the quote before piece k nothing matches `key` when no earlier piece is `key`. */
  lemma {:induction false} NoMatchBefore(pre: string, ts: seq<string>, key: string, k: nat, q: nat)
    requires 0 < k < |ts| - 1 && AllQuoteFree(ts) && QuoteFree(key)
    requires forall j | 1 <= j < k :: ts[j] != key
    requires |pre| <= q < |pre| + |Join(ts[..k])|
    ensures !MatchAt(pre + Join(ts), Quoted(key), q)
    decreases k
  {
    var s, t := pre + Join(ts), ts[1..];
    var next := pre + (ts[0] + "\"");
    PullFirst(pre, ts[0], Join(t));
    if q < |pre| + |ts[0]| {
      if MatchAt(s, Quoted(key), q) {
        MatchStartsWithQuote(s, q, key);
      }
    } else {
      FirstPieces(ts, k);
      if q == |pre| + |ts[0]| {
        QuoteAhead(next, t[0], Join(t[1..]));
        if MatchAt(s, Quoted(key), q) {
          MatchAtQuote(s, q, ts[1], key);
        }
      } else {
        NoMatchBefore(next, t, key, k - 1, q);
      }
    }
  }

  lemma PullFirst(pre: string, x: string, j: string)
    ensures pre + (x + ("\"" + j)) == pre + (x + "\"") + j
    ensures (pre + (x + ("\"" + j)))[|pre|..|pre| + |x|] == x
  {
  }

  lemma FirstPieces(ts: seq<string>, k: nat)
    requires 0 < k <= |ts|
    ensures |Join(ts[..k])| == if k == 1 then |ts[0]| else |ts[0]| + 1 + |Join(ts[1..][..k - 1])|
  {
    if k == 1 {
      assert ts[..1] == [ts[0]];
    } else {
      assert ts[..k] == [ts[0]] + ts[1..][..k - 1];
      JoinCons(ts[0], ts[1..][..k - 1]);
    }
  }

  lemma QuoteAhead(a: string, y: string, b: string)
    ensures var s := a + (y + ("\"" + b));
            s[|a|..|a| + |y|] == y && s[|a| + |y|] == '"'
  {
  }

  /** The search finds exactly the first piece equal to `key` behind the first quote. */
  lemma FindPiece(ts: seq<string>, key: string, k: nat)
    requires 0 < k < |ts| - 1 && AllQuoteFree(ts) && QuoteFree(key)
    requires ts[k] == key && forall j | 1 <= j < k :: ts[j] != key
    ensures Find(Join(ts), Quoted(key), 0) == |Join(ts[..k])|
    ensures Join(ts) == Join(ts[..k]) + (Quoted(key) + Join(ts[k + 1..]))
  {
    var s, p := Join(ts), |Join(ts[..k])|;
    JoinAt(ts, k);
    assert ts[k..][1..] == ts[k + 1..];
    assert s == Join(ts[..k]) + (Quoted(key) + Join(ts[k + 1..]));
    assert MatchAt(s, Quoted(key), p);
    forall q: nat | q < p
      ensures !MatchAt(s, Quoted(key), q)
    {
      assert [] + s == s;
      NoMatchBefore([], ts, key, k, q);
    }
    FindUnique(s, Quoted(key), 0, p);
  }

  // ----- Printing ---------------------------------------------------------------------

  /** The whitespace JSON allows between tokens. */
  const BLANKS := {' ', '\t', '\n', '\r'}

  ghost predicate Blank(s: string) {
    forall i | 0 <= i < |s| :: s[i] in BLANKS
  }

  /** A string, an integer, or any other value without quotes as it is written: 2.5, true, null. */
  datatype Value = Str(text: string) | Num(n: int) | Raw(text: string)

  /** Whitespace before the key, before and behind the colon, and behind the value. */
  datatype Gap = Gap(key: string, colon: string, value: string, end: string)

  const TIGHT := Gap("", "", "", "")

  datatype Field = Field(key: string, value: Value, gap: Gap)

  function ValueText(v: Value): (s: string)
    ensures v.Raw? || |s| > 0
  {
    match v
    case Str(t) => Quoted(t)
    case Num(n) => IntText(n)
    case Raw(t) => t
  }

  /** What comes behind the key's closing quote. */
  function KeyTail(f: Field): string {
    f.gap.colon + (":" + (f.gap.value + (ValueText(f.value) + f.gap.end)))
  }

  function FieldText(f: Field): string {
    f.gap.key + (Quoted(f.key) + KeyTail(f))
  }

  /** What separates field 0 of `fields` from the next one. */
  function Sep(fields: seq<Field>): string {
    if |fields| <= 1 then "" else ","
  }

  /** Fields and the closing brace. */
  function FieldsText(fields: seq<Field>): string {
    if fields == [] then "}" else FieldText(fields[0]) + (Sep(fields) + FieldsText(fields[1..]))
  }

  function ObjectText(fields: seq<Field>): string {
    "{" + FieldsText(fields)
  }

  // ----- The printed text cut at its quotes ---------------------------------------------

  /** The pieces a field contributes when `lead` comes before it. */
  function Head(lead: string, f: Field): seq<string> {
    match f.value
    case Str(t) => [lead + f.gap.key] + ([f.key] + ([f.gap.colon + (":" + f.gap.value)] + [t]))
    case _ => [lead + f.gap.key] + [f.key]
  }

  /** What comes between the field's last quote and the next field. */
  function NextLead(f: Field, sep: string): string {
    match f.value
    case Str(_) => f.gap.end + sep
    case _ => KeyTail(f) + sep
  }

  /** The text `lead + FieldsText(fields)` cut at its quotes. */
  function Pieces(lead: string, fields: seq<Field>): (ts: seq<string>)
    ensures |ts| > 0
    decreases |fields|
  {
    if fields == [] then [lead + "}"]
    else Head(lead, fields[0]) + Pieces(NextLead(fields[0], Sep(fields)), fields[1..])
  }

  lemma HeadJoin(lead: string, f: Field, sep: string, us: seq<string>, tail: string)
    requires |us| > 0 && Join(us) == NextLead(f, sep) + tail
    ensures Join(Head(lead, f) + us) == lead + (FieldText(f) + (sep + tail))
  {
    match f.value
    case Str(t) =>
      JoinFour(lead + f.gap.key, f.key, f.gap.colon + (":" + f.gap.value), t, us);
      StrFieldText(lead, f.gap, f.key, t, sep, tail);
    case _ =>
      JoinTwo(lead + f.gap.key, f.key, us);
      PlainFieldText(lead, f.gap.key, f.key, KeyTail(f), sep, tail);
  }

  lemma JoinTwo(a: string, b: string, us: seq<string>)
    requires |us| > 0
    ensures Join([a] + [b] + us) == a + ("\"" + (b + ("\"" + Join(us))))
  {
    ConcatAssoc([a], [b], us);
    JoinCons(b, us);
    JoinCons(a, [b] + us);
  }

  lemma JoinFour(a: string, b: string, c: string, d: string, us: seq<string>)
    requires |us| > 0
    ensures Join([a] + ([b] + ([c] + [d])) + us) ==
            a + ("\"" + (b + ("\"" + (c + ("\"" + (d + ("\"" + Join(us))))))))
  {
    assert [a] + ([b] + ([c] + [d])) + us == [a] + [b] + ([c] + [d] + us);
    JoinTwo(c, d, us);
    JoinTwo(a, b, [c] + [d] + us);
  }

  lemma StrFieldText(lead: string, g: Gap, key: string, t: string, sep: string, tail: string)
    ensures var q: string := "\"";
            lead + g.key + (q + (key + (q + (g.colon + (":" + g.value) + (q + (t + (q + (g.end + sep + tail)))))))) ==
            lead + (g.key + (Quoted(key) + (g.colon + (":" + (g.value + (Quoted(t) + g.end))))) + (sep + tail))
  {
    var q: string, w := "\"", g.end + (sep + tail);
    ConcatAssoc(g.end, sep, tail);
    QuotedThen(t, w);
    var v := Quoted(t) + w;
    ConcatAssoc(":", g.value, v);
    ConcatAssoc(g.colon, ":" + g.value, v);
    var r := g.colon + (":" + (g.value + v));
    QuotedThen(key, r);
    ConcatAssoc(lead, g.key, Quoted(key) + r);
    ConcatAssoc(Quoted(t), g.end, sep + tail);
    ConcatAssoc(g.value, Quoted(t) + g.end, sep + tail);
    ConcatAssoc(":", g.value + (Quoted(t) + g.end), sep + tail);
    ConcatAssoc(g.colon, ":" + (g.value + (Quoted(t) + g.end)), sep + tail);
    ConcatAssoc(Quoted(key), g.colon + (":" + (g.value + (Quoted(t) + g.end))), sep + tail);
    ConcatAssoc(g.key, Quoted(key) + (g.colon + (":" + (g.value + (Quoted(t) + g.end)))), sep + tail);
  }

  lemma QuotedThen(t: string, w: string)
    ensures Quoted(t) + w == "\"" + (t + ("\"" + w))
  {
  }

  lemma PlainFieldText(lead: string, before: string, key: string, r: string, sep: string, tail: string)
    ensures lead + before + ("\"" + (key + ("\"" + (r + sep + tail)))) ==
            lead + (before + (Quoted(key) + r) + (sep + tail))
  {
    ConcatAssoc(r, sep, tail);
    QuotedThen(key, r + (sep + tail));
    ConcatAssoc(lead, before, Quoted(key) + (r + (sep + tail)));
    ConcatAssoc(Quoted(key), r, sep + tail);
    ConcatAssoc(before, Quoted(key) + r, sep + tail);
  }

  lemma {:induction false} PiecesJoin(lead: string, fields: seq<Field>)
    ensures Join(Pieces(lead, fields)) == lead + FieldsText(fields)
    decreases |fields|
  {
    if fields != [] {
      var f, rest, sep := fields[0], fields[1..], Sep(fields);
      var l := NextLead(f, sep);
      PiecesJoin(l, rest);
      HeadJoin(lead, f, sep, Pieces(l, rest), FieldsText(rest));
    }
  }

  /** Characters that never occur in a key the receiver looks for. */
  predicate Separator(c: char) { c == '"' || c == ':' || c == ',' }

  ghost predicate PlainKey(key: string) {
    forall i | 0 <= i < |key| :: !Separator(key[i])
  }

  ghost predicate GapOk(g: Gap) { Blank(g.key) && Blank(g.colon) && Blank(g.value) && Blank(g.end) }

  ghost predicate ValueOk(v: Value) {
    match v
    case Str(t) => QuoteFree(t)
    case Num(_) => true
    case Raw(t) => t != "" && QuoteFree(t)
  }

  ghost predicate FieldOk(f: Field) { QuoteFree(f.key) && ValueOk(f.value) && GapOk(f.gap) }

  ghost predicate FieldsOk(fields: seq<Field>) {
    forall k | 0 <= k < |fields| :: FieldOk(fields[k])
  }

  lemma FieldsOkTail(fields: seq<Field>)
    requires FieldsOk(fields) && fields != []
    ensures FieldOk(fields[0]) && FieldsOk(fields[1..])
  {
    forall k | 0 <= k < |fields| - 1
      ensures FieldOk(fields[1..][k])
    {
      assert fields[1..][k] == fields[k + 1];
    }
  }

  /** `key` names field i only, and no string value before it is the same text. */
  ghost predicate KeyOf(fields: seq<Field>, key: string, i: nat) {
    && i < |fields| && fields[i].key == key
    && forall k | 0 <= k < i :: fields[k].key != key && fields[k].value != Str(key)
  }

  function KeyPiece(fields: seq<Field>, i: nat): nat
    requires i < |fields|
  {
    if i == 0 then 1 else |Head("", fields[0])| + KeyPiece(fields[1..], i - 1)
  }

  lemma NumberQuoteFree(n: int)
    ensures QuoteFree(IntText(n))
  {
  }

  lemma QuoteFreeJoin(a: string, b: string)
    requires QuoteFree(a) && QuoteFree(b)
    ensures QuoteFree(a + b)
  {
  }

  lemma KeyTailQuoteFree(f: Field)
    requires FieldOk(f) && !f.value.Str?
    ensures QuoteFree(KeyTail(f))
  {
    var g, v := f.gap, ValueText(f.value);
    if f.value.Num? {
      NumberQuoteFree(f.value.n);
    }
    QuoteFreeJoin(v, g.end);
    QuoteFreeJoin(g.value, v + g.end);
    QuoteFreeJoin(":", g.value + (v + g.end));
    QuoteFreeJoin(g.colon, ":" + (g.value + (v + g.end)));
  }

  lemma HeadQuoteFree(lead: string, f: Field, sep: string)
    requires QuoteFree(lead) && FieldOk(f) && QuoteFree(sep)
    ensures AllQuoteFree(Head(lead, f)) && QuoteFree(NextLead(f, sep))
  {
    QuoteFreeJoin(lead, f.gap.key);
    match f.value
    case Str(t) =>
      QuoteFreeJoin(":", f.gap.value);
      QuoteFreeJoin(f.gap.colon, ":" + f.gap.value);
      QuoteFreeJoin(f.gap.end, sep);
    case _ =>
      KeyTailQuoteFree(f);
      QuoteFreeJoin(KeyTail(f), sep);
  }

  lemma {:induction false} PiecesQuoteFree(lead: string, fields: seq<Field>)
    requires QuoteFree(lead) && FieldsOk(fields)
    ensures AllQuoteFree(Pieces(lead, fields))
    decreases |fields|
  {
    if fields == [] {
      QuoteFreeJoin(lead, "}");
    } else {
      var f, l := fields[0], NextLead(fields[0], Sep(fields));
      FieldsOkTail(fields);
      HeadQuoteFree(lead, f, Sep(fields));
      PiecesQuoteFree(l, fields[1..]);
      AllQuoteFreeJoin(Head(lead, f), Pieces(l, fields[1..]));
    }
  }

  lemma AllQuoteFreeJoin(h: seq<string>, us: seq<string>)
    requires AllQuoteFree(h) && AllQuoteFree(us)
    ensures AllQuoteFree(h + us)
  {
    forall k | 0 <= k < |h + us|
      ensures QuoteFree((h + us)[k])
    {
      assert (h + us)[k] == if k < |h| then h[k] else us[k - |h|];
    }
  }

  ghost predicate HasSeparator(s: string) {
    exists i | 0 <= i < |s| :: Separator(s[i])
  }

  lemma NotSeparated(s: string, key: string)
    requires PlainKey(key) && HasSeparator(s)
    ensures s != key
  {
  }

  lemma SeparatorWithin(a: string, s: string, b: string)
    requires s != "" && Separator(s[0])
    ensures HasSeparator(a + (s + b)) && HasSeparator((a + s) + b)
  {
    assert (a + (s + b))[|a|] == s[0] && ((a + s) + b)[|a|] == s[0];
  }

  lemma HeadAvoids(lead: string, f: Field, key: string)
    requires PlainKey(key) && f.key != key && f.value != Str(key)
    ensures forall j | 1 <= j < |Head(lead, f)| :: Head(lead, f)[j] != key
  {
    SeparatorWithin(f.gap.colon, ":", f.gap.value);
    NotSeparated(f.gap.colon + (":" + f.gap.value), key);
  }

  /** What leads from one field to the next is never the key. */
  lemma LeadAvoids(f: Field, rest: seq<Field>, key: string)
    requires PlainKey(key) && rest != []
    ensures Pieces(NextLead(f, Sep([f] + rest)), rest)[0] != key
  {
    var l, g := NextLead(f, ","), rest[0].gap.key;
    match f.value
    case Str(_) =>
      SeparatorWithin(f.gap.end, ",", g);
    case _ =>
      var after := f.gap.value + (ValueText(f.value) + f.gap.end);
      ConcatAssoc(KeyTail(f), ",", g);
      ConcatAssoc(f.gap.colon, ":" + after, "," + g);
      ConcatAssoc(":", after, "," + g);
      SeparatorWithin(f.gap.colon, ":", after + ("," + g));
    NotSeparated(l + g, key);
  }

  /** Piece k is the first piece between two quotes that is the key. */
  ghost predicate FirstAt(ts: seq<string>, key: string, k: nat) {
    && 0 < k < |ts| - 1 && ts[k] == key
    && (forall j | 1 <= j < k :: ts[j] != key)
  }

  /** The piece of key i is the first piece equal to it; behind it come colon, value and the rest. */
  lemma {:induction false} PiecesAvoid(lead: string, fields: seq<Field>, key: string, i: nat)
    requires PlainKey(key) && KeyOf(fields, key, i)
    ensures FirstAt(Pieces(lead, fields), key, KeyPiece(fields, i))
    decreases |fields|
  {
    var l := NextLead(fields[0], Sep(fields));
    var h, us := Head(lead, fields[0]), Pieces(l, fields[1..]);
    if i == 0 {
      assert (h + us)[1] == h[1] == key;
    } else {
      KeyOfTail(fields, key, i);
      PiecesAvoid(l, fields[1..], key, i - 1);
      LaterPieceAvoids(lead, fields, key, i);
    }
  }

  lemma LaterPieceAvoids(lead: string, fields: seq<Field>, key: string, i: nat)
    requires PlainKey(key) && KeyOf(fields, key, i) && i > 0
    requires FirstAt(Pieces(NextLead(fields[0], Sep(fields)), fields[1..]), key, KeyPiece(fields[1..], i - 1))
    ensures FirstAt(Pieces(lead, fields), key, KeyPiece(fields, i))
  {
    var us := Pieces(NextLead(fields[0], Sep(fields)), fields[1..]);
    NextLeadAvoids(fields, key);
    HeadAvoids(lead, fields[0], key);
    PrependAvoids(Head(lead, fields[0]), us, key, KeyPiece(fields[1..], i - 1));
  }

  lemma NextLeadAvoids(fields: seq<Field>, key: string)
    requires PlainKey(key) && |fields| > 1
    ensures Pieces(NextLead(fields[0], Sep(fields)), fields[1..])[0] != key
  {
    assert fields == [fields[0]] + fields[1..];
    LeadAvoids(fields[0], fields[1..], key);
  }

  lemma KeyOfTail(fields: seq<Field>, key: string, i: nat)
    requires i > 0 && KeyOf(fields, key, i)
    ensures KeyOf(fields[1..], key, i - 1)
  {
    forall k | 0 <= k < i - 1
      ensures fields[1..][k].key != key && fields[1..][k].value != Str(key)
    {
      assert fields[1..][k] == fields[k + 1];
    }
  }

  lemma PrependAvoids(h: seq<string>, us: seq<string>, key: string, k: nat)
    requires FirstAt(us, key, k) && us[0] != key
    requires |h| > 0 && forall j | 1 <= j < |h| :: h[j] != key
    ensures FirstAt(h + us, key, |h| + k)
  {
    forall j | 1 <= j < |h| + k
      ensures (h + us)[j] != key
    {
      assert (h + us)[j] == if j < |h| then h[j] else us[j - |h|];
    }
  }

  /** What follows the value of field i. */
  function Behind(fields: seq<Field>, i: nat): string
    requires i < |fields|
  {
    fields[i].gap.end + (Sep(fields[i..]) + FieldsText(fields[i + 1..]))
  }

  /** What can follow a value: whitespace, a comma or the closing brace. */
  predicate EndsValue(c: char) { c in BLANKS || c == ',' || c == '}' }

  lemma BehindStart(fields: seq<Field>, i: nat)
    requires i < |fields| && FieldsOk(fields)
    ensures Behind(fields, i) != [] && EndsValue(Behind(fields, i)[0])
  {
    var end := fields[i].gap.end;
    assert FieldOk(fields[i]);
    if i + 1 == |fields| {
      assert fields[i + 1..] == [] && |fields[i..]| == 1;
      assert Behind(fields, i) == end + ("" + "}");
    }
    if end != [] {
      assert Behind(fields, i)[0] == end[0];
    }
  }

  /** Behind piece k of `ts` come the field's colon and value, then `behind`. */
  ghost predicate Continues(ts: seq<string>, k: nat, f: Field, behind: string) {
    && k + 1 < |ts|
    && Join(ts[k + 1..]) == f.gap.colon + (":" + (f.gap.value + (ValueText(f.value) + behind)))
  }

  /** The pieces of the fields from i on come behind those of the earlier ones. */
  lemma {:induction false} PiecesFrom(lead: string, fields: seq<Field>, i: nat) returns (first: seq<string>, l: string)
    requires i < |fields|
    ensures Pieces(lead, fields) == first + Pieces(l, fields[i..])
    ensures |first| + 1 == KeyPiece(fields, i)
    decreases |fields|
  {
    if i == 0 {
      first, l := [], lead;
      assert fields[0..] == fields && [] + Pieces(lead, fields) == Pieces(lead, fields);
    } else {
      first, l := PiecesFrom(NextLead(fields[0], Sep(fields)), fields[1..], i - 1);
      assert fields[1..][i - 1..] == fields[i..];
      ConcatAssoc(Head(lead, fields[0]), first, Pieces(l, fields[i..]));
      first := Head(lead, fields[0]) + first;
    }
  }

  lemma PiecesBehind(lead: string, fields: seq<Field>, i: nat)
    requires i < |fields|
    ensures Continues(Pieces(lead, fields), KeyPiece(fields, i), fields[i], Behind(fields, i))
  {
    var first, l := PiecesFrom(lead, fields, i);
    var later := fields[i..];
    BehindFrom(fields, i, later);
    FirstPieceBehind(l, later);
    LaterContinues(first, Pieces(l, later), 1, fields[i], Behind(fields, i));
  }

  lemma FirstPieceBehind(lead: string, fields: seq<Field>)
    requires fields != []
    ensures Continues(Pieces(lead, fields), 1, fields[0], Behind(fields, 0))
  {
    var f, rest, sep := fields[0], fields[1..], Sep(fields);
    var l := NextLead(f, sep);
    PiecesJoin(l, rest);
    FirstBehind(Head(lead, f), lead, f, sep, Pieces(l, rest), FieldsText(rest));
    assert fields[0..] == fields;
  }

  lemma LaterContinues(h: seq<string>, us: seq<string>, k: nat, f: Field, behind: string)
    requires Continues(us, k, f, behind)
    ensures Continues(h + us, |h| + k, f, behind)
  {
    DropHead(h, us, k + 1);
  }

  lemma BehindFrom(fields: seq<Field>, i: nat, later: seq<Field>)
    requires i < |fields| && later == fields[i..]
    ensures later != [] && later[0] == fields[i] && Behind(later, 0) == Behind(fields, i)
  {
    assert later[0..] == later && later[1..] == fields[i + 1..];
  }

  lemma DropHead(h: seq<string>, us: seq<string>, n: nat)
    requires n <= |us|
    ensures (h + us)[|h| + n..] == us[n..]
  {
  }

  lemma FirstBehind(h: seq<string>, lead: string, f: Field, sep: string, us: seq<string>, tail: string)
    requires h == Head(lead, f)
    requires |us| > 0 && Join(us) == NextLead(f, sep) + tail
    ensures Join((h + us)[2..]) ==
            f.gap.colon + (":" + (f.gap.value + (ValueText(f.value) + (f.gap.end + (sep + tail)))))
  {
    match f.value
    case Str(t) =>
      FirstStrBehind(h[..2], f.gap.colon + (":" + f.gap.value), t, us);
      assert h == h[..2] + ([f.gap.colon + (":" + f.gap.value)] + [t]);
      ConcatAssoc(f.gap.end, sep, tail);
      StrBehind(f.gap, t, f.gap.end + (sep + tail));
    case _ =>
      assert (h + us)[2..] == us;
      PlainBehind(f, sep, tail);
  }

  lemma FirstStrBehind(two: seq<string>, c: string, t: string, us: seq<string>)
    requires |two| == 2 && |us| > 0
    ensures Join((two + ([c] + [t]) + us)[2..]) == c + ("\"" + (t + ("\"" + Join(us))))
  {
    ConcatAssoc(two, [c] + [t], us);
    ConcatAssoc([c], [t], us);
    DropHead(two, [c] + ([t] + us), 0);
    assert ([c] + ([t] + us))[0..] == [c] + ([t] + us);
    JoinCons(t, us);
    JoinCons(c, [t] + us);
  }

  lemma StrBehind(g: Gap, t: string, w: string)
    ensures g.colon + (":" + g.value) + ("\"" + (t + ("\"" + w))) == g.colon + (":" + (g.value + (Quoted(t) + w)))
  {
    QuotedThen(t, w);
    ConcatAssoc(g.colon, ":" + g.value, Quoted(t) + w);
    ConcatAssoc(":", g.value, Quoted(t) + w);
  }

  lemma PlainBehind(f: Field, sep: string, tail: string)
    ensures KeyTail(f) + sep + tail ==
            f.gap.colon + (":" + (f.gap.value + (ValueText(f.value) + (f.gap.end + (sep + tail)))))
  {
    var g, v := f.gap, ValueText(f.value);
    ConcatAssoc(KeyTail(f), sep, tail);
    ConcatAssoc(g.colon, ":" + (g.value + (v + g.end)), sep + tail);
    ConcatAssoc(":", g.value + (v + g.end), sep + tail);
    ConcatAssoc(g.value, v + g.end, sep + tail);
    ConcatAssoc(v, g.end, sep + tail);
  }

  /**
  In a flat object, with any whitespace between its tokens, the search for `key`
  ends at the value of the first field with that key, whatever the other fields
  hold.
  */
  lemma ValueFound(fields: seq<Field>, key: string, i: nat, spaces: set<char>) returns (before: string)
    requires FieldsOk(fields) && PlainKey(key) && KeyOf(fields, key, i)
    requires BLANKS <= spaces && '"' !in spaces && ValueText(fields[i].value) != "" &&
             ValueText(fields[i].value)[0] !in spaces
    ensures ObjectText(fields) == before + (ValueText(fields[i].value) + Behind(fields, i))
    ensures ValueStart(ObjectText(fields), key, spaces) == |before|
  {
    var ts, k := Pieces("{", fields), KeyPiece(fields, i);
    PiecesJoin("{", fields);
    PiecesQuoteFree("{", fields);
    PiecesAvoid("{", fields, key, i);
    FindPiece(ts, key, k);
    PiecesBehind("{", fields, i);
    assert FieldOk(fields[i]);
    var v := ValueText(fields[i].value) + Behind(fields, i);
    before := ValueAfter(Join(ts), Join(ts[..k]), key, fields[i].gap.colon, fields[i].gap.value, v, spaces);
  }

  lemma ValueAfter(s: string, a: string, key: string, colon: string, gap: string, v: string, spaces: set<char>)
    returns (before: string)
    requires s == a + (Quoted(key) + (colon + (":" + (gap + v))))
    requires Find(s, Quoted(key), 0) == |a|
    requires Blank(colon) && Blank(gap) && BLANKS <= spaces
    requires v != [] && v[0] !in spaces
    ensures s == before + v && ValueStart(s, key, spaces) == |before|
  {
    var q := Quoted(key);
    before := BehindQuoted(s, a, q, colon, gap, v, spaces);
    StartIs(s, key, |a|, |a| + |q| + |colon|, |before|, spaces);
  }

  lemma BehindQuoted(s: string, a: string, q: string, colon: string, gap: string, v: string, spaces: set<char>)
    returns (before: string)
    requires s == a + (q + (colon + (":" + (gap + v))))
    requires Blank(colon) && Blank(gap) && BLANKS <= spaces
    requires v != [] && v[0] !in spaces
    ensures s == before + v && Find(s, ":", |a| + |q|) == |a| + |q| + |colon|
    ensures SkipSpaces(s, |a| + |q| + |colon| + 1, spaces) == |before|
  {
    ConcatAssoc(a, q, colon + (":" + (gap + v)));
    before := BehindKey(s, a + q, colon, gap, v, spaces);
    assert |a + q| == |a| + |q|;
  }

  lemma StartIs(s: string, key: string, q: nat, c: nat, e: nat, spaces: set<char>)
    requires Find(s, Quoted(key), 0) == q && Find(s, ":", q + |Quoted(key)|) == c
    requires SkipSpaces(s, c + 1, spaces) == e
    ensures ValueStart(s, key, spaces) == e
  {
  }

  lemma BehindKey(s: string, b: string, colon: string, gap: string, v: string, spaces: set<char>)
    returns (before: string)
    requires s == b + (colon + (":" + (gap + v)))
    requires Blank(colon) && Blank(gap) && BLANKS <= spaces
    requires v != [] && v[0] !in spaces
    ensures s == before + v && Find(s, ":", |b|) == |b| + |colon|
    ensures SkipSpaces(s, |b| + |colon| + 1, spaces) == |before|
  {
    ColonFound(s, b, colon, gap + v);
    AfterColon(b, colon, gap + v);
    before := BehindColon(s, (b + colon) + ":", gap, v, spaces);
  }

  lemma BehindColon(s: string, c: string, gap: string, v: string, spaces: set<char>) returns (before: string)
    requires s == c + (gap + v) && Blank(gap) && BLANKS <= spaces
    requires v != [] && v[0] !in spaces
    ensures s == before + v && SkipSpaces(s, |c|, spaces) == |before|
  {
    SpacesSkipped(s, c, gap, v, spaces);
    ConcatAssoc(c, gap, v);
    before := c + gap;
  }

  lemma AfterColon(b: string, colon: string, w: string)
    ensures b + (colon + (":" + w)) == (b + colon + ":") + w
  {
    ConcatAssoc(b, colon, ":" + w);
    ConcatAssoc(b + colon, ":", w);
  }

  /** Whitespace does not hide the colon behind a key. */
  lemma ColonFound(s: string, b: string, colon: string, w: string)
    requires s == b + (colon + (":" + w)) && Blank(colon)
    ensures Find(s, ":", |b|) == |b| + |colon|
  {
    var p := |b| + |colon|;
    assert s[p] == ':';
    assert s[p..p + 1] == ":";
    forall q: nat | |b| <= q < p
      ensures !MatchAt(s, ":", q)
    {
      assert s[q] == colon[q - |b|];
      assert s[q..q + 1][0] == s[q];
    }
    FindUnique(s, ":", |b|, p);
  }

  lemma SpacesSkipped(s: string, c: string, gap: string, v: string, spaces: set<char>)
    requires s == c + (gap + v) && Blank(gap) && BLANKS <= spaces
    requires v != [] && v[0] !in spaces
    ensures SkipSpaces(s, |c|, spaces) == |c| + |gap|
  {
    var e := |c| + |gap|;
    forall i | |c| <= i < e
      ensures s[i] in spaces
    {
      assert s[i] == gap[i - |c|];
    }
    assert s[e] == v[0];
    SkipsSpaces(s, |c|, e, spaces);
  }
}
