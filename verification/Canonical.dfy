/** The canonical bytes of an audit row: ten fields and the previous tag, joined with '|'. */
module Canonical {
  import opened Bytes
  import opened GoText
  import Json

  type Tag = seq<Byte>

  /** 32 zero bytes, the tag before the first row. */
  const GENESIS: Tag := [0, 0, 0, 0, 0, 0, 0, 0, 0, 0, 0, 0, 0, 0, 0, 0, 0, 0, 0, 0, 0, 0, 0, 0, 0, 0, 0, 0, 0, 0, 0, 0]

  lemma GenesisIsZeros()
    ensures |GENESIS| == 32 && forall i :: 0 <= i < 32 ==> GENESIS[i] == 0
  {
  }

  /** What an entry says. The two payloads are JSON texts in the canonical bytes, nullable columns in a
      row, and values in a call of Log. */
  datatype Content<+P> = Content(
    ts: int, actor: string, actorKind: string, sourceIp: string, action: string, resource: string,
    before: P, after: P, jobId: string, result: string)
  {
    /** The same entry with other payloads. */
    function With<Q>(b: Q, a: Q): Content<Q> {
      Content(ts, actor, actorKind, sourceIp, action, resource, b, a, jobId, result)
    }
  }

  function HexByte(b: Byte): (s: string)
    ensures |s| == 2
  {
    [Json.HexDigit(b / 16), Json.HexDigit(b % 16)]
  }

  /** hex.EncodeToString */
  function Hex(bytes: seq<Byte>): (s: string)
    ensures |s| == 2 * |bytes|
  {
    if bytes == [] then "" else HexByte(bytes[0]) + Hex(bytes[1..])
  }

  /** The fields with a '|' between each two. */
  function Join(fields: seq<string>): string
    requires fields != []
  {
    if |fields| == 1 then fields[0] else fields[0] + "|" + Join(fields[1..])
  }

  /** The eleven values that canonicalize formats. */
  function Formatted(c: Content<string>, prev: Tag): (fields: seq<string>)
    ensures |fields| == 11
  {
    [Decimal(c.ts), c.actor, c.actorKind, c.sourceIp, c.action, c.resource, c.before, c.after, c.jobId, c.result, Hex(prev)]
  }

  /** canonicalize, on the payloads as JSON texts. */
  function Canonicalize(c: Content<string>, prev: Tag): string {
    Join(Formatted(c, prev))
  }

  /** The format of canonicalize, field by field: decimal time, the texts as they are, and the previous
      tag in hexadecimal, with a bar between each two. */
  lemma CanonicalText(c: Content<string>, prev: Tag)
    ensures Canonicalize(c, prev) ==
      Decimal(c.ts) + "|" + (c.actor + "|" + (c.actorKind + "|" + (c.sourceIp + "|" + (c.action + "|" + (c.resource + "|"
      + (c.before + "|" + (c.after + "|" + (c.jobId + "|" + (c.result + "|" + Hex(prev))))))))))
  {
    var f := Formatted(c, prev);
    assert f[10..] == [Hex(prev)];
    assert Join(f[9..]) == c.result + "|" + Join(f[10..]) by { assert f[9..][1..] == f[10..]; }
    assert Join(f[8..]) == c.jobId + "|" + Join(f[9..]) by { assert f[8..][1..] == f[9..]; }
    assert Join(f[7..]) == c.after + "|" + Join(f[8..]) by { assert f[7..][1..] == f[8..]; }
    assert Join(f[6..]) == c.before + "|" + Join(f[7..]) by { assert f[6..][1..] == f[7..]; }
    assert Join(f[5..]) == c.resource + "|" + Join(f[6..]) by { assert f[5..][1..] == f[6..]; }
    assert Join(f[4..]) == c.action + "|" + Join(f[5..]) by { assert f[4..][1..] == f[5..]; }
    assert Join(f[3..]) == c.sourceIp + "|" + Join(f[4..]) by { assert f[3..][1..] == f[4..]; }
    assert Join(f[2..]) == c.actorKind + "|" + Join(f[3..]) by { assert f[2..][1..] == f[3..]; }
    assert Join(f[1..]) == c.actor + "|" + Join(f[2..]) by { assert f[1..][1..] == f[2..]; }
  }

  /** Two lower-case digits for each byte, the high one first. */
  lemma {:induction false} HexDigits(bytes: seq<Byte>, i: nat)
    requires i < |bytes|
    ensures Hex(bytes)[2 * i] == "0123456789abcdef"[bytes[i] / 16] && Hex(bytes)[2 * i + 1] == "0123456789abcdef"[bytes[i] % 16]
  {
    Json.HexDigitIs(bytes[i] / 16);
    Json.HexDigitIs(bytes[i] % 16);
    if i > 0 {
      HexDigits(bytes[1..], i - 1);
      assert Hex(bytes)[2..] == Hex(bytes[1..]);
      assert Hex(bytes)[2 * i] == Hex(bytes)[2..][2 * (i - 1)] && Hex(bytes)[2 * i + 1] == Hex(bytes)[2..][2 * (i - 1) + 1];
    }
  }

  predicate NoBar(s: string) {
    '|' !in s
  }

  /** The CHECK constraint on actor_kind. */
  predicate ValidKind(kind: string) {
    kind == "operator" || kind == "token" || kind == "system"
  }

  /** The CHECK constraint on result. */
  predicate ValidResult(result: string) {
    result == "ok" || result == "denied" || result == "error"
  }

  // ---- What the bytes determine ----

  lemma {:induction false} HexNoBar(bytes: seq<Byte>)
    ensures NoBar(Hex(bytes))
  {
    if bytes != [] {
      HexNoBar(bytes[1..]);
    }
  }

  lemma HexByteInjective(a: Byte, b: Byte)
    requires HexByte(a) == HexByte(b)
    ensures a == b
  {
  }

  lemma {:induction false} HexInjective(a: seq<Byte>, b: seq<Byte>)
    requires Hex(a) == Hex(b)
    ensures a == b
  {
    if a != [] {
      assert Hex(a)[..2] == HexByte(a[0]) && Hex(b)[..2] == HexByte(b[0]);
      assert Hex(a)[2..] == Hex(a[1..]) && Hex(b)[2..] == Hex(b[1..]);
      HexByteInjective(a[0], b[0]);
      HexInjective(a[1..], b[1..]);
      assert a == [a[0]] + a[1..] && b == [b[0]] + b[1..];
    }
  }

  /** A field without '|' ends where the first '|' is. */
  lemma CutFirst(a: string, b: string, x: string, y: string)
    requires NoBar(a) && NoBar(b) && a + "|" + x == b + "|" + y
    ensures a == b && x == y
  {
    var s := a + "|" + x;
    assert s[|a|] == '|' && s[|b|] == '|';
    assert forall i :: 0 <= i < |a| ==> s[i] == a[i] && s[i] != '|';
    assert forall i :: 0 <= i < |b| ==> s[i] == b[i] && s[i] != '|';
    assert |a| == |b|;
    assert s[..|a|] == a && s[..|b|] == b;
    assert s[|a| + 1..] == x && s[|b| + 1..] == y;
  }

  /** A field without '|' at the end begins after the last '|'. */
  lemma CutLast(x: string, y: string, a: string, b: string)
    requires NoBar(a) && NoBar(b) && x + "|" + a == y + "|" + b
    ensures a == b && x == y
  {
    var s := x + "|" + a;
    assert s[|x|] == '|' && s[|y|] == '|';
    assert forall i :: |x| < i < |s| ==> s[i] == a[i - |x| - 1] && s[i] != '|';
    assert forall i :: |y| < i < |s| ==> s[i] == b[i - |y| - 1] && s[i] != '|';
    assert |x| == |y|;
    assert s[|x| + 1..] == a && s[|y| + 1..] == b;
    assert s[..|x|] == x && s[..|y|] == y;
  }

  lemma {:induction false} JoinLast(fields: seq<string>)
    requires |fields| > 1
    ensures Join(fields) == Join(fields[..|fields| - 1]) + "|" + fields[|fields| - 1]
  {
    var init := fields[..|fields| - 1];
    if |fields| > 2 {
      JoinLast(fields[1..]);
      assert fields[1..][..|fields| - 2] == init[1..];
    }
  }

  /** Whatever the fields hold, the canonical bytes determine the previous tag. */
  lemma CanonicalFixesPrev(c: Content<string>, d: Content<string>, p: Tag, q: Tag)
    requires Canonicalize(c, p) == Canonicalize(d, q)
    ensures p == q
  {
    HexNoBar(p);
    HexNoBar(q);
    JoinLast(Formatted(c, p));
    JoinLast(Formatted(d, q));
    CutLast(Join(Formatted(c, p)[..10]), Join(Formatted(d, q)[..10]), Hex(p), Hex(q));
    HexInjective(p, q);
  }

  /** The first n fields, when they hold no '|', are determined; and so is the rest of the text. */
  lemma {:induction false} JoinCut(a: seq<string>, b: seq<string>, n: nat)
    requires n < |a| && n < |b| && Join(a) == Join(b)
    requires forall i :: 0 <= i < n ==> NoBar(a[i]) && NoBar(b[i])
    ensures a[..n] == b[..n] && Join(a[n..]) == Join(b[n..])
  {
    if n == 0 {
      assert a[0..] == a && b[0..] == b;
    } else {
      CutFirst(a[0], b[0], Join(a[1..]), Join(b[1..]));
      JoinCut(a[1..], b[1..], n - 1);
      assert a[1..][n - 1..] == a[n..] && b[1..][n - 1..] == b[n..];
      assert a[..n] == [a[0]] + a[1..][..n - 1] && b[..n] == [b[0]] + b[1..][..n - 1];
    }
  }

  /** The JSON texts delimit themselves, even when they contain '|'. */
  lemma CutJson(u: Json.Json, v: Json.Json, x: string, y: string)
    requires Json.Marshal(u) + "|" + x == Json.Marshal(v) + "|" + y
    ensures u == v && x == y
  {
    hide Json.Marshal;
    assert Json.Marshal(u) + "|" + x == Json.Marshal(u) + ("|" + x);
    assert Json.Marshal(v) + "|" + y == Json.Marshal(v) + ("|" + y);
    Json.MarshalSelfDelimiting(u, v, "|" + x, "|" + y);
    assert ("|" + x)[1..] == x && ("|" + y)[1..] == y;
  }

  /** The five free fields hold no '|' and the two constrained fields are in their sets. */
  predicate PlainFields(c: Content<string>) {
    && NoBar(c.actor) && NoBar(c.sourceIp) && NoBar(c.action) && NoBar(c.resource) && NoBar(c.jobId)
    && ValidKind(c.actorKind) && ValidResult(c.result)
  }

  lemma DecimalNoBar(n: int)
    ensures NoBar(Decimal(n))
  {
  }

  lemma PlainHead(c: Content<string>, prev: Tag)
    requires PlainFields(c)
    ensures forall i :: 0 <= i < 6 ==> NoBar(Formatted(c, prev)[i])
    ensures forall i :: 8 <= i < 11 ==> NoBar(Formatted(c, prev)[i])
  {
    DecimalNoBar(c.ts);
    HexNoBar(prev);
  }

  lemma FormattedInjective(c: Content<string>, d: Content<string>, p: Tag, q: Tag)
    requires forall i :: 0 <= i < 10 ==> Formatted(c, p)[i] == Formatted(d, q)[i]
    ensures c == d
  {
    var f, g := Formatted(c, p), Formatted(d, q);
    assert f[0] == g[0] && f[1] == g[1] && f[2] == g[2] && f[3] == g[3] && f[4] == g[4];
    assert f[5] == g[5] && f[6] == g[6] && f[7] == g[7] && f[8] == g[8] && f[9] == g[9];
    DecimalInjective(c.ts, d.ts);
  }

  /** The texts from the first payload on determine both payloads. */
  lemma PayloadsDetermined(a: seq<string>, b: seq<string>, cb: Json.Json, ca: Json.Json, db: Json.Json, da: Json.Json)
    requires |a| > 2 && |b| > 2 && Join(a) == Join(b)
    requires a[0] == Json.Marshal(cb) && a[1] == Json.Marshal(ca) && b[0] == Json.Marshal(db) && b[1] == Json.Marshal(da)
    ensures cb == db && ca == da && Join(a[2..]) == Join(b[2..])
  {
    CutJson(cb, db, Join(a[1..]), Join(b[1..]));
    assert a[1..][1..] == a[2..] && b[1..][1..] == b[2..];
    CutJson(ca, da, Join(a[2..]), Join(b[2..]));
  }

  /** canonicalize is injective on rows whose free fields hold no '|': equal bytes mean that every
      field, both payloads and the previous tag are equal. */
  lemma CanonicalizeInjective(c: Content<string>, d: Content<string>, p: Tag, q: Tag, cb: Json.Json, ca: Json.Json, db: Json.Json, da: Json.Json)
    requires PlainFields(c) && PlainFields(d)
    requires c.before == Json.Marshal(cb) && c.after == Json.Marshal(ca)
    requires d.before == Json.Marshal(db) && d.after == Json.Marshal(da)
    requires Canonicalize(c, p) == Canonicalize(d, q)
    ensures c == d && p == q && cb == db && ca == da
  {
    var a, b := Formatted(c, p), Formatted(d, q);
    PlainHead(c, p);
    PlainHead(d, q);
    JoinCut(a, b, 6);
    var a6, b6 := a[6..], b[6..];
    PayloadsDetermined(a6, b6, cb, ca, db, da);
    assert a6[2..] == a[8..] && b6[2..] == b[8..];
    JoinCut(a[8..], b[8..], 2);
    forall i | 0 <= i < 10
      ensures a[i] == b[i]
    {
      if i < 6 {
        assert a[..6][i] == b[..6][i];
      } else if i < 8 {
        assert a6[i - 6] == b6[i - 6];
      } else {
        assert a[8..][..2][i - 8] == b[8..][..2][i - 8];
      }
    }
    FormattedInjective(c, d, p, q);
    CanonicalFixesPrev(c, d, p, q);
  }

  lemma {:induction false} JoinMerge(head: seq<string>, x: string, y: string, tail: seq<string>)
    ensures Join(head + [x, y] + tail) == Join(head + [x + "|" + y] + tail)
  {
    var s, t := head + [x, y] + tail, head + [x + "|" + y] + tail;
    if head == [] {
      assert s[1..] == [y] + tail && t[1..] == tail && ([y] + tail)[1..] == tail;
      if tail != [] {
        assert x + "|" + Join([y] + tail) == x + "|" + y + "|" + Join(tail);
      }
    } else {
      JoinMerge(head[1..], x, y, tail);
      assert s[1..] == head[1..] + [x, y] + tail && t[1..] == head[1..] + [x + "|" + y] + tail;
    }
  }

  // ---- Entries without bars ----

  function Bars(s: string): nat {
    multiset(s)['|']
  }

  function BarSum(fields: seq<string>): nat {
    if fields == [] then 0 else Bars(fields[0]) + BarSum(fields[1..])
  }

  lemma {:induction false} JoinBars(fields: seq<string>)
    requires fields != []
    ensures Bars(Join(fields)) == BarSum(fields) + |fields| - 1
  {
    if |fields| > 1 {
      JoinBars(fields[1..]);
    }
  }

  lemma {:induction false} BarSumZero(fields: seq<string>)
    ensures BarSum(fields) == 0 <==> forall i :: 0 <= i < |fields| ==> NoBar(fields[i])
  {
    if fields != [] {
      BarSumZero(fields[1..]);
      assert forall i :: 1 <= i < |fields| ==> fields[i] == fields[1..][i - 1];
    }
  }

  /** Nothing that canonicalize formats for the entry holds a '|', JSON texts included. */
  predicate NoBars(c: Content<string>) {
    && NoBar(c.actor) && NoBar(c.actorKind) && NoBar(c.sourceIp) && NoBar(c.action) && NoBar(c.resource)
    && NoBar(c.before) && NoBar(c.after) && NoBar(c.jobId) && NoBar(c.result)
  }

  lemma NoBarsFormatted(c: Content<string>, prev: Tag)
    ensures NoBars(c) <==> forall i :: 0 <= i < 11 ==> NoBar(Formatted(c, prev)[i])
  {
    DecimalNoBar(c.ts);
    HexNoBar(prev);
    var f := Formatted(c, prev);
    assert f[1] == c.actor && f[2] == c.actorKind && f[3] == c.sourceIp && f[4] == c.action && f[5] == c.resource;
    assert f[6] == c.before && f[7] == c.after && f[8] == c.jobId && f[9] == c.result;
  }

  /** The bytes of an entry without bars have no other reading: whatever the other entry holds, equal
      bytes mean the same entry and the same previous tag. */
  lemma NoBarsDetermined(c: Content<string>, d: Content<string>, p: Tag, q: Tag)
    requires NoBars(c) && Canonicalize(c, p) == Canonicalize(d, q)
    ensures c == d && p == q
  {
    var f, g := Formatted(c, p), Formatted(d, q);
    JoinBars(f);
    JoinBars(g);
    BarSumZero(f);
    BarSumZero(g);
    NoBarsFormatted(c, p);
    JoinCut(f, g, 10);
    forall i | 0 <= i < 10
      ensures f[i] == g[i]
    {
      assert f[..10][i] == g[..10][i];
    }
    FormattedInjective(c, d, p, q);
    CanonicalFixesPrev(c, d, p, q);
  }

  /** A bar moves from field i to the next one. */
  lemma MoveBarRight(fields: seq<string>, i: nat, x: string, y: string)
    requires i + 1 < |fields| && fields[i] == x + "|" + y
    ensures Join(fields[i := x][i + 1 := y + "|" + fields[i + 1]]) == Join(fields)
  {
    var head, next, tail := fields[..i], fields[i + 1], fields[i + 2..];
    JoinMerge(head, x, y, [next] + tail);
    JoinMerge(head + [x], y, next, tail);
    assert fields == head + [x + "|" + y] + ([next] + tail);
    assert head + [x, y] + ([next] + tail) == (head + [x]) + [y, next] + tail;
    assert fields[i := x][i + 1 := y + "|" + next] == (head + [x]) + [y + "|" + next] + tail;
  }

  /** A bar moves from field i to the one before. */
  lemma MoveBarLeft(fields: seq<string>, i: nat, x: string, y: string)
    requires 1 <= i < |fields| && fields[i] == x + "|" + y
    ensures Join(fields[i - 1 := fields[i - 1] + "|" + x][i := y]) == Join(fields)
  {
    var head, before, tail := fields[..i - 1], fields[i - 1], fields[i + 1..];
    JoinMerge(head + [before], x, y, tail);
    JoinMerge(head, before, x, [y] + tail);
    assert fields == (head + [before]) + [x + "|" + y] + tail;
    assert (head + [before]) + [x, y] + tail == head + [before, x] + ([y] + tail);
    assert fields[i - 1 := before + "|" + x][i := y] == head + [before + "|" + x] + ([y] + tail);
  }

  lemma SplitAtBar(s: string) returns (x: string, y: string)
    requires !NoBar(s)
    ensures s == x + "|" + y && |x| < |s| && |y| < |s|
  {
    var k :| 0 <= k < |s| && s[k] == '|';
    x, y := s[..k], s[k + 1..];
  }

  // ---- Exactly which entries the bytes determine among those that a log can hold ----

  /** What json.Marshal writes for some value of the kind `ok`. */
  ghost predicate TextOf(s: string, ok: Json.Json -> bool) {
    exists v: Json.Json :: ok(v) && s == Json.Marshal(v)
  }

  /** The constraints of the table admit the entry, and both payloads are texts that json.Marshal writes
      for values of the kind `ok`: any value when an entry is logged, one whose object members ascend
      when the verifier rebuilds it. */
  ghost predicate Formed(c: Content<string>, ok: Json.Json -> bool) {
    && ValidKind(c.actorKind) && ValidResult(c.result)
    && TextOf(c.before, ok) && TextOf(c.after, ok)
  }

  predicate HoldsKind(actor: string, a: string, kind: string, rest: string) {
    ValidKind(kind) && actor + "|" == a + "|" + (kind + "|" + rest)
  }

  /** A field of the actor's text, other than the first, is an actor kind. */
  ghost predicate KindInside(actor: string) {
    exists a, kind, rest :: HoldsKind(actor, a, kind, rest)
  }

  predicate HoldsPayloads(s: string, x: string, u: Json.Json, v: Json.Json, y: string) {
    s == x + "|" + (Json.Marshal(u) + "|" + (Json.Marshal(v) + "|" + y))
  }

  /** After a bar the text holds two JSON texts in a row, each ended by a bar. */
  ghost predicate Nested(s: string, ok: Json.Json -> bool) {
    exists x, u, v, y :: ok(u) && ok(v) && HoldsPayloads(s, x, u, v, y)
  }

  /** The payloads and the job id, as formatted. */
  function PayloadPart(c: Content<string>): string {
    c.before + "|" + (c.after + "|" + c.jobId)
  }

  /** The bytes have one reading only. */
  ghost predicate OneReading(c: Content<string>, ok: Json.Json -> bool) {
    && NoBar(c.sourceIp) && NoBar(c.action) && NoBar(c.resource)
    && !KindInside(c.actor) && !Nested(PayloadPart(c), ok)
  }

  lemma {:induction false} JoinConcat(a: seq<string>, b: seq<string>)
    requires a != [] && b != []
    ensures Join(a + b) == Join(a) + "|" + Join(b)
  {
    if |a| == 1 {
      assert (a + b)[1..] == b;
    } else {
      JoinConcat(a[1..], b);
      assert (a + b)[1..] == a[1..] + b;
    }
  }

  function Fields(c: Content<string>): seq<string> {
    [c.sourceIp, c.action, c.resource]
  }

  /** All that lies between the actor and the result. */
  function Middle(c: Content<string>): string {
    c.actor + "|" + (c.actorKind + "|" + (Join(Fields(c)) + "|" + PayloadPart(c)))
  }

  lemma JoinPrepend(w: string, g: seq<string>)
    requires g != []
    ensures Join([w] + g) == w + "|" + Join(g)
  {
    assert ([w] + g)[1..] == g;
  }

  lemma PayloadPartJoined(c: Content<string>)
    ensures Join([c.before, c.after, c.jobId]) == PayloadPart(c)
  {
    JoinPrepend(c.before, [c.after] + [c.jobId]);
    JoinPrepend(c.after, [c.jobId]);
    assert [c.before, c.after, c.jobId] == [c.before] + ([c.after] + [c.jobId]);
  }

  lemma MiddleJoined(c: Content<string>)
    ensures Join([c.actor, c.actorKind] + (Fields(c) + [c.before, c.after, c.jobId])) == Middle(c)
  {
    hide PayloadPart;
    var rest := Fields(c) + [c.before, c.after, c.jobId];
    JoinConcat(Fields(c), [c.before, c.after, c.jobId]);
    PayloadPartJoined(c);
    JoinPrepend(c.actor, [c.actorKind] + rest);
    JoinPrepend(c.actorKind, rest);
    assert [c.actor, c.actorKind] + rest == [c.actor] + ([c.actorKind] + rest);
  }

  lemma Layout(c: Content<string>, p: Tag)
    ensures Canonicalize(c, p) == Decimal(c.ts) + "|" + (Middle(c) + "|" + c.result + "|" + Hex(p))
  {
    hide Middle, Join, Decimal, Hex;
    var middle := [c.actor, c.actorKind] + (Fields(c) + [c.before, c.after, c.jobId]);
    MiddleJoined(c);
    assert Formatted(c, p) == [Decimal(c.ts)] + (middle + ([c.result] + [Hex(p)]));
    JoinPrepend(Decimal(c.ts), middle + ([c.result] + [Hex(p)]));
    JoinConcat(middle, [c.result] + [Hex(p)]);
    JoinPrepend(c.result, [Hex(p)]);
    JoinOne(Hex(p));
    assert Middle(c) + "|" + (c.result + "|" + Hex(p)) == Middle(c) + "|" + c.result + "|" + Hex(p);
  }

  lemma JoinOne(field: string)
    ensures Join([field]) == field
  {
  }

  lemma EndsDetermined(c: Content<string>, d: Content<string>, p: Tag, q: Tag)
    requires ValidResult(c.result) && ValidResult(d.result) && Canonicalize(c, p) == Canonicalize(d, q)
    ensures c.ts == d.ts && c.result == d.result && p == q && Middle(c) == Middle(d)
  {
    hide Middle, Canonicalize;
    Layout(c, p);
    Layout(d, q);
    DecimalNoBar(c.ts);
    DecimalNoBar(d.ts);
    HexNoBar(p);
    HexNoBar(q);
    CutFirst(Decimal(c.ts), Decimal(d.ts), Middle(c) + "|" + c.result + "|" + Hex(p), Middle(d) + "|" + d.result + "|" + Hex(q));
    CutLast(Middle(c) + "|" + c.result, Middle(d) + "|" + d.result, Hex(p), Hex(q));
    CutLast(Middle(c), Middle(d), c.result, d.result);
    DecimalInjective(c.ts, d.ts);
    HexInjective(p, q);
  }

  /** Plain fields in front of `s`, read as at least as many fields in front of `t`: they are the same, or
      `s` has lost a beginning to them. */
  lemma Absorbed(f: seq<string>, g: seq<string>, s: string, t: string) returns (x: string)
    requires 0 < |f| <= |g| && (forall i :: 0 <= i < |f| ==> NoBar(f[i]))
    requires Join(f) + "|" + s == Join(g) + "|" + t
    ensures (f == g && s == t) || s == x + "|" + t
  {
    hide Join, Bars;
    x := "";
    var a, b := Join(f), Join(g);
    JoinBars(f);
    JoinBars(g);
    BarSumZero(f);
    if |b| < |a| {
      var w := SplitPrefix(b, a, t, s);
      BarsConcat(b + "|", w);
      BarsConcat(b, "|");
      OneBar();
    } else if |b| == |a| {
      SamePrefix(a, b, s, t);
      BarSumZero(g);
      SameFields(f, g);
    } else {
      x := SplitPrefix(a, b, s, t);
    }
  }

  lemma BarsConcat(s: string, t: string)
    ensures Bars(s + t) == Bars(s) + Bars(t)
  {
  }

  lemma OneBar()
    ensures Bars("|") == 1
  {
  }

  lemma SameFields(f: seq<string>, g: seq<string>)
    requires 0 < |f| == |g| && Join(f) == Join(g)
    requires forall i :: 0 <= i < |f| ==> NoBar(f[i]) && NoBar(g[i])
    ensures f == g
  {
    var n := |f| - 1;
    JoinCut(f, g, n);
    assert f == f[..n] + [f[n]] && g == g[..n] + [g[n]];
    assert f[n..] == [f[n]] && g[n..] == [g[n]];
  }

  /** Past the actor: whatever another entry reads from there, it reads the same fields, or it finds its
      payloads inside the payload part. */
  lemma PayloadsFound(c: Content<string>, g: seq<string>, u: Json.Json, v: Json.Json, y: string, ok: Json.Json -> bool)
    requires NoBar(c.actorKind) && NoBar(c.sourceIp) && NoBar(c.action) && NoBar(c.resource) && ok(u) && ok(v) && |g| >= 4
    requires c.actorKind + "|" + (Join(Fields(c)) + "|" + PayloadPart(c))
          == Join(g) + "|" + (Json.Marshal(u) + "|" + (Json.Marshal(v) + "|" + y))
    ensures Nested(PayloadPart(c), ok)
      || (g == [c.actorKind] + Fields(c) && PayloadPart(c) == Json.Marshal(u) + "|" + (Json.Marshal(v) + "|" + y))
  {
    hide Json.Marshal, PayloadPart;
    var f := [c.actorKind] + Fields(c);
    JoinPrepend(c.actorKind, Fields(c));
    var t := Json.Marshal(u) + "|" + (Json.Marshal(v) + "|" + y);
    assert Join(f) + "|" + PayloadPart(c) == c.actorKind + "|" + (Join(Fields(c)) + "|" + PayloadPart(c));
    var x := Absorbed(f, g, PayloadPart(c), t);
    assert PayloadPart(c) == x + "|" + t ==> HoldsPayloads(PayloadPart(c), x, u, v, y);
  }

  lemma SplitPrefix(a: string, b: string, s: string, t: string) returns (w: string)
    requires a + "|" + s == b + "|" + t && |a| < |b|
    ensures b == a + "|" + w && s == w + "|" + t
  {
    var text := a + "|" + s;
    w := b[|a| + 1..];
    assert text[..|b|] == b && text[|a|] == '|';
    assert b[..|a|] == a && b[|a|] == '|';
    assert text[|a| + 1..] == s && text == a + "|" + (w + "|" + t);
  }

  /** A field without a bar ends no later than the bar after `w`. */
  lemma EndsEarlier(k: string, rest: string, w: string, z: string) returns (i: string)
    requires NoBar(k) && k + "|" + rest == w + "|" + z
    ensures w + "|" == k + "|" + i
  {
    var text := w + "|" + z;
    assert text[|w|] == '|';
    assert forall j :: 0 <= j < |k| ==> text[j] == k[j] && text[j] != '|';
    i := (w + "|")[|k| + 1..];
    assert text[..|k| + 1] == k + "|" && text[..|w| + 1] == w + "|";
  }

  /** Another entry ends its actor inside that of `c` only at an actor kind. */
  lemma ActorNotCut(c: Content<string>, d: Content<string>)
    requires ValidKind(d.actorKind) && Middle(c) == Middle(d)
    ensures KindInside(c.actor) || |c.actor| <= |d.actor|
  {
    hide Join, PayloadPart;
    if |d.actor| < |c.actor| {
      var z := c.actorKind + "|" + (Join(Fields(c)) + "|" + PayloadPart(c));
      var rest := Join(Fields(d)) + "|" + PayloadPart(d);
      var w := SplitPrefix(d.actor, c.actor, d.actorKind + "|" + rest, z);
      var i := EndsEarlier(d.actorKind, rest, w, z);
      assert c.actor + "|" == d.actor + "|" + (w + "|");
      assert HoldsKind(c.actor, d.actor, d.actorKind, i);
    }
  }

  /** The middle of an entry with one reading is that of no other. */
  lemma MiddleDetermined(c: Content<string>, d: Content<string>, ok: Json.Json -> bool)
    requires OneReading(c, ok) && Formed(c, ok) && Formed(d, ok) && Middle(c) == Middle(d)
    ensures c.actor == d.actor && c.actorKind == d.actorKind && Fields(c) == Fields(d) && PayloadPart(c) == PayloadPart(d)
  {
    hide Join, KindInside, Nested, Json.Marshal;
    var u: Json.Json :| ok(u) && d.before == Json.Marshal(u);
    var v: Json.Json :| ok(v) && d.after == Json.Marshal(v);
    ActorNotCut(c, d);
    var s := c.actorKind + "|" + (Join(Fields(c)) + "|" + PayloadPart(c));
    var g := [d.actorKind] + Fields(d);
    JoinPrepend(d.actorKind, Fields(d));
    assert Join(g) + "|" + PayloadPart(d) == d.actorKind + "|" + (Join(Fields(d)) + "|" + PayloadPart(d));
    if |c.actor| < |d.actor| {
      var w := SplitPrefix(c.actor, d.actor, s, Join(g) + "|" + PayloadPart(d));
      JoinPrepend(w, g);
      assert Join([w] + g) + "|" + PayloadPart(d) == w + "|" + (Join(g) + "|" + PayloadPart(d));
      PayloadsFound(c, [w] + g, u, v, d.jobId, ok);
    } else {
      SamePrefix(c.actor, d.actor, s, Join(g) + "|" + PayloadPart(d));
      PayloadsFound(c, g, u, v, d.jobId, ok);
      assert g[0] == d.actorKind && g[1..] == Fields(d) && ([c.actorKind] + Fields(c))[1..] == Fields(c);
    }
  }

  lemma SamePrefix(a: string, b: string, s: string, t: string)
    requires a + "|" + s == b + "|" + t && |a| == |b|
    ensures a == b && s == t
  {
    var text := a + "|" + s;
    assert text[..|a|] == a && text[..|b|] == b && text[|a| + 1..] == s && text[|b| + 1..] == t;
  }

  /** Equal bytes of two entries of a log, one of which has one reading: the same entry. */
  lemma OneReadingDetermined(c: Content<string>, d: Content<string>, p: Tag, q: Tag, ok: Json.Json -> bool)
    requires OneReading(c, ok) && Formed(c, ok) && Formed(d, ok) && Canonicalize(c, p) == Canonicalize(d, q)
    ensures c == d && p == q
  {
    hide OneReading, Middle, Json.Marshal, Canonicalize;
    EndsDetermined(c, d, p, q);
    MiddleDetermined(c, d, ok);
    var cb: Json.Json :| ok(cb) && c.before == Json.Marshal(cb);
    var ca: Json.Json :| ok(ca) && c.after == Json.Marshal(ca);
    var db: Json.Json :| ok(db) && d.before == Json.Marshal(db);
    var da: Json.Json :| ok(da) && d.after == Json.Marshal(da);
    CutJson(cb, db, c.after + "|" + c.jobId, d.after + "|" + d.jobId);
    CutJson(ca, da, c.jobId, d.jobId);
    assert Fields(c)[0] == Fields(d)[0] && Fields(c)[1] == Fields(d)[1] && Fields(c)[2] == Fields(d)[2];
  }

  /** A bar in the address, the action or the resource lets another entry have the same bytes, one that
      the constraints of the table admit just as well: only two of these three fields differ. */
  lemma BarsCollide(c: Content<string>, p: Tag) returns (d: Content<string>)
    requires !NoBar(c.sourceIp) || !NoBar(c.action) || !NoBar(c.resource)
    ensures d != c && Canonicalize(d, p) == Canonicalize(c, p)
    ensures d == c.(sourceIp := d.sourceIp, action := d.action, resource := d.resource)
  {
    hide Join, Canonicalize;
    var f := Fields(c);
    if !NoBar(c.sourceIp) {
      var x, y := SplitAtBar(c.sourceIp);
      MoveBarRight(f, 0, x, y);
      d := c.(sourceIp := x, action := y + "|" + c.action);
      assert Fields(d) == f[0 := x][1 := y + "|" + f[1]];
    } else if !NoBar(c.action) {
      var x, y := SplitAtBar(c.action);
      MoveBarRight(f, 1, x, y);
      d := c.(action := x, resource := y + "|" + c.resource);
      assert Fields(d) == f[1 := x][2 := y + "|" + f[2]];
    } else {
      var x, y := SplitAtBar(c.resource);
      MoveBarLeft(f, 2, x, y);
      d := c.(action := c.action + "|" + x, resource := y);
      assert Fields(d) == f[1 := f[1] + "|" + x][2 := y];
    }
    Layout(c, p);
    Layout(d, p);
  }

  /** An actor kind inside the actor: another entry ends its actor there. */
  lemma KindCollides(c: Content<string>, p: Tag) returns (d: Content<string>)
    requires KindInside(c.actor)
    ensures d != c && Canonicalize(d, p) == Canonicalize(c, p) && ValidKind(d.actorKind)
    ensures d == c.(actor := d.actor, actorKind := d.actorKind, sourceIp := d.sourceIp)
  {
    var a, kind, rest :| HoldsKind(c.actor, a, kind, rest);
    d := c.(actor := a, actorKind := kind, sourceIp := rest + (c.actorKind + "|" + c.sourceIp));
    assert |a| < |c.actor|;
    Layout(c, p);
    Layout(d, p);
    var z := Join([c.action, c.resource]) + "|" + PayloadPart(c);
    FieldsText(c);
    FieldsText(d);
    calc {
      Middle(c);
      (c.actor + "|") + (c.actorKind + "|" + c.sourceIp + "|" + z);
      (a + "|" + (kind + "|" + rest)) + (c.actorKind + "|" + c.sourceIp + "|" + z);
      a + "|" + (kind + "|" + (d.sourceIp + "|" + z));
      Middle(d);
    }
  }

  lemma FieldsText(c: Content<string>)
    ensures Join(Fields(c)) + "|" + PayloadPart(c) == c.sourceIp + "|" + (Join([c.action, c.resource]) + "|" + PayloadPart(c))
  {
    JoinPrepend(c.sourceIp, [c.action, c.resource]);
    assert Fields(c) == [c.sourceIp] + [c.action, c.resource];
  }

  /** Payload texts inside the payload part: another entry has them as its payloads. */
  lemma NestedCollides(c: Content<string>, p: Tag, ok: Json.Json -> bool) returns (d: Content<string>)
    requires Nested(PayloadPart(c), ok)
    ensures d != c && Canonicalize(d, p) == Canonicalize(c, p)
    ensures d == c.(resource := d.resource, before := d.before, after := d.after, jobId := d.jobId)
    ensures TextOf(d.before, ok) && TextOf(d.after, ok)
  {
    hide Json.Marshal;
    var x, u, v, y :| ok(u) && ok(v) && HoldsPayloads(PayloadPart(c), x, u, v, y);
    d := c.(resource := c.resource + "|" + x, before := Json.Marshal(u), after := Json.Marshal(v), jobId := y);
    assert |d.resource| > |c.resource|;
    Layout(c, p);
    Layout(d, p);
    JoinConcat([c.sourceIp, c.action], [c.resource]);
    JoinConcat([c.sourceIp, c.action], [d.resource]);
    var h := Join([c.sourceIp, c.action]) + "|" + c.resource;
    assert Fields(c) == [c.sourceIp, c.action] + [c.resource] && Fields(d) == [c.sourceIp, c.action] + [d.resource];
    assert Join(Fields(c)) == h && Join(Fields(d)) == h + "|" + x;
    assert h + "|" + PayloadPart(c) == h + "|" + x + "|" + PayloadPart(d);
  }

  /** An entry of a log with another reading shares its bytes with another such entry. */
  lemma OtherReading(c: Content<string>, p: Tag, ok: Json.Json -> bool) returns (d: Content<string>)
    requires Formed(c, ok) && !OneReading(c, ok)
    ensures Formed(d, ok) && d != c && Canonicalize(d, p) == Canonicalize(c, p)
  {
    hide Canonicalize, Json.Marshal, KindInside, Nested;
    if KindInside(c.actor) {
      d := KindCollides(c, p);
    } else if Nested(PayloadPart(c), ok) {
      d := NestedCollides(c, p, ok);
    } else {
      d := BarsCollide(c, p);
    }
  }

  /** Among the entries that a log can hold, the bytes determine exactly those with one reading: no bar in
      the address, the action and the resource, no actor kind among the fields of the actor, and no two
      JSON texts in a row among those of the payloads and the job id. */
  lemma DeterminedExactly(c: Content<string>, p: Tag, ok: Json.Json -> bool)
    requires Formed(c, ok)
    ensures OneReading(c, ok) <==>
      forall d: Content<string>, q: Tag :: Formed(d, ok) && Canonicalize(d, q) == Canonicalize(c, p) ==> d == c && q == p
  {
    hide OneReading, Formed, Canonicalize;
    if OneReading(c, ok) {
      forall d: Content<string>, q: Tag | Formed(d, ok) && Canonicalize(d, q) == Canonicalize(c, p)
        ensures d == c && q == p
      {
        OneReadingDetermined(c, d, p, q, ok);
      }
    } else {
      var d := OtherReading(c, p, ok);
    }
  }

  lemma ThreeBars(a: string, b: string, c: string, d: string)
    ensures Bars(a + "|" + (b + "|" + c)) >= 2
    ensures Bars(a + "|" + (b + "|" + (c + "|" + d))) >= 3
  {
  }

  /** An entry without bars has one reading. */
  lemma BarlessReadsOneWay(c: Content<string>, ok: Json.Json -> bool)
    requires NoBars(c)
    ensures OneReading(c, ok)
  {
    assert Bars(c.actor + "|") == 1 && Bars(PayloadPart(c)) == 2;
    hide PayloadPart;
    forall a, kind, rest
      ensures !HoldsKind(c.actor, a, kind, rest)
    {
      ThreeBars(a, kind, rest, "");
    }
    forall x, u, v, y
      ensures !HoldsPayloads(PayloadPart(c), x, u, v, y)
    {
      ThreeBars(x, Json.Marshal(u), Json.Marshal(v), y);
    }
  }

  lemma {:induction false} EscapeConcat(s: string, t: string)
    ensures Json.Escape(s + t) == Json.Escape(s) + Json.Escape(t)
  {
    hide Json.EscapeChar;
    if s == "" {
      assert s + t == t;
    } else {
      var first := Json.EscapeChar(s[0]);
      EscapeConcat(s[1..], t);
      assert (s + t)[0] == s[0] && (s + t)[1..] == s[1..] + t;
      assert first + (Json.Escape(s[1..]) + Json.Escape(t)) == first + Json.Escape(s[1..]) + Json.Escape(t);
    }
  }

  predicate Unescaped(s: string) {
    forall i :: 0 <= i < |s| ==> Json.EscapeChar(s[i]) == [s[i]]
  }

  lemma {:induction false} EscapeNothing(s: string)
    requires Unescaped(s)
    ensures Json.Escape(s) == s
  {
    if s != "" {
      EscapeNothing(s[1..]);
    }
  }

  lemma QuoteConcat(s: string, m: string, t: string)
    requires Unescaped(m)
    ensures Json.Quote(s + m + t) == ("\"" + Json.Escape(s)) + m + (Json.Escape(t) + "\"")
  {
    EscapeConcat(s + m, t);
    EscapeConcat(s, m);
    EscapeNothing(m);
  }

  /** Such payloads are ordinary JSON: a string that holds two texts of values, in an entry however plain
      its free fields are. */
  lemma StringNests(c: Content<string>, s: string, u: Json.Json, v: Json.Json, t: string, ok: Json.Json -> bool)
    requires ok(u) && ok(v) && Unescaped("|" + Json.Marshal(u) + "|" + Json.Marshal(v) + "|")
    requires c.before == Json.Quote(s + ("|" + Json.Marshal(u) + "|" + Json.Marshal(v) + "|") + t)
    ensures c.before == Json.Marshal(Json.Str(s + ("|" + Json.Marshal(u) + "|" + Json.Marshal(v) + "|") + t))
    ensures Nested(PayloadPart(c), ok)
  {
    hide Json.Quote, Json.Escape, Unescaped;
    var x, y := "\"" + Json.Escape(s), Json.Escape(t) + "\"";
    QuoteConcat(s, "|" + Json.Marshal(u) + "|" + Json.Marshal(v) + "|", t);
    PartHolds(c, x, u, v, y);
  }

  lemma PartHolds(c: Content<string>, x: string, u: Json.Json, v: Json.Json, y: string)
    requires c.before == x + ("|" + Json.Marshal(u) + "|" + Json.Marshal(v) + "|") + y
    ensures HoldsPayloads(PayloadPart(c), x, u, v, y + ("|" + (c.after + "|" + c.jobId)))
  {
    hide Json.Marshal;
  }
}
