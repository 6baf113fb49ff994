/** The continuum log: numbered, hash-chained lines of seven fields, a state file holding the head,
    and a verifier. */
module Continuum {
  import opened Hashing
  import opened CText
  import opened BarFields

  const LINE_SIZE := 8192
  const STATE_LINE_SIZE := 256
  const GENESIS := "GENESIS"

  // What the sequence number, a C int, stays below.
  const INT_LIMIT := 0x8000_0000

  // ---------- verifying ----------

  function Snprintf(s: string, size: nat): string
    requires size > 0
  {
    if |s| < size then s else s[..size - 1]
  }

  // The seven fields read off a buffer; tokens after the seventh are dropped.
  function FieldsOf(buffer: string): (r: Option<seq<string>>)
    ensures r.Some? ==> |r.value| == 7
  {
    var ts := Tokens(CutAt(CString(buffer), "\r\n"));
    if |ts| < 7 then None else Some(ts[..7])
  }

  // The text that is hashed for a line.
  function Canonical(f: seq<string>): string
    requires |f| == 7
  {
    Snprintf(Join(f[..6]), LINE_SIZE)
  }

  function Head(buffers: seq<string>): string {
    if buffers == [] then GENESIS
    else match FieldsOf(buffers[|buffers| - 1])
      case Some(f) => f[6]
      case None => ""
  }

  predicate LineOk(H: HashFn, buffer: string, number: nat, previous: string) {
    match FieldsOf(buffer)
    case None => false
    case Some(f) => Atoi(f[0]) == number && f[5] == previous && HashHex(H, Canonical(f)) == f[6]
  }

  predicate Verified(H: HashFn, buffers: seq<string>) {
    buffers == [] ||
    var n := |buffers| - 1;
    Verified(H, buffers[..n]) && LineOk(H, buffers[n], n + 1, Head(buffers[..n]))
  }

  ghost function Parsed(buffers: seq<string>): seq<Option<seq<string>>> {
    seq(|buffers|, i requires 0 <= i < |buffers| => FieldsOf(buffers[i]))
  }

  ghost function Canonicals(buffers: seq<string>): set<string> {
    set b | b in buffers && FieldsOf(b).Some? :: Canonical(FieldsOf(b).value)
  }

  lemma CanonicalWhole(buffer: string)
    requires FieldsOf(buffer).Some? && |buffer| < LINE_SIZE
    ensures Canonical(FieldsOf(buffer).value) == Join(FieldsOf(buffer).value[..6])
    ensures NoBars(FieldsOf(buffer).value[..6])
  {
    var line := CutAt(CString(buffer), "\r\n");
    var ts := Tokens(line);
    JoinOfTokens(line);
    JoinTakeLength(ts, 6);
    TokensHaveNoBars(line);
    assert ts[..7][..6] == ts[..6];
  }

  // Equal stored hashes: the same number, the same fields, or a collision.
  lemma LineBinding(H: HashFn, a: string, m: nat, p: string, b: string, n: nat, q: string, hashed: set<string>)
    requires LineOk(H, a, m, p) && LineOk(H, b, n, q) && |a| < LINE_SIZE && |b| < LINE_SIZE
    requires FieldsOf(a).value[6] == FieldsOf(b).value[6]
    requires Canonical(FieldsOf(a).value) in hashed && Canonical(FieldsOf(b).value) in hashed
    ensures Collision(H, hashed) || (FieldsOf(a) == FieldsOf(b) && m == n && p == q)
  {
    var f, g := FieldsOf(a).value, FieldsOf(b).value;
    EqualHexHashes(H, Canonical(f), Canonical(g), hashed);
    if Canonical(f) == Canonical(g) {
      CanonicalWhole(a);
      CanonicalWhole(b);
      TokensOfJoin(f[..6]);
      TokensOfJoin(g[..6]);
      assert f == f[..6] + [f[6]] && g == g[..6] + [g[6]];
    }
  }

  lemma ParsedSnoc(a: seq<string>, b: seq<string>)
    requires a != [] && b != [] && Parsed(a[..|a| - 1]) == Parsed(b[..|b| - 1])
    requires FieldsOf(a[|a| - 1]) == FieldsOf(b[|b| - 1])
    ensures Parsed(a) == Parsed(b)
  {
    ParsedLast(a);
    ParsedLast(b);
  }

  lemma ParsedLast(a: seq<string>)
    requires a != []
    ensures Parsed(a) == Parsed(a[..|a| - 1]) + [FieldsOf(a[|a| - 1])]
  {
  }

  ghost predicate Buffers(bs: seq<string>, hashed: set<string>) {
    forall b :: b in bs ==> |b| < LINE_SIZE && (FieldsOf(b).Some? ==> Canonical(FieldsOf(b).value) in hashed)
  }

  lemma {:induction false} BuffersBinding(H: HashFn, a: seq<string>, b: seq<string>, hashed: set<string>)
    requires Verified(H, a) && Verified(H, b) && Head(a) == Head(b)
    requires Buffers(a, hashed) && Buffers(b, hashed)
    ensures Parsed(a) == Parsed(b) || Collision(H, hashed)
    decreases |a|
  {
    var m, n := |a| - 1, |b| - 1;
    if a != [] && b != [] {
      LineBinding(H, a[m], m + 1, Head(a[..m]), b[n], n + 1, Head(b[..n]), hashed);
      if !Collision(H, hashed) {
        BuffersBinding(H, a[..m], b[..n], hashed);
        ParsedSnoc(a, b);
      }
    } else {
      // "GENESIS" is not the text of a digest.
      assert a != [] ==> |Head(a)| == 64;
      assert b != [] ==> |Head(b)| == 64;
    }
  }

  lemma {:induction false} ChunksFit(s: string, size: nat)
    requires size >= 2
    ensures forall b :: b in Chunks(s, size) ==> |b| < size
    decreases |s|
  {
    if s != "" {
      ChunksFit(s[|Fgets(s, size)|..], size);
    }
  }

  // Two logs the verifier accepts with the same head have the same number of lines and the same
  // seven fields on every line, or two of the texts hashed collide.
  lemma LogBinding(H: HashFn, a: string, b: string)
    requires Verified(H, Chunks(a, LINE_SIZE)) && Verified(H, Chunks(b, LINE_SIZE))
    requires Head(Chunks(a, LINE_SIZE)) == Head(Chunks(b, LINE_SIZE))
    ensures Parsed(Chunks(a, LINE_SIZE)) == Parsed(Chunks(b, LINE_SIZE))
         || Collision(H, Canonicals(Chunks(a, LINE_SIZE)) + Canonicals(Chunks(b, LINE_SIZE)))
  {
    var x, y := Chunks(a, LINE_SIZE), Chunks(b, LINE_SIZE);
    ChunksFit(a, LINE_SIZE);
    ChunksFit(b, LINE_SIZE);
    BuffersBinding(H, x, y, Canonicals(x) + Canonicals(y));
  }

  // ---------- what is bound, and what is not ----------

  lemma {:induction false} SameParsed(H: HashFn, a: seq<string>, b: seq<string>)
    requires Parsed(a) == Parsed(b)
    ensures (Verified(H, a) <==> Verified(H, b)) && Head(a) == Head(b)
    decreases |a|
  {
    assert |Parsed(a)| == |a| && |Parsed(b)| == |b|;
    if a != [] {
      var n := |a| - 1;
      SameParsedInit(a, b);
      SameParsed(H, a[..n], b[..n]);
      SameLast(H, a[..n], a[n], b[..n], b[n]);
      assert a == a[..n] + [a[n]] && b == b[..n] + [b[n]];
    }
  }

  lemma SameParsedInit(a: seq<string>, b: seq<string>)
    requires Parsed(a) == Parsed(b) && |a| == |b| > 0
    ensures Parsed(a[..|a| - 1]) == Parsed(b[..|a| - 1]) && FieldsOf(a[|a| - 1]) == FieldsOf(b[|a| - 1])
  {
    var n := |a| - 1;
    assert Parsed(a)[n] == FieldsOf(a[n]) && Parsed(b)[n] == FieldsOf(b[n]);
    assert Parsed(a[..n]) == Parsed(a)[..n] && Parsed(b[..n]) == Parsed(b)[..n];
  }

  lemma SameLast(H: HashFn, a: seq<string>, x: string, b: seq<string>, y: string)
    requires |a| == |b| && (Verified(H, a) <==> Verified(H, b)) && Head(a) == Head(b) && FieldsOf(x) == FieldsOf(y)
    ensures (Verified(H, a + [x]) <==> Verified(H, b + [y])) && Head(a + [x]) == Head(b + [y])
  {
    assert (a + [x])[..|a|] == a && (b + [y])[..|b|] == b;
  }

  // Exactly what the verifier binds: against an accepted log, another is accepted with the same head
  // if and only if it has the same seven fields on every line, or two of the texts hashed collide.
  lemma LogBindingExact(H: HashFn, a: string, b: string)
    requires Verified(H, Chunks(a, LINE_SIZE))
    ensures var (x, y) := (Chunks(a, LINE_SIZE), Chunks(b, LINE_SIZE));
      && (Parsed(x) == Parsed(y) ==> Verified(H, y) && Head(y) == Head(x))
      && (Verified(H, y) && Head(y) == Head(x)
          ==> Parsed(x) == Parsed(y) || Collision(H, Canonicals(x) + Canonicals(y)))
  {
    var x, y := Chunks(a, LINE_SIZE), Chunks(b, LINE_SIZE);
    if Parsed(x) == Parsed(y) {
      SameParsed(H, x, y);
    }
    if Verified(H, y) && Head(y) == Head(x) {
      LogBinding(H, a, b);
    }
  }

  ghost predicate PlainLine(s: string) {
    Lacks(s, '\r') && Lacks(s, '\n') && Lacks(s, '\0')
  }

  // What is left of a buffer to cut into fields.
  function Text(buffer: string): string {
    CutAt(CString(buffer), "\r\n")
  }

  // A line as `LogEvent` writes it: seven fields and a newline.
  predicate WholeLine(buffer: string) {
    buffer == Text(buffer) + "\n" && |Tokens(Text(buffer))| == 7
  }

  ghost predicate WholeLines(buffers: seq<string>) {
    forall i :: 0 <= i < |buffers| ==> WholeLine(buffers[i])
  }

  // Exactly which buffers read like a whole line: those with the same text up to the first carriage
  // return, newline or NUL, and those where that text goes on after a seventh bar.
  lemma UnseenExactly(buffer: string, other: string)
    requires WholeLine(buffer)
    ensures FieldsOf(other) == FieldsOf(buffer) <==>
      Text(other) == Text(buffer) || Text(buffer) + "|" <= Text(other)
  {
    var s, t := Text(buffer), Text(other);
    if FieldsOf(other) == FieldsOf(buffer) {
      JoinOfTokens(s);
      JoinOfTokens(t);
      assert Tokens(s)[..7] == Tokens(s);
      if |Tokens(t)| > 7 {
        JoinAt(Tokens(t), 7);
      } else {
        assert Tokens(t)[..7] == Tokens(t);
      }
    }
    if s + "|" <= t {
      var extra := t[|s| + 1..];
      assert t == s + "|" + extra;
      TokensAtBar(s, extra);
      assert (Tokens(s) + Tokens(extra))[..7] == Tokens(s)[..7];
    }
  }

  lemma LineWhole(line: string)
    requires PlainLine(line)
    ensures Text(line + "\n") == line && Text(line) == line
  {
    CStringWhole(line + "\n");
    CStringWhole(line);
    CutAtFirst(line, "\n", "\r\n");
    CutAtFirst(line, "", "\r\n");
    assert line + "" == line;
  }

  // The three ways, for every line that is accepted: more after another bar; anything after a carriage
  // return or a NUL; and no newline.
  lemma TrailingTokensUnseen(line: string, extra: string)
    requires PlainLine(line) && PlainLine(extra) && FieldsOf(line + "\n").Some?
    ensures FieldsOf(line + "|" + extra + "\n") == FieldsOf(line + "\n")
  {
    LineWhole(line);
    LineWhole(line + "|" + extra);
    TokensAtBar(line, extra);
    var ts := Tokens(line);
    assert |ts| >= 7 && (ts + Tokens(extra))[..7] == ts[..7];
  }

  lemma TextAfterStopUnseen(line: string, stop: char, extra: string)
    requires PlainLine(line) && stop in ['\r', '\0']
    ensures FieldsOf(line + [stop] + extra) == FieldsOf(line + "\n") == FieldsOf(line)
  {
    LineWhole(line);
    var s := line + [stop] + extra;
    assert s == line + ([stop] + extra);
    if stop == '\0' {
      CutAtFirst(line, [stop] + extra, "\0");
      CutAtFirst(line, "", "\r\n");
      assert CString(s) == line && line + "" == line;
    } else {
      assert CString(s) == line + CString([stop] + extra) by {
        CStringAfter(line, [stop] + extra);
      }
      CutAtFirst(line, CString([stop] + extra), "\r\n");
    }
  }

  lemma {:induction false} CStringAfter(line: string, rest: string)
    requires Lacks(line, '\0')
    ensures CString(line + rest) == line + CString(rest)
  {
    if line == "" {
      assert line + rest == rest;
    } else {
      assert (line + rest)[1..] == line[1..] + rest;
      CStringAfter(line[1..], rest);
      assert line == [line[0]] + line[1..];
    }
  }

  lemma {:induction false} WholeLinesParse(x: seq<string>, y: seq<string>)
    requires WholeLines(x) && WholeLines(y) && Parsed(x) == Parsed(y)
    ensures x == y
  {
    assert |Parsed(x)| == |x| && |Parsed(y)| == |y|;
    forall i | 0 <= i < |x| ensures x[i] == y[i] {
      assert Parsed(x)[i] == FieldsOf(x[i]) && Parsed(y)[i] == FieldsOf(y[i]);
      JoinOfTokens(Text(x[i]));
      JoinOfTokens(Text(y[i]));
      assert Tokens(Text(x[i]))[..7] == Tokens(Text(x[i])) && Tokens(Text(y[i]))[..7] == Tokens(Text(y[i]));
    }
  }

  // When the very bytes are bound: against an accepted log of whole lines, another is accepted with the
  // same head and has whole lines alone if and only if it is the same file, or two texts collide.
  lemma WholeLogBinding(H: HashFn, a: string, b: string)
    requires Verified(H, Chunks(a, LINE_SIZE)) && WholeLines(Chunks(a, LINE_SIZE))
    ensures var (x, y) := (Chunks(a, LINE_SIZE), Chunks(b, LINE_SIZE));
      && (a == b ==> Verified(H, y) && Head(y) == Head(x) && WholeLines(y))
      && (Verified(H, y) && Head(y) == Head(x) && WholeLines(y)
          ==> a == b || Collision(H, Canonicals(x) + Canonicals(y)))
  {
    var x, y := Chunks(a, LINE_SIZE), Chunks(b, LINE_SIZE);
    if Verified(H, y) && Head(y) == Head(x) && WholeLines(y) {
      LogBindingExact(H, a, b);
      if Parsed(x) == Parsed(y) {
        WholeLinesParse(x, y);
        ChunksHoldAll(a, LINE_SIZE);
        ChunksHoldAll(b, LINE_SIZE);
      }
    }
  }

  // ---------- the three files ----------

  datatype Disk = Disk(identity: Option<string>, state: Option<string>, events: Option<string>)

  const EMPTY_DISK := Disk(None, None, None)

  function StateText(status: string, sequence: nat, head: string): string {
    Lines(["continuum_version=1.0", "state=" + status, "sequence=" + Dec(sequence), "head_hash=" + head])
  }

  function Lines(bodies: seq<string>): string {
    if bodies == [] then "" else bodies[0] + "\n" + Lines(bodies[1..])
  }

  function LogOf(d: Disk): string {
    if d.events.Some? then d.events.value else ""
  }

  // `head_hash=` lines of the state file; only a value of 64 characters counts.
  function StateHash(lines: seq<string>): string {
    if lines == [] then GENESIS
    else
      var line := CString(lines[0]);
      var value := if "head_hash=" <= line then CutAt(line[10..], "\r\n") else "";
      if |value| == 64 then value else StateHash(lines[1..])
  }

  function ReadStateHash(d: Disk): string {
    if d.state.None? then GENESIS else StateHash(Chunks(d.state.value, STATE_LINE_SIZE))
  }

  predicate ValidField(v: string) {
    v != "" && '|' !in v && '\n' !in v && '\r' !in v
  }

  function InitDisk(d: Disk, identity: string): Disk {
    Disk(if d.identity.Some? then d.identity else Some(identity),
         if d.state.Some? then d.state else Some(StateText("INITIALIZED", 0, GENESIS)),
         if d.events.Some? then d.events else Some(""))
  }

  datatype Op =
    | Init(identity: string)
    | Event(eventType: string, actor: string, details: string, timestamp: string, identity: string)

  predicate ValidEvent(op: Op) {
    op.Event? && ValidField(op.eventType) && ValidField(op.actor) && ValidField(op.details)
  }

  function NextNumber(d: Disk): nat {
    |Chunks(LogOf(d), LINE_SIZE)| + 1
  }

  // The fields printed for an event, all but the hash.
  function Printed(d: Disk, op: Op): (f: seq<string>)
    requires op.Event?
    ensures |f| == 6
  {
    [Dec(NextNumber(d)), op.timestamp, op.eventType, op.actor, op.details, ReadStateHash(d)]
  }

  function NewHash(H: HashFn, d: Disk, op: Op): string
    requires op.Event?
  {
    HashHex(H, Snprintf(Join(Printed(d, op)), LINE_SIZE))
  }

  function NewLine(H: HashFn, d: Disk, op: Op): string
    requires op.Event?
  {
    Join(Printed(d, op) + [NewHash(H, d, op)])
  }

  // A completed call: the files after it.
  function Apply(H: HashFn, before: Disk, op: Op): Disk {
    if op.Init? then InitDisk(before, op.identity)
    else if !ValidEvent(op) then before
    else
      var d := InitDisk(before, op.identity);
      Disk(d.identity, Some(StateText("ACTIVE", NextNumber(d), NewHash(H, d, op))),
           Some(LogOf(d) + (NewLine(H, d, op) + "\n")))
  }

  function Run(H: HashFn, ops: seq<Op>): Disk {
    if ops == [] then EMPTY_DISK else Apply(H, Run(H, ops[..|ops| - 1]), ops[|ops| - 1])
  }

  // The line of an event, with its newline, fits the buffer it will be read into.
  predicate Fits(H: HashFn, before: Disk, op: Op) {
    ValidEvent(op) ==> |NewLine(H, InitDisk(before, op.identity), op)| + 2 <= LINE_SIZE
  }

  predicate AllFit(H: HashFn, ops: seq<Op>) {
    ops == [] || (AllFit(H, ops[..|ops| - 1]) && Fits(H, Run(H, ops[..|ops| - 1]), ops[|ops| - 1]))
  }

  // C strings; the timestamp is what `strftime` writes with "%Y-%m-%dT%H:%M:%SZ".
  ghost predicate CStrings(op: Op) {
    op.Event? ==>
      Lacks(op.eventType, '\0') && Lacks(op.actor, '\0') && Lacks(op.details, '\0')
      && |op.timestamp| < 64 && PlainLine(op.timestamp) && Lacks(op.timestamp, '|')
  }

  // The state file and the log agree, and the log verifies.
  ghost predicate Agree(H: HashFn, d: Disk) {
    var lines := Chunks(LogOf(d), LINE_SIZE);
    && EndsLine(LogOf(d)) && Verified(H, lines)
    && match d.state
       case None => lines == []
       case Some(text) => text == StateText(if lines == [] then "INITIALIZED" else "ACTIVE", |lines|, Head(lines))
  }

  // ---------- reading the state file back ----------

  lemma DecIsPlain(n: nat)
    ensures PlainLine(Dec(n)) && Lacks(Dec(n), '|')
  {
    assert Digits(Dec(n));
  }

  ghost predicate ShortLines(bodies: seq<string>) {
    forall i :: 0 <= i < |bodies| ==> PlainLine(bodies[i]) && |bodies[i]| + 2 <= STATE_LINE_SIZE
  }

  // The value found among whole lines.
  function HeadAmong(bodies: seq<string>): string {
    if bodies == [] then GENESIS
    else if "head_hash=" <= bodies[0] && |bodies[0]| == 74 then bodies[0][10..]
    else HeadAmong(bodies[1..])
  }

  lemma StateHashStep(body: string, rest: seq<string>)
    requires PlainLine(body)
    ensures StateHash([body + "\n"] + rest)
         == if "head_hash=" <= body && |body| == 74 then body[10..] else StateHash(rest)
  {
    CStringWhole(body + "\n");
    assert ([body + "\n"] + rest)[1..] == rest;
    PrefixOfLine("head_hash=", body);
    if "head_hash=" <= body {
      assert (body + "\n")[10..] == body[10..] + "\n";
      CutAtFirst(body[10..], "\n", "\r\n");
    }
  }

  lemma PrefixOfLine(key: string, body: string)
    requires Lacks(key, '\n')
    ensures key <= body + "\n" <==> key <= body
  {
    if |key| <= |body| {
      assert (body + "\n")[..|key|] == body[..|key|];
    } else if |key| == |body| + 1 {
      assert key[|body|] != '\n' == (body + "\n")[|body|];
    }
  }

  lemma {:induction false} StateHashOfLines(bodies: seq<string>)
    requires ShortLines(bodies)
    ensures StateHash(Chunks(Lines(bodies), STATE_LINE_SIZE)) == HeadAmong(bodies)
  {
    if bodies != [] {
      var body, more := bodies[0], Lines(bodies[1..]);
      FgetsLine(body, more, STATE_LINE_SIZE);
      assert (body + "\n" + more)[|body + "\n"|..] == more;
      StateHashStep(body, Chunks(more, STATE_LINE_SIZE));
      StateHashOfLines(bodies[1..]);
    }
  }

  lemma StateReadsBack(status: string, n: nat, head: string)
    requires status in ["INITIALIZED", "ACTIVE"] && n < INT_LIMIT
    requires (PlainLine(head) && |head| == 64) || head == GENESIS
    ensures StateHash(Chunks(StateText(status, n, head), STATE_LINE_SIZE)) == head
  {
    var b0, b1, b2, b3 := "continuum_version=1.0", "state=" + status, "sequence=" + Dec(n), "head_hash=" + head;
    StateLinesShort(status, n, head);
    StateHashOfLines([b0, b1, b2, b3]);
    HeadAmongFour(b0, b1, b2, b3);
    assert b3[10..] == head;
  }

  lemma StateLinesShort(status: string, n: nat, head: string)
    requires status in ["INITIALIZED", "ACTIVE"] && n < INT_LIMIT
    requires (PlainLine(head) && |head| == 64) || head == GENESIS
    ensures ShortLines(["continuum_version=1.0", "state=" + status, "sequence=" + Dec(n), "head_hash=" + head])
  {
    DecIsPlain(n);
    IntHasTenDigits();
    DecShort(n, 10);
    PlainConcat("state=", status);
    PlainConcat("sequence=", Dec(n));
    PlainConcat("head_hash=", head);
  }

  lemma IntHasTenDigits()
    ensures INT_LIMIT < Pow10(10)
  {
    assert Pow10(4) == 10_000;
    assert Pow10(7) == 10 * (10 * (10 * Pow10(4)));
    assert Pow10(10) == 10 * (10 * (10 * Pow10(7)));
  }

  lemma PlainConcat(a: string, b: string)
    requires PlainLine(a) && PlainLine(b)
    ensures PlainLine(a + b) && |a + b| == |a| + |b|
  {
  }

  lemma HeadAmongFour(b0: string, b1: string, b2: string, b3: string)
    requires b0 != "" && b1 != "" && b2 != "" && b0[0] != 'h' && b1[0] != 'h' && b2[0] != 'h'
    requires "head_hash=" <= b3
    ensures HeadAmong([b0, b1, b2, b3]) == if |b3| == 74 then b3[10..] else GENESIS
  {
    assert [b0, b1, b2, b3][1..] == [b1, b2, b3];
    assert [b1, b2, b3][1..] == [b2, b3];
    assert [b2, b3][1..] == [b3];
    assert HeadAmong([b3][1..]) == GENESIS;
    assert HeadAmong([b2, b3]) == HeadAmong([b3]);
    assert HeadAmong([b1, b2, b3]) == HeadAmong([b2, b3]);
  }

  // ---------- one event ----------

  lemma {:induction false} HeadIsPlain(H: HashFn, lines: seq<string>)
    requires Verified(H, lines)
    ensures (PlainLine(Head(lines)) && |Head(lines)| == 64 && Lacks(Head(lines), '|')) || Head(lines) == GENESIS
  {
    if lines != [] {
      var f := FieldsOf(lines[|lines| - 1]).value;
      HashIsPlain(HashHex(H, Canonical(f)));
    }
  }

  lemma HashIsPlain(h: string)
    requires IsHex(h)
    ensures PlainLine(h) && Lacks(h, '|')
  {
  }

  lemma StateAgrees(H: HashFn, d: Disk)
    requires Agree(H, d) && NextNumber(d) <= INT_LIMIT
    ensures ReadStateHash(d) == Head(Chunks(LogOf(d), LINE_SIZE))
  {
    var lines := Chunks(LogOf(d), LINE_SIZE);
    HeadIsPlain(H, lines);
    if d.state.Some? {
      StateReadsBack(if lines == [] then "INITIALIZED" else "ACTIVE", |lines|, Head(lines));
    }
  }

  lemma PrintedIsPlain(d: Disk, op: Op)
    requires ValidEvent(op) && CStrings(op) && PlainLine(ReadStateHash(d)) && Lacks(ReadStateHash(d), '|')
    ensures NoBars(Printed(d, op))
    ensures forall i :: 0 <= i < 6 ==> PlainLine(Printed(d, op)[i])
  {
    DecIsPlain(NextNumber(d));
  }

  lemma NewLineIsPlain(H: HashFn, d: Disk, op: Op)
    requires ValidEvent(op) && CStrings(op) && PlainLine(ReadStateHash(d)) && Lacks(ReadStateHash(d), '|')
    ensures NoBars(Printed(d, op) + [NewHash(H, d, op)])
    ensures PlainLine(NewLine(H, d, op))
    ensures NewLine(H, d, op) == Join(Printed(d, op)) + "|" + NewHash(H, d, op)
  {
    var f := Printed(d, op) + [NewHash(H, d, op)];
    PrintedIsPlain(d, op);
    HashIsPlain(NewHash(H, d, op));
    forall c | c in ['\r', '\n', '\0'] ensures Lacks(Join(f), c) {
      JoinLacks(f, c);
    }
    JoinSnoc(Printed(d, op), NewHash(H, d, op));
  }

  // What the verifier reads off the line of an event that fits.
  lemma NewLineReadsBack(H: HashFn, d: Disk, op: Op)
    requires ValidEvent(op) && CStrings(op) && PlainLine(ReadStateHash(d)) && Lacks(ReadStateHash(d), '|')
    requires |NewLine(H, d, op)| + 2 <= LINE_SIZE
    ensures FieldsOf(NewLine(H, d, op) + "\n") == Some(Printed(d, op) + [NewHash(H, d, op)])
    ensures LineOk(H, NewLine(H, d, op) + "\n", NextNumber(d), ReadStateHash(d))
  {
    var f := Printed(d, op) + [NewHash(H, d, op)];
    NewLineIsPlain(H, d, op);
    LineWhole(NewLine(H, d, op));
    TokensOfJoin(f);
    assert f[..7] == f && f[..6] == Printed(d, op);
    AtoiOfDec(NextNumber(d));
  }

  // ---------- every run ----------

  lemma InitKeepsAgreement(H: HashFn, d: Disk, identity: string)
    requires Agree(H, d)
    ensures Agree(H, InitDisk(d, identity)) && LogOf(InitDisk(d, identity)) == LogOf(d)
    ensures InitDisk(d, identity).state.Some? && InitDisk(d, identity).events.Some?
  {
  }

  lemma VerifiedSnoc(H: HashFn, lines: seq<string>, line: string)
    requires FieldsOf(line).Some?
    ensures Verified(H, lines + [line]) <==> Verified(H, lines) && LineOk(H, line, |lines| + 1, Head(lines))
    ensures Head(lines + [line]) == FieldsOf(line).value[6]
  {
    assert (lines + [line])[..|lines|] == lines;
  }

  // An event that fits keeps the state file and the log in agreement.
  lemma EventKeepsAgreement(H: HashFn, before: Disk, op: Op)
    requires Agree(H, before) && ValidEvent(op) && CStrings(op) && Fits(H, before, op)
    requires NextNumber(before) <= INT_LIMIT
    ensures Agree(H, Apply(H, before, op))
    ensures |Chunks(LogOf(Apply(H, before, op)), LINE_SIZE)| == |Chunks(LogOf(before), LINE_SIZE)| + 1
  {
    var d := InitDisk(before, op.identity);
    InitKeepsAgreement(H, before, op.identity);
    LineAppended(H, d, op, Chunks(LogOf(d), LINE_SIZE));
    StateWritten(H, d, op, Apply(H, before, op));
  }

  lemma StateWritten(H: HashFn, d: Disk, op: Op, after: Disk)
    requires op.Event? && after.state == Some(StateText("ACTIVE", NextNumber(d), NewHash(H, d, op)))
    requires EndsLine(LogOf(after)) && Verified(H, Chunks(LogOf(after), LINE_SIZE))
    requires |Chunks(LogOf(after), LINE_SIZE)| == NextNumber(d)
    requires Head(Chunks(LogOf(after), LINE_SIZE)) == NewHash(H, d, op)
    ensures Agree(H, after)
  {
  }

  lemma HeadReadBack(H: HashFn, d: Disk)
    requires Agree(H, d) && NextNumber(d) <= INT_LIMIT
    ensures ReadStateHash(d) == Head(Chunks(LogOf(d), LINE_SIZE))
    ensures PlainLine(ReadStateHash(d)) && Lacks(ReadStateHash(d), '|')
  {
    StateAgrees(H, d);
    PlainHead(H, Chunks(LogOf(d), LINE_SIZE), ReadStateHash(d));
  }

  lemma PlainHead(H: HashFn, lines: seq<string>, head: string)
    requires Verified(H, lines) && head == Head(lines)
    ensures PlainLine(head) && Lacks(head, '|')
  {
    HeadIsPlain(H, lines);
  }

  lemma LineAppended(H: HashFn, d: Disk, op: Op, lines: seq<string>)
    requires Agree(H, d) && ValidEvent(op) && CStrings(op) && NextNumber(d) <= INT_LIMIT
    requires |NewLine(H, d, op)| + 2 <= LINE_SIZE && lines == Chunks(LogOf(d), LINE_SIZE)
    ensures var log := LogOf(d) + (NewLine(H, d, op) + "\n");
      var after := Chunks(log, LINE_SIZE);
      EndsLine(log) && Verified(H, after) && |after| == |lines| + 1 && Head(after) == NewHash(H, d, op)
  {
    var line := NewLine(H, d, op);
    HeadReadBack(H, d);
    NewLineIsPlain(H, d, op);
    NewLineReadsBack(H, d, op);
    AppendLine(LogOf(d), line, LINE_SIZE);
    VerifiedSnoc(H, lines, line + "\n");
  }

  // After any run of completed calls whose lines fit, the state file holds the number of lines and
  // the last hash, and the log verifies.
  lemma {:induction false} RunAgrees(H: HashFn, ops: seq<Op>)
    requires AllFit(H, ops) && forall op :: op in ops ==> CStrings(op)
    requires |ops| < INT_LIMIT
    ensures Agree(H, Run(H, ops)) && |Chunks(LogOf(Run(H, ops)), LINE_SIZE)| <= |ops|
  {
    if ops != [] {
      var init, op := ops[..|ops| - 1], ops[|ops| - 1];
      assert forall o :: o in init ==> o in ops;
      RunAgrees(H, init);
      if op.Init? {
        InitKeepsAgreement(H, Run(H, init), op.identity);
      } else if ValidEvent(op) {
        EventKeepsAgreement(H, Run(H, init), op);
      }
    } else {
      assert Chunks("", LINE_SIZE) == [];
    }
  }

  // Such a log has whole lines alone, so that its very bytes are bound.
  lemma {:induction false} RunIsWhole(H: HashFn, ops: seq<Op>)
    requires AllFit(H, ops) && (forall op :: op in ops ==> CStrings(op)) && |ops| < INT_LIMIT
    ensures WholeLines(Chunks(LogOf(Run(H, ops)), LINE_SIZE))
  {
    if ops != [] {
      var init, op := ops[..|ops| - 1], ops[|ops| - 1];
      assert forall o :: o in init ==> o in ops;
      RunIsWhole(H, init);
      RunAgrees(H, init);
      var d := Run(H, init);
      if op.Init? {
        InitKeepsAgreement(H, d, op.identity);
      } else if ValidEvent(op) {
        InitKeepsAgreement(H, d, op.identity);
        HeadReadBack(H, InitDisk(d, op.identity));
        WholeAppended(H, InitDisk(d, op.identity), op);
      }
    } else {
      assert Chunks("", LINE_SIZE) == [];
    }
  }

  lemma WholeAppended(H: HashFn, d: Disk, op: Op)
    requires ValidEvent(op) && CStrings(op) && PlainLine(ReadStateHash(d)) && Lacks(ReadStateHash(d), '|')
    requires EndsLine(LogOf(d)) && WholeLines(Chunks(LogOf(d), LINE_SIZE)) && |NewLine(H, d, op)| + 2 <= LINE_SIZE
    ensures WholeLines(Chunks(LogOf(d) + (NewLine(H, d, op) + "\n"), LINE_SIZE))
  {
    var line := NewLine(H, d, op);
    NewLineIsPlain(H, d, op);
    LineWhole(line);
    TokensOfJoin(Printed(d, op) + [NewHash(H, d, op)]);
    AppendLine(LogOf(d), line, LINE_SIZE);
    assert WholeLine(line + "\n");
  }

  // No other file is accepted in place of a log the program wrote, with the same head, unless it has a
  // line that is not seven fields and a newline, or two texts collide.
  lemma RunBytesBound(H: HashFn, ops: seq<Op>, b: string)
    requires AllFit(H, ops) && (forall op :: op in ops ==> CStrings(op)) && |ops| < INT_LIMIT
    ensures var (x, y) := (Chunks(LogOf(Run(H, ops)), LINE_SIZE), Chunks(b, LINE_SIZE));
      Verified(H, y) && Head(y) == Head(x) ==>
        b == LogOf(Run(H, ops)) || !WholeLines(y) || Collision(H, Canonicals(x) + Canonicals(y))
  {
    RunAgrees(H, ops);
    RunIsWhole(H, ops);
    WholeLogBinding(H, LogOf(Run(H, ops)), b);
  }

  // ---------- lines that do not fit ----------

  lemma {:induction false} FgetsOfLongLine(s: string, size: nat)
    requires size >= 2 && |s| >= size - 1 && Lacks(s[..size - 1], '\n')
    ensures Fgets(s, size) == s[..size - 1]
  {
    if size > 2 && |s| > 1 {
      assert s[0] == s[..size - 1][0];
      assert s[1..][..size - 2] == s[..size - 1][1..];
      FgetsOfLongLine(s[1..], size - 1);
    }
  }

  // A line cut short, anywhere, is not accepted.
  lemma CutLineRejected(H: HashFn, c: string, h: string, k: nat, number: nat, previous: string)
    requires |Tokens(c)| == 6 && IsHex(h) && |h| == 64
    requires PlainLine(c + "|" + h) && k < |c + "|" + h|
    ensures !LineOk(H, (c + "|" + h)[..k], number, previous)
  {
    var line := c + "|" + h;
    var cut := line[..k];
    LineWhole(cut);
    if k <= |c| {
      assert cut == c[..k] && c == c[..k] + c[k..];
      TokensOfPrefix(c[..k], c[k..]);
    } else {
      var h' := h[..k - |c| - 1];
      assert cut == c + "|" + h';
      HashIsPlain(h);
      TokensAtBar(c, h');
      TokensOfOne(h');
      assert Tokens(cut)[6] == h';
    }
  }

  lemma {:induction false} RejectedForGood(H: HashFn, lines: seq<string>, more: seq<string>)
    requires !Verified(H, lines)
    ensures !Verified(H, lines + more)
    decreases |more|
  {
    if more == [] {
      assert lines + more == lines;
    } else {
      var all, n := lines + more, |more| - 1;
      RejectedForGood(H, lines, more[..n]);
      assert all[..|all| - 1] == lines + more[..n];
      VerifiedInit(H, all);
    }
  }

  lemma VerifiedInit(H: HashFn, lines: seq<string>)
    requires lines != [] && !Verified(H, lines[..|lines| - 1])
    ensures !Verified(H, lines)
  {
  }

  lemma EmptyLineRejected(H: HashFn, number: nat, previous: string)
    ensures !LineOk(H, "\n", number, previous)
  {
    CStringWhole("\n");
    assert Tokens("") == [""];
  }

  // The buffers a line too long is read into: the first holds 8191 bytes of it.
  lemma LongLineRejected(H: HashFn, lines: seq<string>, c: string, h: string)
    requires |Tokens(c)| == 6 && IsHex(h) && |h| == 64 && PlainLine(c + "|" + h)
    requires |c + "|" + h| + 2 > LINE_SIZE
    ensures !Verified(H, lines + Chunks(c + "|" + h + "\n", LINE_SIZE))
  {
    var line := c + "|" + h;
    var s, k := line + "\n", LINE_SIZE - 1;
    assert s[..k] == line[..k];
    FgetsOfLongLine(s, LINE_SIZE);
    var rest := Chunks(s[k..], LINE_SIZE);
    var one: seq<string> := [line[..k]];
    assert Chunks(s, LINE_SIZE) == one + rest;
    assert (lines + one)[..|lines|] == lines;
    if k < |line| {
      CutLineRejected(H, c, h, k, |lines| + 1, Head(lines));
      RejectedForGood(H, lines + one, rest);
      assert lines + (one + rest) == (lines + one) + rest;
    } else {
      assert s[k..] == "" + "\n";
      ChunksOfLine("", LINE_SIZE);
      var all := lines + one + ["\n"];
      assert all[..|all| - 1] == lines + one;
      EmptyLineRejected(H, |all|, Head(lines + one));
      assert lines + (one + rest) == all;
    }
  }

  lemma OversizeEventRejected(H: HashFn, before: Disk, op: Op)
    requires Agree(H, before) && ValidEvent(op) && CStrings(op) && !Fits(H, before, op)
    requires NextNumber(before) <= INT_LIMIT
    ensures EndsLine(LogOf(Apply(H, before, op)))
    ensures !Verified(H, Chunks(LogOf(Apply(H, before, op)), LINE_SIZE))
  {
    var d := InitDisk(before, op.identity);
    InitKeepsAgreement(H, before, op.identity);
    HeadReadBack(H, d);
    OversizeLineRejected(H, d, op, Chunks(LogOf(d), LINE_SIZE));
    ChunksOfLongerFile(LogOf(d), NewLine(H, d, op) + "\n", LINE_SIZE);
  }

  lemma OversizeLineRejected(H: HashFn, d: Disk, op: Op, lines: seq<string>)
    requires ValidEvent(op) && CStrings(op) && PlainLine(ReadStateHash(d)) && Lacks(ReadStateHash(d), '|')
    requires |NewLine(H, d, op)| + 2 > LINE_SIZE
    ensures !Verified(H, lines + Chunks(NewLine(H, d, op) + "\n", LINE_SIZE))
  {
    NewLineIsPlain(H, d, op);
    PrintedIsPlain(d, op);
    TokensOfJoin(Printed(d, op));
    LongLineRejected(H, lines, Join(Printed(d, op)), NewHash(H, d, op));
  }

  lemma RejectedStays(H: HashFn, before: Disk, op: Op)
    requires EndsLine(LogOf(before)) && !Verified(H, Chunks(LogOf(before), LINE_SIZE))
    ensures EndsLine(LogOf(Apply(H, before, op))) && !Verified(H, Chunks(LogOf(Apply(H, before, op)), LINE_SIZE))
  {
    if op.Event? && ValidEvent(op) {
      var d := InitDisk(before, op.identity);
      var more := NewLine(H, d, op) + "\n";
      ChunksOfLongerFile(LogOf(before), more, LINE_SIZE);
      RejectedForGood(H, Chunks(LogOf(before), LINE_SIZE), Chunks(more, LINE_SIZE));
    }
  }

  // The log of a run verifies exactly when every line it appended fits the verifier's buffer.
  lemma {:induction false} RunVerifies(H: HashFn, ops: seq<Op>)
    requires |ops| < INT_LIMIT && forall op :: op in ops ==> CStrings(op)
    ensures EndsLine(LogOf(Run(H, ops)))
    ensures Verified(H, Chunks(LogOf(Run(H, ops)), LINE_SIZE)) <==> AllFit(H, ops)
  {
    if AllFit(H, ops) {
      RunAgrees(H, ops);
    } else {
      var init, op := ops[..|ops| - 1], ops[|ops| - 1];
      assert forall o :: o in init ==> o in ops;
      RunVerifies(H, init);
      if AllFit(H, init) {
        RunAgrees(H, init);
        OversizeEventRejected(H, Run(H, init), op);
      } else {
        RejectedStays(H, Run(H, init), op);
      }
    }
  }

  // ---------- written out ----------

  ghost predicate FieldRefused(v: string) {
    v == "" || exists c :: c in v && c in "|\n\r"
  }

  lemma RefusedExactly(v: string)
    ensures FieldRefused(v) <==> !ValidField(v)
  {
    assert "|\n\r" == ['|', '\n', '\r'];
  }

  // The four lines of the state file.
  ghost function StateFile(status: string, number: string, head: string): string {
    "continuum_version=1.0\nstate=" + status + "\nsequence=" + number + "\nhead_hash=" + head + "\n"
  }

  lemma StateTextIs(status: string, n: nat, head: string)
    ensures StateText(status, n, head) == StateFile(status, Dec(n), head)
  {
    var a, b, c, d := "continuum_version=1.0", "state=" + status, "sequence=" + Dec(n), "head_hash=" + head;
    LinesOfFour(a, b, c, d);
    Interleave(status, Dec(n), head);
    assert StateText(status, n, head) == Lines([a, b, c, d]);
  }

  lemma LinesCons(a: string, rest: seq<string>)
    ensures Lines([a] + rest) == a + "\n" + Lines(rest)
  {
    assert ([a] + rest)[1..] == rest;
  }

  lemma LinesOfFour(a: string, b: string, c: string, d: string)
    ensures Lines([a, b, c, d]) == a + "\n" + (b + "\n" + (c + "\n" + (d + "\n")))
  {
    LinesCons(a, [b, c, d]);
    LinesCons(b, [c, d]);
    LinesCons(c, [d]);
    LinesCons(d, []);
    assert [a] + [b, c, d] == [a, b, c, d] && [b] + [c, d] == [b, c, d] && [c] + [d] == [c, d] && [d] + [] == [d];
    assert d + "\n" + Lines([]) == d + "\n";
  }

  lemma Interleave(status: string, n: string, head: string)
    ensures var (a, b, c, d) := ("continuum_version=1.0", "state=" + status, "sequence=" + n, "head_hash=" + head);
      a + "\n" + (b + "\n" + (c + "\n" + (d + "\n"))) == StateFile(status, n, head)
  {
    var x, y, z := "continuum_version=1.0" + "\n" + "state=", "\n" + "sequence=", "\n" + "head_hash=";
    assert x == "continuum_version=1.0\nstate=" && y == "\nsequence=" && z == "\nhead_hash=";
    Regrouped("continuum_version=1.0" + "\n", "state=", status, "\n", "sequence=", n, "head_hash=", head);
  }

  lemma Regrouped(a: string, b: string, s: string, e: string, c: string, n: string, d: string, h: string)
    ensures a + (b + s + e + (c + n + e + (d + h + e))) == (a + b) + s + (e + c) + n + (e + d) + h + e
  {
    assert b + s + e + (c + n + e + (d + h + e)) == b + s + (e + c) + n + (e + d) + h + e;
  }

  // A `head_hash=` line that counts.
  ghost predicate HeadLine(buffer: string, h: string) {
    "head_hash=" <= CString(buffer) && |h| == 64 && h == CutAt(CString(buffer)[10..], "\r\n")
  }

  ghost predicate NoHeadBefore(buffers: seq<string>, k: nat)
    requires k <= |buffers|
  {
    forall j, g :: 0 <= j < k ==> !HeadLine(buffers[j], g)
  }

  // The value of the first line that counts, or the genesis value.
  ghost predicate FirstHead(buffers: seq<string>, h: string) {
    (exists k :: 0 <= k < |buffers| && HeadLine(buffers[k], h) && NoHeadBefore(buffers, k))
    || (h == "GENESIS" && NoHeadBefore(buffers, |buffers|))
  }

  ghost predicate StateHead(text: string, h: string) {
    FirstHead(Chunks(text, 256), h)
  }

  lemma {:induction false} StateHashExactly(buffers: seq<string>)
    ensures FirstHead(buffers, StateHash(buffers))
  {
    if buffers != [] {
      StateHashExactly(buffers[1..]);
      if h :| HeadLine(buffers[0], h) {
        assert StateHash(buffers) == h && NoHeadBefore(buffers, 0);
      } else {
        NoFirstHead(buffers[0]);
        assert StateHash(buffers) == StateHash(buffers[1..]);
        FirstHeadLater(buffers, StateHash(buffers));
      }
    }
  }

  lemma NoFirstHead(buffer: string)
    requires forall h :: !HeadLine(buffer, h)
    ensures "head_hash=" <= CString(buffer) ==> |CutAt(CString(buffer)[10..], "\r\n")| != 64
  {
    if "head_hash=" <= CString(buffer) {
      assert !HeadLine(buffer, CutAt(CString(buffer)[10..], "\r\n"));
    }
  }

  lemma FirstHeadLater(buffers: seq<string>, h: string)
    requires buffers != [] && FirstHead(buffers[1..], h) && forall g :: !HeadLine(buffers[0], g)
    ensures FirstHead(buffers, h)
  {
    var rest := buffers[1..];
    if k :| 0 <= k < |rest| && HeadLine(rest[k], h) && NoHeadBefore(rest, k) {
      OneMore(buffers, k);
      assert HeadLine(buffers[k + 1], h);
    } else {
      OneMore(buffers, |rest|);
    }
  }

  lemma OneMore(buffers: seq<string>, k: nat)
    requires k < |buffers| && NoHeadBefore(buffers[1..], k) && forall g :: !HeadLine(buffers[0], g)
    ensures NoHeadBefore(buffers, k + 1)
  {
    forall j, g | 0 <= j < k + 1 ensures !HeadLine(buffers[j], g) {
      if j > 0 {
        assert buffers[j] == buffers[1..][j - 1];
      }
    }
  }

  // The files once initialized.
  ghost predicate Initialized(before: Disk, identity: string, after: Disk) {
    && after.identity == Some(if before.identity.Some? then before.identity.value else identity)
    && after.events == Some(if before.events.Some? then before.events.value else "")
    && after.state == Some(if before.state.Some? then before.state.value
         else StateFile("INITIALIZED", "0", "GENESIS"))
  }

  lemma InitExactly(d: Disk, identity: string)
    ensures Initialized(d, identity, InitDisk(d, identity))
  {
    StateTextIs("INITIALIZED", 0, GENESIS);
    assert Dec(0) == "0";
  }

  // At most 8191 characters are formatted.
  function Cut(text: string): string {
    if |text| < 8192 then text else text[..8191]
  }

  // One event added to initialized files.
  ghost predicate EventAdded(H: HashFn, d: Disk, event: string, actor: string, details: string, timestamp: string,
                             after: Disk)
    requires d.state.Some? && d.events.Some?
  {
    exists head :: StateHead(d.state.value, head) && AddedAfter(H, d, event, actor, details, timestamp, head, after)
  }

  ghost predicate AddedAfter(H: HashFn, d: Disk, event: string, actor: string, details: string, timestamp: string,
                             head: string, after: Disk)
    requires d.events.Some?
  {
    var number := Dec(|Chunks(d.events.value, 8192)| + 1);
    var text := number + "|" + timestamp + "|" + event + "|" + actor + "|" + details + "|" + head;
    var hash := Hex(H(Cut(text)).bytes);
    && after.identity == d.identity
    && after.events == Some(d.events.value + (text + "|" + hash + "\n"))
    && after.state == Some(StateFile("ACTIVE", number, hash))
  }

  lemma EventExactly(H: HashFn, before: Disk, op: Op)
    requires ValidEvent(op)
    ensures EventAdded(H, InitDisk(before, op.identity), op.eventType, op.actor, op.details, op.timestamp,
                       Apply(H, before, op))
  {
    var d := InitDisk(before, op.identity);
    StateHashExactly(Chunks(d.state.value, 256));
    AddedExactly(H, before, op, d, ReadStateHash(d));
  }

  // One event, with its code.
  ghost predicate Logged(H: HashFn, before: Disk, event: string, actor: string, details: string, timestamp: string,
                         identity: string, code: int, after: Disk) {
    if FieldRefused(event) || FieldRefused(actor) || FieldRefused(details) then code == -1 && after == before
    else
      && code == 0
      && exists d ::
        && Initialized(before, identity, d)
        && EventAdded(H, d, event, actor, details, timestamp, after)
  }

  lemma LoggedExactly(H: HashFn, before: Disk, op: Op)
    requires op.Event?
    ensures Logged(H, before, op.eventType, op.actor, op.details, op.timestamp, op.identity,
                   if ValidEvent(op) then 0 else -1, Apply(H, before, op))
  {
    RefusedExactly(op.eventType);
    RefusedExactly(op.actor);
    RefusedExactly(op.details);
    if ValidEvent(op) {
      InitExactly(before, op.identity);
      EventExactly(H, before, op);
    }
  }

  lemma AddedExactly(H: HashFn, before: Disk, op: Op, d: Disk, head: string)
    requires ValidEvent(op) && d == InitDisk(before, op.identity) && head == ReadStateHash(d)
    ensures AddedAfter(H, d, op.eventType, op.actor, op.details, op.timestamp, head, Apply(H, before, op))
  {
    var number, hash := Dec(NextNumber(d)), NewHash(H, d, op);
    JoinOfSix(number, op.timestamp, op.eventType, op.actor, op.details, head);
    JoinSnoc(Printed(d, op), hash);
    StateTextIs("ACTIVE", NextNumber(d), hash);
  }

  // Line `i` of a log in which everything fits: the number, the hash of the line before, its own hash.
  ghost predicate GoodEvent(H: HashFn, buffers: seq<string>, i: nat)
    requires i < |buffers|
  {
    var ts := Tokens(Text(buffers[i]));
    && |ts| >= 7 && Atoi(ts[0]) == i + 1
    && HashAfter(buffers, i, ts[5])
    && ts[6] == Hex(H(Cut(ts[0] + "|" + ts[1] + "|" + ts[2] + "|" + ts[3] + "|" + ts[4] + "|" + ts[5])).bytes)
  }

  // What is printed last on the line before.
  ghost predicate HashAfter(buffers: seq<string>, i: nat, previous: string)
    requires i <= |buffers|
  {
    if i == 0 then previous == "GENESIS"
    else |Tokens(Text(buffers[i - 1]))| >= 7 && previous == Tokens(Text(buffers[i - 1]))[6]
  }

  ghost predicate GoodLog(H: HashFn, buffers: seq<string>) {
    forall i :: 0 <= i < |buffers| ==> GoodEvent(H, buffers, i)
  }

  lemma {:induction false} VerifiedExactly(H: HashFn, buffers: seq<string>)
    ensures Verified(H, buffers) <==> GoodLog(H, buffers)
    ensures Verified(H, buffers) ==> HashAfter(buffers, |buffers|, Head(buffers))
    decreases |buffers|
  {
    if buffers != [] {
      var n := |buffers| - 1;
      VerifiedExactly(H, buffers[..n]);
      GoodLogStep(H, buffers[..n], buffers[n]);
      assert buffers == buffers[..n] + [buffers[n]];
    }
  }

  lemma GoodLogStep(H: HashFn, buffers: seq<string>, x: string)
    requires Verified(H, buffers) <==> GoodLog(H, buffers)
    requires Verified(H, buffers) ==> HashAfter(buffers, |buffers|, Head(buffers))
    ensures Verified(H, buffers + [x]) <==> GoodLog(H, buffers + [x])
    ensures Verified(H, buffers + [x]) ==> HashAfter(buffers + [x], |buffers| + 1, Head(buffers + [x]))
  {
    GoodLogSnoc(H, buffers, x);
    VerifiedStep(H, buffers, x);
    if Verified(H, buffers) {
      AddedLine(H, buffers, x, Head(buffers));
    }
  }

  lemma VerifiedStep(H: HashFn, lines: seq<string>, line: string)
    ensures Verified(H, lines + [line]) <==> Verified(H, lines) && LineOk(H, line, |lines| + 1, Head(lines))
    ensures Verified(H, lines + [line]) ==> HashAfter(lines + [line], |lines| + 1, Head(lines + [line]))
  {
    assert (lines + [line])[..|lines|] == lines;
  }

  lemma GoodLogSnoc(H: HashFn, buffers: seq<string>, x: string)
    ensures GoodLog(H, buffers + [x]) <==> GoodLog(H, buffers) && GoodEvent(H, buffers + [x], |buffers|)
  {
    forall i | 0 <= i < |buffers| ensures GoodEvent(H, buffers + [x], i) <==> GoodEvent(H, buffers, i) {
      SameUpTo(H, buffers, x, i);
    }
  }

  lemma AddedLine(H: HashFn, buffers: seq<string>, x: string, previous: string)
    requires HashAfter(buffers, |buffers|, previous)
    ensures LineOk(H, x, |buffers| + 1, previous) <==> GoodEvent(H, buffers + [x], |buffers|)
  {
    GoodLine(H, buffers + [x], |buffers|, previous);
  }

  lemma SameUpTo(H: HashFn, buffers: seq<string>, x: string, i: nat)
    requires i < |buffers|
    ensures GoodEvent(H, buffers + [x], i) <==> GoodEvent(H, buffers, i)
  {
  }

  lemma GoodLine(H: HashFn, buffers: seq<string>, n: nat, previous: string)
    requires n < |buffers| && HashAfter(buffers, n, previous)
    ensures LineOk(H, buffers[n], n + 1, previous) <==> GoodEvent(H, buffers, n)
  {
    var ts := Tokens(Text(buffers[n]));
    if |ts| >= 7 {
      assert ts[..7][..6] == [ts[0], ts[1], ts[2], ts[3], ts[4], ts[5]];
      JoinOfSix(ts[0], ts[1], ts[2], ts[3], ts[4], ts[5]);
    }
  }

  // ---------- the program ----------

  datatype Verdict = Accepted(events: nat, head: string) | Refused

  class Store {
    const H: HashFn
    var disk: Disk

    constructor (H: HashFn)
      ensures this.H == H && disk == EMPTY_DISK
    {
      this.H := H;
      disk := EMPTY_DISK;
    }

    method Initialize(identity: string)
      modifies this
      ensures disk == Apply(H, old(disk), Init(identity)) && Initialized(old(disk), identity, disk)
    {
      InitExactly(disk, identity);
      if disk.identity.None? {
        disk := disk.(identity := Some(identity));
      }
      if disk.state.None? {
        disk := disk.(state := Some(StateText("INITIALIZED", 0, GENESIS)));
      }
      if disk.events.None? {
        disk := disk.(events := Some(""));
      }
    }

    method CountEvents() returns (count: nat)
      ensures count == |Chunks(LogOf(disk), LINE_SIZE)|
    {
      count := 0;
      var rest := LogOf(disk);
      while rest != ""
        invariant count + |Chunks(rest, LINE_SIZE)| == |Chunks(LogOf(disk), LINE_SIZE)|
        decreases |rest|
      {
        rest := rest[|Fgets(rest, LINE_SIZE)|..];
        count := count + 1;
      }
    }

    method LogEvent(eventType: string, actor: string, details: string, timestamp: string, identity: string)
      returns (code: int)
      modifies this
      ensures disk == Apply(H, old(disk), Event(eventType, actor, details, timestamp, identity))
      ensures Logged(H, old(disk), eventType, actor, details, timestamp, identity, code, disk)
    {
      LoggedExactly(H, disk, Event(eventType, actor, details, timestamp, identity));
      if !ValidField(eventType) || !ValidField(actor) || !ValidField(details) {
        return -1;
      }
      Initialize(identity);
      Commit(eventType, actor, details, timestamp, identity);
      code := 0;
    }

    // The line and the state file of an event whose texts are valid.
    method Commit(eventType: string, actor: string, details: string, timestamp: string, identity: string)
      modifies this
      ensures var op := Event(eventType, actor, details, timestamp, identity);
        && disk.identity == old(disk).identity
        && disk.state == Some(StateText("ACTIVE", NextNumber(old(disk)), NewHash(H, old(disk), op)))
        && disk.events == Some(LogOf(old(disk)) + (NewLine(H, old(disk), op) + "\n"))
    {
      var previousHash := ReadStateHash(disk);
      var count := CountEvents();
      var fields := [Dec(count + 1), timestamp, eventType, actor, details, previousHash];
      var hash := HashHex(H, Snprintf(Join(fields), LINE_SIZE));
      disk := disk.(events := Some(LogOf(disk) + (Join(fields + [hash]) + "\n")));
      disk := disk.(state := Some(StateText("ACTIVE", count + 1, hash)));
    }

    method Verify() returns (verdict: Verdict)
      ensures var lines := Chunks(LogOf(disk), LINE_SIZE);
        verdict == if Verified(H, lines) then Accepted(|lines|, Head(lines)) else Refused
      ensures var lines := Chunks(LogOf(disk), 8192);
        if GoodLog(H, lines)
        then verdict.Accepted? && verdict.events == |lines| && HashAfter(lines, |lines|, verdict.head)
        else verdict == Refused
    {
      VerifiedExactly(H, Chunks(LogOf(disk), 8192));
      var previousHash, expected, rest := GENESIS, 1, LogOf(disk);
      ghost var done: seq<string> := [];
      while rest != ""
        invariant Chunks(LogOf(disk), LINE_SIZE) == done + Chunks(rest, LINE_SIZE)
        invariant Verified(H, done) && previousHash == Head(done) && expected == |done| + 1
        decreases |rest|
      {
        var line := Fgets(rest, LINE_SIZE);
        rest := rest[|line|..];
        NextChunk(done, line, Chunks(rest, LINE_SIZE));
        if !LineOk(H, line, expected, previousHash) {
          BadLine(H, done, line, Chunks(rest, LINE_SIZE));
          return Refused;
        }
        VerifiedSnoc(H, done, line);
        previousHash := FieldsOf(line).value[6];
        expected := expected + 1;
        done := done + [line];
      }
      assert done + Chunks("", LINE_SIZE) == done;
      verdict := Accepted(expected - 1, previousHash);
    }
  }

  lemma BadLine(H: HashFn, done: seq<string>, line: string, more: seq<string>)
    requires !LineOk(H, line, |done| + 1, Head(done))
    ensures !Verified(H, done + ([line] + more))
  {
    NextChunk(done, line, more);
    LastBad(H, done + [line], Head(done));
    RejectedForGood(H, done + [line], more);
  }

  lemma LastBad(H: HashFn, lines: seq<string>, previous: string)
    requires lines != [] && previous == Head(lines[..|lines| - 1])
    requires !LineOk(H, lines[|lines| - 1], |lines|, previous)
    ensures !Verified(H, lines)
  {
  }
}
