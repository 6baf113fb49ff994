/** The JSONL audit ledger: an escaping printer, a hand-written field reader, a hash chain, and a
    verifier that rebuilds each record from what it read. */
module Ledger {
  import opened Hashing
  import opened CText

  const HASH_LEN := 64
  const MAX_EVENT := 128
  const MAX_DETAILS := 1024
  const MAX_LINE := 4096
  const TIMESTAMP_SIZE := 64
  const EVENT_SIZE := MAX_EVENT * 2 + 1
  const DETAILS_SIZE := MAX_DETAILS * 2 + 1
  const HASH_SIZE := HASH_LEN + 1

  const GENESIS := Repeat('0', HASH_LEN)

  function Repeat(c: char, n: nat): (s: string)
    ensures |s| == n && forall i :: 0 <= i < n ==> s[i] == c
  {
    if n == 0 then "" else [c] + Repeat(c, n - 1)
  }

  // ---------- printing a record ----------

  predicate ValidText(s: string, maxLen: nat) {
    s != "" && |s| < maxLen && forall i :: 0 <= i < |s| ==> s[i] >= ' '
  }

  predicate Special(c: char) {
    c == '"' || c == '\\'
  }

  function EscapeChar(c: char): string {
    if Special(c) then ['\\', c] else [c]
  }

  function Escape(s: string): (e: string)
    ensures |s| <= |e| <= 2 * |s|
  {
    if s == "" then "" else EscapeChar(s[0]) + Escape(s[1..])
  }

  predicate Clean(s: string) {
    forall i :: 0 <= i < |s| ==> !Special(s[i])
  }

  function Pattern(key: string): string {
    "\"" + key + "\":\""
  }

  // `"key":"value"`, with `rest` after it.
  function Field(key: string, value: string, rest: string): string {
    Pattern(key) + (value + "\"" + rest)
  }

  function Fields(timestamp: string, event: string, details: string, previous: string, rest: string): string {
    "{" + Field("timestamp", timestamp,
      "," + Field("event", event,
      "," + Field("details", details,
      "," + Field("previous_hash", previous, "}" + rest))))
  }

  // The text that is hashed.
  function Record(timestamp: string, event: string, details: string, previous: string): string {
    Fields(timestamp, Escape(event), Escape(details), previous, "")
  }

  function BuildRecord(timestamp: string, event: string, details: string, previous: string): Option<string> {
    if |Escape(event)| >= EVENT_SIZE || |Escape(details)| >= DETAILS_SIZE then None
    else
      var r := Record(timestamp, event, details, previous);
      if |r| < MAX_LINE then Some(r) else None
  }

  // ---------- reading a field back ----------

  // The closing quote: the first quote that is not right after a backslash.
  function ValueEnd(s: string, j: nat): (r: Option<nat>)
    ensures r.Some? ==> j <= r.value < |s| && s[r.value] == '"'
    decreases |s| - j
  {
    if j >= |s| then None
    else if s[j] == '"' && (j == 0 || s[j - 1] != '\\') then Some(j)
    else ValueEnd(s, j + 1)
  }

  function ExtractField(line: string, field: string, size: nat): (r: Option<string>)
    requires size > 0
  {
    var m := Find(line, Pattern(field), 0);
    if m.None? then None else ReadField(line[m.value + |Pattern(field)|..], size)
  }

  // What is copied into a buffer of `size` bytes, from the text after the opening quote.
  function ReadField(start: string, size: nat): Option<string>
    requires size > 0
  {
    var e := ValueEnd(start, 0);
    if e.None? || e.value >= size then None else Some(start[..e.value])
  }

  // What the reader can return: every quote is right after a backslash, and the text does not end
  // in a backslash.
  ghost predicate Guarded(v: string) {
    forall i :: 0 <= i < |v| && v[i] == '"' ==> i > 0 && v[i - 1] == '\\'
  }

  ghost predicate EndsInBackslash(v: string) {
    v != "" && v[|v| - 1] == '\\'
  }

  ghost predicate Readable(v: string) {
    Guarded(v) && !EndsInBackslash(v)
  }

  lemma {:induction false} ValueEndIsFirst(s: string, j: nat, e: nat)
    requires ValueEnd(s, j) == Some(e)
    ensures s[e] == '"' && (e == 0 || s[e - 1] != '\\')
    ensures forall i :: j <= i < e && s[i] == '"' ==> i > 0 && s[i - 1] == '\\'
    decreases |s| - j
  {
    if j != e {
      ValueEndIsFirst(s, j + 1, e);
    }
  }

  lemma {:induction false} ValueEndFinds(s: string, j: nat, e: nat)
    requires j <= e < |s| && s[e] == '"' && (e == 0 || s[e - 1] != '\\')
    requires forall i :: j <= i < e && s[i] == '"' ==> i > 0 && s[i - 1] == '\\'
    ensures ValueEnd(s, j) == Some(e)
    decreases e - j
  {
    if j != e {
      ValueEndFinds(s, j + 1, e);
    }
  }

  lemma ReadValue(v: string, rest: string)
    requires Readable(v)
    ensures ValueEnd(v + "\"" + rest, 0) == Some(|v|)
    ensures forall size :: size > |v| ==> ReadField(v + "\"" + rest, size) == Some(v)
  {
    ValueEndFinds(v + "\"" + rest, 0, |v|);
    assert (v + "\"" + rest)[..|v|] == v;
  }

  // After a backslash the closing quote is taken for an escaped one: the reader runs on over the
  // comma to the opening quote of the next key.
  lemma ReadPastBackslash(v: string, rest: string, size: nat)
    requires Guarded(v) && EndsInBackslash(v) && size > |v| + 2
    ensures ReadField(v + "\"" + ("," + ("\"" + rest)), size) == Some(v + "\",")
  {
    var w := v + "\",";
    assert v + "\"" + ("," + ("\"" + rest)) == w + "\"" + rest;
    ReadValue(w, rest);
  }

  lemma ExtractedIsReadable(line: string, field: string, size: nat)
    requires size > 0 && ExtractField(line, field, size).Some?
    ensures Readable(ExtractField(line, field, size).value) && |ExtractField(line, field, size).value| < size
  {
    var start := line[Find(line, Pattern(field), 0).value + |Pattern(field)|..];
    ValueEndIsFirst(start, 0, ValueEnd(start, 0).value);
  }

  lemma {:induction false} EscapeIsGuarded(s: string)
    ensures Guarded(Escape(s))
    ensures EndsInBackslash(Escape(s)) <==> EndsInBackslash(s)
  {
    if s != "" {
      EscapeIsGuarded(s[1..]);
      var h, t := EscapeChar(s[0]), Escape(s[1..]);
      assert Escape(s) == h + t;
      assert s[1..] == "" ==> t == "";
      assert s[1..] != "" ==> t != "" && s[|s| - 1] == s[1..][|s| - 2];
      assert t != "" ==> (h + t)[|h + t| - 1] == t[|t| - 1];
      forall i | 0 <= i < |h + t| && (h + t)[i] == '"' ensures i > 0 && (h + t)[i - 1] == '\\' {
        if i >= |h| {
          assert t[i - |h|] == '"';
          assert (h + t)[i - 1] == t[i - |h| - 1];
        }
      }
    }
  }

  lemma {:induction false} EscapeInjective(s: string, t: string)
    requires Escape(s) == Escape(t)
    ensures s == t
  {
    if s == "" || t == "" {
    } else {
      assert Escape(s)[0] == (if Special(s[0]) then '\\' else s[0]);
      assert Escape(t)[0] == (if Special(t[0]) then '\\' else t[0]);
      if Special(s[0]) {
        assert Escape(s)[1] == s[0] && Escape(t)[1] == t[0];
      }
      assert Escape(s[1..]) == Escape(s)[|EscapeChar(s[0])|..];
      assert Escape(t[1..]) == Escape(t)[|EscapeChar(t[0])|..];
      EscapeInjective(s[1..], t[1..]);
      assert s == [s[0]] + s[1..] && t == [t[0]] + t[1..];
    }
  }

  lemma {:induction false} EscapeOfClean(s: string)
    ensures Escape(s) == s <==> Clean(s)
  {
    if s != "" {
      EscapeOfClean(s[1..]);
      assert s == [s[0]] + s[1..];
      if Special(s[0]) {
        if s[0] == '"' {
          assert Escape(s)[0] == '\\';
        } else {
          assert |Escape(s)| >= 2 + |s[1..]|;
        }
      } else {
        assert Escape(s) == [s[0]] + Escape(s[1..]);
        assert Escape(s)[1..] == Escape(s[1..]);
        if Clean(s[1..]) {
          assert forall i :: 0 < i < |s| ==> s[i] == s[1..][i - 1];
        } else {
          var i :| 0 <= i < |s[1..]| && Special(s[1..][i]);
          assert Special(s[i + 1]);
        }
      }
    }
  }

  // Two texts that start with a readable value and its closing quote.
  lemma Peel(v: string, rest: string, w: string, rest': string)
    requires Readable(v) && Readable(w) && v + "\"" + rest == w + "\"" + rest'
    ensures v == w && rest == rest'
  {
    ReadValue(v, rest);
    ReadValue(w, rest');
    assert v == (v + "\"" + rest)[..|v|];
    assert rest == (v + "\"" + rest)[|v| + 1..];
    assert w == (w + "\"" + rest')[..|v|];
    assert rest' == (w + "\"" + rest')[|v| + 1..];
  }

  lemma StripPrefix(p: string, a: string, b: string)
    requires p + a == p + b
    ensures a == b
  {
    assert a == (p + a)[|p|..];
    assert b == (p + b)[|p|..];
  }

  lemma FieldInjective(key: string, v: string, rest: string, w: string, rest': string)
    requires Readable(v) && Readable(w) && Field(key, v, rest) == Field(key, w, rest')
    ensures v == w && rest == rest'
  {
    StripPrefix(Pattern(key), v + "\"" + rest, w + "\"" + rest');
    Peel(v, rest, w, rest');
  }

  lemma FieldsInjective(ts: string, e: string, d: string, prev: string,
                        ts': string, e': string, d': string, prev': string)
    requires Readable(ts) && Readable(e) && Readable(d) && Readable(prev)
    requires Readable(ts') && Readable(e') && Readable(d') && Readable(prev')
    requires Fields(ts, e, d, prev, "") == Fields(ts', e', d', prev', "")
    ensures ts == ts' && e == e' && d == d' && prev == prev'
  {
    var p, p' := Field("previous_hash", prev, "}" + ""), Field("previous_hash", prev', "}" + "");
    var f, f' := Field("details", d, "," + p), Field("details", d', "," + p');
    var g, g' := Field("event", e, "," + f), Field("event", e', "," + f');
    StripPrefix("{", Field("timestamp", ts, "," + g), Field("timestamp", ts', "," + g'));
    FieldInjective("timestamp", ts, "," + g, ts', "," + g');
    StripPrefix(",", g, g');
    FieldInjective("event", e, "," + f, e', "," + f');
    StripPrefix(",", f, f');
    FieldInjective("details", d, "," + p, d', "," + p');
    StripPrefix(",", p, p');
    FieldInjective("previous_hash", prev, "}" + "", prev', "}" + "");
  }

  // No two different readings give the same text to hash.
  lemma RecordInjective(ts: string, ev: string, det: string, prev: string,
                        ts': string, ev': string, det': string, prev': string)
    requires Readable(ts) && Readable(ev) && Readable(det) && Readable(prev)
    requires Readable(ts') && Readable(ev') && Readable(det') && Readable(prev')
    requires Record(ts, ev, det, prev) == Record(ts', ev', det', prev')
    ensures ts == ts' && ev == ev' && det == det' && prev == prev'
  {
    EscapeIsGuarded(ev);
    EscapeIsGuarded(ev');
    EscapeIsGuarded(det);
    EscapeIsGuarded(det');
    FieldsInjective(ts, Escape(ev), Escape(det), prev, ts', Escape(ev'), Escape(det'), prev');
    EscapeInjective(ev, ev');
    EscapeInjective(det, det');
  }

  // ---------- finding the right key ----------

  ghost predicate KeyName(k: string) {
    k != "" && forall i :: 0 <= i < |k| ==> k[i] !in "\"\\:,}"
  }

  ghost predicate NoMatchBefore(line: string, n: nat, key: string) {
    forall i :: 0 <= i < n ==> !MatchAt(line, i, Pattern(key))
  }

  // What a match of `"key":"` shows, but for its last quote.
  ghost predicate LooksLike(s: string, i: nat, key: string) {
    && i + |key| + 3 < |s| && s[i] == '"' && s[i + 1 + |key|] == '"' && s[i + 2 + |key|] == ':'
    && forall j :: 0 <= j < |key| ==> s[i + 1 + j] == key[j]
  }

  lemma MatchLooks(s: string, i: nat, key: string)
    ensures MatchAt(s, i, Pattern(key)) ==> LooksLike(s, i, key)
  {
    var p := Pattern(key);
    assert |p| == |key| + 4 && p[0] == p[|key| + 1] == '"' && p[|key| + 2] == ':';
    assert forall j :: 0 <= j < |key| ==> p[1 + j] == key[j];
    if MatchAt(s, i, p) {
      assert forall j :: 0 <= j < |p| ==> s[i + j] == s[i..i + |p|][j] == p[j];
      assert s[i + 0] == p[0];
      assert s[i + (|key| + 1)] == p[|key| + 1];
      assert s[i + (|key| + 2)] == p[|key| + 2];
      forall j | 0 <= j < |key| ensures s[i + 1 + j] == key[j] {
        assert s[i + (1 + j)] == p[1 + j];
      }
    }
  }

  // Where the characters of `"k":"v"` and of what follows stand.
  ghost predicate FieldAt(line: string, n: nat, k: string, v: string) {
    var q := n + |k| + 4;
    && q + |v| + 1 < |line|
    && line[n] == '"' && line[n + |k| + 1] == '"' && line[n + |k| + 2] == ':' && line[n + |k| + 3] == '"'
    && (forall j :: n < j <= n + |k| ==> line[j] == k[j - n - 1])
    && (forall j :: q <= j < q + |v| ==> line[j] == v[j - q])
    && line[q + |v|] == '"' && line[q + |v| + 1] in ",}"
  }

  lemma FieldChars(line: string, n: nat, k: string, v: string, rest: string)
    requires n <= |line| && line[n..] == Field(k, v, rest) && rest != "" && rest[0] in ",}"
    ensures FieldAt(line, n, k, v)
  {
    var p := Field(k, v, rest);
    assert Pattern(k) == "\"" + k + "\":\"";
    assert forall j :: n <= j < |line| ==> line[j] == p[j - n];
  }

  // Nothing inside `"k":"v"` looks like the start of another key, whatever text the value holds:
  // not the quotes of `k`, not the opening or closing quote of `v`, and no quote within `v`.
  lemma NothingLooksLikeKey(line: string, n: nat, k: string, v: string, i: nat, key: string)
    requires KeyName(k) && KeyName(key) && k != key && Guarded(v) && FieldAt(line, n, k, v)
    requires n <= i < n + |k| + |v| + 5
    ensures !LooksLike(line, i, key)
  {
    var q, c := n + |k| + 4, n + |k| + 4 + |v|;
    var second := i + 1 + |key|;
    assert key[0] !in ":,}";
    if i == n {
      if |key| < |k| {
        assert line[second] == k[|key|];
      } else if |key| > |k| {
        assert line[n + 1 + |k|] == '"' != key[|k|];
      } else {
        assert forall j :: 0 <= j < |k| ==> line[n + 1 + j] == k[j];
        assert (forall j :: 0 <= j < |k| ==> k[j] == key[j]) ==> k == key;
      }
    } else if i <= n + |k| {
      assert line[i] == k[i - n - 1];
    } else if i <= n + |k| + 2 || i == c {
      assert line[i] == ':' || line[i + 1] in ":,}";
    } else if second < c {
      assert line[second] == v[second - q];
      assert second - 1 >= q ==> line[second - 1] == v[second - 1 - q];
      assert key[|key| - 1] != '\\';
      assert line[second - 1] == line[i + 1 + (|key| - 1)];
    } else if second == c {
      assert line[second + 1] in ",}";
    } else {
      assert line[c] == '"' != key[c - i - 1];
      assert line[c] == line[i + 1 + (c - i - 1)];
    }
  }

  // The search for another key passes over a whole field, its separator first.
  lemma SearchSkips(line: string, n: nat, sep: string, k: string, v: string, rest: string, key: string)
    requires KeyName(k) && KeyName(key) && k != key && Guarded(v)
    requires NoMatchBefore(line, n, key) && Lacks(sep, '"')
    requires n <= |line| && line[n..] == sep + Field(k, v, rest) && rest != "" && rest[0] in ",}"
    ensures NoMatchBefore(line, n + |sep| + |k| + |v| + 5, key)
    ensures n + |sep| + |k| + |v| + 5 <= |line|
    ensures line[n + |sep| + |k| + |v| + 5..] == rest
  {
    var m := n + |sep|;
    assert line[m..] == line[n..][|sep|..] == Field(k, v, rest);
    FieldChars(line, m, k, v, rest);
    forall i | n <= i < m + |k| + |v| + 5 ensures !MatchAt(line, i, Pattern(key)) {
      MatchLooks(line, i, key);
      if i < m {
        assert line[i] == line[n..][i - n] == sep[i - n];
      } else {
        NothingLooksLikeKey(line, m, k, v, i, key);
      }
    }
    var e := m + |k| + |v| + 5;
    assert |Field(k, v, rest)| == |k| + |v| + 5 + |rest|;
    assert line[e..] == Field(k, v, rest)[|k| + |v| + 5..] == rest;
  }

  // The search stops at its own key.
  lemma SearchStops(line: string, n: nat, sep: string, v: string, rest: string, key: string, size: nat)
    requires NoMatchBefore(line, n, key) && Lacks(sep, '"') && size > 0
    requires n <= |line| && line[n..] == sep + Field(key, v, rest)
    ensures ExtractField(line, key, size) == ReadField(v + "\"" + rest, size)
  {
    var m, p := n + |sep|, Pattern(key);
    forall i | n <= i < m ensures !MatchAt(line, i, p) {
      MatchLooks(line, i, key);
      assert line[i] == line[n..][i - n] == sep[i - n];
    }
    assert line[m..] == line[n..][|sep|..] == p + (v + "\"" + rest);
    assert line[m..m + |p|] == line[m..][..|p|] == p;
    assert line[m + |p|..] == line[m..][|p|..] == v + "\"" + rest;
    FindsFirst(line, p, 0, m);
  }

  // ---------- the line that is appended ----------

  function LineText(timestamp: string, event: string, details: string, previous: string, hash: string): string {
    Fields(timestamp, event, details, previous, "," + Field("hash", hash, "}"))
  }

  lemma FieldThen(key: string, v: string, a: string, b: string)
    ensures Field(key, v, a) + b == Field(key, v, a + b)
  {
    var p, w := Pattern(key), v + "\"";
    assert (p + (w + a)) + b == p + (w + (a + b));
  }

  // The record and the hash printed after it make the line.
  lemma RecordThenHash(ts: string, e: string, d: string, prev: string, tail: string)
    ensures Fields(ts, e, d, prev, "") + tail == Fields(ts, e, d, prev, tail)
  {
    var p := Field("previous_hash", prev, "}" + "");
    var f := Field("details", d, "," + p);
    var g := Field("event", e, "," + f);
    FieldThen("previous_hash", prev, "}" + "", tail);
    assert "}" + "" + tail == "}" + tail;
    FieldThen("details", d, "," + p, tail);
    assert "," + p + tail == "," + (p + tail);
    FieldThen("event", e, "," + f, tail);
    assert "," + f + tail == "," + (f + tail);
    FieldThen("timestamp", ts, "," + g, tail);
    assert "," + g + tail == "," + (g + tail);
    assert "{" + Field("timestamp", ts, "," + g) + tail == "{" + (Field("timestamp", ts, "," + g) + tail);
  }

  lemma FieldsLength(ts: string, e: string, d: string, prev: string, rest: string)
    ensures |Fields(ts, e, d, prev, rest)| == |ts| + |e| + |d| + |prev| + |rest| + 59
  {
  }

  lemma FieldLacks(key: string, v: string, rest: string, c: char)
    requires c != '"' && c != ':' && Lacks(key, c) && Lacks(v, c) && Lacks(rest, c)
    ensures Lacks(Field(key, v, rest), c)
  {
  }

  lemma LineLacks(ts: string, e: string, d: string, prev: string, h: string, c: char)
    requires c < ' ' && Lacks(ts, c) && Lacks(e, c) && Lacks(d, c) && Lacks(prev, c) && Lacks(h, c)
    ensures Lacks(LineText(ts, e, d, prev, h), c)
  {
    var hash := "," + Field("hash", h, "}");
    var p := Field("previous_hash", prev, "}" + hash);
    var f := Field("details", d, "," + p);
    FieldLacks("hash", h, "}", c);
    FieldLacks("previous_hash", prev, "}" + hash, c);
    FieldLacks("details", d, "," + p, c);
    FieldLacks("event", e, "," + f, c);
    FieldLacks("timestamp", ts, "," + Field("event", e, "," + f), c);
  }

  // The places of the five fields in a line.
  ghost predicate Laid(line: string, ts: string, e: string, d: string, prev: string, h: string) {
    && line == LineText(ts, e, d, prev, h)
    && Readable(ts) && Guarded(e) && Guarded(d) && Readable(prev) && Readable(h)
  }

  lemma ReadTimestamp(line: string, ts: string, e: string, d: string, prev: string, h: string, size: nat)
    requires Laid(line, ts, e, d, prev, h) && size > |ts|
    ensures ExtractField(line, "timestamp", size) == Some(ts)
  {
    var r1 := AfterTimestamp(e, d, prev, h);
    assert line[0..] == line == "{" + Field("timestamp", ts, r1);
    SearchStops(line, 0, "{", ts, r1, "timestamp", size);
    ReadValue(ts, r1);
  }

  function AfterTimestamp(e: string, d: string, prev: string, h: string): string {
    "," + Field("event", e, AfterEvent(d, prev, h))
  }

  function AfterEvent(d: string, prev: string, h: string): string {
    "," + Field("details", d, AfterDetails(prev, h))
  }

  function AfterDetails(prev: string, h: string): string {
    "," + Field("previous_hash", prev, AfterPrevious(h))
  }

  function AfterPrevious(h: string): string {
    "}" + ("," + Field("hash", h, "}"))
  }

  // Where the search for `key` stands after the first field, and so on.
  lemma PastTimestamp(line: string, ts: string, e: string, d: string, prev: string, h: string,
                      key: string) returns (n: nat)
    requires Laid(line, ts, e, d, prev, h) && KeyName(key) && key != "timestamp"
    ensures NoMatchBefore(line, n, key) && n <= |line| && line[n..] == AfterTimestamp(e, d, prev, h)
  {
    assert line[0..] == line == "{" + Field("timestamp", ts, AfterTimestamp(e, d, prev, h));
    SearchSkips(line, 0, "{", "timestamp", ts, AfterTimestamp(e, d, prev, h), key);
    n := 0 + |"{"| + |"timestamp"| + |ts| + 5;
  }

  lemma PastEvent(line: string, ts: string, e: string, d: string, prev: string, h: string, key: string) returns (n: nat)
    requires Laid(line, ts, e, d, prev, h) && KeyName(key) && key !in ["timestamp", "event"]
    ensures NoMatchBefore(line, n, key) && n <= |line| && line[n..] == AfterEvent(d, prev, h)
  {
    n := PastTimestamp(line, ts, e, d, prev, h, key);
    SearchSkips(line, n, ",", "event", e, AfterEvent(d, prev, h), key);
    n := n + |","| + |"event"| + |e| + 5;
  }

  lemma PastDetails(line: string, ts: string, e: string, d: string, prev: string, h: string,
                    key: string) returns (n: nat)
    requires Laid(line, ts, e, d, prev, h) && KeyName(key) && key !in ["timestamp", "event", "details"]
    ensures NoMatchBefore(line, n, key) && n <= |line| && line[n..] == AfterDetails(prev, h)
  {
    n := PastEvent(line, ts, e, d, prev, h, key);
    SearchSkips(line, n, ",", "details", d, AfterDetails(prev, h), key);
    n := n + |","| + |"details"| + |d| + 5;
  }

  lemma ReadEvent(line: string, ts: string, e: string, d: string, prev: string, h: string, size: nat)
    requires Laid(line, ts, e, d, prev, h) && size > |e| + 2
    ensures ExtractField(line, "event", size) == Some(if EndsInBackslash(e) then e + "\"," else e)
  {
    var n := PastTimestamp(line, ts, e, d, prev, h, "event");
    var rest := AfterEvent(d, prev, h);
    SearchStops(line, n, ",", e, rest, "event", size);
    if EndsInBackslash(e) {
      QuoteFirst("details", d, AfterDetails(prev, h));
      ReadPastBackslash(e, rest[2..], size);
    } else {
      ReadValue(e, rest);
    }
  }

  lemma QuoteFirst(key: string, v: string, rest: string)
    ensures "," + Field(key, v, rest) == "," + ("\"" + ("," + Field(key, v, rest))[2..])
  {
  }

  lemma ReadDetails(line: string, ts: string, e: string, d: string, prev: string, h: string, size: nat)
    requires Laid(line, ts, e, d, prev, h) && size > |d| + 2
    ensures ExtractField(line, "details", size) == Some(if EndsInBackslash(d) then d + "\"," else d)
  {
    var n := PastEvent(line, ts, e, d, prev, h, "details");
    var rest := AfterDetails(prev, h);
    SearchStops(line, n, ",", d, rest, "details", size);
    if EndsInBackslash(d) {
      QuoteFirst("previous_hash", prev, AfterPrevious(h));
      ReadPastBackslash(d, rest[2..], size);
    } else {
      ReadValue(d, rest);
    }
  }

  lemma ReadPrevious(line: string, ts: string, e: string, d: string, prev: string, h: string, size: nat)
    requires Laid(line, ts, e, d, prev, h) && size > |prev|
    ensures ExtractField(line, "previous_hash", size) == Some(prev)
  {
    var n := PastDetails(line, ts, e, d, prev, h, "previous_hash");
    SearchStops(line, n, ",", prev, AfterPrevious(h), "previous_hash", size);
    ReadValue(prev, AfterPrevious(h));
  }

  lemma FindHash(line: string, ts: string, e: string, d: string, prev: string, h: string) returns (n: nat)
    requires Laid(line, ts, e, d, prev, h)
    ensures NoMatchBefore(line, n, "hash") && n <= |line| && line[n..] == "}," + Field("hash", h, "}")
  {
    n := PastDetails(line, ts, e, d, prev, h, "hash");
    SearchSkips(line, n, ",", "previous_hash", prev, AfterPrevious(h), "hash");
    n := n + |","| + |"previous_hash"| + |prev| + 5;
    assert AfterPrevious(h) == "}," + Field("hash", h, "}");
  }

  lemma ReadHash(line: string, ts: string, e: string, d: string, prev: string, h: string, size: nat)
    requires Laid(line, ts, e, d, prev, h) && size > |h|
    ensures ExtractField(line, "hash", size) == Some(h)
  {
    var n := FindHash(line, ts, e, d, prev, h);
    SearchStops(line, n, "},", h, "}", "hash", size);
    ReadValue(h, "}");
  }

  // ---------- verifying a file ----------

  datatype Entry = Entry(timestamp: string, event: string, details: string, previous: string, hash: string)

  function Canonical(e: Entry): string {
    Record(e.timestamp, e.event, e.details, e.previous)
  }

  // The five fields the verifier reads off a buffer; None for a line too long, cut or malformed.
  function EntryOf(buffer: string): Option<Entry> {
    var s := CString(buffer);
    if s == "" || s[|s| - 1] != '\n' then None else ParseLine(s[..|s| - 1])
  }

  function ParseLine(line: string): Option<Entry> {
    var timestamp := ExtractField(line, "timestamp", TIMESTAMP_SIZE);
    var event := ExtractField(line, "event", EVENT_SIZE);
    var details := ExtractField(line, "details", DETAILS_SIZE);
    var previous := ExtractField(line, "previous_hash", HASH_SIZE);
    var hash := ExtractField(line, "hash", HASH_SIZE);
    if timestamp.None? || event.None? || details.None? || previous.None? || hash.None? then None
    else Some(Entry(timestamp.value, event.value, details.value, previous.value, hash.value))
  }

  ghost predicate LineOk(H: HashFn, buffer: string, expected: string) {
    && EntryOf(buffer).Some?
    && var e := EntryOf(buffer).value;
    && e.previous == expected
    && BuildRecord(e.timestamp, e.event, e.details, e.previous).Some?
    && HashHex(H, Canonical(e)) == e.hash
  }

  // What the next line's previous_hash is compared with.
  function Expected(buffers: seq<string>): string {
    if buffers == [] then GENESIS
    else
      var n := |buffers| - 1;
      if EntryOf(buffers[n]).Some? then EntryOf(buffers[n]).value.hash else Expected(buffers[..n])
  }

  // The verifier finds nothing broken in the buffers of a file.
  ghost predicate Accepted(H: HashFn, buffers: seq<string>) {
    buffers == [] ||
    var n := |buffers| - 1;
    Accepted(H, buffers[..n]) && LineOk(H, buffers[n], Expected(buffers[..n]))
  }

  function Entries(buffers: seq<string>): seq<Entry> {
    if buffers == [] then []
    else
      var n := |buffers| - 1;
      Entries(buffers[..n]) + if EntryOf(buffers[n]).Some? then [EntryOf(buffers[n]).value] else []
  }

  // The texts the verifier hashes.
  ghost function Canonicals(buffers: seq<string>): set<string> {
    set e | e in Entries(buffers) :: Canonical(e)
  }

  // The hash shows a weakness among the strings hashed: a collision, or the genesis value.
  ghost predicate HashBroken(H: HashFn, hashed: set<string>) {
    Collision(H, hashed) || exists x :: x in hashed && HashHex(H, x) == GENESIS
  }

  lemma EntryOfReadable(buffer: string)
    requires EntryOf(buffer).Some?
    ensures var e := EntryOf(buffer).value;
      Readable(e.timestamp) && Readable(e.event) && Readable(e.details) && Readable(e.previous)
  {
    var s := CString(buffer);
    var line := s[..|s| - 1];
    ExtractedIsReadable(line, "timestamp", TIMESTAMP_SIZE);
    ExtractedIsReadable(line, "event", EVENT_SIZE);
    ExtractedIsReadable(line, "details", DETAILS_SIZE);
    ExtractedIsReadable(line, "previous_hash", HASH_SIZE);
  }

  // Equal stored hashes: one entry, or a collision.
  lemma EntryBinding(H: HashFn, a: string, p: string, b: string, q: string, hashed: set<string>)
    requires LineOk(H, a, p) && LineOk(H, b, q)
    requires EntryOf(a).value.hash == EntryOf(b).value.hash
    requires Canonical(EntryOf(a).value) in hashed && Canonical(EntryOf(b).value) in hashed
    ensures Collision(H, hashed) || (EntryOf(a) == EntryOf(b) && p == q)
  {
    var e, f := EntryOf(a).value, EntryOf(b).value;
    EntryOfReadable(a);
    EntryOfReadable(b);
    EqualHexHashes(H, Canonical(e), Canonical(f), hashed);
    if Canonical(e) == Canonical(f) {
      RecordInjective(e.timestamp, e.event, e.details, e.previous, f.timestamp, f.event, f.details, f.previous);
    }
  }

  lemma CanonicalsInit(buffers: seq<string>, hashed: set<string>)
    requires buffers != [] && EntryOf(buffers[|buffers| - 1]).Some? && Canonicals(buffers) <= hashed
    ensures Canonicals(buffers[..|buffers| - 1]) <= hashed
    ensures Canonical(EntryOf(buffers[|buffers| - 1]).value) in hashed
  {
    var e, init := EntryOf(buffers[|buffers| - 1]).value, Entries(buffers[..|buffers| - 1]);
    assert Entries(buffers) == init + [e];
    forall x | x in init + [e] ensures Canonical(x) in hashed {
      assert Canonical(x) in Canonicals(buffers);
    }
    assert e in init + [e];
    assert forall x :: x in init ==> x in init + [e];
  }

  lemma {:induction false} AcceptedBinding(H: HashFn, a: seq<string>, b: seq<string>, hashed: set<string>)
    requires Accepted(H, a) && Accepted(H, b) && Expected(a) == Expected(b)
    requires Canonicals(a) <= hashed && Canonicals(b) <= hashed
    ensures HashBroken(H, hashed) || (Entries(a) == Entries(b) && |a| == |b|)
    decreases |a|
  {
    var m, n := |a| - 1, |b| - 1;
    if a != [] { CanonicalsInit(a, hashed); }
    if b != [] { CanonicalsInit(b, hashed); }
    if a != [] && b != [] {
      EntryBinding(H, a[m], Expected(a[..m]), b[n], Expected(b[..n]), hashed);
      if !Collision(H, hashed) {
        AcceptedBinding(H, a[..m], b[..n], hashed);
      }
    } else if a != [] {
      assert HashHex(H, Canonical(EntryOf(a[m]).value)) == GENESIS;
    } else if b != [] {
      assert HashHex(H, Canonical(EntryOf(b[n]).value)) == GENESIS;
    }
  }

  // Two files the verifier accepts with the same last stored hash hold the same entries, and so
  // the same number of them.
  lemma LedgerBinding(H: HashFn, a: string, b: string)
    requires Accepted(H, Chunks(a, MAX_LINE)) && Accepted(H, Chunks(b, MAX_LINE))
    requires Expected(Chunks(a, MAX_LINE)) == Expected(Chunks(b, MAX_LINE))
    ensures Entries(Chunks(a, MAX_LINE)) == Entries(Chunks(b, MAX_LINE))
         || HashBroken(H, Canonicals(Chunks(a, MAX_LINE)) + Canonicals(Chunks(b, MAX_LINE)))
  {
    var x, y := Chunks(a, MAX_LINE), Chunks(b, MAX_LINE);
    AcceptedBinding(H, x, y, Canonicals(x) + Canonicals(y));
  }

  // Every buffer holds an entry.
  ghost predicate AllParse(buffers: seq<string>) {
    buffers == [] || (AllParse(buffers[..|buffers| - 1]) && EntryOf(buffers[|buffers| - 1]).Some?)
  }

  // What makes entries a chain.
  ghost predicate EntryOk(H: HashFn, e: Entry, expected: string) {
    && e.previous == expected && BuildRecord(e.timestamp, e.event, e.details, e.previous).Some?
    && HashHex(H, Canonical(e)) == e.hash
  }

  function HeadOf(es: seq<Entry>): string {
    if es == [] then GENESIS else es[|es| - 1].hash
  }

  ghost predicate Chained(H: HashFn, es: seq<Entry>) {
    es == [] || (Chained(H, es[..|es| - 1]) && EntryOk(H, es[|es| - 1], HeadOf(es[..|es| - 1])))
  }

  lemma ChainedSnoc(H: HashFn, es: seq<Entry>, e: Entry)
    ensures Chained(H, es + [e]) <==> Chained(H, es) && EntryOk(H, e, HeadOf(es))
    ensures HeadOf(es + [e]) == e.hash
  {
    assert (es + [e])[..|es|] == es;
  }

  lemma LineIs(H: HashFn, x: string, expected: string)
    ensures LineOk(H, x, expected) <==> EntryOf(x).Some? && EntryOk(H, EntryOf(x).value, expected)
  {
  }

  lemma Snoc(H: HashFn, a: seq<string>, x: string)
    ensures AllParse(a + [x]) <==> AllParse(a) && EntryOf(x).Some?
    ensures Accepted(H, a + [x]) <==> Accepted(H, a) && LineOk(H, x, Expected(a))
    ensures EntryOf(x).Some? ==> Entries(a + [x]) == Entries(a) + [EntryOf(x).value]
    ensures EntryOf(x).Some? ==> Expected(a + [x]) == EntryOf(x).value.hash
  {
    assert (a + [x])[..|a|] == a;
  }

  // The verdict depends on the entries alone, once every line holds one.
  lemma {:induction false} AcceptedIsChained(H: HashFn, a: seq<string>)
    ensures Accepted(H, a) <==> AllParse(a) && Chained(H, Entries(a))
    ensures AllParse(a) ==> Expected(a) == HeadOf(Entries(a))
    decreases |a|
  {
    if a != [] {
      var init, x := a[..|a| - 1], a[|a| - 1];
      AcceptedIsChained(H, init);
      SnocIsChained(H, init, x);
      assert a == init + [x];
    }
  }

  lemma SnocIsChained(H: HashFn, a: seq<string>, x: string)
    requires Accepted(H, a) <==> AllParse(a) && Chained(H, Entries(a))
    requires AllParse(a) ==> Expected(a) == HeadOf(Entries(a))
    ensures Accepted(H, a + [x]) <==> AllParse(a + [x]) && Chained(H, Entries(a + [x]))
    ensures AllParse(a + [x]) ==> Expected(a + [x]) == HeadOf(Entries(a + [x]))
  {
    Snoc(H, a, x);
    LineIs(H, x, Expected(a));
    if EntryOf(x).Some? {
      ChainedSnoc(H, Entries(a), EntryOf(x).value);
    }
  }

  // Exactly what the verifier binds: against an accepted ledger, another is accepted with the same last
  // stored hash if and only if all its lines hold entries, the same ones, or the hash is broken.
  lemma LedgerBindingExact(H: HashFn, a: string, b: string)
    requires Accepted(H, Chunks(a, MAX_LINE))
    ensures var (x, y) := (Chunks(a, MAX_LINE), Chunks(b, MAX_LINE));
      && (AllParse(y) && Entries(y) == Entries(x) ==> Accepted(H, y) && Expected(y) == Expected(x))
      && (Accepted(H, y) && Expected(y) == Expected(x)
          ==> (AllParse(y) && Entries(y) == Entries(x)) || HashBroken(H, Canonicals(x) + Canonicals(y)))
  {
    AcceptedIsChained(H, Chunks(a, MAX_LINE));
    AcceptedIsChained(H, Chunks(b, MAX_LINE));
    if Accepted(H, Chunks(b, MAX_LINE)) && Expected(Chunks(b, MAX_LINE)) == Expected(Chunks(a, MAX_LINE)) {
      LedgerBinding(H, a, b);
    }
  }

  // ---------- appending ----------

  datatype Event = Event(timestamp: string, event: string, details: string)

  // What `strftime` writes with "%Y-%m-%dT%H:%M:%S%z" into 32 bytes.
  ghost predicate TimestampText(s: string) {
    |s| < 32 && Clean(s) && forall i :: 0 <= i < |s| ==> s[i] >= ' '
  }

  ghost predicate ValidEvent(e: Event) {
    TimestampText(e.timestamp) && ValidText(e.event, MAX_EVENT) && ValidText(e.details, MAX_DETAILS)
  }

  function HashIn(buffer: string, before: string): string {
    var line := CString(buffer);
    var m := Find(line, Pattern("hash"), 0);
    if m.None? then before else
      var value := line[m.value + 8..];
      if |value| < HASH_LEN || !IsHex(value[..HASH_LEN]) then before else value[..HASH_LEN]
  }

  // `get_last_hash`.
  function LastHash(buffers: seq<string>): string {
    if buffers == [] then GENESIS
    else HashIn(buffers[|buffers| - 1], LastHash(buffers[..|buffers| - 1]))
  }

  // The file after an append, and the exit code.
  function AppendTo(H: HashFn, file: string, e: Event): (string, nat) {
    if !ValidText(e.event, MAX_EVENT) || !ValidText(e.details, MAX_DETAILS) then (file, 2)
    else
      var r := BuildRecord(e.timestamp, e.event, e.details, LastHash(Chunks(file, MAX_LINE)));
      if r.None? then (file, 8)
      else (file + (r.value + ("," + Field("hash", HashHex(H, r.value), "}")) + "\n"), 0)
  }

  // A run of appends from the empty file.
  function Run(H: HashFn, es: seq<Event>): string {
    if es == [] then "" else AppendTo(H, Run(H, es[..|es| - 1]), es[|es| - 1]).0
  }

  // The hash the run ends with, and the last text it hashed.
  function RunHead(H: HashFn, es: seq<Event>): string
    decreases |es|, 1
  {
    if es == [] then GENESIS else HashHex(H, LastRecord(H, es))
  }

  function LastRecord(H: HashFn, es: seq<Event>): string
    requires es != []
    decreases |es|, 0
  {
    var e := es[|es| - 1];
    Record(e.timestamp, e.event, e.details, RunHead(H, es[..|es| - 1]))
  }

  function LastLine(H: HashFn, es: seq<Event>): string
    requires es != []
  {
    var e := es[|es| - 1];
    LineText(e.timestamp, Escape(e.event), Escape(e.details), RunHead(H, es[..|es| - 1]), RunHead(H, es))
  }

  lemma {:induction false} EscapeLacks(s: string, c: char)
    requires Lacks(s, c) && c != '\\'
    ensures Lacks(Escape(s), c)
  {
    if s != "" {
      EscapeLacks(s[1..], c);
      assert Escape(s) == EscapeChar(s[0]) + Escape(s[1..]);
    }
  }

  lemma HexIsReadable(h: string)
    requires IsHex(h)
    ensures Readable(h) && Lacks(h, '\n') && Lacks(h, '\0')
  {
  }

  lemma RunHeadIsHex(H: HashFn, es: seq<Event>)
    ensures IsHex(RunHead(H, es)) && |RunHead(H, es)| == HASH_LEN
  {
    assert GENESIS == Repeat('0', HASH_LEN);
  }

  lemma LastLineLaid(H: HashFn, es: seq<Event>)
    requires es != [] && ValidEvent(es[|es| - 1])
    ensures var e := es[|es| - 1];
      Laid(LastLine(H, es), e.timestamp, Escape(e.event), Escape(e.details), RunHead(H, es[..|es| - 1]), RunHead(H, es))
    ensures Lacks(LastLine(H, es), '\n') && Lacks(LastLine(H, es), '\0')
    ensures |LastLine(H, es)| + 2 <= MAX_LINE
  {
    var e := es[|es| - 1];
    var prev, h := RunHead(H, es[..|es| - 1]), RunHead(H, es);
    RunHeadIsHex(H, es);
    RunHeadIsHex(H, es[..|es| - 1]);
    HexIsReadable(prev);
    HexIsReadable(h);
    EscapeIsGuarded(e.event);
    EscapeIsGuarded(e.details);
    assert Readable(e.timestamp);
    forall c | c in ['\n', '\0'] ensures Lacks(LastLine(H, es), c) {
      EscapeLacks(e.event, c);
      EscapeLacks(e.details, c);
      LineLacks(e.timestamp, Escape(e.event), Escape(e.details), prev, h, c);
    }
    FieldsLength(e.timestamp, Escape(e.event), Escape(e.details), prev, "," + Field("hash", h, "}"));
    assert |"," + Field("hash", h, "}")| == 75;
  }

  lemma BuildsRecord(e: Event, prev: string)
    requires ValidEvent(e) && |prev| == HASH_LEN
    ensures BuildRecord(e.timestamp, e.event, e.details, prev)
         == Some(Record(e.timestamp, e.event, e.details, prev))
  {
    FieldsLength(e.timestamp, Escape(e.event), Escape(e.details), prev, "");
  }

  lemma AppendsLine(H: HashFn, e: Event, prev: string, file: string)
    requires ValidEvent(e) && LastHash(Chunks(file, MAX_LINE)) == prev
    requires BuildRecord(e.timestamp, e.event, e.details, prev) == Some(Record(e.timestamp, e.event, e.details, prev))
    ensures AppendTo(H, file, e) ==
      (file + (LineText(e.timestamp, Escape(e.event), Escape(e.details), prev,
                        HashHex(H, Record(e.timestamp, e.event, e.details, prev))) + "\n"), 0)
  {
    var r := Record(e.timestamp, e.event, e.details, prev);
    var tail := "," + Field("hash", HashHex(H, r), "}");
    RecordThenHash(e.timestamp, Escape(e.event), Escape(e.details), prev, tail);
    assert file + (r + tail) + "\n" == file + (r + tail + "\n");
  }

  lemma LastRecordIs(H: HashFn, es: seq<Event>)
    requires es != []
    ensures var e := es[|es| - 1];
      RunHead(H, es) == HashHex(H, Record(e.timestamp, e.event, e.details, RunHead(H, es[..|es| - 1])))
  {
    assert RunHead(H, es) == HashHex(H, LastRecord(H, es));
  }

  // A valid event always fits, and what is appended is one line.
  lemma AppendWritesLine(H: HashFn, es: seq<Event>, file: string)
    requires es != [] && ValidEvent(es[|es| - 1])
    requires LastHash(Chunks(file, MAX_LINE)) == RunHead(H, es[..|es| - 1])
    ensures AppendTo(H, file, es[|es| - 1]) == (file + (LastLine(H, es) + "\n"), 0)
  {
    var e := es[|es| - 1];
    var prev := RunHead(H, es[..|es| - 1]);
    RunHeadIsHex(H, es[..|es| - 1]);
    BuildsRecord(e, prev);
    AppendsLine(H, e, prev, file);
    LastRecordIs(H, es);
  }

  lemma HashTail(h: string, tail: string)
    requires tail == Field("hash", h, "}")
    ensures |tail| == 10 + |h| && tail[..8] == Pattern("hash") && tail[8..8 + |h|] == h
  {
  }

  // Two characters, then `tail`, from place `n` on.
  lemma TailPlaces(line: string, n: nat, sep: string, tail: string, k: nat, m: nat)
    requires |sep| == 2 && n <= |line| && line[n..] == sep + tail && k <= m <= |tail|
    ensures n + 2 + m <= |line| && (line + "\n")[n + 2 + k..n + 2 + m] == tail[k..m]
  {
    assert |line| == n + |line[n..]|;
    assert forall p :: n + 2 <= p < |line| ==> line[p] == line[n..][p - n];
  }

  lemma HashMarker(line: string, n: nat, h: string, tail: string)
    requires NoMatchBefore(line, n, "hash") && n <= |line| && line[n..] == "}," + tail
    requires |tail| == 10 + |h| && tail[..8] == Pattern("hash") && tail[8..8 + |h|] == h
    ensures Find(line + "\n", Pattern("hash"), 0) == Some(n + 2)
    ensures n + 10 + |h| <= |line| && (line + "\n")[n + 10..n + 10 + |h|] == h
  {
    NoEarlierMatch(line, n, tail);
    MarkerFound(line, n, h, tail, Pattern("hash"));
  }

  lemma MarkerFound(line: string, n: nat, h: string, tail: string, pattern: string)
    requires n <= |line| && line[n..] == "}," + tail && |pattern| == 8
    requires |tail| == 10 + |h| && tail[..8] == pattern && tail[8..8 + |h|] == h
    requires forall i :: 0 <= i < n + 2 ==> !MatchAt(line + "\n", i, pattern)
    ensures Find(line + "\n", pattern, 0) == Some(n + 2)
    ensures n + 10 + |h| <= |line| && (line + "\n")[n + 10..n + 10 + |h|] == h
  {
    TailPlaces(line, n, "},", tail, 0, 8);
    TailPlaces(line, n, "},", tail, 8, 8 + |h|);
    FindsFirst(line + "\n", pattern, 0, n + 2);
  }

  lemma NoEarlierMatch(line: string, n: nat, tail: string)
    requires NoMatchBefore(line, n, "hash") && n <= |line| && line[n..] == "}," + tail && |tail| >= 10
    ensures forall i :: 0 <= i < n + 2 ==> !MatchAt(line + "\n", i, Pattern("hash"))
  {
    forall i | 0 <= i < n + 2 ensures !MatchAt(line + "\n", i, Pattern("hash")) {
      NoNewMatch(line, n, i, tail);
    }
  }

  lemma NoNewMatch(line: string, n: nat, i: nat, tail: string)
    requires NoMatchBefore(line, n, "hash") && n <= |line| && line[n..] == "}," + tail && |tail| >= 10
    requires i < n + 2
    ensures !MatchAt(line + "\n", i, Pattern("hash"))
  {
    var s := line + "\n";
    MatchLooks(s, i, "hash");
    assert |line| == n + |line[n..]| >= n + 12;
    if i < n {
      assert !MatchAt(line, i, Pattern("hash"));
      assert s[i..i + 8] == line[i..i + 8];
    } else {
      assert s[i] == line[n..][i - n] == "},"[i - n];
    }
  }

  lemma HashInLine(line: string, n: nat, h: string, before: string)
    requires NoMatchBefore(line, n, "hash") && n <= |line| && line[n..] == "}," + Field("hash", h, "}")
    requires IsHex(h) && |h| == HASH_LEN && Lacks(line, '\0')
    ensures HashIn(line + "\n", before) == h
  {
    CStringWhole(line + "\n");
    HashTail(h, Field("hash", h, "}"));
    HashMarker(line, n, h, Field("hash", h, "}"));
  }

  lemma HashInLastLine(H: HashFn, es: seq<Event>, before: string)
    requires es != [] && ValidEvent(es[|es| - 1])
    ensures HashIn(LastLine(H, es) + "\n", before) == RunHead(H, es)
  {
    var e, line, h := es[|es| - 1], LastLine(H, es), RunHead(H, es);
    LastLineLaid(H, es);
    RunHeadIsHex(H, es);
    var n := FindHash(line, e.timestamp, Escape(e.event), Escape(e.details), RunHead(H, es[..|es| - 1]), h);
    HashInLine(line, n, h, before);
  }

  // The buffers of a run.
  ghost predicate AreLines(H: HashFn, es: seq<Event>, buffers: seq<string>) {
    |buffers| == |es| && forall k :: 0 < k <= |es| ==> buffers[k - 1] == LastLine(H, es[..k]) + "\n"
  }

  lemma AreLinesSnoc(H: HashFn, es: seq<Event>, buffers: seq<string>)
    requires es != [] && AreLines(H, es[..|es| - 1], buffers)
    ensures AreLines(H, es, buffers + [LastLine(H, es) + "\n"])
  {
    var init, all := es[..|es| - 1], buffers + [LastLine(H, es) + "\n"];
    forall k | 0 < k <= |es| ensures all[k - 1] == LastLine(H, es[..k]) + "\n" {
      if k < |es| {
        assert es[..k] == init[..k];
      } else {
        assert es[..k] == es;
      }
    }
  }

  // After every run of valid appends the file is the lines in order, every line fits its buffer,
  // and the last stored hash is found, whatever quotes or key-like text the events hold.
  lemma {:induction false} RunIsLines(H: HashFn, es: seq<Event>)
    requires forall e :: e in es ==> ValidEvent(e)
    ensures EndsLine(Run(H, es)) && LastHash(Chunks(Run(H, es), MAX_LINE)) == RunHead(H, es)
    ensures AreLines(H, es, Chunks(Run(H, es), MAX_LINE))
  {
    if es != [] {
      var init := es[..|es| - 1];
      RunIsLines(H, init);
      var bs := Chunks(Run(H, init), MAX_LINE);
      RunStep(H, es, bs);
      AreLinesSnoc(H, es, bs);
      LastHashSnoc(H, es, bs);
    }
  }

  lemma RunStep(H: HashFn, es: seq<Event>, bs: seq<string>)
    requires es != [] && ValidEvent(es[|es| - 1])
    requires EndsLine(Run(H, es[..|es| - 1])) && bs == Chunks(Run(H, es[..|es| - 1]), MAX_LINE)
    requires LastHash(bs) == RunHead(H, es[..|es| - 1])
    ensures EndsLine(Run(H, es)) && Chunks(Run(H, es), MAX_LINE) == bs + [LastLine(H, es) + "\n"]
  {
    LastLineLaid(H, es);
    AppendWritesLine(H, es, Run(H, es[..|es| - 1]));
    AppendLine(Run(H, es[..|es| - 1]), LastLine(H, es), MAX_LINE);
  }

  lemma LastHashSnoc(H: HashFn, es: seq<Event>, bs: seq<string>)
    requires es != [] && ValidEvent(es[|es| - 1])
    ensures LastHash(bs + [LastLine(H, es) + "\n"]) == RunHead(H, es)
  {
    var all := bs + [LastLine(H, es) + "\n"];
    assert all[..|all| - 1] == bs;
    HashInLastLine(H, es, LastHash(bs));
  }

  // ---------- what the verifier makes of a run ----------

  // A printed field as the reader returns it.
  ghost function AsRead(printed: string): string {
    if EndsInBackslash(printed) then printed + "\"," else printed
  }

  lemma ReadLaid(line: string, ts: string, e: string, d: string, prev: string, h: string)
    requires Laid(line, ts, e, d, prev, h)
    requires |ts| < TIMESTAMP_SIZE && |e| + 2 < EVENT_SIZE && |d| + 2 < DETAILS_SIZE
    requires |prev| < HASH_SIZE && |h| < HASH_SIZE
    ensures ExtractField(line, "event", EVENT_SIZE) == Some(AsRead(e))
    ensures ExtractField(line, "details", DETAILS_SIZE) == Some(AsRead(d))
    ensures ParseLine(line) == Some(Entry(ts, AsRead(e), AsRead(d), prev, h))
  {
    ReadTimestamp(line, ts, e, d, prev, h, TIMESTAMP_SIZE);
    ReadEvent(line, ts, e, d, prev, h, EVENT_SIZE);
    ReadDetails(line, ts, e, d, prev, h, DETAILS_SIZE);
    ReadPrevious(line, ts, e, d, prev, h, HASH_SIZE);
    ReadHash(line, ts, e, d, prev, h, HASH_SIZE);
  }

  // The right key is found for every field; event and details come back as printed exactly when
  // the text does not end in a backslash.
  lemma FieldsReadBack(e: Event, prev: string, h: string, line: string)
    requires ValidEvent(e) && IsHex(prev) && IsHex(h) && |prev| == |h| == HASH_LEN
    requires line == LineText(e.timestamp, Escape(e.event), Escape(e.details), prev, h)
    ensures ParseLine(line) == Some(Entry(e.timestamp, AsRead(Escape(e.event)), AsRead(Escape(e.details)), prev, h))
    ensures ExtractField(line, "event", EVENT_SIZE) == Some(Escape(e.event)) <==> !EndsInBackslash(e.event)
    ensures ExtractField(line, "details", DETAILS_SIZE) == Some(Escape(e.details)) <==> !EndsInBackslash(e.details)
  {
    EscapeIsGuarded(e.event);
    EscapeIsGuarded(e.details);
    HexIsReadable(prev);
    HexIsReadable(h);
    ReadLaid(line, e.timestamp, Escape(e.event), Escape(e.details), prev, h);
    AsReadChanges(Escape(e.event));
    AsReadChanges(Escape(e.details));
  }

  lemma AsReadChanges(v: string)
    ensures AsRead(v) == v <==> !EndsInBackslash(v)
  {
    assert |v + "\","| == |v| + 2;
  }

  ghost predicate CleanEvent(e: Event) {
    Clean(e.event) && Clean(e.details)
  }

  // The texts hashed by the appends of a run.
  ghost function Appended(H: HashFn, es: seq<Event>): set<string> {
    if es == [] then {} else Appended(H, es[..|es| - 1]) + {LastRecord(H, es)}
  }

  lemma AsReadLonger(s: string)
    ensures Clean(s) ==> AsRead(Escape(s)) == s
    ensures |Escape(AsRead(Escape(s)))| >= |Escape(s)|
    ensures !Clean(s) ==> |Escape(AsRead(Escape(s)))| > |Escape(s)|
  {
    EscapeIsGuarded(s);
    EscapeOfClean(s);
    EscapeTwice(s);
    if Clean(s) && EndsInBackslash(s) {
      assert Special(s[|s| - 1]);
    }
  }

  lemma {:induction false} EscapeTwice(s: string)
    ensures |Escape(Escape(s))| >= |Escape(s)|
    ensures !Clean(s) ==> |Escape(Escape(s))| > |Escape(s)|
  {
    if s != "" {
      EscapeTwice(s[1..]);
      EscapeConcat(EscapeChar(s[0]), Escape(s[1..]));
      if Special(s[0]) {
        assert EscapeChar(s[0])[1..] == [s[0]];
        assert [s[0]][1..] == "";
        assert |Escape(EscapeChar(s[0]))| == 4;
      } else if !Clean(s) {
        var i :| 0 <= i < |s| && Special(s[i]);
        assert Special(s[1..][i - 1]);
      }
    }
  }

  lemma {:induction false} EscapeConcat(a: string, b: string)
    ensures Escape(a + b) == Escape(a) + Escape(b)
  {
    if a == "" {
      assert a + b == b;
    } else {
      assert (a + b)[1..] == a[1..] + b;
      EscapeConcat(a[1..], b);
    }
  }

  lemma EntryOfLine(line: string)
    requires Lacks(line, '\0')
    ensures EntryOf(line + "\n") == ParseLine(line)
  {
    CStringWhole(line + "\n");
    assert (line + "\n")[..|line|] == line;
  }

  ghost function LastAsRead(H: HashFn, es: seq<Event>): Entry
    requires es != []
  {
    var e := es[|es| - 1];
    Entry(e.timestamp, AsRead(Escape(e.event)), AsRead(Escape(e.details)), RunHead(H, es[..|es| - 1]), RunHead(H, es))
  }

  lemma LastEntry(H: HashFn, es: seq<Event>)
    requires es != [] && ValidEvent(es[|es| - 1])
    ensures EntryOf(LastLine(H, es) + "\n") == Some(LastAsRead(H, es))
  {
    LastLineLaid(H, es);
    EntryOfLine(LastLine(H, es));
    RunHeadIsHex(H, es);
    RunHeadIsHex(H, es[..|es| - 1]);
    FieldsReadBack(es[|es| - 1], RunHead(H, es[..|es| - 1]), RunHead(H, es), LastLine(H, es));
  }

  // The verifier's own record of the last line against the one that was hashed for it.
  lemma LastRebuilt(H: HashFn, es: seq<Event>, c: Entry)
    requires es != [] && ValidEvent(es[|es| - 1]) && c == LastAsRead(H, es)
    ensures CleanEvent(es[|es| - 1]) ==> Canonical(c) == LastRecord(H, es)
    ensures CleanEvent(es[|es| - 1]) ==> BuildRecord(c.timestamp, c.event, c.details, c.previous).Some?
    ensures !CleanEvent(es[|es| - 1]) ==> Canonical(c) != LastRecord(H, es)
  {
    var e, prev := es[|es| - 1], RunHead(H, es[..|es| - 1]);
    AsReadLonger(e.event);
    AsReadLonger(e.details);
    RunHeadIsHex(H, es[..|es| - 1]);
    BuildsRecord(e, prev);
    FieldsLength(e.timestamp, Escape(e.event), Escape(e.details), prev, "");
    FieldsLength(e.timestamp, Escape(c.event), Escape(c.details), prev, "");
  }

  lemma LastLineOk(H: HashFn, es: seq<Event>, last: string, c: Entry, hashed: set<string>)
    requires es != [] && ValidEvent(es[|es| - 1]) && c == LastAsRead(H, es) && EntryOf(last) == Some(c)
    requires LastRecord(H, es) in hashed && Canonical(c) in hashed
    ensures CleanEvent(es[|es| - 1]) ==> LineOk(H, last, RunHead(H, es[..|es| - 1]))
    ensures LineOk(H, last, RunHead(H, es[..|es| - 1])) ==> CleanEvent(es[|es| - 1]) || Collision(H, hashed)
  {
    LastRebuilt(H, es, c);
    assert c.hash == RunHead(H, es) == HashHex(H, LastRecord(H, es));
    if HashHex(H, Canonical(c)) == c.hash {
      EqualHexHashes(H, Canonical(c), LastRecord(H, es), hashed);
    }
  }

  lemma AcceptedSnoc(H: HashFn, bs: seq<string>, last: string, hashed: set<string>)
    requires EntryOf(last).Some? && Canonicals(bs + [last]) <= hashed
    ensures Accepted(H, bs + [last]) <==> Accepted(H, bs) && LineOk(H, last, Expected(bs))
    ensures Expected(bs + [last]) == EntryOf(last).value.hash
    ensures Canonicals(bs) <= hashed && Canonical(EntryOf(last).value) in hashed
  {
    var all := bs + [last];
    assert all[..|all| - 1] == bs;
    CanonicalsInit(all, hashed);
  }

  // A ledger built by any run of valid appends is accepted exactly when no text in it holds a
  // quote or a backslash, unless two of the texts hashed collide.
  lemma {:induction false} RunAccepted(H: HashFn, es: seq<Event>, hashed: set<string>)
    requires forall e :: e in es ==> ValidEvent(e)
    requires Appended(H, es) <= hashed && Canonicals(Chunks(Run(H, es), MAX_LINE)) <= hashed
    ensures Expected(Chunks(Run(H, es), MAX_LINE)) == RunHead(H, es)
    ensures (forall e :: e in es ==> CleanEvent(e)) ==> Accepted(H, Chunks(Run(H, es), MAX_LINE))
    ensures Accepted(H, Chunks(Run(H, es), MAX_LINE)) ==>
      (forall e :: e in es ==> CleanEvent(e)) || Collision(H, hashed)
  {
    if es != [] {
      var init, last, c := es[..|es| - 1], LastLine(H, es) + "\n", LastAsRead(H, es);
      RunIsLines(H, init);
      var bs := Chunks(Run(H, init), MAX_LINE);
      RunStep(H, es, bs);
      LastEntry(H, es);
      AcceptedSnoc(H, bs, last, hashed);
      LastLineOk(H, es, last, c, hashed);
      RunAccepted(H, init, hashed);
      SnocMembers(es);
    }
  }

  lemma SnocMembers(es: seq<Event>)
    requires es != []
    ensures forall e :: e in es <==> e in es[..|es| - 1] || e == es[|es| - 1]
  {
    assert es == es[..|es| - 1] + [es[|es| - 1]];
  }

  // ---------- written out ----------

  // A text that is refused: none, too long, or with a control character.
  ghost predicate TextRefused(s: string, limit: nat) {
    s == "" || |s| >= limit || exists c :: c in s && c < ' '
  }

  lemma RefusedExactly(s: string, limit: nat)
    ensures TextRefused(s, limit) <==> !ValidText(s, limit)
  {
    if i :| 0 <= i < |s| && s[i] < ' ' {
      assert s[i] in s;
    }
  }

  lemma ValidFits(s: string, limit: nat)
    requires ValidText(s, limit)
    ensures |Escape(s)| < 2 * limit
  {
  }

  // Escaping, character by character.
  lemma EscapeLaws(s: string, c: char)
    ensures Escape("") == ""
    ensures Escape(s + [c]) == Escape(s) + if c == '"' || c == '\\' then "\\" + [c] else [c]
  {
    EscapeConcat(s, [c]);
    assert [c][1..] == "" && Escape([c]) == EscapeChar(c) + Escape("");
  }

  // The text that is hashed, from what is printed of the event and the details.
  function RecordText(timestamp: string, event: string, details: string, previous: string): string {
    "{\"timestamp\":\"" + (timestamp +
    ("\",\"event\":\"" + (event +
    ("\",\"details\":\"" + (details +
    ("\",\"previous_hash\":\"" + (previous + "\"}")))))))
  }

  lemma Regroup(v: string, quote: string, comma: string, key: string, rest: string, mark: string)
    requires mark == quote + comma + key
    ensures v + quote + (comma + (key + rest)) == v + (mark + rest)
  {
    assert quote + (comma + (key + rest)) == mark + rest;
    assert v + quote + (comma + (key + rest)) == v + (quote + (comma + (key + rest)));
  }

  lemma FieldAfter(v: string, key: string, w: string, rest: string, mark: string)
    requires mark == "\"" + "," + Pattern(key)
    ensures v + "\"" + ("," + Field(key, w, rest)) == v + (mark + (w + "\"" + rest))
  {
    Regroup(v, "\"", ",", Pattern(key), w + "\"" + rest, mark);
  }

  lemma FieldsAre(ts: string, e: string, d: string, prev: string)
    ensures Fields(ts, e, d, prev, "") == RecordText(ts, e, d, prev)
  {
    var p := Field("previous_hash", prev, "}" + "");
    var f := Field("details", d, "," + p);
    FieldAfter(d, "previous_hash", prev, "}" + "", "\",\"previous_hash\":\"");
    assert prev + "\"" + ("}" + "") == prev + "\"}";
    FieldAfter(e, "details", d, "," + p, "\",\"details\":\"");
    FieldAfter(ts, "event", e, "," + f, "\",\"event\":\"");
    var g := ts + "\"" + ("," + Field("event", e, "," + f));
    assert "{" + (Pattern("timestamp") + g) == "{\"timestamp\":\"" + g;
  }

  lemma RecordIs(ts: string, event: string, details: string, prev: string)
    ensures Record(ts, event, details, prev) == RecordText(ts, Escape(event), Escape(details), prev)
  {
    FieldsAre(ts, Escape(event), Escape(details), prev);
  }

  lemma TailIs(file: string, r: string, h: string)
    ensures file + (r + ("," + Field("hash", h, "}")) + "\n") == file + (r + (",\"hash\":\"" + (h + "\"}\n")))
  {
    var key := Pattern("hash");
    assert h + "\"" + "}" + "\n" == h + "\"}\n";
    assert "," + (key + (h + "\"" + "}")) + "\n" == ("," + key) + (h + "\"" + "}" + "\n");
    assert "," + key == ",\"hash\":\"";
    var tail := "," + (key + (h + "\"" + "}"));
    assert r + tail + "\n" == r + (tail + "\n");
  }

  // The file after a record was appended.
  ghost predicate LineAdded(H: HashFn, before: string, record: string, after: string) {
    after == before + (record + (",\"hash\":\"" + (Hex(H(record).bytes) + "\"}\n")))
  }

  // Appended whole, or refused for its length.
  ghost predicate Written(H: HashFn, before: string, record: string, code: nat, after: string) {
    if |record| < 4096 then code == 0 && LineAdded(H, before, record, after) else code == 8 && after == before
  }

  // One append, with its exit code.
  ghost predicate AppendedTo(H: HashFn, before: string, timestamp: string, event: string, details: string,
                             code: nat, after: string) {
    if TextRefused(event, 128) || TextRefused(details, 1024) then code == 2 && after == before
    else
      exists previous ::
        && LastStored(Chunks(before, 4096), previous)
        && Written(H, before, RecordText(timestamp, Escape(event), Escape(details), previous), code, after)
  }

  // `h` is the 64 digits after the first marker of a buffer.
  ghost predicate StoresHash(buffer: string, h: string) {
    exists m: nat :: HashAt(CString(buffer), m, h)
  }

  ghost predicate HashAt(line: string, m: nat, h: string) {
    FirstMarker(line, "\"hash\":\"", m) && DigitsAt(line, m + 8, h)
  }

  ghost predicate DigitsAt(line: string, p: nat, h: string) {
    p + 64 <= |line| && h == line[p..p + 64] && forall c :: c in h ==> '0' <= c <= '9' || 'a' <= c <= 'f'
  }

  ghost predicate FirstMarker(line: string, marker: string, m: nat) {
    MatchAt(line, m, marker) && forall j :: 0 <= j < m ==> !MatchAt(line, j, marker)
  }

  lemma MarkerIsFirst(line: string, marker: string, m: nat)
    ensures Find(line, marker, 0) == Some(m) <==> FirstMarker(line, marker, m)
  {
    FindExactly(line, marker, 0);
    if FirstMarker(line, marker, m) {
      FindsFirst(line, marker, 0, m);
    }
  }

  lemma DigitsExactly(line: string, p: nat, value: string)
    requires p <= |line| && value == line[p..]
    ensures |value| >= 64 && IsHex(value[..64]) <==> exists h :: DigitsAt(line, p, h)
    ensures forall h :: DigitsAt(line, p, h) ==> h == value[..64]
  {
    if |value| >= 64 {
      assert value[..64] == line[p..p + 64];
      if IsHex(value[..64]) {
        assert DigitsAt(line, p, value[..64]);
      }
    }
    if h :| DigitsAt(line, p, h) {
      assert forall i :: 0 <= i < 64 ==> h[i] in h;
    }
  }

  lemma HashInIsStored(buffer: string, before: string, h: string)
    requires StoresHash(buffer, h)
    ensures HashIn(buffer, before) == h
  {
    var line, marker := CString(buffer), Pattern("hash");
    assert marker == "\"hash\":\"";
    var m: nat :| HashAt(line, m, h);
    MarkerIsFirst(line, marker, m);
    DigitsExactly(line, m + 8, line[m + 8..]);
  }

  lemma HashInStores(buffer: string, before: string)
    ensures HashIn(buffer, before) == before || StoresHash(buffer, HashIn(buffer, before))
  {
    var line, marker := CString(buffer), Pattern("hash");
    assert marker == "\"hash\":\"";
    if HashIn(buffer, before) != before {
      var m := Find(line, marker, 0).value;
      MarkerIsFirst(line, marker, m);
      DigitsExactly(line, m + 8, line[m + 8..]);
      assert HashAt(line, m, HashIn(buffer, before));
    }
  }

  ghost predicate SixtyFourZeros(h: string) {
    |h| == 64 && forall i :: 0 <= i < 64 ==> h[i] == '0'
  }

  // The hash of the last buffer that stores one, or zeros.
  ghost predicate LastStored(buffers: seq<string>, h: string) {
    (exists k :: 0 <= k < |buffers| && LastOf(buffers, k, h))
    || (SixtyFourZeros(h) && NoneFrom(buffers, 0))
  }

  ghost predicate LastOf(buffers: seq<string>, k: nat, h: string)
    requires k < |buffers|
  {
    StoresHash(buffers[k], h) && NoneFrom(buffers, k + 1)
  }

  ghost predicate NoneFrom(buffers: seq<string>, k: nat) {
    forall j, g :: k <= j < |buffers| ==> !StoresHash(buffers[j], g)
  }

  lemma {:induction false} LastHashExactly(buffers: seq<string>)
    ensures LastStored(buffers, LastHash(buffers))
    decreases |buffers|
  {
    if buffers == [] {
      assert NoneFrom(buffers, 0);
    } else {
      var n := |buffers| - 1;
      LastHashExactly(buffers[..n]);
      LastStoredStep(buffers, LastHash(buffers[..n]));
    }
  }

  lemma LastStoredStep(buffers: seq<string>, before: string)
    requires buffers != [] && LastStored(buffers[..|buffers| - 1], before)
    ensures LastStored(buffers, HashIn(buffers[|buffers| - 1], before))
  {
    var n := |buffers| - 1;
    var init := buffers[..n];
    if h :| StoresHash(buffers[n], h) {
      HashInIsStored(buffers[n], before, h);
      assert LastOf(buffers, n, h);
    } else {
      HashInStores(buffers[n], before);
      assert forall j :: 0 <= j < n ==> buffers[j] == init[j];
      if k :| 0 <= k < n && LastOf(init, k, before) {
        assert NoneFrom(buffers, k + 1);
        assert LastOf(buffers, k, before);
      } else {
        assert NoneFrom(buffers, 0);
      }
    }
  }

  lemma AppendExactly(H: HashFn, file: string, e: Event)
    ensures var (after, code) := AppendTo(H, file, e);
      AppendedTo(H, file, e.timestamp, e.event, e.details, code, after)
  {
    var previous := LastHash(Chunks(file, MAX_LINE));
    RefusedExactly(e.event, 128);
    RefusedExactly(e.details, 1024);
    LastHashExactly(Chunks(file, MAX_LINE));
    if ValidText(e.event, 128) && ValidText(e.details, 1024) {
      WrittenExactly(H, file, e, previous);
    }
  }

  lemma WrittenExactly(H: HashFn, file: string, e: Event, previous: string)
    requires ValidText(e.event, 128) && ValidText(e.details, 1024) && previous == LastHash(Chunks(file, MAX_LINE))
    ensures var (after, code) := AppendTo(H, file, e);
      Written(H, file, RecordText(e.timestamp, Escape(e.event), Escape(e.details), previous), code, after)
  {
    var r := Record(e.timestamp, e.event, e.details, previous);
    ValidFits(e.event, 128);
    ValidFits(e.details, 1024);
    RecordIs(e.timestamp, e.event, e.details, previous);
    TailIs(file, r, HashHex(H, r));
  }

  // `v` stands between the first `"field":"` and the first quote after it that no backslash precedes.
  ghost predicate Reads(line: string, field: string, size: nat, v: string) {
    exists m: nat :: ReadsAt(line, field, size, m, v)
  }

  ghost predicate ReadsAt(line: string, field: string, size: nat, m: nat, v: string) {
    var p := m + |field| + 4;
    && FirstMarker(line, "\"" + field + "\":\"", m)
    && |v| < size && p + |v| < |line| && line[p..p + |v|] == v && line[p + |v|] == '"'
    && (v == "" || v[|v| - 1] != '\\')
    && forall i :: 0 <= i < |v| && v[i] == '"' ==> i > 0 && v[i - 1] == '\\'
  }

  lemma ExtractedExactly(line: string, field: string, size: nat, v: string)
    requires size > 0
    ensures ExtractField(line, field, size) == Some(v) <==> Reads(line, field, size, v)
  {
    if m: nat :| ReadsAt(line, field, size, m, v) {
      MarkerIsFirst(line, Pattern(field), m);
      ReadsThere(line, field, size, m, v);
    }
    if ExtractField(line, field, size) == Some(v) {
      var m := Find(line, Pattern(field), 0).value;
      MarkerIsFirst(line, Pattern(field), m);
      ReadsThere(line, field, size, m, v);
    }
  }

  lemma ReadsExactly(line: string, field: string, size: nat)
    requires size > 0
    ensures forall v :: ExtractField(line, field, size) == Some(v) <==> Reads(line, field, size, v)
  {
    forall v ensures ExtractField(line, field, size) == Some(v) <==> Reads(line, field, size, v) {
      ExtractedExactly(line, field, size, v);
    }
  }

  lemma ReadsThere(line: string, field: string, size: nat, m: nat, v: string)
    requires size > 0 && FirstMarker(line, Pattern(field), m)
    ensures ReadField(line[m + |field| + 4..], size) == Some(v) <==> ReadsAt(line, field, size, m, v)
  {
    var p := m + |field| + 4;
    var start := line[p..];
    if ReadsAt(line, field, size, m, v) {
      assert line[p..p + |v|] == start[..|v|];
      ValueEndFinds(start, 0, |v|);
    }
    if ReadField(start, size) == Some(v) {
      ValueEndIsFirst(start, 0, |v|);
      assert line[p..p + |v|] == start[..|v|];
    }
  }

  // The five fields of a buffer that holds a whole line.
  ghost predicate HoldsEntry(buffer: string, e: Entry) {
    var s := CString(buffer);
    s != "" && s[|s| - 1] == '\n' && HoldsFields(s[..|s| - 1], e)
  }

  ghost predicate HoldsFields(line: string, e: Entry) {
    && Reads(line, "timestamp", 64, e.timestamp) && Reads(line, "event", 257, e.event)
    && Reads(line, "details", 2049, e.details)
    && Reads(line, "previous_hash", 65, e.previous) && Reads(line, "hash", 65, e.hash)
  }

  lemma FieldsExactly(line: string, e: Entry)
    ensures ParseLine(line) == Some(e) <==> HoldsFields(line, e)
  {
    ExtractedExactly(line, "timestamp", 64, e.timestamp);
    ExtractedExactly(line, "event", 257, e.event);
    ExtractedExactly(line, "details", 2049, e.details);
    ExtractedExactly(line, "previous_hash", 65, e.previous);
    ExtractedExactly(line, "hash", 65, e.hash);
  }

  lemma EntryExactly(buffer: string, e: Entry)
    ensures EntryOf(buffer) == Some(e) <==> HoldsEntry(buffer, e)
  {
    var s := CString(buffer);
    if s != "" && s[|s| - 1] == '\n' {
      FieldsExactly(s[..|s| - 1], e);
    }
  }

  // The record rebuilt from an entry fits its buffers and hashes to the hash stored.
  ghost predicate HashFits(H: HashFn, e: Entry) {
    var record := RecordText(e.timestamp, Escape(e.event), Escape(e.details), e.previous);
    |Escape(e.event)| < 257 && |Escape(e.details)| < 2049 && |record| < 4096 && e.hash == Hex(H(record).bytes)
  }

  ghost predicate Follows(es: seq<Entry>, i: nat)
    requires i < |es|
  {
    if i == 0 then SixtyFourZeros(es[0].previous) else es[i].previous == es[i - 1].hash
  }

  // Buffers with nothing broken, one entry each.
  ghost function GoodLine(H: HashFn): (string, Entry) -> bool {
    (buffer, e) => HoldsEntry(buffer, e) && HashFits(H, e)
  }

  ghost predicate Linked(good: (string, Entry) -> bool, buffers: seq<string>, es: seq<Entry>) {
    |es| == |buffers| && forall i :: 0 <= i < |es| ==> good(buffers[i], es[i]) && Follows(es, i)
  }

  lemma HashFitsExactly(H: HashFn, e: Entry)
    ensures HashFits(H, e) <==>
      BuildRecord(e.timestamp, e.event, e.details, e.previous).Some? && HashHex(H, Canonical(e)) == e.hash
  {
    RecordIs(e.timestamp, e.event, e.details, e.previous);
  }

  lemma LineOkExactly(H: HashFn, buffer: string, expected: string, e: Entry)
    ensures EntryOf(buffer) == Some(e) && LineOk(H, buffer, expected) <==>
      GoodLine(H)(buffer, e) && e.previous == expected
  {
    EntryExactly(buffer, e);
    HashFitsExactly(H, e);
  }

  lemma GoodLineExactly(H: HashFn, buffer: string, expected: string)
    ensures LineOk(H, buffer, expected) <==> exists e :: GoodLine(H)(buffer, e) && e.previous == expected
    ensures forall e :: GoodLine(H)(buffer, e) ==>
      EntryOf(buffer) == Some(e) && BuildRecord(e.timestamp, e.event, e.details, e.previous).Some?
  {
    forall e ensures GoodLine(H)(buffer, e) ==> EntryOf(buffer) == Some(e) && LineOk(H, buffer, e.previous) {
      LineOkExactly(H, buffer, e.previous, e);
    }
    if LineOk(H, buffer, expected) {
      LineOkExactly(H, buffer, expected, EntryOf(buffer).value);
    }
  }

  lemma GenesisIs(h: string)
    ensures h == GENESIS <==> SixtyFourZeros(h)
  {
  }

  lemma {:induction false} AcceptedExactly(H: HashFn, buffers: seq<string>, es: seq<Entry>)
    ensures Accepted(H, buffers) && es == Entries(buffers) <==> Linked(GoodLine(H), buffers, es)
    decreases |buffers|
  {
    if |es| != |buffers| {
      if Accepted(H, buffers) {
        EntriesCount(H, buffers);
      }
    } else if buffers != [] {
      var n := |buffers| - 1;
      AcceptedExactly(H, buffers[..n], es[..n]);
      GoodChainStep(H, buffers[..n], buffers[n], es[..n], es[n]);
      assert buffers == buffers[..n] + [buffers[n]] && es == es[..n] + [es[n]];
    }
  }

  lemma AcceptedMeans(H: HashFn, buffers: seq<string>)
    ensures Accepted(H, buffers) <==> exists es :: Linked(GoodLine(H), buffers, es)
  {
    forall es ensures Accepted(H, buffers) && es == Entries(buffers) <==> Linked(GoodLine(H), buffers, es) {
      AcceptedExactly(H, buffers, es);
    }
    if Accepted(H, buffers) {
      assert Linked(GoodLine(H), buffers, Entries(buffers));
    }
  }

  lemma GoodChainStep(H: HashFn, buffers: seq<string>, x: string, es: seq<Entry>, e: Entry)
    requires |buffers| == |es|
    requires Accepted(H, buffers) && es == Entries(buffers) <==> Linked(GoodLine(H), buffers, es)
    ensures Accepted(H, buffers + [x]) && es + [e] == Entries(buffers + [x]) <==>
      Linked(GoodLine(H), buffers + [x], es + [e])
  {
    AcceptedStep(H, buffers, x, es, e);
    LineOkExactly(H, x, HeadOf(es), e);
    LinkedStep(GoodLine(H), buffers, x, es, e);
  }

  lemma {:induction false} EntriesCount(H: HashFn, buffers: seq<string>)
    requires Accepted(H, buffers)
    ensures |Entries(buffers)| == |buffers|
    decreases |buffers|
  {
    if buffers != [] {
      EntriesCount(H, buffers[..|buffers| - 1]);
    }
  }

  lemma FollowsAt(es: seq<Entry>, e: Entry)
    ensures Follows(es + [e], |es|) <==> e.previous == HeadOf(es)
    ensures forall i :: 0 <= i < |es| ==> (Follows(es + [e], i) <==> Follows(es, i))
  {
    GenesisIs(e.previous);
  }

  lemma LinkedStep(good: (string, Entry) -> bool, buffers: seq<string>, x: string, es: seq<Entry>, e: Entry)
    requires |buffers| == |es|
    ensures Linked(good, buffers + [x], es + [e]) <==>
      Linked(good, buffers, es) && good(x, e) && e.previous == HeadOf(es)
  {
    var all, fs, n := buffers + [x], es + [e], |es|;
    FollowsAt(es, e);
    assert forall i :: 0 <= i < n ==> all[i] == buffers[i] && fs[i] == es[i];
    if Linked(good, all, fs) {
      assert good(all[n], fs[n]) && Follows(fs, n);
    }
  }

  lemma AcceptedStep(H: HashFn, buffers: seq<string>, x: string, es: seq<Entry>, e: Entry)
    ensures Accepted(H, buffers + [x]) && es + [e] == Entries(buffers + [x]) <==>
      Accepted(H, buffers) && es == Entries(buffers) && EntryOf(x) == Some(e) && LineOk(H, x, HeadOf(es))
  {
    Snoc(H, buffers, x);
    AcceptedIsChained(H, buffers);
    if EntryOf(x).Some? {
      var f := EntryOf(x).value;
      assert (es + [e])[..|es|] == es && (es + [e])[|es|] == e;
      assert (Entries(buffers) + [f])[..|Entries(buffers)|] == Entries(buffers);
    }
  }

  // ---------- the program ----------

  class LedgerFile {
    const H: HashFn
    var file: string

    constructor (H: HashFn)
      ensures this.H == H && file == ""
    {
      this.H := H;
      file := "";
    }

    // One turn of the escaping loop: the character, escaped, from place `j` on.
    method PutChar(c: char, output: array<char>, j: nat) returns (fits: bool, next: nat)
      requires j < output.Length
      modifies output
      ensures fits <==> j + |EscapeChar(c)| < output.Length
      ensures fits ==> next == j + |EscapeChar(c)| && output[..next] == old(output[..j]) + EscapeChar(c)
      ensures fits ==> output[j..next] == if c == '"' || c == '\\' then "\\" + [c] else [c]
    {
      next := j;
      if Special(c) {
        if j + 2 >= output.Length {
          return false, j;
        }
        output[j] := '\\';
        output[j + 1] := c;
        return true, j + 2;
      }
      if j + 1 >= output.Length {
        return false, j;
      }
      output[j] := c;
      return true, j + 1;
    }

    method JsonEscape(input: string, output: array<char>) returns (code: int)
      requires output.Length > 0
      modifies output
      ensures code == 0 <==> |Escape(input)| < output.Length
      ensures code == 0 ==> output[..|Escape(input)|] == Escape(input) && output[|Escape(input)|] == '\0'
    {
      var i, j := 0, 0;
      while i < |input|
        invariant 0 <= i <= |input| && 0 <= j < output.Length
        invariant output[..j] == Escape(input[..i])
      {
        EscapeStep(input, i);
        var fits, next := PutChar(input[i], output, j);
        if !fits {
          return -1;
        }
        i, j := i + 1, next;
      }
      assert input[..i] == input;
      output[j] := '\0';
      code := 0;
    }

    // The bytes `output[..n]` are the field when the code is 0.
    method ReadInto(line: string, field: string, output: array<char>) returns (code: int, n: nat)
      requires output.Length > 0
      modifies output
      ensures code == 0 <==> ExtractField(line, field, output.Length).Some?
      ensures code == 0 ==> n < output.Length && ExtractField(line, field, output.Length) == Some(output[..n])
      ensures code == 0 ==> Reads(line, field, output.Length, output[..n])
      ensures code != 0 ==> forall v :: !Reads(line, field, output.Length, v)
    {
      ReadsExactly(line, field, output.Length);
      var m := Find(line, Pattern(field), 0);
      n := 0;
      if m.None? {
        return -1, 0;
      }
      var start := line[m.value + |Pattern(field)|..];
      while n < |start| && !(start[n] == '"' && (n == 0 || start[n - 1] != '\\'))
        invariant n <= |start| && n < output.Length
        invariant output[..n] == start[..n] && ValueEnd(start, n) == ValueEnd(start, 0)
      {
        if n + 1 >= output.Length {
          return -1, n;
        }
        output[n] := start[n];
        n := n + 1;
      }
      code := if n < |start| then 0 else -1;
    }

    method GetLastHash() returns (hash: string)
      ensures hash == LastHash(Chunks(file, MAX_LINE)) && LastStored(Chunks(file, 4096), hash)
    {
      LastHashExactly(Chunks(file, 4096));
      hash := GENESIS;
      var rest := file;
      ghost var done: seq<string> := [];
      while rest != ""
        invariant Chunks(file, MAX_LINE) == done + Chunks(rest, MAX_LINE)
        invariant hash == LastHash(done)
        decreases |rest|
      {
        var line := Fgets(rest, MAX_LINE);
        rest := rest[|line|..];
        NextChunk(done, line, Chunks(rest, MAX_LINE));
        hash := HashIn(line, hash);
        done := done + [line];
      }
      assert done + Chunks("", MAX_LINE) == done;
    }

    method Append(eventType: string, details: string, timestamp: string) returns (code: nat)
      modifies this
      ensures (file, code) == AppendTo(H, old(file), Event(timestamp, eventType, details))
      ensures AppendedTo(H, old(file), timestamp, eventType, details, code, file)
    {
      AppendExactly(H, file, Event(timestamp, eventType, details));
      if !ValidText(eventType, MAX_EVENT) || !ValidText(details, MAX_DETAILS) {
        return 2;
      }
      var previous := GetLastHash();
      var eventEscaped, detailsEscaped := new char[EVENT_SIZE], new char[DETAILS_SIZE];
      var okEvent := JsonEscape(eventType, eventEscaped);
      var okDetails := JsonEscape(details, detailsEscaped);
      code := 8;
      if okEvent != 0 || okDetails != 0 {
        return;
      }
      var eventText, detailsText := eventEscaped[..|Escape(eventType)|], detailsEscaped[..|Escape(details)|];
      var record := Fields(timestamp, eventText, detailsText, previous, "");
      if |record| >= MAX_LINE {
        return 8;
      }
      file := file + (record + ("," + Field("hash", HashHex(H, record), "}")) + "\n");
      code := 0;
    }

    // One turn of the verifier's loop.
    method CheckLine(line: string, expected: string, broken: bool) returns (expected': string, broken': bool)
      ensures broken' <==> broken || !LineOk(H, line, expected)
      ensures broken' <==> broken || forall e :: GoodLine(H)(line, e) ==> e.previous != expected
      ensures LineOk(H, line, expected) ==> expected' == EntryOf(line).value.hash
      ensures forall e :: GoodLine(H)(line, e) ==> expected' == e.hash
    {
      GoodLineExactly(H, line, expected);
      expected', broken' := expected, broken;
      var entry := EntryOf(line);
      if entry.None? {
        return expected', true;
      }
      var e := entry.value;
      if e.previous != expected {
        broken' := true;
      }
      var canonical := BuildRecord(e.timestamp, e.event, e.details, e.previous);
      if canonical.None? {
        return expected', true;
      }
      if HashHex(H, canonical.value) != e.hash {
        broken' := true;
      }
      expected' := e.hash;
    }

    // Exit code 0 for a chain with nothing broken, 1 otherwise; `entries` counts the lines read.
    method Verify() returns (code: nat, entries: nat)
      ensures code == 0 <==> Accepted(H, Chunks(file, MAX_LINE))
      ensures code == 0 <==> exists es :: Linked(GoodLine(H), Chunks(file, 4096), es)
      ensures code <= 1 && entries == |Chunks(file, MAX_LINE)|
    {
      AcceptedMeans(H, Chunks(file, 4096));
      var expected, broken, rest := GENESIS, false, file;
      entries := 0;
      ghost var done: seq<string> := [];
      while rest != ""
        invariant Chunks(file, MAX_LINE) == done + Chunks(rest, MAX_LINE)
        invariant entries == |done|
        invariant !broken <==> Accepted(H, done)
        invariant !broken ==> expected == Expected(done)
        decreases |rest|
      {
        var line := Fgets(rest, MAX_LINE);
        rest := rest[|line|..];
        entries := entries + 1;
        NextChunk(done, line, Chunks(rest, MAX_LINE));
        expected, broken := CheckLine(line, expected, broken);
        NextAccepted(H, done, line);
        done := done + [line];
      }
      assert done + Chunks("", MAX_LINE) == done;
      code := if broken then 1 else 0;
    }
  }

  lemma NextAccepted(H: HashFn, done: seq<string>, line: string)
    ensures Accepted(H, done + [line]) <==> Accepted(H, done) && LineOk(H, line, Expected(done))
    ensures EntryOf(line).Some? ==> Expected(done + [line]) == EntryOf(line).value.hash
  {
    assert (done + [line])[..|done|] == done;
  }

  lemma EscapeStep(s: string, i: nat)
    requires i < |s|
    ensures Escape(s[..i + 1]) == Escape(s[..i]) + EscapeChar(s[i])
    ensures |Escape(s[..i + 1])| <= |Escape(s)|
  {
    assert s[..i + 1] == s[..i] + [s[i]] && s == s[..i + 1] + s[i + 1..];
    EscapeConcat(s[..i], [s[i]]);
    assert [s[i]][1..] == "" && Escape([s[i]]) == EscapeChar(s[i]) + Escape("");
    EscapeConcat(s[..i + 1], s[i + 1..]);
  }
}
