/** The authenticated alert channel: packets built and parsed, and the log of nonces that keeps an
    alert from being delivered twice. */
module CommunityAlert {
  import opened Hashing
  import opened CText
  import opened BarFields

  const VERSION := "CHRONO_ALERT_V1"
  const MAX_TYPE := 64
  const MAX_LABEL := 64
  const MAX_ALERT := 300
  const CANONICAL_SIZE := 768
  const PACKET_SIZE := 1024
  const LOG_LINE_SIZE := 128
  const MAX_CLOCK_SKEW := 300
  const MAX_SEEN_NONCES := 4096
  const LONG_LONG := 0x8000_0000_0000_0000

  // HMAC under the shared key, as a function of the canonical text; `sscanf(s, "%2x")`.
  type Mac = HashFn
  type Scan = string -> Option<char>

  // All that is known of `sscanf`: it reads two hexadecimal digits as their byte.
  ghost predicate ScansHex(scan: Scan) {
    forall s :: ScansAt(scan, s)
  }

  ghost predicate ScansAt(scan: Scan, s: string) {
    |s| >= 2 && IsHex(s[..2]) ==> scan(s) == Some(Unhex(s[..2])[0])
  }

  // ---------- building ----------

  datatype Alert = Alert(kind: string, origin: string, message: string)

  predicate NoBar(s: string) {
    Lacks(s, '|')
  }

  function Canonical(a: Alert, nonce: string, timestamp: nat): string
    requires Bytes(nonce)
  {
    Join([VERSION, Dec(timestamp), Hex(nonce), a.kind, a.origin, a.message])
  }

  // None when the packet is refused; `nonce` and `timestamp` come from outside.
  function BuildPacket(mac: Mac, a: Alert, nonce: string, timestamp: int, packetSize: nat): Option<string>
    requires Bytes(nonce)
  {
    if !NoBar(a.kind) || !NoBar(a.message) || !NoBar(a.origin) || timestamp < 0 then None
    else
      var canonical := Canonical(a, nonce, timestamp);
      if |canonical| >= CANONICAL_SIZE then None
      else
        var packet := canonical + "|" + HashHex(mac, canonical);
        if |packet| >= packetSize then None else Some(packet)
  }

  // ---------- parsing ----------

  // What successive `strtok_r(s, "|")` calls give: the tokens that are not empty.
  function NonEmpty(ts: seq<string>): seq<string> {
    if ts == [] then [] else (if ts[0] == "" then [] else [ts[0]]) + NonEmpty(ts[1..])
  }

  function FieldsOf(packet: string): (r: Option<seq<string>>)
    ensures r.Some? ==> |r.value| == 7
  {
    var ts := NonEmpty(Tokens(packet));
    if |ts| < 7 then None else Some(ts[..7])
  }

  // None when a digit pair does not scan; `hex` has `2 n` characters.
  function ScanBytes(scan: Scan, hex: string): Option<string>
    decreases |hex|
  {
    if |hex| < 2 then Some("")
    else
      var rest := ScanBytes(scan, hex[2..]);
      match scan(hex)
      case Some(b) => if rest.Some? then Some([b] + rest.value) else None
      case None => None
  }

  function HexToBytes(scan: Scan, hex: string, n: nat): Option<string> {
    if |hex| != 2 * n then None else ScanBytes(scan, hex)
  }

  // `nonce_seen`: only the first 4096 lines are looked at.
  predicate SeenIn(lines: seq<string>, nonce: string, limit: nat) {
    lines != [] && limit > 0 &&
    (CutAt(CString(lines[0]), "\r\n") == nonce || SeenIn(lines[1..], nonce, limit - 1))
  }

  predicate NonceSeen(log: string, nonce: string) {
    SeenIn(Chunks(log, LOG_LINE_SIZE), nonce, MAX_SEEN_NONCES)
  }

  datatype Reception = Reception(packet: string, allowed: bool, now: int)

  // The code for a packet before its nonce is recorded; 0 when it is authentic and new.
  function Check(mac: Mac, scan: Scan, log: string, r: Reception): int {
    if !r.allowed then -2
    else if |r.packet| >= PACKET_SIZE then -1
    else match FieldsOf(r.packet)
      case None => -1
      case Some(f) =>
        if f[0] != VERSION || |f[2]| != 32 || |f[6]| != 64 || HexToBytes(scan, f[2], 16).None? then -1
        else
          var timestamp := Atoi(f[1]);
          if timestamp < -LONG_LONG || timestamp >= LONG_LONG || r.now < 0 then -1
          else if timestamp > r.now + MAX_CLOCK_SKEW || timestamp < r.now - MAX_CLOCK_SKEW then -3
          else if NonceSeen(log, f[2]) then -4
          else if |Join(f[..6])| >= CANONICAL_SIZE || HexToBytes(scan, f[6], 32).None? then -1
          else if HexToBytes(scan, f[6], 32).value != mac(Join(f[..6])).bytes then -5
          else 0
  }

  // The code, the nonce log after it, and the alert delivered.
  function Receive(mac: Mac, scan: Scan, log: string, r: Reception): (int, string, Option<Alert>) {
    var code := Check(mac, scan, log, r);
    if code != 0 || FieldsOf(r.packet).None? then (code, log, None)
    else
      var f := FieldsOf(r.packet).value;
      var recorded := log + (f[2] + "\n");
      if |f[3]| >= MAX_TYPE || |f[4]| >= MAX_LABEL || |f[5]| >= MAX_ALERT then (-1, recorded, None)
      else (0, recorded, Some(Alert(f[3], f[4], f[5])))
  }

  // ---------- what is built parses back ----------

  lemma HexHead(s: string)
    requires Bytes(s) && s != ""
    ensures |Hex(s)| >= 2 && IsHex(Hex(s)[..2]) && Unhex(Hex(s)[..2]) == [s[0]]
    ensures Hex(s)[2..] == Hex(s[1..])
  {
    assert [s[0]][1..] == "";
    assert Hex(s)[..2] == Hex([s[0]]);
    UnhexUndoesHex([s[0]]);
  }

  lemma ScanHead(scan: Scan, s: string)
    requires ScansHex(scan) && Bytes(s) && s != ""
    ensures scan(Hex(s)) == Some(s[0])
  {
    HexHead(s);
    assert ScansAt(scan, Hex(s));
  }

  lemma ScanStep(scan: Scan, h: string, b: char, rest: string)
    requires |h| >= 2 && scan(h) == Some(b) && ScanBytes(scan, h[2..]) == Some(rest)
    ensures ScanBytes(scan, h) == Some([b] + rest)
  {
  }

  lemma {:induction false} ScanOfHex(scan: Scan, s: string)
    requires ScansHex(scan) && Bytes(s)
    ensures ScanBytes(scan, Hex(s)) == Some(s)
  {
    if s != "" {
      HexHead(s);
      ScanHead(scan, s);
      ScanOfHex(scan, s[1..]);
      ScanStep(scan, Hex(s), s[0], s[1..]);
      assert s == [s[0]] + s[1..];
    }
  }

  lemma {:induction false} NonEmptyShorter(ts: seq<string>)
    ensures |NonEmpty(ts)| <= |ts|
    ensures (forall i :: 0 <= i < |ts| ==> ts[i] != "") ==> NonEmpty(ts) == ts
    ensures (exists i :: 0 <= i < |ts| && ts[i] == "") ==> |NonEmpty(ts)| < |ts|
  {
    if ts != [] {
      NonEmptyShorter(ts[1..]);
      assert ts == [ts[0]] + ts[1..];
      assert forall i :: 0 < i < |ts| ==> ts[i] == ts[1..][i - 1];
    }
  }

  // An alert whose fields fit the buffers it is read into.
  predicate Sized(a: Alert) {
    |a.kind| < MAX_TYPE && |a.origin| < MAX_LABEL && |a.message| < MAX_ALERT
  }

  predicate Sendable(a: Alert) {
    NoBar(a.kind) && NoBar(a.origin) && NoBar(a.message)
  }

  lemma FieldsAreBarFree(a: Alert, nonce: string, timestamp: nat, macHex: string, f: seq<string>)
    requires Sendable(a) && Bytes(nonce) && IsHex(macHex)
    requires f == [VERSION, Dec(timestamp), Hex(nonce), a.kind, a.origin, a.message, macHex]
    ensures NoBars(f)
  {
    assert Digits(Dec(timestamp)) && IsHex(Hex(nonce));
    assert Lacks(Dec(timestamp), '|') && Lacks(Hex(nonce), '|') && Lacks(macHex, '|');
    assert Lacks(VERSION, '|');
  }

  lemma JoinLength6(a: string, b: string, c: string, d: string, e: string, f: string)
    ensures |Join([a, b, c, d, e, f])| == |a| + |b| + |c| + |d| + |e| + |f| + 5
  {
    assert [a, b, c, d, e, f][1..] == [b, c, d, e, f];
    assert [b, c, d, e, f][1..] == [c, d, e, f];
    assert [c, d, e, f][1..] == [d, e, f];
    assert [d, e, f][1..] == [e, f];
    assert [e, f][1..] == [f];
    assert Join([f]) == f;
    assert Join([e, f]) == e + "|" + f;
    assert Join([d, e, f]) == d + "|" + Join([e, f]);
    assert Join([c, d, e, f]) == c + "|" + Join([d, e, f]);
    assert Join([b, c, d, e, f]) == b + "|" + Join([c, d, e, f]);
  }

  function Seven(a: Alert, nonce: string, timestamp: nat, macHex: string): (f: seq<string>)
    requires Bytes(nonce)
    ensures |f| == 7
  {
    [VERSION, Dec(timestamp), Hex(nonce), a.kind, a.origin, a.message, macHex]
  }

  // The packet is its seven fields between bars, and cuts apart into those that are not empty.
  lemma PacketFields(a: Alert, nonce: string, timestamp: nat, macHex: string, packet: string)
    requires Sendable(a) && Bytes(nonce) && |nonce| == 16 && IsHex(macHex) && |macHex| == 64
    requires packet == Canonical(a, nonce, timestamp) + "|" + macHex
    ensures FieldsOf(packet) == if a.kind != "" && a.origin != "" && a.message != ""
      then Some(Seven(a, nonce, timestamp, macHex)) else None
  {
    var f := Seven(a, nonce, timestamp, macHex);
    FieldsAreBarFree(a, nonce, timestamp, macHex, f);
    assert f[..6] == [VERSION, Dec(timestamp), Hex(nonce), a.kind, a.origin, a.message];
    assert f == f[..6] + [f[6]];
    JoinSnoc(f[..6], f[6]);
    TokensOfJoin(f);
    NonEmptyShorter(f);
    if a.kind == "" { assert f[3] == ""; }
    if a.origin == "" { assert f[4] == ""; }
    if a.message == "" { assert f[5] == ""; }
    if a.kind != "" && a.origin != "" && a.message != "" {
      assert NonEmpty(f) == f && f[..7] == f;
    }
  }

  lemma Pow10Of19()
    ensures Pow10(19) > LONG_LONG
  {
    assert Pow10(4) == 10_000;
    assert Pow10(7) == 10 * (10 * (10 * Pow10(4)));
    assert Pow10(10) == 10 * (10 * (10 * Pow10(7)));
    assert Pow10(13) == 10 * (10 * (10 * Pow10(10)));
    assert Pow10(16) == 10 * (10 * (10 * Pow10(13)));
    assert Pow10(19) == 10 * (10 * (10 * Pow10(16)));
  }

  // The characters of a packet that are not its three texts: version, timestamp, nonce and bars.
  function Overhead(timestamp: nat): nat {
    |VERSION| + |Dec(timestamp)| + 32 + 5
  }

  // What is built: exactly the texts without bars that leave room in the canonical buffer.  The packet
  // buffer then always suffices.
  lemma BuiltExactly(mac: Mac, a: Alert, nonce: string, timestamp: nat)
    requires Bytes(nonce) && |nonce| == 16
    ensures BuildPacket(mac, a, nonce, timestamp, PACKET_SIZE).Some? <==>
      Sendable(a) && Overhead(timestamp) + |a.kind| + |a.origin| + |a.message| < CANONICAL_SIZE
  {
    JoinLength6(VERSION, Dec(timestamp), Hex(nonce), a.kind, a.origin, a.message);
  }

  lemma OverheadIsSmall(timestamp: nat)
    requires timestamp < LONG_LONG
    ensures Overhead(timestamp) <= 71
  {
    Pow10Of19();
    DecShort(timestamp, 19);
  }

  // Texts under the limits of the receiver are always built; and so are texts over them, up to 696
  // characters in all.
  lemma PacketSizes(mac: Mac, a: Alert, nonce: string, timestamp: nat)
    requires Sendable(a) && Bytes(nonce) && |nonce| == 16 && timestamp < LONG_LONG
    requires Sized(a) || |a.kind| + |a.origin| + |a.message| <= 696
    ensures BuildPacket(mac, a, nonce, timestamp, PACKET_SIZE).Some?
  {
    OverheadIsSmall(timestamp);
    BuiltExactly(mac, a, nonce, timestamp);
  }

  // Every packet that is built, at an allowed peer inside the clock window, with a new nonce: refused
  // without a trace if a field is empty; delivered as it was sent if none is and all are under the
  // receiver's limits; and otherwise refused after its nonce has been recorded.
  lemma RoundTrip(mac: Mac, scan: Scan, log: string, a: Alert, nonce: string, timestamp: nat, now: nat, packet: string)
    requires ScansHex(scan) && Bytes(nonce) && |nonce| == 16
    requires timestamp < LONG_LONG && now - MAX_CLOCK_SKEW <= timestamp <= now + MAX_CLOCK_SKEW
    requires !NonceSeen(log, Hex(nonce))
    requires BuildPacket(mac, a, nonce, timestamp, PACKET_SIZE) == Some(packet)
    ensures Receive(mac, scan, log, Reception(packet, true, now)) ==
      if a.kind == "" || a.origin == "" || a.message == "" then (-1, log, None)
      else if Sized(a) then (0, log + (Hex(nonce) + "\n"), Some(a))
      else (-1, log + (Hex(nonce) + "\n"), None)
  {
    var canonical := Canonical(a, nonce, timestamp);
    PacketFields(a, nonce, timestamp, HashHex(mac, canonical), packet);
    if a.kind != "" && a.origin != "" && a.message != "" {
      FieldsChecked(mac, scan, log, a, nonce, timestamp, now, packet);
    }
  }

  // A message too long for every receiver is built, and all it does there is use up its nonce.
  lemma OversizeIsBuilt(mac: Mac, scan: Scan, log: string, a: Alert, nonce: string, timestamp: nat, now: nat)
    requires ScansHex(scan) && Bytes(nonce) && |nonce| == 16 && Sendable(a) && a.kind != "" && a.origin != ""
    requires |a.message| >= MAX_ALERT && |a.kind| + |a.origin| + |a.message| <= 696
    requires timestamp < LONG_LONG && now - MAX_CLOCK_SKEW <= timestamp <= now + MAX_CLOCK_SKEW
    requires !NonceSeen(log, Hex(nonce))
    ensures var packet := BuildPacket(mac, a, nonce, timestamp, PACKET_SIZE);
      packet.Some? &&
      Receive(mac, scan, log, Reception(packet.value, true, now)) == (-1, log + (Hex(nonce) + "\n"), None)
  {
    PacketSizes(mac, a, nonce, timestamp);
    RoundTrip(mac, scan, log, a, nonce, timestamp, now, BuildPacket(mac, a, nonce, timestamp, PACKET_SIZE).value);
  }

  lemma FieldsChecked(mac: Mac, scan: Scan, log: string, a: Alert, nonce: string, timestamp: nat, now: nat,
                      packet: string)
    requires ScansHex(scan) && Bytes(nonce) && |nonce| == 16 && |packet| < PACKET_SIZE
    requires timestamp < LONG_LONG && now - MAX_CLOCK_SKEW <= timestamp <= now + MAX_CLOCK_SKEW
    requires !NonceSeen(log, Hex(nonce)) && |Canonical(a, nonce, timestamp)| < CANONICAL_SIZE
    requires FieldsOf(packet) == Some(Seven(a, nonce, timestamp, HashHex(mac, Canonical(a, nonce, timestamp))))
    ensures Check(mac, scan, log, Reception(packet, true, now)) == 0
  {
    var canonical := Canonical(a, nonce, timestamp);
    var f := Seven(a, nonce, timestamp, HashHex(mac, canonical));
    assert f[..6] == [VERSION, Dec(timestamp), Hex(nonce), a.kind, a.origin, a.message];
    ScanOfHex(scan, nonce);
    ScanOfHex(scan, mac(canonical).bytes);
    AtoiOfDec(timestamp);
    Passes(mac, scan, log, Reception(packet, true, now), f);
  }

  lemma Passes(mac: Mac, scan: Scan, log: string, r: Reception, f: seq<string>)
    requires r.allowed && |r.packet| < PACKET_SIZE && r.now >= 0 && FieldsOf(r.packet) == Some(f)
    requires f[0] == VERSION && |f[2]| == 32 && |f[6]| == 64 && HexToBytes(scan, f[2], 16).Some?
    requires -LONG_LONG <= Atoi(f[1]) < LONG_LONG && r.now - MAX_CLOCK_SKEW <= Atoi(f[1]) <= r.now + MAX_CLOCK_SKEW
    requires !NonceSeen(log, f[2]) && |Join(f[..6])| < CANONICAL_SIZE
    requires HexToBytes(scan, f[6], 32) == Some(mac(Join(f[..6])).bytes)
    ensures Check(mac, scan, log, r) == 0
  {
  }

  // What is built, written out.
  lemma BuiltText(mac: Mac, a: Alert, nonce: string, timestamp: nat, packet: string)
    requires Bytes(nonce) && |nonce| == 16 && BuildPacket(mac, a, nonce, timestamp, PACKET_SIZE) == Some(packet)
    ensures var text := "CHRONO_ALERT_V1|" + Dec(timestamp) + "|" + Hex(nonce) + "|" + a.kind + "|" + a.origin +
        "|" + a.message;
      packet == text + "|" + Hex(mac(text).bytes)
  {
    JoinOfSix(VERSION, Dec(timestamp), Hex(nonce), a.kind, a.origin, a.message);
    assert VERSION + "|" == "CHRONO_ALERT_V1|";
  }

  // ---------- what is accepted, written out ----------

  // Seven fields in a packet that fits, the version, a nonce and a code of the right lengths, a nonce of
  // hexadecimal digits, and a timestamp that is a 64-bit number.
  ghost predicate WellFormed(scan: Scan, packet: string) {
    && |packet| < 1024 && FieldsOf(packet).Some?
    && var f := FieldsOf(packet).value;
    && f[0] == "CHRONO_ALERT_V1" && |f[2]| == 32 && |f[6]| == 64
    && HexToBytes(scan, f[2], 16).Some? && -0x8000_0000_0000_0000 <= Atoi(f[1]) < 0x8000_0000_0000_0000
  }

  // Within 300 seconds of the receiver's clock.
  ghost predicate InWindow(f: seq<string>, now: int)
    requires |f| == 7
  {
    now - 300 <= Atoi(f[1]) <= now + 300
  }

  // The last field is the code of the first six, which fit the canonical buffer.
  ghost predicate CodeReadable(scan: Scan, f: seq<string>)
    requires |f| == 7
  {
    |Join(f[..6])| < 768 && HexToBytes(scan, f[6], 32).Some?
  }

  ghost predicate CodeRight(mac: Mac, scan: Scan, f: seq<string>)
    requires |f| == 7
  {
    CodeReadable(scan, f) && HexToBytes(scan, f[6], 32).value == mac(Join(f[..6])).bytes
  }

  ghost predicate UnderLimits(f: seq<string>)
    requires |f| == 7
  {
    |f[3]| < 64 && |f[4]| < 64 && |f[5]| < 300
  }

  // Delivered exactly when all of it holds, from a configured peer, with a nonce not seen; then type,
  // origin and message are the packet's own and the nonce is recorded.
  lemma DeliveredExactly(mac: Mac, scan: Scan, log: string, r: Reception)
    ensures var (code, log', alert) := Receive(mac, scan, log, r);
      && (code == 0 <==>
            && r.allowed && WellFormed(scan, r.packet) && r.now >= 0
            && var f := FieldsOf(r.packet).value;
            && InWindow(f, r.now) && !NonceSeen(log, f[2]) && CodeRight(mac, scan, f) && UnderLimits(f))
      && (code == 0 ==>
            && FieldsOf(r.packet).Some?
            && var f := FieldsOf(r.packet).value;
            && log' == log + f[2] + "\n" && alert == Some(Alert(f[3], f[4], f[5])))
      && (code != 0 ==> alert == None)
  {
    if Check(mac, scan, log, r) == 0 {
      var f := FieldsOf(r.packet).value;
      assert log + (f[2] + "\n") == log + f[2] + "\n";
    }
  }

  // The refusals, in their order, each with its code; only the last leaves a trace.
  lemma RefusedExactly(mac: Mac, scan: Scan, log: string, r: Reception)
    ensures !r.allowed ==> Receive(mac, scan, log, r) == (-2, log, None)
    ensures r.allowed && !(WellFormed(scan, r.packet) && r.now >= 0) ==> Receive(mac, scan, log, r) == (-1, log, None)
    ensures r.allowed && WellFormed(scan, r.packet) && r.now >= 0 ==>
      var (f, got) := (FieldsOf(r.packet).value, Receive(mac, scan, log, r));
      && (!InWindow(f, r.now) ==> got == (-3, log, None))
      && (InWindow(f, r.now) && NonceSeen(log, f[2]) ==> got == (-4, log, None))
      && (InWindow(f, r.now) && !NonceSeen(log, f[2]) ==>
            && (!CodeReadable(scan, f) ==> got == (-1, log, None))
            && (CodeReadable(scan, f) && !CodeRight(mac, scan, f) ==> got == (-5, log, None))
            && (CodeRight(mac, scan, f) && !UnderLimits(f) ==> got == (-1, log + (f[2] + "\n"), None)))
  {
  }

  // A nonce is seen exactly when one of the first 4096 lines read is it, up to its line end.
  lemma {:induction false} SeenPointwise(lines: seq<string>, nonce: string, limit: nat)
    ensures SeenIn(lines, nonce, limit) <==>
      exists i :: 0 <= i < |lines| && i < limit && CutAt(CString(lines[i]), "\r\n") == nonce
  {
    if lines != [] && limit > 0 {
      SeenPointwise(lines[1..], nonce, limit - 1);
      assert forall i :: 0 <= i < |lines| - 1 ==> lines[1..][i] == lines[i + 1];
      if i :| 0 <= i < |lines| && i < limit && CutAt(CString(lines[i]), "\r\n") == nonce && i > 0 {
        assert lines[1..][i - 1] == lines[i];
      }
    }
  }

  lemma SeenInFirst(log: string, nonce: string, lines: seq<string>)
    requires lines == Chunks(log, 128)
    ensures NonceSeen(log, nonce) <==>
      exists i :: 0 <= i < |lines| && i < 4096 && CutAt(CString(lines[i]), "\r\n") == nonce
  {
    SeenPointwise(lines, nonce, MAX_SEEN_NONCES);
  }

  // ---------- no alert is delivered twice ----------

  function LogOf(nonces: seq<string>): string {
    if nonces == [] then "" else LogOf(nonces[..|nonces| - 1]) + (nonces[|nonces| - 1] + "\n")
  }

  ghost predicate Nonces(ns: seq<string>) {
    forall i :: 0 <= i < |ns| ==> |ns[i]| == 32 && IsHex(ns[i])
  }

  lemma {:induction false} LogLines(ns: seq<string>)
    requires Nonces(ns)
    ensures EndsLine(LogOf(ns)) && |Chunks(LogOf(ns), LOG_LINE_SIZE)| == |ns|
    ensures forall i :: 0 <= i < |ns| ==> Chunks(LogOf(ns), LOG_LINE_SIZE)[i] == ns[i] + "\n"
  {
    if ns != [] {
      var init, last := ns[..|ns| - 1], ns[|ns| - 1];
      LogLines(init);
      assert Lacks(last, '\n');
      AppendLine(LogOf(init), last, LOG_LINE_SIZE);
    }
  }

  function First(ns: seq<string>, limit: nat): seq<string> {
    ns[..if |ns| < limit then |ns| else limit]
  }

  lemma {:induction false} SeenInLines(lines: seq<string>, ns: seq<string>, nonce: string, limit: nat)
    requires Nonces(ns) && |lines| == |ns| && forall i :: 0 <= i < |ns| ==> lines[i] == ns[i] + "\n"
    ensures SeenIn(lines, nonce, limit) <==> nonce in First(ns, limit)
  {
    if ns != [] && limit > 0 {
      assert Lacks(ns[0], '\0') && Lacks(ns[0], '\r') && Lacks(ns[0], '\n');
      CStringWhole(ns[0] + "\n");
      CutAtFirst(ns[0], "\n", "\r\n");
      SeenInLines(lines[1..], ns[1..], nonce, limit - 1);
      var k := if |ns| < limit then |ns| else limit;
      assert ns[..k] == [ns[0]] + ns[1..][..k - 1];
    }
  }

  // A nonce is recognised exactly when it is among the first 4096 recorded.
  lemma SeenExactly(ns: seq<string>, nonce: string)
    requires Nonces(ns)
    ensures NonceSeen(LogOf(ns), nonce) <==> nonce in First(ns, MAX_SEEN_NONCES)
  {
    LogLines(ns);
    SeenInLines(Chunks(LogOf(ns), LOG_LINE_SIZE), ns, nonce, MAX_SEEN_NONCES);
  }

  // What the key is trusted for: text with a right code was written by `build_packet`.
  ghost predicate Authentic(mac: Mac, scan: Scan, r: Reception) {
    FieldsOf(r.packet).Some? ==>
      var f := FieldsOf(r.packet).value;
      HexToBytes(scan, f[6], 32) == Some(mac(Join(f[..6])).bytes) ==> FromBuilder(Join(f[..6]))
  }

  ghost predicate FromBuilder(canonical: string) {
    exists a: Alert, nonce: string, timestamp: nat ::
      Sendable(a) && Bytes(nonce) && |nonce| == 16 && canonical == Canonical(a, nonce, timestamp)
  }

  function NonceOf(r: Reception): string {
    match FieldsOf(r.packet)
    case Some(f) => f[2]
    case None => ""
  }

  lemma {:induction false} NonEmptyNoBars(ts: seq<string>)
    requires NoBars(ts)
    ensures NoBars(NonEmpty(ts))
  {
    if ts != [] {
      NonEmptyNoBars(ts[1..]);
    }
  }

  lemma AcceptedNonceIsHex(mac: Mac, scan: Scan, log: string, r: Reception)
    requires Authentic(mac, scan, r) && Check(mac, scan, log, r) == 0 && FieldsOf(r.packet).Some?
    ensures |NonceOf(r)| == 32 && IsHex(NonceOf(r))
  {
    var f := FieldsOf(r.packet).value;
    assert FromBuilder(Join(f[..6]));
    var a: Alert, nonce: string, timestamp: nat :|
      Sendable(a) && Bytes(nonce) && |nonce| == 16 && Join(f[..6]) == Canonical(a, nonce, timestamp);
    TokensHaveNoBars(r.packet);
    NonEmptyNoBars(Tokens(r.packet));
    ThirdIsNonce(f[..6], a, nonce, timestamp);
  }

  lemma ThirdIsNonce(f: seq<string>, a: Alert, nonce: string, timestamp: nat)
    requires |f| == 6 && NoBars(f) && Sendable(a) && Bytes(nonce)
    requires Join(f) == Canonical(a, nonce, timestamp)
    ensures f[2] == Hex(nonce)
  {
    var g := Seven(a, nonce, timestamp, "");
    FieldsAreBarFree(a, nonce, timestamp, "", g);
    assert g[..6] == [VERSION, Dec(timestamp), Hex(nonce), a.kind, a.origin, a.message];
    TokensOfJoin(f);
    TokensOfJoin(g[..6]);
  }

  // The log after a run of receptions, and the nonces it recorded.
  function LogAfter(mac: Mac, scan: Scan, rs: seq<Reception>): string {
    if rs == [] then "" else Receive(mac, scan, LogAfter(mac, scan, rs[..|rs| - 1]), rs[|rs| - 1]).1
  }

  function Recorded(mac: Mac, scan: Scan, rs: seq<Reception>): seq<string> {
    if rs == [] then []
    else
      var n := |rs| - 1;
      Recorded(mac, scan, rs[..n])
      + if Check(mac, scan, LogAfter(mac, scan, rs[..n]), rs[n]) == 0 then [NonceOf(rs[n])] else []
  }

  // Reception `i` of the run delivers its alert.
  predicate Delivers(mac: Mac, scan: Scan, rs: seq<Reception>, i: nat)
    requires i < |rs|
  {
    Receive(mac, scan, LogAfter(mac, scan, rs[..i]), rs[i]).0 == 0
  }

  lemma CheckedHasFields(mac: Mac, scan: Scan, log: string, r: Reception)
    requires Check(mac, scan, log, r) == 0
    ensures FieldsOf(r.packet).Some? && !NonceSeen(log, NonceOf(r))
  {
  }

  lemma LogSnoc(ns: seq<string>, nonce: string)
    ensures LogOf(ns + [nonce]) == LogOf(ns) + (nonce + "\n")
  {
    assert (ns + [nonce])[..|ns|] == ns;
  }

  lemma ReceiveRecords(mac: Mac, scan: Scan, log: string, r: Reception)
    ensures Receive(mac, scan, log, r).1 == if Check(mac, scan, log, r) == 0 then log + (NonceOf(r) + "\n") else log
    ensures Receive(mac, scan, log, r).0 == 0 ==> Check(mac, scan, log, r) == 0
  {
  }

  lemma RecordStep(mac: Mac, scan: Scan, log: string, r: Reception, ns: seq<string>)
    requires Authentic(mac, scan, r) && Nonces(ns) && log == LogOf(ns) && Check(mac, scan, log, r) == 0
    ensures Nonces(ns + [NonceOf(r)]) && LogOf(ns + [NonceOf(r)]) == log + (NonceOf(r) + "\n")
  {
    CheckedHasFields(mac, scan, log, r);
    AcceptedNonceIsHex(mac, scan, log, r);
    LogSnoc(ns, NonceOf(r));
  }

  lemma {:induction false} RunRecords(mac: Mac, scan: Scan, rs: seq<Reception>)
    requires forall r :: r in rs ==> Authentic(mac, scan, r)
    ensures Nonces(Recorded(mac, scan, rs)) && LogAfter(mac, scan, rs) == LogOf(Recorded(mac, scan, rs))
  {
    if rs != [] {
      var init, r := rs[..|rs| - 1], rs[|rs| - 1];
      assert forall q :: q in init ==> q in rs;
      RunRecords(mac, scan, init);
      var log, ns := LogAfter(mac, scan, init), Recorded(mac, scan, init);
      ReceiveRecords(mac, scan, log, r);
      if Check(mac, scan, log, r) == 0 {
        RecordStep(mac, scan, log, r, ns);
      } else {
        assert ns + [] == ns;
      }
    }
  }

  lemma {:induction false} RecordedPrefix(mac: Mac, scan: Scan, rs: seq<Reception>, i: nat)
    requires i <= |rs|
    ensures Recorded(mac, scan, rs[..i]) <= Recorded(mac, scan, rs)
    decreases |rs|
  {
    if i == |rs| {
      assert rs[..i] == rs;
    } else {
      var init := rs[..|rs| - 1];
      assert init[..i] == rs[..i];
      RecordedPrefix(mac, scan, init, i);
    }
  }

  lemma DeliveredIsLast(mac: Mac, scan: Scan, rs: seq<Reception>, i: nat)
    requires i < |rs| && Delivers(mac, scan, rs, i)
    ensures Recorded(mac, scan, rs[..i + 1]) == Recorded(mac, scan, rs[..i]) + [NonceOf(rs[i])]
  {
    var first := rs[..i + 1];
    assert first[..i] == rs[..i] && first[i] == rs[i];
    ReceiveRecords(mac, scan, LogAfter(mac, scan, rs[..i]), rs[i]);
  }

  // A delivered alert's nonce stands in the record where the record then ended.
  lemma DeliveredIsRecorded(mac: Mac, scan: Scan, rs: seq<Reception>, i: nat, k: nat)
    requires i < |rs| && Delivers(mac, scan, rs, i) && k == |Recorded(mac, scan, rs[..i])|
    ensures k < |Recorded(mac, scan, rs)| && Recorded(mac, scan, rs)[k] == NonceOf(rs[i])
    ensures Recorded(mac, scan, rs)[..k] == Recorded(mac, scan, rs[..i])
  {
    DeliveredIsLast(mac, scan, rs, i);
    RecordedPrefix(mac, scan, rs, i + 1);
    PrefixWithLast(Recorded(mac, scan, rs[..i]), NonceOf(rs[i]), Recorded(mac, scan, rs));
  }

  lemma PrefixWithLast(ns: seq<string>, nonce: string, all: seq<string>)
    requires ns + [nonce] <= all
    ensures |ns| < |all| && all[|ns|] == nonce && all[..|ns|] == ns
  {
    assert (ns + [nonce])[|ns|] == nonce;
  }

  // A delivered alert's nonce is not among the first 4096 recorded before it.
  lemma DeliveredIsNew(mac: Mac, scan: Scan, rs: seq<Reception>, i: nat)
    requires (forall r :: r in rs ==> Authentic(mac, scan, r)) && i < |rs| && Delivers(mac, scan, rs, i)
    ensures NonceOf(rs[i]) !in First(Recorded(mac, scan, rs[..i]), MAX_SEEN_NONCES)
  {
    var ns := Recorded(mac, scan, rs[..i]);
    assert forall r :: r in rs[..i] ==> r in rs;
    RunRecords(mac, scan, rs[..i]);
    ReceiveRecords(mac, scan, LogOf(ns), rs[i]);
    CheckedHasFields(mac, scan, LogOf(ns), rs[i]);
    SeenExactly(ns, NonceOf(rs[i]));
  }

  // Delivered to a receiver that has recorded nothing: from an allowed peer, inside the clock window,
  // authentic and within the limits.
  predicate GoodByItself(mac: Mac, scan: Scan, r: Reception) {
    Receive(mac, scan, "", r).0 == 0
  }

  lemma OnlyReplayCounts(mac: Mac, scan: Scan, log: string, r: Reception)
    requires GoodByItself(mac, scan, r)
    ensures Receive(mac, scan, log, r).0 == if NonceSeen(log, NonceOf(r)) then -4 else 0
  {
  }

  lemma SeenLater(ns: seq<string>, k: nat, later: seq<string>, nonce: string, limit: nat)
    requires k < |later| && later[..k] == ns && later[k] == nonce && nonce !in First(ns, limit)
    ensures nonce in First(later, limit) <==> k < limit
  {
    if k < limit {
      assert First(later, limit)[k] == nonce;
    } else {
      assert First(later, limit) == First(ns, limit);
    }
  }

  // The exact limit, in every run: the nonce of an alert delivered at `i`, received again at any later
  // time in a packet good by itself, is refused as a replay if fewer than 4096 nonces were recorded
  // before `i`, and is delivered again otherwise.
  lemma ReplayExactly(mac: Mac, scan: Scan, rs: seq<Reception>, i: nat, j: nat)
    requires (forall r :: r in rs ==> Authentic(mac, scan, r)) && i < j < |rs| && Delivers(mac, scan, rs, i)
    requires NonceOf(rs[j]) == NonceOf(rs[i]) && GoodByItself(mac, scan, rs[j])
    ensures Receive(mac, scan, LogAfter(mac, scan, rs[..j]), rs[j]).0
         == if |Recorded(mac, scan, rs[..i])| < MAX_SEEN_NONCES then -4 else 0
  {
    var before := rs[..j];
    assert before[..i] == rs[..i] && before[i] == rs[i];
    assert forall r :: r in before ==> r in rs;
    RunRecords(mac, scan, before);
    SeenByThen(mac, scan, before, i);
    OnlyReplayCounts(mac, scan, LogAfter(mac, scan, before), rs[j]);
  }

  lemma SeenByThen(mac: Mac, scan: Scan, rs: seq<Reception>, i: nat)
    requires (forall r :: r in rs ==> Authentic(mac, scan, r)) && i < |rs| && Delivers(mac, scan, rs, i)
    ensures NonceSeen(LogAfter(mac, scan, rs), NonceOf(rs[i]))
       <==> |Recorded(mac, scan, rs[..i])| < MAX_SEEN_NONCES
  {
    var ns, later := Recorded(mac, scan, rs[..i]), Recorded(mac, scan, rs);
    RunRecords(mac, scan, rs);
    DeliveredIsNew(mac, scan, rs, i);
    DeliveredIsRecorded(mac, scan, rs, i, |ns|);
    SeenExactly(later, NonceOf(rs[i]));
    SeenLater(ns, |ns|, later, NonceOf(rs[i]), MAX_SEEN_NONCES);
  }

  // In every run of receptions that records at most 4097 nonces, no two alerts delivered carry the
  // same nonce: a repeated or reordered packet is delivered at most once.
  lemma AtMostOnce(mac: Mac, scan: Scan, rs: seq<Reception>, i: nat, j: nat)
    requires forall r :: r in rs ==> Authentic(mac, scan, r)
    requires |Recorded(mac, scan, rs)| <= MAX_SEEN_NONCES + 1 && i < j < |rs|
    requires Delivers(mac, scan, rs, i) && Delivers(mac, scan, rs, j)
    ensures NonceOf(rs[i]) != NonceOf(rs[j]) && rs[i].packet != rs[j].packet
  {
    var before, k := rs[..j], |Recorded(mac, scan, rs[..i])|;
    assert before[..i] == rs[..i] && before[i] == rs[i];
    assert forall r :: r in before ==> r in rs;
    DeliveredIsRecorded(mac, scan, before, i, k);
    DeliveredIsRecorded(mac, scan, rs, j, |Recorded(mac, scan, before)|);
    SeenByThen(mac, scan, before, i);
    CheckedHasFields(mac, scan, LogAfter(mac, scan, before), rs[j]);
  }

  // ---------- the program ----------

  class Node {
    const mac: Mac
    const scan: Scan
    const peers: seq<string>
    var log: string

    constructor (mac: Mac, scan: Scan, peers: seq<string>)
      ensures this.mac == mac && this.scan == scan && this.peers == peers && log == ""
    {
      this.mac := mac;
      this.scan := scan;
      this.peers := peers;
      log := "";
    }

    method PeerAllowed(ip: string) returns (allowed: bool)
      ensures allowed <==> ip in peers
    {
      for i := 0 to |peers|
        invariant ip !in peers[..i]
      {
        if peers[i] == ip {
          return true;
        }
      }
      allowed := false;
    }

    method LookUp(nonce: string) returns (seen: bool)
      ensures seen <==> NonceSeen(log, nonce)
    {
      var rest, checked := log, 0;
      while rest != "" && checked < MAX_SEEN_NONCES
        invariant 0 <= checked <= MAX_SEEN_NONCES
        invariant NonceSeen(log, nonce) <==> SeenIn(Chunks(rest, LOG_LINE_SIZE), nonce, MAX_SEEN_NONCES - checked)
        decreases |rest|
      {
        var line := Fgets(rest, LOG_LINE_SIZE);
        rest := rest[|line|..];
        if CutAt(CString(line), "\r\n") == nonce {
          return true;
        }
        checked := checked + 1;
      }
      seen := false;
    }

    method ParseAndVerify(packet: string, fromIp: string, now: int) returns (code: int, alert: Option<Alert>)
      modifies this
      ensures (code, log, alert) == Receive(mac, scan, old(log), Reception(packet, fromIp in peers, now))
      ensures fromIp !in peers ==> code == -2 && log == old(log) && alert == None
      ensures code == 0 <==>
        && fromIp in peers && WellFormed(scan, packet) && now >= 0
        && var f := FieldsOf(packet).value;
        && InWindow(f, now) && !NonceSeen(old(log), f[2]) && CodeRight(mac, scan, f) && UnderLimits(f)
      ensures code == 0 ==>
        && FieldsOf(packet).Some?
        && var f := FieldsOf(packet).value;
        && log == old(log) + f[2] + "\n" && alert == Some(Alert(f[3], f[4], f[5]))
    {
      DeliveredExactly(mac, scan, log, Reception(packet, fromIp in peers, now));
      alert := None;
      var allowed := PeerAllowed(fromIp);
      if !allowed {
        return -2, None;
      }
      if |packet| >= PACKET_SIZE {
        return -1, None;
      }
      var fields := FieldsOf(packet);
      if fields.None? {
        return -1, None;
      }
      var f := fields.value;
      if f[0] != VERSION || |f[2]| != 32 || |f[6]| != 64 || HexToBytes(scan, f[2], 16).None? {
        return -1, None;
      }
      var timestamp := Atoi(f[1]);
      if timestamp < -LONG_LONG || timestamp >= LONG_LONG || now < 0 {
        return -1, None;
      }
      if timestamp > now + MAX_CLOCK_SKEW || timestamp < now - MAX_CLOCK_SKEW {
        return -3, None;
      }
      var seen := LookUp(f[2]);
      if seen {
        return -4, None;
      }
      var canonical := Join(f[..6]);
      if |canonical| >= CANONICAL_SIZE {
        return -1, None;
      }
      var received := HexToBytes(scan, f[6], 32);
      if received.None? {
        return -1, None;
      }
      if received.value != mac(canonical).bytes {
        return -5, None;
      }
      log := log + (f[2] + "\n");
      if |f[3]| >= MAX_TYPE || |f[4]| >= MAX_LABEL || |f[5]| >= MAX_ALERT {
        return -1, None;
      }
      return 0, Some(Alert(f[3], f[4], f[5]));
    }
  }
}
