/** Signed updates: verified, applied over the current release, and rolled back one step.  What the
    signature scheme accepts is a parameter. */
module Update {
  import opened Hashing
  import opened CText
  import opened BarFields
  import opened Orders

  // ---------- versions ----------

  // What `\d+(\.\d+)*` matches as a whole.
  predicate VersionText(s: string) {
    forall part :: part in Tokens(s, '.') ==> part != "" && Digits(part)
  }

  function Values(parts: seq<string>): seq<nat> {
    if parts == [] then [] else [DigitsValue(parts[0], 0)] + Values(parts[1..])
  }

  function Ver(s: string): seq<nat> {
    Values(Tokens(Tokens(s, '-')[0], '.'))
  }

  predicate Below(m: nat, n: nat) {
    m < n
  }

  // The order of tuples.
  predicate Less(a: seq<nat>, b: seq<nat>) {
    Precedes(Below, a, b)
  }

  lemma LessTotal(a: seq<nat>, b: seq<nat>)
    ensures Less(a, b) || a == b || Less(b, a)
    ensures !(Less(a, b) && Less(b, a)) && (Less(a, b) ==> a != b)
  {
    PrecedesTotal(Below, a, b);
  }

  lemma LessTransitive(a: seq<nat>, b: seq<nat>, c: seq<nat>)
    requires Less(a, b) && Less(b, c)
    ensures Less(a, c)
  {
    PrecedesTransitive(Below, a, b, c);
  }

  // The order place by place: up to some place the tuples agree, and there the first ends or is smaller.
  ghost predicate TupleBefore(a: seq<nat>, b: seq<nat>) {
    exists k :: 0 <= k <= |a| && k < |b| && a[..k] == b[..k] && (k == |a| || a[k] < b[k])
  }

  lemma LessPointwise(a: seq<nat>, b: seq<nat>)
    ensures Less(a, b) <==> TupleBefore(a, b)
  {
    PrecedesPointwise(Below, a, b);
    assert forall k :: 0 <= k < |a| && k < |b| ==> (Below(a[k], b[k]) <==> a[k] < b[k]);
  }

  // Numbers printed in decimal, between dots.
  function Dotted(ns: seq<nat>): (s: string)
    requires ns != []
    ensures s != ""
  {
    if |ns| == 1 then Dec(ns[0]) else Dec(ns[0]) + ['.'] + Dotted(ns[1..])
  }

  // A version so printed is a version, and is read as these numbers.
  lemma VerOfDotted(ns: seq<nat>)
    requires ns != []
    ensures VersionText(Dotted(ns)) && Ver(Dotted(ns)) == ns
  {
    DottedParts(ns);
    TokensOfOne(Dotted(ns), '-');
  }

  lemma {:induction false} DottedParts(ns: seq<nat>)
    requires ns != []
    ensures VersionText(Dotted(ns)) && Values(Tokens(Dotted(ns), '.')) == ns && Lacks(Dotted(ns), '-')
  {
    var d := Dec(ns[0]);
    assert Digits(d) && Lacks(d, '.') && Lacks(d, '-');
    TokensOfOne(d, '.');
    DigitsValueOfDec(ns[0]);
    if |ns| == 1 {
      ValuesFront(d, []);
      assert [d] + [] == [d];
    } else {
      DottedParts(ns[1..]);
      TokensAtSep(d, Dotted(ns[1..]), '.');
      ValuesFront(d, Tokens(Dotted(ns[1..]), '.'));
    }
  }

  // What is taken for a version, character by character: digits and dots, the dots only between digits.
  ghost predicate DigitsBetweenDots(s: string) {
    && s != "" && s[0] != '.' && s[|s| - 1] != '.'
    && (forall i :: 0 <= i < |s| ==> '0' <= s[i] <= '9' || s[i] == '.')
    && (forall i, j :: 0 <= i < |s| && j == i + 1 < |s| ==> s[i] != '.' || s[j] != '.')
  }

  lemma {:induction false} VersionTextExactly(s: string)
    ensures VersionText(s) <==> DigitsBetweenDots(s)
    decreases |s|
  {
    if s == "" || !IsDigit(s[0]) {
      var first := Tokens(s, '.')[0];
      assert first in Tokens(s, '.') && (first == "" || first[0] == s[0]);
    } else if |s| == 1 {
      OneDigit(s);
    } else if s[1] == '.' {
      VersionTextExactly(s[2..]);
      PastDot(s);
    } else {
      VersionTextExactly(s[1..]);
      PastDigit(s);
    }
  }

  lemma OneDigit(s: string)
    requires |s| == 1 && IsDigit(s[0])
    ensures VersionText(s) && DigitsBetweenDots(s)
  {
    TokensOfOne(s, '.');
  }

  lemma PastDot(s: string)
    requires |s| >= 2 && IsDigit(s[0]) && s[1] == '.'
    ensures VersionText(s) <==> VersionText(s[2..])
    ensures DigitsBetweenDots(s) <==> DigitsBetweenDots(s[2..])
  {
    var rest := Tokens(s[2..], '.');
    assert s[1..][1..] == s[2..];
    assert Tokens(s[1..], '.') == [""] + rest;
    assert ([""] + rest)[0] == "" && ([""] + rest)[1..] == rest && [s[0]] + "" == [s[0]];
    assert Tokens(s, '.') == [[s[0]]] + rest;
    assert forall part :: part in Tokens(s, '.') <==> part == [s[0]] || part in rest;
    assert forall i :: 0 <= i < |s| - 2 ==> s[2..][i] == s[i + 2];
  }

  lemma PastDigit(s: string)
    requires |s| >= 2 && IsDigit(s[0]) && s[1] != '.'
    ensures VersionText(s) <==> VersionText(s[1..])
    ensures DigitsBetweenDots(s) <==> DigitsBetweenDots(s[1..])
  {
    var rest := Tokens(s[1..], '.');
    var (first, more) := (rest[0], rest[1..]);
    assert first != "" && (Digits([s[0]] + first) <==> Digits(first)) by {
      assert forall i :: 0 <= i < |first| ==> ([s[0]] + first)[i + 1] == first[i];
    }
    assert Tokens(s, '.') == [[s[0]] + first] + more;
    assert forall part :: part in Tokens(s, '.') <==> part == [s[0]] + first || part in more;
    assert forall part :: part in rest <==> part == first || part in more;
    assert forall i :: 0 <= i < |s| - 1 ==> s[1..][i] == s[i + 1];
  }

  // What follows the first dash does not count.
  lemma SuffixIgnored(core: string, tail: string)
    requires Lacks(core, '-')
    ensures Ver(core + "-" + tail) == Ver(core)
  {
    assert core + "-" + tail == core + ['-'] + tail;
    TokensAtSep(core, tail, '-');
    TokensOfOne(core, '-');
  }

  // The version the program is built with.
  lemma BaseIs(base: string)
    requires base == "1.3.0-dev"
    ensures Ver(base) == [1, 3, 0]
  {
    var core, tail := "1.3.0", "dev";
    assert base == core + "-" + tail;
    SuffixIgnored(core, tail);
    TokensOfOne(core, '-');
    CoreSplits(core, "1", "3", "0");
    ValueOfDigit("1");
    ValueOfDigit("3");
    ValueOfDigit("0");
  }

  lemma CoreSplits(core: string, a: string, b: string, c: string)
    requires core == a + ['.'] + (b + ['.'] + c) && Lacks(a, '.') && Lacks(b, '.') && Lacks(c, '.')
    ensures Values(Tokens(core, '.')) == [DigitsValue(a, 0), DigitsValue(b, 0), DigitsValue(c, 0)]
  {
    TokensAtSep(a, b + ['.'] + c, '.');
    TokensAtSep(b, c, '.');
    TokensOfOne(a, '.');
    TokensOfOne(b, '.');
    TokensOfOne(c, '.');
    ValuesFront(a, [b] + [c]);
    ValuesFront(b, [c]);
    ValuesFront(c, []);
    assert [c] + [] == [c];
  }

  lemma ValuesFront(a: string, rest: seq<string>)
    ensures Values([a] + rest) == [DigitsValue(a, 0)] + Values(rest)
  {
    assert ([a] + rest)[1..] == rest;
  }

  lemma ValueOfDigit(d: string)
    requires |d| == 1 && IsDigit(d[0])
    ensures DigitsValue(d, 0) == d[0] as int - '0' as int
  {
    assert d[1..] == "";
  }

  // ---------- the store ----------

  // `quoted` when the manifest gives its version as a JSON string, and not as a number.
  datatype Manifest = Manifest(version: string, quoted: bool)

  // `plain` for a regular file or a directory.
  datatype Member = Member(parts: seq<string>, absolute: bool, plain: bool)

  datatype Archive = Archive(bytes: string, members: seq<Member>, manifest: Option<Manifest>)

  // What lies at the path given, and beside it.
  datatype Package = Package(archive: Option<Archive>, signature: Option<string>)

  // Whether a signature of some bytes is good under a key.
  type Check = (string, string, string) -> bool

  datatype Error =
    NoFile | NoPublisher | NoSignature | BadSignature | UnsafeContent | BadManifest | CurrentNotText | NotNewer |
    NothingToRevert | BadKey

  datatype Outcome = Done | Refused(error: Error)

  // `base` is the version of the program itself; `previous` is None when there is no such file, and
  // Some(None) when it names no earlier release.
  datatype Store = Store(base: string, releases: map<string, Archive>, current: Option<string>,
                         previous: Option<Option<string>>, publisher: Option<string>)

  function EmptyStore(base: string): Store {
    Store(base, map[], None, None, None)
  }

  predicate SafeMember(m: Member) {
    !m.absolute && ".." !in m.parts && m.plain
  }

  predicate GoodManifest(a: Archive) {
    a.manifest.Some? && VersionText(a.manifest.value.version)
  }

  function CurrentManifest(s: Store): Manifest {
    if s.current.Some? && s.current.value in s.releases && s.releases[s.current.value].manifest.Some?
    then s.releases[s.current.value].manifest.value
    else Manifest(s.base, true)
  }

  function Version(s: Store): seq<nat> {
    Ver(CurrentManifest(s).version)
  }

  function Verdict(check: Check, s: Store, p: Package): Outcome {
    if p.archive.None? then Refused(NoFile)
    else if s.publisher.None? then Refused(NoPublisher)
    else if p.signature.None? then Refused(NoSignature)
    else if !check(s.publisher.value, p.archive.value.bytes, p.signature.value) then Refused(BadSignature)
    else Done
  }

  // The verdict on an archive that is signed.
  function Judged(s: Store, a: Archive): Outcome {
    if exists m :: m in a.members && !SafeMember(m) then Refused(UnsafeContent)
    else if !GoodManifest(a) then Refused(BadManifest)
    else if !CurrentManifest(s).quoted then Refused(CurrentNotText)
    else if !Less(Version(s), Ver(a.manifest.value.version)) then Refused(NotNewer)
    else Done
  }

  function Installed(s: Store, a: Archive, version: string): Store {
    s.(releases := s.releases[version := a], previous := Some(s.current), current := Some(version))
  }

  function ApplyTo(check: Check, s: Store, p: Package): (r: (Store, Outcome))
    ensures r.1 == Done ==> p.archive.Some? && GoodManifest(p.archive.value)
  {
    if Verdict(check, s, p) != Done then (s, Verdict(check, s, p))
    else
      var a := p.archive.value;
      if Judged(s, a) != Done then (s, Judged(s, a)) else (Installed(s, a, a.manifest.value.version), Done)
  }

  function RollBack(s: Store): (Store, Outcome) {
    match s.previous
    case None => (s, Refused(NothingToRevert))
    case Some(earlier) => (s.(current := earlier, previous := None), Done)
  }

  predicate IsKey(pub: string) {
    |pub| == 64 && IsHex(pub)
  }

  function TrustKey(s: Store, pub: string): (Store, Outcome) {
    if IsKey(pub) then (s.(publisher := Some(pub)), Done) else (s, Refused(BadKey))
  }

  datatype Op = Trust(pub: string) | Apply(package: Package) | Rollback

  function Step(check: Check, s: Store, op: Op): (Store, Outcome) {
    match op
    case Trust(pub) => TrustKey(s, pub)
    case Apply(p) => ApplyTo(check, s, p)
    case Rollback => RollBack(s)
  }

  function After(check: Check, s: Store, ops: seq<Op>): Store {
    if ops == [] then s else Step(check, After(check, s, ops[..|ops| - 1]), ops[|ops| - 1]).0
  }

  // ---------- what every run keeps ----------

  // A release lies under its own version, which is above the base.
  ghost predicate ReleaseOk(s: Store, name: string) {
    && name in s.releases && GoodManifest(s.releases[name]) && s.releases[name].manifest.value.version == name
    && Less(Ver(s.base), Ver(name))
  }

  ghost predicate StoreOk(s: Store) {
    && (forall name :: name in s.releases ==> ReleaseOk(s, name))
    && (s.current.Some? ==> s.current.value in s.releases)
    && (s.previous.Some? ==> s.current.Some?)
    && (s.previous.Some? && s.previous.value.Some? ==>
          s.previous.value.value in s.releases && Less(Ver(s.previous.value.value), Ver(s.current.value)))
  }

  lemma VersionOf(s: Store)
    requires StoreOk(s)
    ensures Version(s) == if s.current.Some? then Ver(s.current.value) else Ver(s.base)
    ensures Version(s) == Ver(s.base) || Less(Ver(s.base), Version(s))
  {
    if s.current.Some? {
      assert ReleaseOk(s, s.current.value);
    }
  }

  // A successful update strictly raises the version.
  lemma ApplyRaises(check: Check, s: Store, p: Package)
    requires StoreOk(s) && ApplyTo(check, s, p).1 == Done
    ensures Less(Version(s), Version(ApplyTo(check, s, p).0))
  {
  }

  lemma InstallKeeps(s: Store, a: Archive)
    requires StoreOk(s) && Judged(s, a) == Done
    ensures StoreOk(Installed(s, a, a.manifest.value.version))
  {
    var v := a.manifest.value.version;
    var s' := Installed(s, a, v);
    VersionOf(s);
    if Less(Ver(s.base), Version(s)) {
      LessTransitive(Ver(s.base), Version(s), Ver(v));
    }
    forall name | name in s'.releases ensures ReleaseOk(s', name) {
      if name != v {
        assert ReleaseOk(s, name);
      }
    }
  }

  // Every operation keeps the active release and the rollback target there to be used.
  lemma StepKeeps(check: Check, s: Store, op: Op)
    requires StoreOk(s)
    ensures StoreOk(Step(check, s, op).0)
  {
    var s' := Step(check, s, op).0;
    if op.Apply? && Step(check, s, op).1 == Done {
      InstallKeeps(s, op.package.archive.value);
    } else {
      assert s'.releases == s.releases;
      forall name | name in s'.releases ensures ReleaseOk(s', name) {
        assert ReleaseOk(s, name);
      }
    }
  }

  lemma {:induction false} RunKeeps(check: Check, base: string, ops: seq<Op>)
    ensures StoreOk(After(check, EmptyStore(base), ops)) && After(check, EmptyStore(base), ops).base == base
  {
    if ops != [] {
      RunKeeps(check, base, ops[..|ops| - 1]);
      StepKeeps(check, After(check, EmptyStore(base), ops[..|ops| - 1]), ops[|ops| - 1]);
    }
  }

  // In every run the version never drops below the base.
  lemma NeverBelowBase(check: Check, base: string, ops: seq<Op>)
    ensures !Less(Version(After(check, EmptyStore(base), ops)), Ver(base))
  {
    RunKeeps(check, base, ops);
    VersionOf(After(check, EmptyStore(base), ops));
    LessTotal(Version(After(check, EmptyStore(base), ops)), Ver(base));
  }

  // The only release an operation can replace is neither the active one nor the rollback target.
  lemma NothingInUseIsReplaced(check: Check, s: Store, op: Op, name: string)
    requires StoreOk(s) && name in s.releases
    requires s.current == Some(name) || s.previous == Some(Some(name))
    ensures var s' := Step(check, s, op).0;
      name in s'.releases && s'.releases[name] == s.releases[name]
  {
    if op.Apply? && Step(check, s, op).1 == Done {
      var v := op.package.archive.value.manifest.value.version;
      VersionOf(s);
      if s.previous == Some(Some(name)) {
        LessTransitive(Ver(name), Version(s), Ver(v));
      }
      LessTotal(Ver(name), Ver(v));
    }
  }

  // ---------- rollback ----------

  // Rollback undoes an update: the same release is current, with the same version, and no release
  // but the one installed has changed.  A second one is refused and changes nothing.
  lemma RollbackUndoesApply(check: Check, s: Store, p: Package)
    requires StoreOk(s) && ApplyTo(check, s, p).1 == Done
    ensures var v := p.archive.value.manifest.value.version;
      var back := RollBack(ApplyTo(check, s, p).0);
      && back.1 == Done && back.0 == s.(releases := s.releases[v := p.archive.value], previous := None)
      && Version(back.0) == Version(s)
      && RollBack(back.0) == (back.0, Refused(NothingToRevert))
  {
    NothingInUse(check, s, p);
  }

  lemma NothingInUse(check: Check, s: Store, p: Package)
    requires StoreOk(s) && ApplyTo(check, s, p).1 == Done
    ensures s.current != Some(p.archive.value.manifest.value.version)
  {
    VersionOf(s);
    LessTotal(Version(s), Version(s));
  }

  // At every reachable state rollback, when it is not refused, strictly lowers the version.
  lemma RollbackLowers(s: Store)
    requires StoreOk(s) && RollBack(s).1 == Done
    ensures Less(Version(RollBack(s).0), Version(s))
  {
    var s' := RollBack(s).0;
    assert ReleaseOk(s, s.current.value);
    VersionOf(s);
    assert StoreOk(s') by {
      assert forall name :: name in s'.releases ==> ReleaseOk(s, name);
    }
    VersionOf(s');
  }

  // ---------- replay ----------

  ghost predicate NoRollback(ops: seq<Op>) {
    forall op :: op in ops ==> !op.Rollback?
  }

  lemma {:induction false} VersionsClimb(check: Check, s: Store, ops: seq<Op>)
    requires StoreOk(s) && NoRollback(ops)
    ensures StoreOk(After(check, s, ops)) && !Less(Version(After(check, s, ops)), Version(s))
  {
    LessTotal(Version(s), Version(s));
    if ops != [] {
      var mid, last := After(check, s, ops[..|ops| - 1]), ops[|ops| - 1];
      VersionsClimb(check, s, ops[..|ops| - 1]);
      StepKeeps(check, mid, last);
      StepClimbs(check, mid, last);
      var a, b, c := Version(s), Version(mid), Version(Step(check, mid, last).0);
      LessTotal(a, b);
      LessTotal(a, c);
      if Less(c, a) && Less(b, c) {
        LessTransitive(b, c, a);
      }
    }
  }

  lemma StepClimbs(check: Check, s: Store, op: Op)
    requires StoreOk(s) && !op.Rollback?
    ensures Version(Step(check, s, op).0) == Version(s) || Less(Version(s), Version(Step(check, s, op).0))
  {
    if op.Apply? && Step(check, s, op).1 == Done {
      ApplyRaises(check, s, op.package);
    }
  }

  // A package once installed is refused from then on, until there is a rollback.
  lemma ReplayRefused(check: Check, s: Store, p: Package, ops: seq<Op>)
    requires StoreOk(s) && ApplyTo(check, s, p).1 == Done && NoRollback(ops)
    ensures var later := After(check, ApplyTo(check, s, p).0, ops);
      ApplyTo(check, later, p).1 != Done && ApplyTo(check, later, p).0 == later
  {
    var s1 := ApplyTo(check, s, p).0;
    StepKeeps(check, s, Apply(p));
    VersionOf(s1);
    VersionsClimb(check, s1, ops);
    LessTotal(Version(After(check, s1, ops)), Version(s1));
  }

  // A release whose manifest gives its version as a number is installed, but from then on no update
  // is, until there is a rollback.
  lemma {:induction false} NumberBlocksUpdates(check: Check, s: Store, p: Package, ops: seq<Op>, next: Package)
    requires ApplyTo(check, s, p).1 == Done && !p.archive.value.manifest.value.quoted && NoRollback(ops)
    ensures var s1 := ApplyTo(check, s, p).0;
      && CurrentManifest(After(check, s1, ops)) == CurrentManifest(s1)
      && ApplyTo(check, After(check, s1, ops), next).1 != Done
  {
    if ops != [] {
      var init, last := ops[..|ops| - 1], ops[|ops| - 1];
      NumberBlocksUpdates(check, s, p, init, if last.Apply? then last.package else next);
    }
  }

  // A package about which nothing is wrong: signed under the trusted key, safe, well-formed, newer.
  ghost predicate Good(check: Check, s: Store, p: Package) {
    && Verdict(check, s, p) == Done && (forall m :: m in p.archive.value.members ==> SafeMember(m))
    && GoodManifest(p.archive.value) && Less(Version(s), Ver(p.archive.value.manifest.value.version))
  }

  // The exact condition: a good package is applied if and only if the current release gives its
  // version as text; and nothing else ever is.
  lemma AppliesExactly(check: Check, s: Store, p: Package)
    ensures ApplyTo(check, s, p).1 == Done <==> Good(check, s, p) && CurrentManifest(s).quoted
    ensures Good(check, s, p) && !CurrentManifest(s).quoted ==> ApplyTo(check, s, p) == (s, Refused(CurrentNotText))
  {
  }

  // What a publisher can check of every package beforehand.
  ghost predicate AllQuoted(ops: seq<Op>) {
    forall op :: op in ops && op.Apply? ==> Quoted(op.package)
  }

  predicate Quoted(p: Package) {
    p.archive.Some? && p.archive.value.manifest.Some? ==> p.archive.value.manifest.value.quoted
  }

  ghost predicate ReleasesQuoted(s: Store) {
    forall name :: name in s.releases && s.releases[name].manifest.Some? ==> s.releases[name].manifest.value.quoted
  }

  lemma {:induction false} QuotedRun(check: Check, base: string, ops: seq<Op>)
    requires AllQuoted(ops)
    ensures ReleasesQuoted(After(check, EmptyStore(base), ops))
  {
    if ops != [] {
      var init, last := ops[..|ops| - 1], ops[|ops| - 1];
      assert forall op :: op in init ==> op in ops;
      QuotedRun(check, base, init);
      var s := After(check, EmptyStore(base), init);
      assert last in ops;
      assert forall name :: name in Step(check, s, last).0.releases ==>
          name in s.releases || (last.Apply? && Step(check, s, last).0.releases[name] == last.package.archive.value);
    }
  }

  // While every package applied gives its version as text, every good package is applied.
  lemma QuotedRunsApply(check: Check, base: string, ops: seq<Op>, next: Package)
    requires AllQuoted(ops)
    ensures CurrentManifest(After(check, EmptyStore(base), ops)).quoted
    ensures ApplyTo(check, After(check, EmptyStore(base), ops), next).1 == Done
       <==> Good(check, After(check, EmptyStore(base), ops), next)
  {
    QuotedRun(check, base, ops);
    AppliesExactly(check, After(check, EmptyStore(base), ops), next);
  }

  // A package of one manifest.
  function Plain(bytes: string, signature: string, m: Manifest): Package {
    Package(Some(Archive(bytes, [], Some(m))), Some(signature))
  }

  lemma SingleDigit(v: string)
    requires |v| == 1 && IsDigit(v[0])
    ensures VersionText(v) && Ver(v) == [v[0] as int - '0' as int]
  {
    TokensOfOne(v, '.');
    TokensOfOne(v, '-');
    ValueOfDigit(v);
    ValuesFront(v, []);
    assert [v] + [] == [v];
  }

  // The input that shows it: over the program's own version, version 2 given as a number is applied,
  // and version 3, good in every respect, is then refused.
  lemma NumberIsApplied(check: Check, base: string, key: string, signature: string, a: string, b: string,
                        two: string, three: string)
    requires base == "1.3.0-dev" && two == "2" && three == "3"
    requires IsKey(key) && check(key, a, signature) && check(key, b, signature)
    ensures var s := TrustKey(EmptyStore(base), key).0;
      var s1 := ApplyTo(check, s, Plain(a, signature, Manifest(two, false))).0;
      var next := Plain(b, signature, Manifest(three, true));
      && ApplyTo(check, s, Plain(a, signature, Manifest(two, false))).1 == Done
      && Good(check, s1, next) && ApplyTo(check, s1, next) == (s1, Refused(CurrentNotText))
  {
    BaseIs(base);
    SingleDigit(two);
    SingleDigit(three);
    PlainThenPlain(check, base, key, signature, a, b, two, three);
  }

  lemma PlainThenPlain(check: Check, base: string, key: string, signature: string, a: string, b: string,
                       low: string, high: string)
    requires IsKey(key) && check(key, a, signature) && check(key, b, signature)
    requires VersionText(low) && VersionText(high) && Less(Ver(base), Ver(low)) && Less(Ver(low), Ver(high))
    ensures var s := TrustKey(EmptyStore(base), key).0;
      var s1 := ApplyTo(check, s, Plain(a, signature, Manifest(low, false))).0;
      var next := Plain(b, signature, Manifest(high, true));
      && ApplyTo(check, s, Plain(a, signature, Manifest(low, false))).1 == Done
      && Good(check, s1, next) && ApplyTo(check, s1, next) == (s1, Refused(CurrentNotText))
  {
    NumberThenText(check, TrustKey(EmptyStore(base), key).0, Plain(a, signature, Manifest(low, false)),
                   Plain(b, signature, Manifest(high, true)));
  }

  lemma NumberThenText(check: Check, s: Store, two: Package, three: Package)
    requires Good(check, s, two) && CurrentManifest(s).quoted && !two.archive.value.manifest.value.quoted
    requires Verdict(check, s, three) == Done && three.archive.value.members == [] && GoodManifest(three.archive.value)
    requires Less(Ver(two.archive.value.manifest.value.version), Ver(three.archive.value.manifest.value.version))
    ensures var s1 := ApplyTo(check, s, two).0;
      && ApplyTo(check, s, two).1 == Done && CurrentManifest(s1) == two.archive.value.manifest.value
      && Good(check, s1, three) && ApplyTo(check, s1, three) == (s1, Refused(CurrentNotText))
  {
    AppliesExactly(check, s, two);
    AppliesExactly(check, ApplyTo(check, s, two).0, three);
  }

  // ---------- signatures ----------

  // Every release was signed under one of `keys`.
  ghost predicate Vouched(check: Check, keys: set<string>, s: Store) {
    && (forall name :: name in s.releases ==> SignedUnder(check, keys, s.releases[name].bytes))
    && (s.publisher.Some? ==> s.publisher.value in keys)
  }

  ghost predicate SignedUnder(check: Check, keys: set<string>, bytes: string) {
    exists key, signature :: key in keys && check(key, bytes, signature)
  }

  ghost function KeysTrusted(ops: seq<Op>): set<string> {
    set op | op in ops && op.Trust? :: op.pub
  }

  lemma {:induction false} EveryReleaseSigned(check: Check, base: string, ops: seq<Op>)
    ensures Vouched(check, KeysTrusted(ops), After(check, EmptyStore(base), ops))
  {
    if ops != [] {
      var init, last := ops[..|ops| - 1], ops[|ops| - 1];
      EveryReleaseSigned(check, base, init);
      assert KeysTrusted(init) <= KeysTrusted(ops);
      assert last.Trust? ==> last.pub in KeysTrusted(ops);
      StepVouched(check, KeysTrusted(init), KeysTrusted(ops), After(check, EmptyStore(base), init), last);
    }
  }

  lemma StepVouched(check: Check, keys: set<string>, more: set<string>, s: Store, op: Op)
    requires Vouched(check, keys, s) && keys <= more && (op.Trust? ==> op.pub in more)
    ensures Vouched(check, more, Step(check, s, op).0)
  {
    var s' := Step(check, s, op).0;
    forall name | name in s'.releases ensures SignedUnder(check, more, s'.releases[name].bytes) {
      if name in s.releases && s'.releases[name] == s.releases[name] {
        var key, signature :| key in keys && check(key, s.releases[name].bytes, signature);
      } else {
        assert check(s.publisher.value, op.package.archive.value.bytes, op.package.signature.value);
      }
    }
  }

  // ---------- what each operation promises ----------

  ghost predicate InUse(s: Store, name: string) {
    name in s.releases && (s.current == Some(name) || s.previous == Some(Some(name)))
  }

  // What is active or to be gone back to is still there as it was.
  ghost predicate KeepsInUse(s: Store, s': Store) {
    forall name :: InUse(s, name) ==> name in s'.releases && s'.releases[name] == s.releases[name]
  }

  // What is asked of an archive, written out.
  lemma JudgedExactly(s: Store, a: Archive)
    requires StoreOk(s)
    ensures Judged(s, a) == Done <==>
      && (forall m :: m in a.members ==> !m.absolute && ".." !in m.parts && m.plain)
      && a.manifest.Some? && VersionText(a.manifest.value.version)
      && (s.current.Some? ==> s.releases[s.current.value].manifest.value.quoted)
      && TupleBefore(Ver(if s.current.Some? then s.current.value else s.base), Ver(a.manifest.value.version))
  {
    VersionOf(s);
    if s.current.Some? {
      assert ReleaseOk(s, s.current.value);
    }
    if a.manifest.Some? {
      LessPointwise(Version(s), Ver(a.manifest.value.version));
    }
    assert forall m :: SafeMember(m) <==> !m.absolute && ".." !in m.parts && m.plain;
  }

  lemma NewIsNotInUse(s: Store, a: Archive)
    requires StoreOk(s) && Judged(s, a) == Done
    ensures !InUse(s, a.manifest.value.version)
  {
    var v := a.manifest.value.version;
    VersionOf(s);
    LessTotal(Version(s), Ver(v));
    if s.previous == Some(Some(v)) {
      LessTotal(Ver(v), Ver(s.current.value));
    }
  }

  lemma StepPromises(check: Check, s: Store, op: Op)
    requires StoreOk(s)
    ensures var (s', r) := Step(check, s, op);
      && StoreOk(s') && KeepsInUse(s, s') && (r != Done ==> s' == s)
      && (op.Apply? && r == Done ==> Less(Version(s), Version(s')))
      && (op.Rollback? && r == Done ==> Less(Version(s'), Version(s)))
  {
    StepKeeps(check, s, op);
    var s' := Step(check, s, op).0;
    forall name | InUse(s, name) ensures name in s'.releases && s'.releases[name] == s.releases[name] {
      NothingInUseIsReplaced(check, s, op, name);
    }
    if Step(check, s, op).1 == Done {
      match op
      case Apply(p) => ApplyRaises(check, s, p);
      case Rollback => RollbackLowers(s);
      case Trust(_) =>
    }
  }

  // ---------- the program ----------

  class Updater {
    const check: Check
    const base: string
    var releases: map<string, Archive>
    var current: Option<string>
    var previous: Option<Option<string>>
    var publisher: Option<string>

    function State(): Store
      reads this
    {
      Store(base, releases, current, previous, publisher)
    }

    ghost predicate Sound()
      reads this
    {
      StoreOk(State())
    }

    // Signed under the publisher that is trusted now.
    ghost predicate WellSigned(p: Package)
      reads this
    {
      && p.archive.Some? && publisher.Some? && p.signature.Some?
      && check(publisher.value, p.archive.value.bytes, p.signature.value)
    }

    // Safe, well-formed, and newer than the current version, which must be given as text.
    ghost predicate Acceptable(a: Archive)
      reads this
      requires Sound()
    {
      assert current.Some? ==> ReleaseOk(State(), current.value);
      && (forall m :: m in a.members ==> !m.absolute && ".." !in m.parts && m.plain)
      && a.manifest.Some? && VersionText(a.manifest.value.version)
      && (current.Some? ==> releases[current.value].manifest.value.quoted)
      && TupleBefore(Ver(if current.Some? then current.value else base), Ver(a.manifest.value.version))
    }

    constructor (check: Check, base: string)
      ensures this.check == check && State() == EmptyStore(base) && Sound()
    {
      this.check, this.base := check, base;
      releases, current, previous, publisher := map[], None, None, None;
    }

    method TrustPublisher(pub: string) returns (r: Outcome)
      requires Sound()
      modifies this`publisher
      ensures (State(), r) == TrustKey(old(State()), pub)
      ensures r == Done <==>
        |pub| == 64 && forall i :: 0 <= i < 64 ==> '0' <= pub[i] <= '9' || 'a' <= pub[i] <= 'f'
      ensures publisher == if r == Done then Some(pub) else old(publisher)
      ensures Sound() && Version(State()) == old(Version(State()))
    {
      StepPromises(check, State(), Trust(pub));
      if !IsKey(pub) {
        return Refused(BadKey);
      }
      publisher := Some(pub);
      return Done;
    }

    method VerifyFile(p: Package) returns (r: Outcome)
      ensures r == Verdict(check, State(), p)
      ensures r == Done <==> p.archive.Some? && p.signature.Some? && publisher.Some?
                             && check(publisher.value, p.archive.value.bytes, p.signature.value)
      ensures r == Refused(NoFile) <==> p.archive.None?
      ensures r == Refused(NoPublisher) <==> p.archive.Some? && publisher.None?
      ensures r == Refused(NoSignature) <==> p.archive.Some? && publisher.Some? && p.signature.None?
    {
      if p.archive.None? {
        return Refused(NoFile);
      }
      if publisher.None? {
        return Refused(NoPublisher);
      }
      if p.signature.None? {
        return Refused(NoSignature);
      }
      if !check(publisher.value, p.archive.value.bytes, p.signature.value) {
        return Refused(BadSignature);
      }
      return Done;
    }

    method CurrentVersion() returns (m: Manifest)
      requires Sound()
      ensures m == CurrentManifest(State()) && (Ver(m.version) == Ver(base) || Less(Ver(base), Ver(m.version)))
    {
      VersionOf(State());
      if current.Some? && current.value in releases && releases[current.value].manifest.Some? {
        return releases[current.value].manifest.value;
      }
      return Manifest(base, true);
    }

    method MembersSafe(members: seq<Member>) returns (safe: bool)
      ensures safe <==> !exists m :: m in members && !SafeMember(m)
    {
      for i := 0 to |members|
        invariant forall k :: 0 <= k < i ==> SafeMember(members[k])
      {
        if members[i].absolute || ".." in members[i].parts || !members[i].plain {
          assert !SafeMember(members[i]) && members[i] in members;
          return false;
        }
      }
      return true;
    }

    // The checks on the content of an archive that is signed.
    method Judge(a: Archive) returns (r: Outcome)
      requires Sound()
      ensures r == Judged(State(), a)
      ensures r == Done ==> GoodManifest(a) && !InUse(State(), a.manifest.value.version)
      ensures r == Refused(UnsafeContent) <==>
        exists m :: m in a.members && (m.absolute || ".." in m.parts || !m.plain)
      ensures r == Done <==> Acceptable(a)
    {
      assert current.Some? ==> ReleaseOk(State(), current.value);
      JudgedExactly(State(), a);
      if Judged(State(), a) == Done {
        NewIsNotInUse(State(), a);
      }
      var safe := MembersSafe(a.members);
      if !safe {
        return Refused(UnsafeContent);
      }
      if a.manifest.None? || !VersionText(a.manifest.value.version) {
        return Refused(BadManifest);
      }
      var now := CurrentVersion();
      if !now.quoted {
        return Refused(CurrentNotText);
      }
      if !Less(Ver(now.version), Ver(a.manifest.value.version)) {
        return Refused(NotNewer);
      }
      return Done;
    }

    method Install(a: Archive, version: string)
      modifies this
      ensures State() == Installed(old(State()), a, version)
      ensures releases == old(releases)[version := a] && current == Some(version)
      ensures previous == Some(old(current)) && publisher == old(publisher)
    {
      if version in releases {
        releases := releases - {version};
      }
      releases := releases[version := a];
      var earlier := current;
      current := Some(version);
      previous := Some(earlier);
      assert releases == old(releases)[version := a];
    }

    method Update(p: Package) returns (r: Outcome)
      requires Sound()
      modifies this
      ensures (State(), r) == ApplyTo(check, old(State()), p)
      ensures Sound() && KeepsInUse(old(State()), State())
      ensures if r == Done then Less(old(Version(State())), Version(State())) else State() == old(State())
      ensures r == Done <==> old(WellSigned(p)) && old(Acceptable(p.archive.value))
      ensures r == Done ==>
        && releases == old(releases)[p.archive.value.manifest.value.version := p.archive.value]
        && current == Some(p.archive.value.manifest.value.version)
        && previous == Some(old(current)) && publisher == old(publisher)
    {
      StepPromises(check, State(), Apply(p));
      r := VerifyFile(p);
      if r == Done {
        r := Judge(p.archive.value);
        if r == Done {
          Install(p.archive.value, p.archive.value.manifest.value.version);
        }
      }
    }

    method Revert() returns (r: Outcome)
      requires Sound()
      modifies this
      ensures (State(), r) == RollBack(old(State()))
      ensures Sound() && releases == old(releases)
      ensures if r == Done then Less(Version(State()), old(Version(State()))) else State() == old(State())
      ensures r == Done <==> old(previous).Some?
      ensures r == Done ==> current == old(previous).value && previous == None && publisher == old(publisher)
    {
      StepPromises(check, State(), Rollback);
      if previous.None? {
        return Refused(NothingToRevert);
      }
      current := previous.value;
      previous := None;
      return Done;
    }
  }
}
