/** C text: strings, `fgets`, `strstr`, `strcspn` and decimal numbers.

    A C string is a Dafny string; what a program sees of a buffer ends at its first NUL. */
module CText {
  import opened Hashing

  // ---------- reading a text file ----------

  // What one `fgets` into a buffer of `size` bytes takes off a non-empty file.
  function Fgets(s: string, size: nat): (line: string)
    requires s != "" && size >= 2
    ensures 0 < |line| <= |s| && |line| < size && line == s[..|line|]
  {
    if s[0] == '\n' || |s| == 1 || size == 2 then s[..1]
    else
      var rest := Fgets(s[1..], size - 1);
      assert s[..1 + |rest|] == [s[0]] + rest;
      [s[0]] + rest
  }

  // The buffers filled by `while (fgets(line, size, file) != NULL)`.
  function Chunks(s: string, size: nat): seq<string>
    requires size >= 2
  {
    if s == "" then [] else
      var line := Fgets(s, size);
      [line] + Chunks(s[|line|..], size)
  }

  predicate Lacks(s: string, c: char) {
    forall i :: 0 <= i < |s| ==> s[i] != c
  }

  predicate EndsLine(s: string) {
    s == "" || s[|s| - 1] == '\n'
  }

  lemma {:induction false} FgetsLine(body: string, rest: string, size: nat)
    requires Lacks(body, '\n') && |body| + 2 <= size
    ensures Fgets(body + "\n" + rest, size) == body + "\n"
  {
    var s := body + "\n" + rest;
    if body != "" {
      assert s[1..] == body[1..] + "\n" + rest;
      FgetsLine(body[1..], rest, size - 1);
      assert body == [body[0]] + body[1..];
    }
  }

  lemma {:induction false} FgetsOfLongerFile(s: string, more: string, size: nat)
    requires s != "" && EndsLine(s) && size >= 2
    ensures Fgets(s + more, size) == Fgets(s, size)
  {
    if s[0] == '\n' || |s| == 1 || size == 2 {
      assert (s + more)[..1] == s[..1];
    } else {
      assert (s + more)[1..] == s[1..] + more;
      FgetsOfLongerFile(s[1..], more, size - 1);
    }
  }

  // Text appended to a file of whole lines leaves the buffers read before it as they were.
  lemma {:induction false} ChunksOfLongerFile(s: string, more: string, size: nat)
    requires EndsLine(s) && size >= 2
    ensures Chunks(s + more, size) == Chunks(s, size) + Chunks(more, size)
    decreases |s|
  {
    if s == "" {
      assert s + more == more;
    } else {
      var line := Fgets(s, size);
      FgetsOfLongerFile(s, more, size);
      var rest := s[|line|..];
      assert EndsLine(rest);
      assert (s + more)[|line|..] == rest + more;
      ChunksOfLongerFile(rest, more, size);
    }
  }

  lemma ChunksOfLine(body: string, size: nat)
    requires Lacks(body, '\n') && |body| + 2 <= size
    ensures Chunks(body + "\n", size) == [body + "\n"]
  {
    FgetsLine(body, "", size);
    assert body + "\n" + "" == body + "\n";
    assert (body + "\n")[|body| + 1..] == "";
    assert Chunks("", size) == [];
  }

  lemma AppendLine(s: string, body: string, size: nat)
    requires EndsLine(s) && Lacks(body, '\n') && |body| + 2 <= size
    ensures EndsLine(s + (body + "\n"))
    ensures Chunks(s + (body + "\n"), size) == Chunks(s, size) + [body + "\n"]
  {
    ChunksOfLongerFile(s, body + "\n", size);
    ChunksOfLine(body, size);
  }

  function Concat(parts: seq<string>): string {
    if parts == [] then "" else parts[0] + Concat(parts[1..])
  }

  // The buffers hold the whole file.
  lemma {:induction false} ChunksHoldAll(s: string, size: nat)
    requires size >= 2
    ensures Concat(Chunks(s, size)) == s
    decreases |s|
  {
    if s != "" {
      var line := Fgets(s, size);
      ChunksHoldAll(s[|line|..], size);
      assert ([line] + Chunks(s[|line|..], size))[1..] == Chunks(s[|line|..], size);
      assert s == line + s[|line|..];
    }
  }

  // A buffer that is read: it fits, a newline can only be its last byte, and only the end of the file
  // cuts it short.
  ghost predicate ReadWhole(line: string, size: nat, last: bool) {
    && 0 < |line| < size && (forall i :: 0 <= i < |line| - 1 ==> line[i] != '\n')
    && (line[|line| - 1] == '\n' || |line| == size - 1 || last)
  }

  lemma {:induction false} FgetsShape(s: string, size: nat)
    requires s != "" && size >= 2
    ensures ReadWhole(Fgets(s, size), size, |Fgets(s, size)| == |s|)
  {
    if s[0] != '\n' && |s| > 1 && size > 2 {
      FgetsShape(s[1..], size - 1);
    }
  }

  lemma {:induction false} ChunksShape(s: string, size: nat, k: nat)
    requires size >= 2 && k < |Chunks(s, size)|
    ensures ReadWhole(Chunks(s, size)[k], size, k == |Chunks(s, size)| - 1)
    decreases k
  {
    var line := Fgets(s, size);
    FgetsShape(s, size);
    if k > 0 {
      ChunksShape(s[|line|..], size, k - 1);
    }
  }

  // One more buffer read.
  lemma NextChunk(done: seq<string>, line: string, more: seq<string>)
    ensures done + ([line] + more) == (done + [line]) + more
    ensures (done + [line])[..|done|] == done
  {
  }

  // ---------- searching ----------

  // `s` up to its first character of `stops`, as `s[strcspn(s, stops)] = 0` leaves it.
  function CutAt(s: string, stops: string): (r: string)
    ensures |r| <= |s| && r == s[..|r|]
    ensures forall i :: 0 <= i < |r| ==> r[i] !in stops
    ensures |r| < |s| ==> s[|r|] in stops
  {
    if s == "" || s[0] in stops then "" else [s[0]] + CutAt(s[1..], stops)
  }

  lemma {:induction false} CutAtFirst(body: string, rest: string, stops: string)
    requires forall i :: 0 <= i < |body| ==> body[i] !in stops
    requires rest == "" || rest[0] in stops
    ensures CutAt(body + rest, stops) == body
  {
    if body != "" {
      assert (body + rest)[1..] == body[1..] + rest;
      CutAtFirst(body[1..], rest, stops);
    } else {
      assert body + rest == rest;
    }
  }

  // What C sees of a buffer.
  function CString(buffer: string): string {
    CutAt(buffer, "\0")
  }

  lemma CStringWhole(s: string)
    requires Lacks(s, '\0')
    ensures CString(s) == s
  {
    CutAtFirst(s, "", "\0");
    assert s + "" == s;
  }

  predicate MatchAt(s: string, i: nat, pattern: string) {
    i + |pattern| <= |s| && s[i..i + |pattern|] == pattern
  }

  // `strstr`, from position `i` on.
  function Find(s: string, pattern: string, i: nat): (r: Option<nat>)
    ensures r.Some? ==> i <= r.value && MatchAt(s, r.value, pattern)
    decreases |s| - i
  {
    if i + |pattern| > |s| then None
    else if MatchAt(s, i, pattern) then Some(i)
    else Find(s, pattern, i + 1)
  }

  lemma {:induction false} FindsFirst(s: string, pattern: string, i: nat, k: nat)
    requires i <= k && MatchAt(s, k, pattern)
    requires forall j :: i <= j < k ==> !MatchAt(s, j, pattern)
    ensures Find(s, pattern, i) == Some(k)
    decreases k - i
  {
    if i < k {
      FindsFirst(s, pattern, i + 1, k);
    }
  }

  // The first place, or none.
  lemma {:induction false} FindExactly(s: string, pattern: string, i: nat)
    ensures Find(s, pattern, i).None? ==> forall j :: i <= j ==> !MatchAt(s, j, pattern)
    ensures Find(s, pattern, i).Some? ==> forall j :: i <= j < Find(s, pattern, i).value ==> !MatchAt(s, j, pattern)
    decreases |s| - i
  {
    if i + |pattern| <= |s| && !MatchAt(s, i, pattern) {
      FindExactly(s, pattern, i + 1);
    }
  }

  // ---------- decimal numbers ----------

  predicate IsDigit(c: char) {
    '0' <= c <= '9'
  }

  predicate Digits(s: string) {
    forall i :: 0 <= i < |s| ==> IsDigit(s[i])
  }

  function DigitChar(n: nat): (c: char)
    requires n < 10
    ensures IsDigit(c) && c as int - '0' as int == n
  {
    ('0' as int + n) as char
  }

  // `%d` of a number that is not negative.
  function Dec(n: nat): (s: string)
    ensures s != "" && Digits(s)
  {
    if n < 10 then [DigitChar(n)] else Dec(n / 10) + [DigitChar(n % 10)]
  }

  // The value of the leading digits of `s`, after digits worth `acc`.
  function DigitsValue(s: string, acc: nat): nat {
    if s == "" || !IsDigit(s[0]) then acc
    else DigitsValue(s[1..], 10 * acc + (s[0] as int - '0' as int))
  }

  predicate IsSpace(c: char) {
    c == ' ' || '\t' as int <= c as int <= '\r' as int
  }

  function SkipSpace(s: string): string {
    if s != "" && IsSpace(s[0]) then SkipSpace(s[1..]) else s
  }

  // `atoi` and `strtoll(s, NULL, 10)`: leading white space, a sign, then digits as far as they go.
  function Atoi(s: string): int {
    var t := SkipSpace(s);
    if t != "" && t[0] == '-' then 0 - DigitsValue(t[1..], 0)
    else if t != "" && t[0] == '+' then DigitsValue(t[1..], 0)
    else DigitsValue(t, 0)
  }

  lemma {:induction false} DigitsValueAppend(s: string, c: char, acc: nat)
    requires Digits(s) && IsDigit(c)
    ensures DigitsValue(s + [c], acc) == 10 * DigitsValue(s, acc) + (c as int - '0' as int)
  {
    if s == "" {
      assert s + [c] == [c];
      assert DigitsValue([c][1..], 10 * acc + (c as int - '0' as int)) == 10 * acc + (c as int - '0' as int);
    } else {
      assert (s + [c])[1..] == s[1..] + [c];
      DigitsValueAppend(s[1..], c, 10 * acc + (s[0] as int - '0' as int));
    }
  }

  lemma {:induction false} DigitsValueOfDec(n: nat)
    ensures DigitsValue(Dec(n), 0) == n
  {
    if n < 10 {
      assert Dec(n)[1..] == "";
    } else {
      DigitsValueOfDec(n / 10);
      DigitsValueAppend(Dec(n / 10), DigitChar(n % 10), 0);
    }
  }

  lemma AtoiOfDec(n: nat)
    ensures Atoi(Dec(n)) == n
  {
    DigitsValueOfDec(n);
    assert IsDigit(Dec(n)[0]);
  }

  // A decimal number starts with a zero only when it is zero.
  lemma {:induction false} DecLeads(n: nat)
    ensures Dec(n)[0] == '0' <==> n == 0
    ensures n == 0 ==> Dec(n) == "0"
  {
    if n >= 10 {
      DecLeads(n / 10);
    }
  }

  lemma {:induction false} SkipsSpaces(spaces: string, t: string)
    requires forall c :: c in spaces ==> IsSpace(c)
    requires t == "" || !IsSpace(t[0])
    ensures SkipSpace(spaces + t) == t
  {
    if spaces == "" {
      assert spaces + t == t;
    } else {
      assert (spaces + t)[1..] == spaces[1..] + t;
      SkipsSpaces(spaces[1..], t);
    }
  }

  lemma {:induction false} DigitsValueStops(digits: string, rest: string, acc: nat)
    requires Digits(digits) && (rest == "" || !IsDigit(rest[0]))
    ensures DigitsValue(digits + rest, acc) == DigitsValue(digits, acc)
  {
    if digits == "" {
      assert digits + rest == rest;
    } else {
      assert (digits + rest)[1..] == digits[1..] + rest;
      DigitsValueStops(digits[1..], rest, 10 * acc + (digits[0] as int - '0' as int));
    }
  }

  // White space, a sign, digits, and what is not looked at.
  lemma AtoiExactly(spaces: string, sign: string, digits: string, rest: string)
    requires forall c :: c in spaces ==> c in " \t\n\U{000B}\U{000C}\r"
    requires sign in ["", "-", "+"] && Digits(digits) && (rest == "" || !IsDigit(rest[0]))
    requires sign != "" || digits != "" || rest == "" || rest[0] !in " \t\n\U{000B}\U{000C}\r+-"
    ensures Atoi(spaces + (sign + (digits + rest))) ==
      (if sign == "-" then -1 else 1) * DigitsValue(digits, 0)
  {
    var t := sign + (digits + rest);
    DigitsValueStops(digits, rest, 0);
    assert sign == "" ==> t == digits + rest;
    assert sign != "" ==> t[1..] == digits + rest;
    SkipsSpaces(spaces, t);
  }

  function Pow10(k: nat): nat {
    if k == 0 then 1 else 10 * Pow10(k - 1)
  }

  lemma {:induction false} DecShort(n: nat, k: nat)
    requires n < Pow10(k) && k > 0
    ensures |Dec(n)| <= k
  {
    if n >= 10 {
      DecShort(n / 10, k - 1);
    }
  }
}
