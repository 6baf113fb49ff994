/** Text made of fields between bars: joined, and cut apart again. */
module BarFields {
  import opened CText

  // What successive `strsep(&cursor, "|")` calls give, or a split at another character.
  function Tokens(s: string, sep: char := '|'): (ts: seq<string>)
    ensures |ts| > 0
  {
    if s == "" then [""]
    else
      var rest := Tokens(s[1..], sep);
      if s[0] == sep then [""] + rest else [[s[0]] + rest[0]] + rest[1..]
  }

  function Join(fs: seq<string>): string
    requires fs != []
  {
    if |fs| == 1 then fs[0] else fs[0] + "|" + Join(fs[1..])
  }

  ghost predicate NoBars(fs: seq<string>) {
    forall i :: 0 <= i < |fs| ==> Lacks(fs[i], '|')
  }

  lemma {:induction false} TokensHaveNoBars(s: string)
    ensures NoBars(Tokens(s))
  {
    if s != "" {
      TokensHaveNoBars(s[1..]);
    }
  }

  lemma {:induction false} TokensOfOne(f: string, sep: char := '|')
    requires Lacks(f, sep)
    ensures Tokens(f, sep) == [f]
  {
    if f != "" {
      TokensOfOne(f[1..], sep);
      assert [f[0]] + f[1..] == f;
    }
  }

  lemma {:induction false} TokensAtSep(a: string, b: string, sep: char)
    ensures Tokens(a + [sep] + b, sep) == Tokens(a, sep) + Tokens(b, sep)
  {
    var s := a + [sep] + b;
    if a == "" {
      assert s[1..] == b;
    } else {
      assert s[1..] == a[1..] + [sep] + b;
      TokensAtSep(a[1..], b, sep);
    }
  }

  lemma TokensAtBar(a: string, b: string)
    ensures Tokens(a + "|" + b) == Tokens(a) + Tokens(b)
  {
    assert a + "|" + b == a + ['|'] + b;
    TokensAtSep(a, b, '|');
  }

  lemma {:induction false} TokensOfPrefix(a: string, b: string)
    ensures |Tokens(a)| <= |Tokens(a + b)|
  {
    if a != "" {
      assert (a + b)[1..] == a[1..] + b;
      TokensOfPrefix(a[1..], b);
    }
  }

  lemma {:induction false} TokensOfJoin(fs: seq<string>)
    requires fs != [] && NoBars(fs)
    ensures Tokens(Join(fs)) == fs
  {
    TokensOfOne(fs[0]);
    if |fs| > 1 {
      TokensOfJoin(fs[1..]);
      TokensAtBar(fs[0], Join(fs[1..]));
    }
  }

  lemma {:induction false} JoinOfTokens(s: string)
    ensures Join(Tokens(s)) == s
  {
    if s != "" {
      JoinOfTokens(s[1..]);
      var rest, ts := Tokens(s[1..]), Tokens(s);
      if s[0] == '|' {
        assert ts[1..] == rest;
        assert s == "" + "|" + s[1..];
      } else if |rest| == 1 {
        assert s == [s[0]] + s[1..];
      } else {
        assert ts[1..] == rest[1..];
        assert s == [s[0]] + (rest[0] + "|" + Join(rest[1..]));
        assert s == ([s[0]] + rest[0]) + "|" + Join(rest[1..]);
      }
    }
  }

  lemma {:induction false} JoinSnoc(fs: seq<string>, f: string)
    requires fs != []
    ensures Join(fs + [f]) == Join(fs) + "|" + f
  {
    if |fs| > 1 {
      JoinSnoc(fs[1..], f);
      assert (fs + [f])[1..] == fs[1..] + [f];
      assert fs[0] + "|" + (Join(fs[1..]) + "|" + f) == (fs[0] + "|" + Join(fs[1..])) + "|" + f;
    } else {
      assert (fs + [f])[1..] == [f];
    }
  }

  lemma {:induction false} JoinAt(fs: seq<string>, k: nat)
    requires 0 < k < |fs|
    ensures Join(fs) == Join(fs[..k]) + "|" + Join(fs[k..])
  {
    if k == 1 {
      assert fs[..1] == [fs[0]];
    } else {
      JoinAt(fs[1..], k - 1);
      assert fs[1..][..k - 1] == fs[..k][1..] && fs[1..][k - 1..] == fs[k..];
      assert fs[0] + "|" + (Join(fs[..k][1..]) + "|" + Join(fs[k..]))
          == (fs[0] + "|" + Join(fs[..k][1..])) + "|" + Join(fs[k..]);
    }
  }

  lemma {:induction false} JoinTakeLength(fs: seq<string>, k: nat)
    requires 0 < k <= |fs|
    ensures |Join(fs[..k])| <= |Join(fs)|
  {
    if k > 1 {
      JoinTakeLength(fs[1..], k - 1);
      assert fs[..k][1..] == fs[1..][..k - 1];
    } else {
      assert fs[..1] == [fs[0]];
    }
  }

  lemma {:induction false} JoinLacks(fs: seq<string>, c: char)
    requires fs != [] && c != '|' && forall i :: 0 <= i < |fs| ==> Lacks(fs[i], c)
    ensures Lacks(Join(fs), c)
  {
    if |fs| > 1 {
      JoinLacks(fs[1..], c);
    }
  }

  lemma JoinOfSix(a: string, b: string, c: string, d: string, e: string, f: string)
    ensures Join([a, b, c, d, e, f]) == a + "|" + b + "|" + c + "|" + d + "|" + e + "|" + f
  {
    assert [a, b, c, d, e, f] == [a] + [b] + [c] + [d] + [e] + [f];
    JoinSnoc([a], b);
    JoinSnoc([a] + [b], c);
    JoinSnoc([a] + [b] + [c], d);
    JoinSnoc([a] + [b] + [c] + [d], e);
    JoinSnoc([a] + [b] + [c] + [d] + [e], f);
  }

  lemma JoinOfSeven(a: string, b: string, c: string, d: string, e: string, f: string, g: string)
    ensures Join([a, b, c, d, e, f, g]) == a + "|" + b + "|" + c + "|" + d + "|" + e + "|" + f + "|" + g
  {
    assert [a, b, c, d, e, f, g] == [a, b, c, d, e, f] + [g];
    JoinOfSix(a, b, c, d, e, f);
    JoinSnoc([a, b, c, d, e, f], g);
  }
}
