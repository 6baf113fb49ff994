/** A list extended by a recurrence over its last sixteen entries, and run backwards.  The entries
    and the mixing function are arbitrary: all that is used is that mixing can be undone. */
module Recurrence {

  // mix(ws[i-16], ws[i-7], ws[i-15], ws[i-2], ws[i-1], i) is entry `i`.
  type Mixer<!T> = (T, T, T, T, T, nat) -> T

  ghost predicate Undoes<T(!new)>(mix: Mixer<T>, unmix: Mixer<T>) {
    && (forall a, b, x, y, z, i :: unmix(mix(a, b, x, y, z, i), b, x, y, z, i) == a)
    && (forall w, b, x, y, z, i :: mix(unmix(w, b, x, y, z, i), b, x, y, z, i) == w)
  }

  function NextEntry<T>(mix: Mixer<T>, ws: seq<T>, i: nat): T
    requires 16 <= i <= |ws|
  {
    mix(ws[i - 16], ws[i - 7], ws[i - 15], ws[i - 2], ws[i - 1], i)
  }

  ghost predicate Recurs<T>(mix: Mixer<T>, ws: seq<T>, j: nat)
    requires j < |ws|
  {
    j >= 16 && ws[j] == NextEntry(mix, ws, j)
  }

  ghost predicate Obeys<T>(mix: Mixer<T>, ws: seq<T>) {
    forall j :: 16 <= j < |ws| ==> Recurs(mix, ws, j)
  }

  function Extend<T>(mix: Mixer<T>, ws: seq<T>): (r: seq<T>)
    requires 16 <= |ws| <= 32
    ensures |r| == 32 && ws <= r
    decreases 32 - |ws|
  {
    if |ws| == 32 then ws else Extend(mix, ws + [NextEntry(mix, ws, |ws|)])
  }

  lemma {:induction false} ExtendObeys<T>(mix: Mixer<T>, ws: seq<T>)
    requires 16 <= |ws| <= 32 && Obeys(mix, ws)
    ensures Obeys(mix, Extend(mix, ws))
    decreases 32 - |ws|
  {
    if |ws| < 32 {
      var more := ws + [NextEntry(mix, ws, |ws|)];
      assert forall j :: 16 <= j < |ws| ==> Recurs(mix, ws, j) && NextEntry(mix, more, j) == NextEntry(mix, ws, j);
      assert NextEntry(mix, more, |ws|) == NextEntry(mix, ws, |ws|);
      ExtendObeys(mix, more);
    }
  }

  lemma {:induction false} ObeysDetermines<T>(mix: Mixer<T>, ws: seq<T>, k: nat)
    requires |ws| == 32 && Obeys(mix, ws) && 16 <= k <= 32
    ensures Extend(mix, ws[..k]) == ws
    decreases 32 - k
  {
    if k < 32 {
      assert Recurs(mix, ws, k);
      assert NextEntry(mix, ws[..k], k) == NextEntry(mix, ws, k);
      assert ws[..k] + [ws[k]] == ws[..k + 1];
      ObeysDetermines(mix, ws, k + 1);
    } else {
      assert ws[..32] == ws;
    }
  }

  // The entry before `tail`, the entries from number `i` on.
  function PreviousEntry<T>(unmix: Mixer<T>, tail: seq<T>, i: nat): T
    requires 0 < i <= 16 && |tail| == 32 - i
  {
    unmix(tail[15], tail[8], tail[0], tail[13], tail[14], i + 15)
  }

  // The recurrence run backwards, to the full list.
  function Rewind<T>(unmix: Mixer<T>, tail: seq<T>): (ws: seq<T>)
    requires 16 <= |tail| <= 32
    ensures |ws| == 32 && ws[32 - |tail|..] == tail
    decreases 32 - |tail|
  {
    if |tail| == 32 then tail
    else
      var longer := [PreviousEntry(unmix, tail, 32 - |tail|)] + tail;
      var ws := Rewind(unmix, longer);
      assert ws[32 - |tail|..] == ws[32 - |longer|..][1..];
      ws
  }

  lemma {:induction false} RewindRecovers<T(!new)>(mix: Mixer<T>, unmix: Mixer<T>, ws: seq<T>, i: nat)
    requires Undoes(mix, unmix) && |ws| == 32 && Obeys(mix, ws) && i <= 16
    ensures Rewind(unmix, ws[i..]) == ws
    decreases i
  {
    if i > 0 {
      assert Recurs(mix, ws, i + 15);
      assert PreviousEntry(unmix, ws[i..], i) == ws[i - 1];
      assert [ws[i - 1]] + ws[i..] == ws[i - 1..];
      RewindRecovers(mix, unmix, ws, i - 1);
    } else {
      assert ws[0..] == ws;
    }
  }

  // `tail` holds the entries from number `i` on.
  ghost predicate TailRecurs<T>(mix: Mixer<T>, tail: seq<T>, i: nat, j: nat)
    requires j < |tail|
  {
    j >= 16 && tail[j] == mix(tail[j - 16], tail[j - 7], tail[j - 15], tail[j - 2], tail[j - 1], i + j)
  }

  ghost predicate TailObeys<T>(mix: Mixer<T>, tail: seq<T>, i: nat) {
    forall j :: 16 <= j < |tail| ==> TailRecurs(mix, tail, i, j)
  }

  lemma PrependObeys<T(!new)>(mix: Mixer<T>, unmix: Mixer<T>, tail: seq<T>, i: nat, longer: seq<T>)
    requires Undoes(mix, unmix) && 0 < i <= 16 && |tail| == 32 - i && TailObeys(mix, tail, i)
    requires longer == [PreviousEntry(unmix, tail, i)] + tail
    ensures TailObeys(mix, longer, i - 1)
  {
    var k := i - 1;
    forall j | 16 <= j < |longer| ensures TailRecurs(mix, longer, k, j) {
      if j > 16 {
        assert TailRecurs(mix, tail, i, j - 1);
      }
    }
  }

  lemma {:induction false} RewindObeys<T(!new)>(mix: Mixer<T>, unmix: Mixer<T>, tail: seq<T>)
    requires Undoes(mix, unmix) && 16 <= |tail| <= 32 && TailObeys(mix, tail, 32 - |tail|)
    ensures Obeys(mix, Rewind(unmix, tail))
    decreases 32 - |tail|
  {
    if |tail| == 32 {
      forall j | 16 <= j < 32 ensures Recurs(mix, tail, j) {
        assert TailRecurs(mix, tail, 0, j);
      }
    } else {
      var longer := [PreviousEntry(unmix, tail, 32 - |tail|)] + tail;
      PrependObeys(mix, unmix, tail, 32 - |tail|, longer);
      RewindObeys(mix, unmix, longer);
    }
  }

  // The last sixteen of the 32 entries determine the first sixteen, and can be any.
  lemma ExtendBijective<T(!new)>(mix: Mixer<T>, unmix: Mixer<T>, first: seq<T>, last: seq<T>)
    requires Undoes(mix, unmix) && |first| == 16 && |last| == 16
    ensures Rewind(unmix, Extend(mix, first)[16..])[..16] == first
    ensures Extend(mix, Rewind(unmix, last)[..16])[16..] == last
  {
    ExtendObeys(mix, first);
    RewindRecovers(mix, unmix, Extend(mix, first), 16);
    RewindObeys(mix, unmix, last);
    ObeysDetermines(mix, Rewind(unmix, last), 16);
  }
}
