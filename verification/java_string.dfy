/**
 * The two java.lang.String operations the flush timer relies on.
 * `trim()` removes every leading and trailing character whose code point is
 * at most U+0020 (the space and all control characters below it); `isEmpty()`
 * is `|s| == 0`.
 */
module JavaString {

  /** A character that `trim()` strips from either end. */
  predicate IsStrippable(c: char) {
    c <= ' '
  }

  ghost predicate AllStrippable(s: string) {
    forall i :: 0 <= i < |s| ==> IsStrippable(s[i])
  }

  /** A string `trim()` leaves as it is: empty, or with a kept character at each end. */
  ghost predicate IsTrimmed(s: string) {
    s == [] || (!IsStrippable(s[0]) && !IsStrippable(s[|s| - 1]))
  }

  /** The first loop of `trim()`: index of the first kept character, or |s|. */
  function KeptStart(s: string): (st: nat)
    ensures st <= |s|
    ensures AllStrippable(s[..st])
    ensures st < |s| ==> !IsStrippable(s[st])
  {
    if |s| == 0 || !IsStrippable(s[0]) then 0
    else
      var st' := KeptStart(s[1..]);
      assert s[1..][..st'] == s[1..st' + 1];
      1 + st'
  }

  /** The second loop of `trim()`: walks the end down, never below `st`. */
  function KeptEnd(s: string, st: nat): (len: nat)
    requires st <= |s|
    ensures st <= len <= |s|
    ensures AllStrippable(s[len..])
    ensures st < len ==> !IsStrippable(s[len - 1])
    decreases |s|
  {
    if |s| == st || !IsStrippable(s[|s| - 1]) then |s|
    else
      var len := KeptEnd(s[..|s| - 1], st);
      assert s[len..] == s[..|s| - 1][len..] + [s[|s| - 1]];
      len
  }

  /**
   * `String.trim()`: the middle of `s` once strippable characters are removed
   * from both ends.
   */
  function Trim(s: string): (r: string)
    ensures IsTrimmed(r)
    ensures r == [] <==> AllStrippable(s)
    ensures exists i :: 0 <= i <= |s| - |r| && r == s[i..i + |r|]
                        && AllStrippable(s[..i]) && AllStrippable(s[i + |r|..])
  {
    var st := KeptStart(s);
    var len := KeptEnd(s, st);
    var r := s[st..len];
    assert r == s[st..st + |r|];
    assert r == [] ==> s == s[..st] + s[len..];
    r
  }

  /**
   * `Trim` is the only decomposition of `s` into strippable prefix, trimmed
   * middle and strippable suffix.
   */
  lemma TrimUnique(s: string, p: string, m: string, q: string)
    requires s == p + m + q
    requires AllStrippable(p) && AllStrippable(q) && IsTrimmed(m)
    ensures Trim(s) == m
  {
    if m == [] {
      assert AllStrippable(s) by {
        forall j | 0 <= j < |s|
          ensures IsStrippable(s[j])
        {
          if j < |p| { assert s[j] == p[j]; } else { assert s[j] == q[j - |p|]; }
        }
      }
    } else {
      var a, b := |p|, |p| + |m|;
      assert s[..a] == p && s[a..b] == m && s[b..] == q;
      assert KeptStart(s) == a;
      assert KeptEnd(s, a) == b;
    }
  }

  /** Trimming twice is trimming once. */
  lemma TrimIdempotent(s: string)
    ensures Trim(Trim(s)) == Trim(s)
  {
  }
}
