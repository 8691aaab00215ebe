/** The two Python string methods the extractor applies to a captured run:
    `str.strip()` with no argument and `str.replace(",", "")`. */
module PythonText {

  /** Python's `str.isspace()` for one character: the characters CPython
      treats as whitespace (bidirectional class WS, B or S, or category Zs). */
  predicate IsSpace(c: char)
  {
    ('\U{0009}' <= c <= '\U{000D}') || ('\U{001C}' <= c <= '\U{001F}') ||
    c == '\U{0020}' || c == '\U{0085}' || c == '\U{00A0}' || c == '\U{1680}' ||
    ('\U{2000}' <= c <= '\U{200A}') || c == '\U{2028}' || c == '\U{2029}' ||
    c == '\U{202F}' || c == '\U{205F}' || c == '\U{3000}'
  }

  /** Every character of `s` is whitespace. */
  predicate AllSpace(s: string)
  {
    forall k :: 0 <= k < |s| ==> IsSpace(s[k])
  }

  /** `s` with its leading whitespace removed: a suffix of `s` that does not
      start with whitespace, all of whose dropped prefix is whitespace. */
  function StripStart(s: string): (r: string)
    ensures |r| <= |s| && r == s[|s| - |r|..]
    ensures AllSpace(s[..|s| - |r|])
    ensures r != [] ==> !IsSpace(r[0])
  {
    if s != [] && IsSpace(s[0]) then
      var r := StripStart(s[1..]);
      var dropped := s[..|s| - |r|];
      var droppedLater := s[1..][..|s| - 1 - |r|];
      assert AllSpace(dropped) by {
        forall k | 0 <= k < |dropped| ensures IsSpace(dropped[k]) {
          if k > 0 {
            assert dropped[k] == droppedLater[k - 1];
          }
        }
      }
      r
    else
      s
  }

  /** `s` with its trailing whitespace removed: a prefix of `s` that does not
      end with whitespace, all of whose dropped suffix is whitespace. */
  function StripEnd(s: string): (r: string)
    ensures |r| <= |s| && r == s[..|r|]
    ensures AllSpace(s[|r|..])
    ensures r != [] ==> !IsSpace(r[|r| - 1])
  {
    if s != [] && IsSpace(s[|s| - 1]) then
      var r := StripEnd(s[..|s| - 1]);
      assert AllSpace(s[|r|..]) by {
        forall k | 0 <= k < |s| - |r| ensures IsSpace(s[|r|..][k]) {
          if k < |s| - 1 - |r| {
            assert s[|r|..][k] == s[..|s| - 1][|r|..][k];
          }
        }
      }
      r
    else
      s
  }

  /** Python's `s.strip()`: what is left once the whitespace on both sides
      is gone. It neither starts nor ends with whitespace. */
  function Strip(s: string): (r: string)
    ensures |r| <= |s|
    ensures r != [] ==> !IsSpace(r[0]) && !IsSpace(r[|r| - 1])
  {
    StripEnd(StripStart(s))
  }

  /** Strip removes nothing but whitespace: its result is the infix
      `s[a..b]`, with whitespace before `a` and from `b` on. */
  lemma StripIsInfix(s: string) returns (a: nat, b: nat)
    ensures a <= b <= |s|
    ensures Strip(s) == s[a..b]
    ensures AllSpace(s[..a]) && AllSpace(s[b..])
  {
    var left := StripStart(s);
    var r := StripEnd(left);
    a := |s| - |left|;
    b := a + |r|;
    PrefixOfSuffix(s, left, r);
  }

  /** A prefix `r` of a suffix `left` of `s` is an infix of `s`, and what
      follows `r` in `left` is what follows it in `s`. */
  lemma PrefixOfSuffix(s: string, left: string, r: string)
    requires |left| <= |s| && left == s[|s| - |left|..]
    requires |r| <= |left| && r == left[..|r|]
    requires AllSpace(left[|r|..])
    ensures r == s[|s| - |left|..|s| - |left| + |r|]
    ensures AllSpace(s[|s| - |left| + |r|..])
  {
    var a := |s| - |left|;
    SliceOfSuffix(s, a, |r|);
  }

  /** Slicing a suffix is slicing the string. */
  lemma SliceOfSuffix(s: string, a: nat, n: nat)
    requires a + n <= |s|
    ensures s[a..][..n] == s[a..a + n] && s[a..][n..] == s[a + n..]
  {
  }

  /** Strip has exactly one possible result: any infix `s[a..b]` framed by
      whitespace on both sides and not itself starting or ending with
      whitespace is what Strip returns. */
  lemma {:induction false} StripUnique(s: string, a: nat, b: nat)
    requires a <= b <= |s|
    requires AllSpace(s[..a]) && AllSpace(s[b..])
    requires a < b ==> !IsSpace(s[a]) && !IsSpace(s[b - 1])
    ensures Strip(s) == s[a..b]
  {
    if a == b {
      SpaceAround(s, a);
      StripStartUnique(s, |s|);
      assert StripStart(s) == [];
      StripEndUnique([], 0);
    } else {
      StripNonEmpty(s, a, b);
    }
  }

  /** StripUnique when the kept infix is not empty. */
  lemma StripNonEmpty(s: string, a: nat, b: nat)
    requires a < b <= |s|
    requires AllSpace(s[..a]) && AllSpace(s[b..])
    requires !IsSpace(s[a]) && !IsSpace(s[b - 1])
    ensures StripEnd(StripStart(s)) == s[a..b]
  {
    StripStartUnique(s, a);
    StripEndOfSuffix(s, a, b);
  }

  /** Stripping the end of the suffix from `a` leaves `s[a..b]`. */
  lemma StripEndOfSuffix(s: string, a: nat, b: nat)
    requires a < b <= |s|
    requires AllSpace(s[b..])
    requires !IsSpace(s[b - 1])
    ensures StripEnd(s[a..]) == s[a..b]
  {
    var left := s[a..];
    assert left[b - a..] == s[b..];
    assert left[b - a - 1] == s[b - 1];
    StripEndUnique(left, b - a);
    assert left[..b - a] == s[a..b];
  }

  /** Whitespace up to `a` and whitespace from `a` on make `s` all whitespace. */
  lemma SpaceAround(s: string, a: nat)
    requires a <= |s|
    requires AllSpace(s[..a]) && AllSpace(s[a..])
    ensures AllSpace(s[..|s|])
  {
    forall k | 0 <= k < |s| ensures IsSpace(s[..|s|][k]) {
      if k < a { assert s[..|s|][k] == s[..a][k]; } else { assert s[..|s|][k] == s[a..][k - a]; }
    }
  }

  /** A whitespace prefix of length `a` followed by a non-whitespace
      character (or nothing) is exactly what StripStart drops. */
  lemma {:induction false} StripStartUnique(s: string, a: nat)
    requires a <= |s|
    requires AllSpace(s[..a])
    requires a < |s| ==> !IsSpace(s[a])
    ensures StripStart(s) == s[a..]
  {
    if a > 0 {
      assert IsSpace(s[..a][0]);
      var prefix := s[1..][..a - 1];
      assert AllSpace(prefix) by {
        forall k | 0 <= k < a - 1 ensures IsSpace(prefix[k]) {
          assert prefix[k] == s[..a][k + 1];
        }
      }
      StripStartUnique(s[1..], a - 1);
      assert s[1..][a - 1..] == s[a..];
    }
  }

  /** A whitespace suffix from `b` preceded by a non-whitespace character
      (or nothing) is exactly what StripEnd drops. */
  lemma {:induction false} StripEndUnique(s: string, b: nat)
    requires b <= |s|
    requires AllSpace(s[b..])
    requires b > 0 ==> !IsSpace(s[b - 1])
    ensures StripEnd(s) == s[..b]
  {
    if b < |s| {
      assert IsSpace(s[b..][|s| - 1 - b]);
      var t := s[..|s| - 1];
      assert AllSpace(t[b..]) by {
        forall k | 0 <= k < |t| - b ensures IsSpace(t[b..][k]) {
          assert t[b..][k] == s[b..][k];
        }
      }
      StripEndUnique(t, b);
      assert t[..b] == s[..b];
    }
  }

  /** Stripping twice is stripping once. */
  lemma StripIdempotent(s: string)
    ensures Strip(Strip(s)) == Strip(s)
  {
    StripWhole(Strip(s));
  }

  /** A string that neither starts nor ends with whitespace is left as is. */
  lemma StripWhole(r: string)
    requires r != [] ==> !IsSpace(r[0]) && !IsSpace(r[|r| - 1])
    ensures Strip(r) == r
  {
    assert AllSpace(r[..0]) && AllSpace(r[|r|..]);
    StripUnique(r, 0, |r|);
  }

  /** Stripping only drops characters: each character of the result is one
      of `s`, with no more occurrences than in `s`. */
  lemma StripOnlyDrops(s: string)
    ensures multiset(Strip(s)) <= multiset(s)
  {
    var left := StripStart(s);
    SliceMultisets(s, |s| - |left|);
    SliceMultisets(left, |StripEnd(left)|);
  }

  /** Both parts of a split string hold no more than the string does. */
  lemma SliceMultisets(s: string, k: nat)
    requires k <= |s|
    ensures multiset(s[..k]) <= multiset(s) && multiset(s[k..]) <= multiset(s)
  {
    assert s == s[..k] + s[k..];
  }

  /** Python's `s.replace(",", "")`: `s` with every comma deleted, so no
      comma is left. */
  function RemoveCommas(s: string): (r: string)
    ensures |r| <= |s|
    ensures ',' !in r
  {
    if s == [] then []
    else (if s[0] == ',' then [] else [s[0]]) + RemoveCommas(s[1..])
  }

  /** Comma removal keeps every other character as often as it occurs. */
  lemma {:induction false} RemoveCommasKeepsOthers(s: string)
    ensures multiset(RemoveCommas(s)) == multiset(s)[',' := 0]
  {
    if s != [] {
      assert s == [s[0]] + s[1..];
      RemoveCommasKeepsOthers(s[1..]);
    }
  }

  /** Comma removal works piecewise, so the characters it keeps stay in
      their original order. */
  lemma {:induction false} RemoveCommasAppend(s: string, t: string)
    ensures RemoveCommas(s + t) == RemoveCommas(s) + RemoveCommas(t)
  {
    if s == [] {
      assert s + t == t;
    } else {
      var head := if s[0] == ',' then [] else [s[0]];
      assert (s + t)[0] == s[0];
      assert (s + t)[1..] == s[1..] + t;
      assert RemoveCommas(s + t) == head + RemoveCommas(s[1..] + t);
      RemoveCommasAppend(s[1..], t);
      assert head + (RemoveCommas(s[1..]) + RemoveCommas(t)) ==
             (head + RemoveCommas(s[1..])) + RemoveCommas(t);
    }
  }

  /** A string without commas is left unchanged. */
  lemma {:induction false} RemoveCommasNoop(s: string)
    requires ',' !in s
    ensures RemoveCommas(s) == s
  {
    if s != [] {
      RemoveCommasNoop(s[1..]);
    }
  }
}
