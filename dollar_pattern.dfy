/** The pattern `\$(.*?)r`, compiled with IGNORECASE, and Python's
    `pattern.search(text)` over it. The search tries start positions left to
    right. At a `$` the lazy group first tries to end at once and then takes
    one more character per attempt. `.` takes any character except a line
    feed, and the literal `r` matches `r` or `R` under IGNORECASE. */
module DollarPattern {
  import opened Wrappers

  /** The characters the literal `r` matches when case is ignored. */
  predicate IsTerminator(c: char)
  {
    c == 'r' || c == 'R'
  }

  /** No line feed occurs in `text[from..to]`, so `.` can cover all of it. */
  predicate LineFree(text: string, from: nat, to: nat)
    requires from <= to <= |text|
  {
    forall m :: from <= m < to ==> text[m] != '\n'
  }

  /** The `$` at `p` has an `r` or `R` after it on the same line. */
  predicate ClosedOnItsLine(text: string, p: nat)
    requires p < |text|
  {
    exists j :: p < j < |text| && IsTerminator(text[j]) && LineFree(text, p + 1, j)
  }

  /** Some `$` in `text` has an `r` or `R` after it on the same line. */
  predicate HasMatch(text: string)
  {
    exists p :: 0 <= p < |text| && text[p] == '$' && ClosedOnItsLine(text, p)
  }

  /** Where a match stands in the searched text: the `$` at `dollar` and the
      terminating `r`/`R` at `stop`. Group 1 is `text[dollar + 1..stop]`. */
  datatype Match = Match(dollar: nat, stop: nat)

  /** The lazy group `(.*?)r` started at `k`: the index of the first `r`/`R`
      at or after `k`, provided no line feed comes before it. */
  function RunEnd(text: string, k: nat): (r: Option<nat>)
    requires k <= |text|
    ensures r.Some? ==> k <= r.value < |text|
    decreases |text| - k
  {
    if k == |text| || text[k] == '\n' then None
    else if IsTerminator(text[k]) then Some(k)
    else RunEnd(text, k + 1)
  }

  /** The run found from `k` is the shortest one: it ends at an `r`/`R` with
      none before it and no line feed in between. When there is none, every
      `r`/`R` after `k` has a line feed before it. */
  lemma {:induction false} RunEndSpec(text: string, k: nat)
    requires k <= |text|
    ensures RunEnd(text, k).Some? ==>
      var e := RunEnd(text, k).value;
      IsTerminator(text[e]) && LineFree(text, k, e) &&
      forall m :: k <= m < e ==> !IsTerminator(text[m])
    ensures RunEnd(text, k).None? ==>
      forall j :: k <= j < |text| && IsTerminator(text[j]) ==> !LineFree(text, k, j)
    decreases |text| - k
  {
    if k < |text| && text[k] != '\n' && !IsTerminator(text[k]) {
      RunEndSpec(text, k + 1);
    }
  }

  /** The search from start position `i` on: the first `$` at or after `i`
      whose lazy group ends on its own line. */
  function SearchFrom(text: string, i: nat): (r: Option<Match>)
    requires i <= |text|
    ensures r.Some? ==> i <= r.value.dollar < r.value.stop < |text|
    decreases |text| - i
  {
    if i == |text| then None
    else if text[i] == '$' && RunEnd(text, i + 1).Some? then
      Some(Match(i, RunEnd(text, i + 1).value))
    else
      SearchFrom(text, i + 1)
  }

  /** The match found from `i` starts at a `$`, ends at the first `r`/`R`
      after it with no line feed in between, and every `$` skipped before
      it has no `r`/`R` after it on its line; when there is no match, no
      `$` from `i` on has one. */
  lemma {:induction false} SearchFromSpec(text: string, i: nat)
    requires i <= |text|
    ensures SearchFrom(text, i).Some? ==>
      var m := SearchFrom(text, i).value;
      text[m.dollar] == '$' && IsTerminator(text[m.stop]) &&
      LineFree(text, m.dollar + 1, m.stop) &&
      (forall k :: m.dollar < k < m.stop ==> !IsTerminator(text[k])) &&
      forall p :: i <= p < m.dollar && text[p] == '$' ==> !ClosedOnItsLine(text, p)
    ensures SearchFrom(text, i).None? ==>
      forall p :: i <= p < |text| && text[p] == '$' ==> !ClosedOnItsLine(text, p)
    decreases |text| - i
  {
    if i < |text| {
      RunEndSpec(text, i + 1);
      if !(text[i] == '$' && RunEnd(text, i + 1).Some?) {
        SearchFromSpec(text, i + 1);
      }
    }
  }

  /** `pattern.search(text)`: the search from the first position. */
  function Search(text: string): (r: Option<Match>)
    ensures r.Some? ==> r.value.dollar < r.value.stop < |text|
  {
    SearchFrom(text, 0)
  }

  /** A match exists exactly when some `$` has an `r`/`R` after it on its
      line. The match starts at the leftmost such `$` and ends at the first
      `r`/`R` after it, so group 1 holds no `r`, `R` or line feed. */
  lemma SearchSpec(text: string)
    ensures Search(text).Some? <==> HasMatch(text)
    ensures Search(text).Some? ==>
      var m := Search(text).value;
      text[m.dollar] == '$' && IsTerminator(text[m.stop]) &&
      ClosedOnItsLine(text, m.dollar) &&
      (forall k :: m.dollar < k < m.stop ==> !IsTerminator(text[k]) && text[k] != '\n') &&
      forall p :: 0 <= p < m.dollar && text[p] == '$' ==> !ClosedOnItsLine(text, p)
  {
    SearchFromSpec(text, 0);
    if Search(text).Some? {
      var m := Search(text).value;
      assert ClosedOnItsLine(text, m.dollar) by {
        assert IsTerminator(text[m.stop]) && LineFree(text, m.dollar + 1, m.stop);
      }
    }
  }

  /** `match.group(1)` when the search finds a match. */
  function Group(text: string): (g: Option<string>)
    ensures g.Some? <==> HasMatch(text)
    ensures g.Some? ==> forall k :: 0 <= k < |g.value| ==> !IsTerminator(g.value[k]) && g.value[k] != '\n'
  {
    SearchSpec(text);
    match Search(text)
    case None => None
    case Some(m) => Some(text[m.dollar + 1..m.stop])
  }

  /** The leftmost-`$`, first-terminator description determines the match:
      a `$` at `d` that is the leftmost one closed on its line, together with
      the first `r`/`R` at `e` after it, is exactly what the search returns. */
  lemma SearchUnique(text: string, d: nat, e: nat)
    requires d < e < |text| && text[d] == '$' && IsTerminator(text[e])
    requires LineFree(text, d + 1, e)
    requires forall m :: d < m < e ==> !IsTerminator(text[m])
    requires forall p :: 0 <= p < d && text[p] == '$' ==> !ClosedOnItsLine(text, p)
    ensures Search(text) == Some(Match(d, e))
  {
    SearchSpec(text);
    assert ClosedOnItsLine(text, d);
  }

  /** Texts that differ only in the case of an `r` are scanned alike. */
  predicate SameUpToTerminatorCase(a: string, b: string)
  {
    |a| == |b| &&
    forall k :: 0 <= k < |a| ==> a[k] == b[k] || (IsTerminator(a[k]) && IsTerminator(b[k]))
  }

  /** The lazy run ends at the same place in texts alike up to `r`/`R`. */
  lemma {:induction false} RunEndIgnoresCase(a: string, b: string, k: nat)
    requires SameUpToTerminatorCase(a, b) && k <= |a|
    ensures RunEnd(a, k) == RunEnd(b, k)
    decreases |a| - k
  {
    if k < |a| && a[k] != '\n' && !IsTerminator(a[k]) {
      RunEndIgnoresCase(a, b, k + 1);
    }
  }

  /** The search from `i` finds the same match in texts alike up to `r`/`R`. */
  lemma {:induction false} SearchFromIgnoresCase(a: string, b: string, i: nat)
    requires SameUpToTerminatorCase(a, b) && i <= |a|
    ensures SearchFrom(a, i) == SearchFrom(b, i)
    decreases |a| - i
  {
    if i < |a| {
      assert a[i] == '$' <==> b[i] == '$';
      RunEndIgnoresCase(a, b, i + 1);
      SearchFromIgnoresCase(a, b, i + 1);
    }
  }

  /** IGNORECASE matters only for the terminator: turning any `r` into `R`
      or back (so `"$12 R"` against `"$12 r"`) leaves the search result,
      and so the captured group, unchanged. */
  lemma SearchIgnoresTerminatorCase(a: string, b: string)
    requires SameUpToTerminatorCase(a, b)
    ensures Search(a) == Search(b)
    ensures Group(a) == Group(b)
  {
    SearchFromIgnoresCase(a, b, 0);
    if Search(a).Some? {
      var m := Search(a).value;
      SearchSpec(a);
      assert a[m.dollar + 1..m.stop] == b[m.dollar + 1..m.stop];
    }
  }
}
