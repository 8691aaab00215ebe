/** `extract_dollar_values` and the result selection of `main`, from the
    point where the page's candidate elements have already been selected and
    their texts taken: the input is that list of texts, in document order. */
module Scraper {
  import opened Wrappers
  import opened PythonText
  import opened DollarPattern

  /** What one element text contributes: `match.group(1).strip()` with its
      commas deleted, when the pattern matches at all. The value has no
      comma. */
  function ExtractValue(text: string): (r: Option<string>)
    ensures r.Some? <==> HasMatch(text)
    ensures r.Some? ==> ',' !in r.value
  {
    match Group(text)
    case None => None
    case Some(g) => Some(RemoveCommas(Strip(g)))
  }

  /** Stripping and comma removal only drop characters, so an extracted
      value keeps the captured run's promise of holding no `r`, `R` or line
      feed, and holds no character more often than the run does. */
  lemma ExtractValueFromGroup(text: string)
    requires HasMatch(text)
    ensures multiset(ExtractValue(text).value) <= multiset(Group(text).value)
    ensures forall k :: 0 <= k < |ExtractValue(text).value| ==>
      !IsTerminator(ExtractValue(text).value[k]) && ExtractValue(text).value[k] != '\n'
  {
    var g := Group(text).value;
    var v := ExtractValue(text).value;
    StripOnlyDrops(g);
    RemoveCommasKeepsOthers(Strip(g));
    assert multiset(v) <= multiset(g);
    forall k | 0 <= k < |v| ensures !IsTerminator(v[k]) && v[k] != '\n' {
      assert v[k] in multiset(v);
    }
  }

  /** The list `extract_dollar_values` builds: one value per matching text,
      in the order of the texts. */
  function ExtractAll(texts: seq<string>): (r: seq<string>)
    ensures |r| <= |texts|
    ensures forall k :: 0 <= k < |r| ==> ',' !in r[k]
  {
    if texts == [] then []
    else
      var last := texts[|texts| - 1];
      ExtractAll(texts[..|texts| - 1]) + match ExtractValue(last) { case Some(v) => [v] case None => [] }
  }

  /** The positions of the texts that match, in increasing order. */
  function Sources(texts: seq<string>): seq<nat>
  {
    if texts == [] then []
    else
      var n := |texts| - 1;
      Sources(texts[..n]) + if HasMatch(texts[n]) then [n] else []
  }

  /** Entry `k` of the result comes from text `Sources(texts)[k]`. The
      sources increase strictly, so the order of the texts is kept, and a
      text is a source exactly when the pattern matches it: a matching text
      gives exactly one entry and any other text gives none. */
  lemma {:induction false} ExtractAllFromSources(texts: seq<string>)
    ensures |Sources(texts)| == |ExtractAll(texts)|
    ensures forall k :: 0 <= k < |Sources(texts)| ==>
      Sources(texts)[k] < |texts| && ExtractValue(texts[Sources(texts)[k]]) == Some(ExtractAll(texts)[k])
    ensures forall k, l :: 0 <= k < l < |Sources(texts)| ==> Sources(texts)[k] < Sources(texts)[l]
    ensures forall i :: 0 <= i < |texts| ==> (i in Sources(texts) <==> HasMatch(texts[i]))
  {
    SourcesIncreasing(texts);
    SourcesGiveValues(texts);
    SourcesAreMatches(texts);
  }

  /** Every source is a position of `texts`, and the sources increase. */
  lemma {:induction false} SourcesIncreasing(texts: seq<string>)
    ensures forall k :: 0 <= k < |Sources(texts)| ==> Sources(texts)[k] < |texts|
    ensures forall k, l :: 0 <= k < l < |Sources(texts)| ==> Sources(texts)[k] < Sources(texts)[l]
  {
    if texts != [] {
      SourcesIncreasing(texts[..|texts| - 1]);
    }
  }

  /** As many sources as entries, and each entry is its source's value. */
  lemma {:induction false} SourcesGiveValues(texts: seq<string>)
    ensures |Sources(texts)| == |ExtractAll(texts)|
    ensures forall k :: 0 <= k < |Sources(texts)| ==>
      Sources(texts)[k] < |texts| && ExtractValue(texts[Sources(texts)[k]]) == Some(ExtractAll(texts)[k])
  {
    if texts != [] {
      var n := |texts| - 1;
      var front := texts[..n];
      SourcesGiveValues(front);
      SourcesIncreasing(front);
      var s, e := Sources(texts), ExtractAll(texts);
      forall k | 0 <= k < |s| ensures s[k] < |texts| && ExtractValue(texts[s[k]]) == Some(e[k]) {
        if k < |Sources(front)| {
          assert s[k] == Sources(front)[k] && e[k] == ExtractAll(front)[k];
          assert texts[s[k]] == front[s[k]];
        }
      }
    }
  }

  /** The sources are exactly the positions of the matching texts. */
  lemma SourcesAreMatches(texts: seq<string>)
    ensures forall i :: 0 <= i < |texts| ==> (i in Sources(texts) <==> HasMatch(texts[i]))
  {
    forall i | 0 <= i < |texts| ensures i in Sources(texts) <==> HasMatch(texts[i]) {
      SourceExactlyWhenMatch(texts, i);
    }
  }

  /** Position `i` is a source exactly when text `i` matches. */
  lemma {:induction false} SourceExactlyWhenMatch(texts: seq<string>, i: nat)
    requires i < |texts|
    ensures i in Sources(texts) <==> HasMatch(texts[i])
  {
    var n := |texts| - 1;
    var front := texts[..n];
    var tail: seq<nat> := if HasMatch(texts[n]) then [n] else [];
    assert Sources(texts) == Sources(front) + tail;
    if i < n {
      SourceExactlyWhenMatch(front, i);
      assert texts[i] == front[i];
      assert i !in tail;
    } else {
      SourcesIncreasing(front);
      assert i !in Sources(front) by {
        forall k | 0 <= k < |Sources(front)| ensures Sources(front)[k] != i { }
      }
    }
  }

  /** Extraction runs text by text: the result for a concatenation of two
      lists of texts is the two results one after the other. */
  lemma {:induction false} ExtractAllAppend(a: seq<string>, b: seq<string>)
    ensures ExtractAll(a + b) == ExtractAll(a) + ExtractAll(b)
    decreases |b|
  {
    if b == [] {
      assert a + b == a;
    } else {
      var n := |b| - 1;
      assert (a + b)[..|a + b| - 1] == a + b[..n];
      assert (a + b)[|a + b| - 1] == b[n];
      ExtractAllAppend(a, b[..n]);
    }
  }

  /** One more text extends the result by its value, if it has one. */
  lemma ExtractAllStep(texts: seq<string>, i: nat)
    requires i < |texts|
    ensures ExtractAll(texts[..i + 1]) ==
      ExtractAll(texts[..i]) + if HasMatch(texts[i]) then [ExtractValue(texts[i]).value] else []
  {
    assert texts[..i + 1][..i] == texts[..i];
  }

  /** `extract_dollar_values`: for each text, search it, and when there is a
      match append the stripped, comma-free group to `results`. */
  method ExtractDollarValues(texts: seq<string>) returns (results: seq<string>)
    ensures results == ExtractAll(texts)
  {
    results := [];
    for i := 0 to |texts|
      invariant results == ExtractAll(texts[..i])
    {
      var text := texts[i];
      ExtractAllStep(texts, i);
      var found := Search(text);
      if found.Some? {
        var rawNum := RemoveCommas(Strip(text[found.value.dollar + 1..found.value.stop]));
        assert ExtractValue(text) == Some(rawNum) by {
          assert Group(text) == Some(text[found.value.dollar + 1..found.value.stop]);
        }
        results := results + [rawNum];
      }
    }
    assert texts[..|texts|] == texts;
  }

  /** Extraction is a function of its input: two runs on the same texts
      produce the same list. */
  method ExtractTwice(texts: seq<string>) returns (first: seq<string>, second: seq<string>)
    ensures first == second
  {
    first := ExtractDollarValues(texts);
    second := ExtractDollarValues(texts);
  }

  const NoMatchesMessage: string :=
    "No matches found. The content may be rendered dynamically with JavaScript."

  /** What `main` produces: the value it returns, and the lines it prints. */
  datatype MainOutcome = MainOutcome(value: Option<string>, printed: seq<string>)

  /** `main` after the page has been fetched and its candidate texts taken:
      the first extracted value if there is one; otherwise no value and the
      "rendered dynamically" diagnostic. A value is returned exactly when
      some text matches, and the diagnostic is printed exactly when none
      does. */
  function MainResult(texts: seq<string>): (r: MainOutcome)
    ensures r.value.Some? <==> exists i :: 0 <= i < |texts| && HasMatch(texts[i])
    ensures r.printed == if r.value.Some? then [] else [NoMatchesMessage]
  {
    ExtractAllFromSources(texts);
    var numbers := ExtractAll(texts);
    if numbers != [] then
      assert HasMatch(texts[Sources(texts)[0]]);
      MainOutcome(Some(numbers[0]), [])
    else
      MainOutcome(None, [NoMatchesMessage])
  }

  /** The value `main` returns is the one extracted from the first text that
      matches; every text before it is passed over. */
  lemma MainReturnsFirstMatch(texts: seq<string>, i: nat)
    requires i < |texts| && HasMatch(texts[i])
    requires forall j :: 0 <= j < i ==> !HasMatch(texts[j])
    ensures MainResult(texts).value == ExtractValue(texts[i])
  {
    ExtractAllFromSources(texts);
    var s := Sources(texts);
    assert i in s;
    assert HasMatch(texts[s[0]]);
  }
}
