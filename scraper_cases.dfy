/** Concrete element texts and what the extractor makes of them. */
module ScraperCases {
  import opened Wrappers
  import opened PythonText
  import opened DollarPattern
  import opened Scraper

  /** A text whose leftmost closed `$` is at `d` and whose first `r`/`R`
      after it is at `e` has the run between them as its group. */
  lemma GroupBetween(text: string, d: nat, e: nat)
    requires d < e < |text| && text[d] == '$' && IsTerminator(text[e])
    requires LineFree(text, d + 1, e)
    requires forall m :: d < m < e ==> !IsTerminator(text[m])
    requires forall p :: 0 <= p < d && text[p] == '$' ==> !ClosedOnItsLine(text, p)
    ensures Group(text) == Some(text[d + 1..e])
  {
    SearchUnique(text, d, e);
  }

  /** Deleting the commas of a string whose first comma is at `k`. */
  lemma {:induction false} RemoveFirstComma(s: string, k: nat)
    requires k < |s| && s[k] == ',' && ',' !in s[..k]
    ensures RemoveCommas(s) == s[..k] + RemoveCommas(s[k + 1..])
  {
    assert s == s[..k] + ([','] + s[k + 1..]);
    RemoveCommasAppend(s[..k], [','] + s[k + 1..]);
    RemoveCommasNoop(s[..k]);
    assert ([','] + s[k + 1..])[1..] == s[k + 1..];
  }

  /** A single text gives a one-entry list exactly when it matches. */
  lemma ExtractAllSingle(text: string)
    ensures ExtractAll([text]) == if HasMatch(text) then [ExtractValue(text).value] else []
  {
    assert [text][..0] == [];
  }

  /** The shape the pattern was written for: `"$5,342 raised"` gives
      `"5342"`. */
  lemma RaisedTotal(text: string)
    requires text == "$5,342 raised"
    ensures ExtractValue(text) == Some("5342")
    ensures ExtractAll([text]) == ["5342"]
  {
    GroupBetween(text, 0, 7);
    StripUnique(text[1..7], 0, 5);
    RaisedTotalDigits(text);
    ExtractAllSingle(text);
  }

  /** The stripped run `"5,342"` loses its comma. */
  lemma RaisedTotalDigits(text: string)
    requires text == "$5,342 raised"
    ensures RemoveCommas(text[1..7][0..5]) == "5342"
  {
    assert text[1..7] == "5,342 ";
    var digits := text[1..7][0..5];
    assert digits == "5,342";
    RemoveFirstComma(digits, 1);
    RemoveCommasNoop(digits[2..]);
  }

  /** The lazy group stops at the first `r`: nothing after it is read, so
      in `"$1,000,000 raised of $2,000,000 goal"`, whatever follows the
      first `r`, the goal amount is never reached and the value is
      `"1000000"`. */
  lemma ShortestRun(text: string, rest: string)
    requires text == "$1,000,000 r" + rest
    ensures ExtractValue(text) == Some("1000000")
  {
    GroupBetween(text, 0, 11);
    StripUnique(text[1..11], 0, 9);
    ShortestRunDigits(text, rest);
  }

  /** The stripped run `"1,000,000"` loses its commas. */
  lemma ShortestRunDigits(text: string, rest: string)
    requires text == "$1,000,000 r" + rest
    ensures RemoveCommas(text[1..11][0..9]) == "1000000"
  {
    assert text[..12] == "$1,000,000 r";
    assert text[1..11] == "1,000,000 ";
    var digits := text[1..11][0..9];
    assert digits == "1,000,000";
    RemoveFirstComma(digits, 1);
    RemoveFirstComma(digits[2..], 3);
    RemoveCommasNoop(digits[2..][4..]);
  }

  /** A text without a `$` contributes nothing; with no other text, `main`
      then prints its diagnostic and returns no value. */
  lemma NoDollar(text: string)
    requires text == "Thanks everyone"
    ensures ExtractAll([text]) == []
    ensures MainResult([text]) == MainOutcome(None, [NoMatchesMessage])
  {
    assert !HasMatch(text) by {
      forall p | 0 <= p < |text| ensures text[p] != '$' { }
    }
    ExtractAllSingle(text);
  }

  /** Upper-case `R` ends the run just as `r` does. */
  lemma UpperCaseTerminator(text: string)
    requires text == "$12 R"
    ensures ExtractValue(text) == Some("12")
  {
    GroupBetween(text, 0, 4);
    StripUnique(text[1..4], 0, 2);
    assert text[1..4][0..2] == "12";
    RemoveCommasNoop("12");
  }

  /** Stripping comes before comma removal, so a comma that shielded a
      space leaves that space at the front of the value. */
  lemma StripBeforeCommas(text: string)
    requires text == "$, 5r"
    ensures ExtractValue(text) == Some(" 5")
  {
    GroupBetween(text, 0, 4);
    StripUnique(text[1..4], 0, 3);
    StripBeforeCommasRun(text);
  }

  /** The run `", 5"` has nothing to strip and loses its comma. */
  lemma StripBeforeCommasRun(text: string)
    requires text == "$, 5r"
    ensures RemoveCommas(text[1..4][0..3]) == " 5"
  {
    var run := text[1..4][0..3];
    assert run == ", 5";
    RemoveFirstComma(run, 0);
    RemoveCommasNoop(run[1..]);
  }

  /** A `$` whose line ends before any `r` is passed over for a later one. */
  lemma UnclosedDollarSkipped(text: string)
    requires text == "$5\n$7r"
    ensures ExtractValue(text) == Some("7")
  {
    assert !ClosedOnItsLine(text, 0) by {
      forall j | 0 < j < |text| && IsTerminator(text[j]) ensures !LineFree(text, 1, j) {
        assert text[2] == '\n';
      }
    }
    GroupBetween(text, 3, 5);
    StripUnique(text[4..5], 0, 1);
    assert text[4..5][0..1] == "7";
    RemoveCommasNoop("7");
  }

  /** No candidate elements at all, as when the page is rendered by script:
      no value, and the diagnostic. */
  lemma NoElements()
    ensures MainResult([]) == MainOutcome(None, [NoMatchesMessage])
  {
  }
}
