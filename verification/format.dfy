/** `DecimalTime::format`: `%Y`, then `%d`, then `%f` are replaced throughout the
    template. The fraction's text (Rust's `Display` of the `f64`) is taken as given. */
module Formatting {

  import opened Text
  import opened DecimalTimes

  /** The template after `%Y` and `%d` have been replaced. */
  function FormatYearAndDay(dt: DecimalTime, template: string): string
  {
    Replace(Replace(template, "%Y", IntToString(dt.year)), "%d", NatToString(dt.dayOfYear))
  }

  /** `fractionText` is the rendering of `dt.decimalDay`; every leading `'0'` is trimmed
      from it before it replaces `%f`, and only when `%f` is still present. */
  function Format(dt: DecimalTime, template: string, fractionText: string): (r: string)
    ensures !Contains(template, "%Y") && !Contains(template, "%d") && !Contains(template, "%f") ==> r == template
  {
    var output := FormatYearAndDay(dt, template);
    NoPlaceholderUnchanged(dt, template);
    if Contains(output, "%f") then
      Replace(output, "%f", TrimLeadingZeros(fractionText))
    else
      output
  }

  lemma NoPlaceholderUnchanged(dt: DecimalTime, template: string)
    ensures !Contains(template, "%Y") && !Contains(template, "%d")
        ==> FormatYearAndDay(dt, template) == template
  {
    if !Contains(template, "%Y") && !Contains(template, "%d") {
      ReplaceWithoutOccurrence(template, "%Y", IntToString(dt.year));
      ReplaceWithoutOccurrence(template, "%d", NatToString(dt.dayOfYear));
    }
  }

  /** `a` neither holds the two-character `pat` nor ends in its first character, so no
      occurrence can start inside it whatever follows. */
  predicate Inert(a: string, pat: string)
    requires |pat| == 2
  {
    forall i :: 0 <= i < |a| && a[i] == pat[0] ==> i + 1 < |a| && a[i + 1] != pat[1]
  }

  lemma InertHasNoOccurrence(a: string, b: string, pat: string)
    requires |pat| == 2 && Inert(a, pat)
    ensures forall i :: 0 <= i < |a| ==> !OccursAt(a + b, i, pat)
  {
    forall i | 0 <= i < |a|
      ensures !OccursAt(a + b, i, pat)
    {
      assert (a + b)[i] == a[i];
      if i + 1 < |a| {
        assert (a + b)[i + 1] == a[i + 1];
      }
    }
  }

  lemma InertPrefixKept(a: string, b: string, pat: string, rep: string)
    requires |pat| == 2 && Inert(a, pat)
    ensures Replace(a + b, pat, rep) == a + Replace(b, pat, rep)
  {
    InertHasNoOccurrence(a, b, pat);
    ReplaceKeepsPrefix(a, b, pat, rep);
  }

  lemma InertWhole(a: string, pat: string, rep: string)
    requires |pat| == 2 && Inert(a, pat)
    ensures Replace(a, pat, rep) == a
  {
    assert a + [] == a;
    InertPrefixKept(a, [], pat, rep);
  }

  lemma InertConcat(a: string, b: string, pat: string)
    requires |pat| == 2 && Inert(a, pat) && Inert(b, pat)
    ensures Inert(a + b, pat)
  {
    forall i | 0 <= i < |a + b| && (a + b)[i] == pat[0]
      ensures i + 1 < |a + b| && (a + b)[i + 1] != pat[1]
    {
      if i >= |a| {
        assert b[i - |a|] == pat[0];
      }
    }
  }

  /** Text free of `'%'` is inert for every placeholder. */
  lemma PercentFreeInert(a: string, pat: string)
    requires |pat| == 2 && pat[0] == '%' && '%' !in a
    ensures Inert(a, pat)
  {
  }

  lemma NumbersArePercentFree(y: int, d: nat)
    ensures '%' !in IntToString(y) && '%' !in NatToString(d)
  {
  }

  /** The only occurrence of a placeholder, preceded by `'%'`-free text and followed by
      inert text, is replaced and nothing else changes. */
  lemma ReplaceSoleOccurrence(a: string, rest: string, pat: string, rep: string)
    requires |pat| == 2 && pat[0] == '%' && '%' !in a && Inert(rest, pat)
    ensures Contains(a + pat + rest, pat)
    ensures Replace(a + pat + rest, pat, rep) == a + rep + rest
  {
    PercentFreeInert(a, pat);
    InertHasNoOccurrence(a, pat + rest, pat);
    assert a + pat + rest == a + (pat + rest);
    ReplaceFirstOccurrence(a, rest, pat, rep);
    InertWhole(rest, pat, rep);
    assert OccursAt(a + pat + rest, |a|, pat);
  }

  /** What follows `%Y` in a template of the shape below holds no `%Y`. */
  lemma YearTailInert(p2: string, p3: string, p4: string)
    requires '%' !in p2 && '%' !in p3 && '%' !in p4
    ensures Inert(p2 + "%d" + p3 + "%f" + p4, "%Y")
  {
    PercentFreeInert(p2, "%Y");
    PercentFreeInert(p3, "%Y");
    PercentFreeInert(p4, "%Y");
    InertConcat(p2, "%d", "%Y");
    InertConcat(p2 + "%d", p3, "%Y");
    InertConcat(p2 + "%d" + p3, "%f", "%Y");
    InertConcat(p2 + "%d" + p3 + "%f", p4, "%Y");
  }

  /** What follows `%d` in a template of the shape below holds no `%d`. */
  lemma DayTailInert(p3: string, p4: string)
    requires '%' !in p3 && '%' !in p4
    ensures Inert(p3 + "%f" + p4, "%d")
  {
    PercentFreeInert(p3, "%d");
    PercentFreeInert(p4, "%d");
    InertConcat(p3, "%f", "%d");
    InertConcat(p3 + "%f", p4, "%d");
  }

  /** Regrouping seven pieces around the second, the fourth or the sixth. */
  lemma Regroup(a: string, b: string, c: string, d: string, e: string, f: string, g: string)
    ensures a + b + c + d + e + f + g == (a + b) + (c + d + e + f + g)
    ensures (a + b) + (c + d + e + f + g) == (a + b + c + d) + (e + f + g)
    ensures (a + b + c + d) + (e + f + g) == (a + b + c + d + e + f) + g
  {
  }

  /** The `%Y` and `%d` steps of `format` on a template of the shape below. */
  lemma YearAndDayOnce(dt: DecimalTime, template: string, p1: string, p2: string, p3: string, p4: string)
    requires '%' !in p1 && '%' !in p2 && '%' !in p3 && '%' !in p4
    requires template == p1 + "%Y" + p2 + "%d" + p3 + "%f" + p4
    ensures FormatYearAndDay(dt, template)
         == (p1 + IntToString(dt.year) + p2 + NatToString(dt.dayOfYear) + p3) + "%f" + p4
  {
    var y := IntToString(dt.year);
    var d := NatToString(dt.dayOfYear);
    var tail1 := p2 + "%d" + p3 + "%f" + p4;
    var tail2 := p3 + "%f" + p4;
    NumbersArePercentFree(dt.year, dt.dayOfYear);
    Regroup(p1, "%Y", p2, "%d", p3, "%f", p4);
    YearTailInert(p2, p3, p4);
    ReplaceSoleOccurrence(p1, tail1, "%Y", y);
    Regroup(p1, y, p2, "%d", p3, "%f", p4);
    DayTailInert(p3, p4);
    ReplaceSoleOccurrence(p1 + y + p2, tail2, "%d", d);
    Regroup(p1, y, p2, d, p3, "%f", p4);
  }

  /** A template that holds each placeholder once, in the order `%Y`, `%d`, `%f`, with no
      other `'%'`, becomes the year, the unpadded day and the trimmed fraction text in
      place of the placeholders, and nothing else changes. */
  lemma FormatEachPlaceholderOnce(dt: DecimalTime, template: string, p1: string, p2: string, p3: string, p4: string, fractionText: string)
    requires '%' !in p1 && '%' !in p2 && '%' !in p3 && '%' !in p4
    requires template == p1 + "%Y" + p2 + "%d" + p3 + "%f" + p4
    ensures Format(dt, template, fractionText)
         == p1 + IntToString(dt.year) + p2 + NatToString(dt.dayOfYear) + p3 + TrimLeadingZeros(fractionText) + p4
  {
    var pre := p1 + IntToString(dt.year) + p2 + NatToString(dt.dayOfYear) + p3;
    YearAndDayOnce(dt, template, p1, p2, p3, p4);
    NumbersArePercentFree(dt.year, dt.dayOfYear);
    PercentFreeInert(p4, "%f");
    ReplaceSoleOccurrence(pre, p4, "%f", TrimLeadingZeros(fractionText));
  }

  /** Empty pieces of a concatenation can be dropped. */
  lemma DropEmptyPieces(y: string, d: string, f: string)
    ensures "" + y + "." + d + "" + f + "" == y + "." + d + f
  {
    assert "" + y == y;
    assert y + "." + d + "" == y + "." + d;
    assert y + "." + d + f + "" == y + "." + d + f;
  }

  /** The template the command-line program prints with. */
  const CommandLineTemplate := "%Y.%d%f"

  /** The command-line template `%Y.%d%f`: year, a dot, the unpadded day, then the
      fraction text with its leading zeros trimmed. */
  lemma FormatCommandLineTemplate(dt: DecimalTime, fractionText: string)
    ensures Format(dt, CommandLineTemplate, fractionText)
         == IntToString(dt.year) + "." + NatToString(dt.dayOfYear) + TrimLeadingZeros(fractionText)
  {
    FormatEachPlaceholderOnce(dt, CommandLineTemplate, "", ".", "", "", fractionText);
    DropEmptyPieces(IntToString(dt.year), NatToString(dt.dayOfYear), TrimLeadingZeros(fractionText));
  }

  lemma RenderExampleNumbers()
    ensures IntToString(2025) == "2025" && NatToString(5) == "5" && NatToString(100) == "100"
    ensures TrimLeadingZeros("0.5") == ".5"
  {
    assert NatToString(2) == "2";
    assert NatToString(20) == "20";
    assert NatToString(202) == "202";
    assert NatToString(1) == "1";
    assert NatToString(10) == "10";
    assert "0.5"[1..] == ".5";
  }

  /** `FormatEachPlaceholderOnce` for a template ending in `%f`, with the rendered
      pieces and the expected output named. */
  lemma FormatExampleShape(dt: DecimalTime, template: string, p1: string, p2: string, p3: string, fractionText: string,
                           y: string, d: string, f: string, expected: string)
    requires '%' !in p1 && '%' !in p2 && '%' !in p3
    requires template == p1 + "%Y" + p2 + "%d" + p3 + "%f"
    requires y == IntToString(dt.year) && d == NatToString(dt.dayOfYear) && f == TrimLeadingZeros(fractionText)
    requires expected == p1 + y + p2 + d + p3 + f
    ensures Format(dt, template, fractionText) == expected
  {
    assert template == p1 + "%Y" + p2 + "%d" + p3 + "%f" + "";
    FormatEachPlaceholderOnce(dt, template, p1, p2, p3, "", fractionText);
    assert p1 + y + p2 + d + p3 + f + "" == expected;
  }

  /** The pieces of the two example templates and outputs. */
  lemma ExamplePieces()
    ensures '%' !in "Date => " && '%' !in "-" && '%' !in " frac:"
    ensures "Date => %Y-%d frac:%f" == "Date => " + "%Y" + "-" + "%d" + " frac:" + "%f"
    ensures "Date => 2025-5 frac:.5" == "Date => " + "2025" + "-" + "5" + " frac:" + ".5"
    ensures '%' !in "Year=" && '%' !in " Day=" && '%' !in " Fraction="
    ensures "Year=%Y Day=%d Fraction=%f" == "Year=" + "%Y" + " Day=" + "%d" + " Fraction=" + "%f"
    ensures "Year=2025 Day=100 Fraction=.5" == "Year=" + "2025" + " Day=" + "100" + " Fraction=" + ".5"
  {
  }

  /** The library's own formatting example: the day is not padded and the fraction's
      text "0.5" loses its leading zero. */
  lemma FormatLibraryExample()
    ensures Format(DecimalTime(2025, 5, 0.5), "Date => %Y-%d frac:%f", "0.5") == "Date => 2025-5 frac:.5"
  {
    RenderExampleNumbers();
    ExamplePieces();
    FormatExampleShape(DecimalTime(2025, 5, 0.5), "Date => %Y-%d frac:%f", "Date => ", "-", " frac:", "0.5",
                       "2025", "5", ".5", "Date => 2025-5 frac:.5");
  }

  /** The template of the documentation comment on `format`: with the fraction text
      "0.5" the output holds ".5", not the "0.5" the comment shows, and the day 100 is
      printed as it is. */
  lemma FormatDocumentedTemplate()
    ensures Format(DecimalTime(2025, 100, 0.5), "Year=%Y Day=%d Fraction=%f", "0.5") == "Year=2025 Day=100 Fraction=.5"
  {
    RenderExampleNumbers();
    ExamplePieces();
    FormatExampleShape(DecimalTime(2025, 100, 0.5), "Year=%Y Day=%d Fraction=%f", "Year=", " Day=", " Fraction=", "0.5",
                       "2025", "100", ".5", "Year=2025 Day=100 Fraction=.5");
  }
}
