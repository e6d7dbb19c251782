/**
 Page-to-page navigation of the multi-step service forms. Every page of a
 service is named `<service>-<step>.html`, the home page is `index.html`,
 and a form names the page that follows it by a "next step" token. A
 navigation is modelled by the address it would assign to
 `window.location.href`.
 */
module Navigation {
  import opened Wrappers
  import opened JsText
  import opened JsNumber
  import opened Notifications

  const HomePage: string := "index.html"
  const PageSuffix: string := ".html"

  /** The services the home page can open directly */
  const KnownServices: set<string> :=
    {"license-renewal", "subsidy-application", "seniors-card", "consumer-complaints"}

  function GoHome(): string {
    HomePage
  }

  /** The page for step `step` of `service`. The step is rendered the way a
      template literal renders a number, so NaN gives `<service>-NaN.html`. */
  function GoToNextStep(service: string, step: Num): string {
    service + "-" + NumberToString(step) + PageSuffix
  }

  /** `navigateTo`: the first page of one of the known services; any other
      name logs an error and goes nowhere. */
  function NavigateTo(service: string): (href: Option<string>)
    ensures href.Some? <==> service in KnownServices
    ensures href.Some? ==> href.value == GoToNextStep(service, Int(1))
  {
    if service == "license-renewal" then Some("license-renewal-1.html")
    else if service == "subsidy-application" then Some("subsidy-application-1.html")
    else if service == "seniors-card" then Some("seniors-card-1.html")
    else if service == "consumer-complaints" then Some("consumer-complaints-1.html")
    else None
  }

  /** `goToPreviousStep`: step 1 goes back to the home page, any other step
      to the page one step earlier. */
  function GoToPreviousStep(service: string, step: Num): (href: string)
    ensures step == Int(1) ==> href == GoHome()
    ensures step != Int(1) ==> href == GoToNextStep(service, Decrement(step))
  {
    if step == Int(1) then GoHome()
    else service + "-" + NumberToString(Decrement(step)) + PageSuffix
  }

  /** Different steps of one service are different pages. */
  lemma NextStepInjective(service: string, a: Num, b: Num)
    requires GoToNextStep(service, a) == GoToNextStep(service, b)
    ensures a == b
  {
    var ha := GoToNextStep(service, a);
    var hb := GoToNextStep(service, b);
    var n := |service| + 1;
    assert ha[n..|ha| - |PageSuffix|] == NumberToString(a);
    assert hb[n..|hb| - |PageSuffix|] == NumberToString(b);
    NumberToStringInjective(a, b);
  }

  /** Going back from any step from 1 upwards never lands on a step page
      numbered 0 or below: step 1 goes home instead. */
  lemma PreviousNeverStepZero(service: string, n: int, m: int)
    requires n >= 1 && m <= 0
    ensures GoToPreviousStep(service, Int(n)) != GoToNextStep(service, Int(m))
  {
    var page := GoToNextStep(service, Int(m));
    if n == 1 {
      assert page[|service|] == '-';
      assert forall i | 0 <= i < |HomePage| :: HomePage[i] != '-';
    } else if GoToPreviousStep(service, Int(n)) == page {
      NextStepInjective(service, Int(n - 1), Int(m));
      assert false;
    }
  }

  /** Going forward then back returns to the page one started from. */
  lemma PreviousUndoesNext(service: string, n: int)
    requires n >= 1
    ensures GoToPreviousStep(service, Int(n + 1)) == GoToNextStep(service, Int(n))
  {
  }

  /** The address a submitted form moves to, given its `data-next-step`
      token (None when the attribute is absent). A token naming a page is
      used as is; a hyphenated token is split into service and step; a bare
      word gets `.html` appended. No token, or an empty one, means no
      navigation. */
  function ResolveNextStep(nextStep: Option<string>): (href: Option<string>)
    ensures href.None? <==> nextStep.None? || nextStep.value == []
    ensures nextStep.Some? && Includes(nextStep.value, PageSuffix) ==> href == nextStep
    ensures nextStep.Some? && nextStep.value != [] && !Includes(nextStep.value, PageSuffix)
              && '-' !in nextStep.value
            ==> href == Some(nextStep.value + PageSuffix)
  {
    if nextStep.None? || nextStep.value == [] then None
    else
      var token := nextStep.value;
      if Includes(token, PageSuffix) then Some(token)
      else if '-' in token then
        var parts := Split(token, '-');
        if |parts| >= 3 then
          // service-name-step: the last piece is the step, the rest the service
          var step := ParseInt(parts[|parts| - 1]);
          var service := Join(parts[..|parts| - 1], '-');
          Some(GoToNextStep(service, step))
        else
          // service-step
          Some(GoToNextStep(parts[0], ParseInt(parts[1])))
      else Some(token + PageSuffix)
  }

  /** Both hyphen branches do the same thing: the service is everything
      before the last hyphen and the step is `parseInt` of everything after. */
  lemma ResolveAtLastHyphen(token: string)
    requires '-' in token && !Includes(token, PageSuffix)
    ensures var k := LastIndexOf(token, '-');
      ResolveNextStep(Some(token)) == Some(GoToNextStep(token[..k], ParseInt(token[k + 1..])))
  {
    SplitAtLast(token, '-');
    var parts := Split(token, '-');
    if |parts| == 2 {
      assert parts[..1] == [parts[0]];
    }
  }

  lemma PageOfRenderedStep(service: string, rendered: string, step: Num)
    requires NumberToString(step) == rendered
    ensures GoToNextStep(service, step) == service + "-" + rendered + PageSuffix
  {
  }

  /** When the text after the last hyphen is a canonical decimal numeral the
      token comes back unchanged with `.html` appended, because splitting and
      re-joining is the identity. */
  lemma ResolveCanonicalStep(token: string)
    requires '-' in token && !Includes(token, PageSuffix)
    requires CanonicalDecimal(token[LastIndexOf(token, '-') + 1..])
    ensures ResolveNextStep(Some(token)) == Some(token + PageSuffix)
  {
    var k := LastIndexOf(token, '-');
    var digits := token[k + 1..];
    ResolveAtLastHyphen(token);
    NumberToStringOfParseInt(digits);
    PageOfRenderedStep(token[..k], digits, ParseInt(digits));
    SplitAround(token, k);
  }

  /** A step token whose step text has no dot never contains `.html`
      unless its service name does. */
  lemma StepTokenNotPage(service: string, step: string)
    requires !Includes(service, PageSuffix)
    requires '.' !in step
    ensures !Includes(service + "-" + step, PageSuffix)
  {
    NotIncludedInConcat(service, "-" + step, PageSuffix);
    assert service + ("-" + step) == service + "-" + step;
  }

  /** A token without `.html` whose step text has no hyphen is split right
      after the service name. */
  lemma ResolveSimpleStepToken(service: string, step: string, value: Num)
    requires !Includes(service + "-" + step, PageSuffix)
    requires '-' !in step
    requires ParseInt(step) == value
    ensures ResolveNextStep(Some(service + "-" + step)) == Some(GoToNextStep(service, value))
  {
    var token := service + "-" + step;
    LastIndexOfJoined(service, '-', step);
    PiecesOfJoined(service, '-', step);
    ResolveAtLastHyphen(token);
  }

  /** The token of a negative step carries the minus sign as a second hyphen. */
  lemma StepTokenShape(service: string, n: int)
    ensures var m := if n < 0 then -n else n;
      var stem := if n < 0 then service + "-" else service;
      service + "-" + IntToString(n) == stem + "-" + NatToString(m)
  {
  }

  /** The token form of any step page, `<service>-<step>`, resolves to that
      page, for every integer step and every service name that does not
      itself contain `.html` (hyphens in the name are fine). */
  lemma ResolveStepPageToken(service: string, n: int)
    requires !Includes(service, PageSuffix)
    ensures ResolveNextStep(Some(service + "-" + IntToString(n))) == Some(GoToNextStep(service, Int(n)))
  {
    var token := service + "-" + IntToString(n);
    var m: nat := if n < 0 then -n else n;
    var stem := if n < 0 then service + "-" else service;
    var digits := NatToString(m);
    IntToStringChars(n);
    StepTokenNotPage(service, IntToString(n));
    StepTokenShape(service, n);
    IntToStringChars(m);
    LastIndexOfJoined(stem, '-', digits);
    PiecesOfJoined(stem, '-', digits);
    ResolveAtLastHyphen(token);
    ParseIntOfIntToString(m);
    PageOfRenderedStep(stem, digits, Int(m));
    PageOfRenderedStep(service, IntToString(n), Int(n));
  }

  /** A step that is not a number is not rejected: whatever follows the last
      hyphen, if it cannot start a number, the page is `<service>-NaN.html`
      (`license-abc` goes to `license-NaN.html`). */
  lemma ResolveNonNumericStep(service: string, step: string)
    requires !Includes(service + "-" + step, PageSuffix)
    requires '-' !in step && |step| >= 1
    requires !IsWhitespace(step[0]) && step[0] != '+' && !IsDigit(step[0], 10)
    ensures ResolveNextStep(Some(service + "-" + step)) == Some(service + "-NaN" + PageSuffix)
  {
    ParseIntNaN(step);
    ResolveSimpleStepToken(service, step, NaN);
    PageOfRenderedStep(service, "NaN", NaN);
    assert service + "-" + "NaN" + PageSuffix == service + "-NaN" + PageSuffix;
  }

  /** A leading zero in the step is dropped on the way through `parseInt`:
      `<service>-0<digits>` goes to the page `<service>-<digits>.html` for a
      canonical numeral (`x-02` goes to `x-2.html`). */
  lemma ResolveLeadingZeroStep(service: string, digits: string)
    requires !Includes(service, PageSuffix)
    requires CanonicalDecimal(digits)
    ensures ResolveNextStep(Some(service + "-0" + digits)) == Some(service + "-" + digits + PageSuffix)
  {
    var step := "0" + digits;
    assert '-' !in step && '.' !in step by {
      forall j | 0 <= j < |step| ensures '0' <= step[j] <= '9' {
        if j > 0 {
          assert step[j] == digits[j - 1];
          DecimalDigitIsPlain(digits[j - 1]);
        }
      }
    }
    ParseIntLeadingZero(digits);
    NumberToStringOfParseInt(digits);
    StepTokenNotPage(service, step);
    ResolveSimpleStepToken(service, step, ParseInt(digits));
    PageOfRenderedStep(service, digits, ParseInt(digits));
    assert service + "-0" + digits == service + "-" + step;
  }

  /** A token naming a page is used verbatim even when it also has hyphens,
      and a bare word gets `.html` appended. */
  lemma ResolvePageAndWordExamples(page: string, word: string)
    requires page == "a-b.html" && word == "done"
    ensures ResolveNextStep(Some(page)) == Some("a-b.html")
    ensures ResolveNextStep(Some(word)) == Some("done.html")
  {
    assert OccursAt(page, PageSuffix, 3);
    NotIncludedWithoutFirst(word, PageSuffix);
    assert '-' !in word;
    assert word + PageSuffix == "done.html";
  }

  /** What a submitted form does once its simulated delay has passed:
      navigate to the resolved address, or, with no next step, show a
      success message. */
  datatype SubmitEffect = Navigate(href: string) | Notify(note: Notification)

  function AfterSubmit(nextStep: Option<string>): (e: SubmitEffect)
    ensures e.Notify? <==> nextStep.None? || nextStep.value == []
    ensures e.Notify? ==> e.note == Notification("Form submitted successfully", Success)
    ensures e.Navigate? ==> ResolveNextStep(nextStep) == Some(e.href)
  {
    match ResolveNextStep(nextStep)
    case Some(href) => Navigate(href)
    case None => Notify(Notification("Form submitted successfully", Success))
  }
}
