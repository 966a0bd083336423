/**
 * The decisions of one signup cycle that do not depend on the browser
 * itself: the user agent, the fallback chains of element lookups, the
 * bounded wait for the code input, the choice of the verify button, the
 * bounded wait for the final URL and its verdict, and saving the account.
 *
 * Element lookups are `Option` values (`None` when the page has no such
 * element), button texts are strings, and the URLs the page shows are the
 * sequence of values `page.url` gives on successive reads.
 */
module SignupDriver {
  import opened Chars
  import opened Ledger

  // ---------------------------------------------------------------------------
  // User agent

  const ChromeVersions: seq<string> := ["120.0.0.0", "121.0.0.0", "122.0.0.0", "123.0.0.0", "124.0.0.0"]

  const UaPrefix: string := "Mozilla/5.0 (Windows NT 10.0; Win64; x64) AppleWebKit/537.36 (KHTML, like Gecko) Chrome/"

  const UaSuffix: string := " Safari/537.36"

  function UserAgent(version: string): string
  {
    UaPrefix + version + UaSuffix
  }

  /** `get_random_ua`, with the index `random.choice` draws as a parameter. */
  function RandomUserAgent(choice: nat): (ua: string)
    requires choice < |ChromeVersions|
    ensures VersionOf(ua) == Some(ChromeVersions[choice])
  {
    UserAgentNamesVersion(ChromeVersions[choice]);
    UserAgent(ChromeVersions[choice])
  }

  /** The Chrome version a user agent of this shape names. */
  function VersionOf(ua: string): Option<string>
  {
    if |UaPrefix| + |UaSuffix| <= |ua| && ua[..|UaPrefix|] == UaPrefix && ua[|ua| - |UaSuffix|..] == UaSuffix
    then Some(ua[|UaPrefix|..|ua| - |UaSuffix|])
    else None
  }

  /** A user agent names the version it was built from. */
  lemma UserAgentNamesVersion(version: string)
    ensures VersionOf(UserAgent(version)) == Some(version)
  {
    var ua := UserAgent(version);
    assert ua[..|UaPrefix|] == UaPrefix;
    assert ua[|ua| - |UaSuffix|..] == UaSuffix;
    assert ua[|UaPrefix|..|ua| - |UaSuffix|] == version;
  }

  /** Different draws give different user agents. */
  lemma RandomUserAgentsDiffer(i: nat, j: nat)
    requires i < |ChromeVersions| && j < |ChromeVersions|
    ensures i != j ==> RandomUserAgent(i) != RandomUserAgent(j)
  {
  }

  // ---------------------------------------------------------------------------
  // Fallback chains of lookups (`a or b or c`)

  /** The first lookup that found an element. */
  function FirstFound<E>(lookups: seq<Option<E>>): (r: Option<E>)
    ensures r.None? <==> forall i :: 0 <= i < |lookups| ==> lookups[i].None?
  {
    if lookups == [] then None
    else if lookups[0].Some? then lookups[0]
    else FirstFound(lookups[1..])
  }

  /** The chain yields the first element found. */
  lemma {:induction false} FirstFoundIsFirst<E>(lookups: seq<Option<E>>)
    ensures FirstFound(lookups).Some? ==> exists i :: 0 <= i < |lookups| && lookups[i] == FirstFound(lookups) && forall j :: 0 <= j < i ==> lookups[j].None?
  {
    if lookups != [] && lookups[0].None? {
      var rest := lookups[1..];
      FirstFoundIsFirst(rest);
      if FirstFound(rest).Some? {
        var i :| 0 <= i < |rest| && rest[i] == FirstFound(rest) && forall j :: 0 <= j < i ==> rest[j].None?;
        assert lookups[i + 1] == rest[i];
        assert forall j :: 1 <= j < i + 1 ==> lookups[j] == rest[j - 1];
      }
      assert forall i :: 1 <= i < |lookups| ==> lookups[i] == rest[i - 1];
    }
  }

  // ---------------------------------------------------------------------------
  // Waiting for the code input

  const CodeInputTries: nat := 10

  /**
   * The retry loop for the code input: each attempt runs the lookup chain
   * `attempts[i]`, and the loop stops at the first attempt that finds the
   * input, after at most ten attempts. `tries` is the number of attempts made.
   */
  method AwaitCodeInput<E>(attempts: seq<seq<Option<E>>>) returns (input: Option<E>, tries: nat)
    requires |attempts| >= CodeInputTries
    ensures 1 <= tries <= CodeInputTries
    ensures input == FirstFound(attempts[tries - 1])
    ensures forall j :: 0 <= j < tries - 1 ==> FirstFound(attempts[j]).None?
    ensures input.None? ==> tries == CodeInputTries
  {
    tries := 0;
    input := None;
    while tries < CodeInputTries
      invariant 0 <= tries <= CodeInputTries
      invariant forall j :: 0 <= j < tries ==> FirstFound(attempts[j]).None?
      invariant input.None?
    {
      var found := FirstFound(attempts[tries]);
      tries := tries + 1;
      if found.Some? {
        return found, tries;
      }
    }
  }

  // ---------------------------------------------------------------------------
  // The verify button

  /** `btn.text.strip() if btn.text else ""`. */
  function ButtonLabel(text: Option<string>): (s: string)
    ensures !Truthy(text) ==> s == ""
    ensures Truthy(text) ==> (s == "" <==> forall k :: 0 <= k < |text.value| ==> IsSpace(text.value[k]))
    ensures s != "" ==> !IsSpace(s[0]) && !IsSpace(s[|s| - 1])
    ensures Truthy(text) ==> IsTrimOf(text.value, s)
  {
    if Truthy(text) then StripEmpty(text.value); Strip(text.value) else ""
  }

  /** A label that is not empty and offers no resending; `resend` is refused in any mix of cases. */
  predicate IsVerifyLabel(s: string)
    ensures IsVerifyLabel(s) ==> s != "" && NoResendInAnyCase(s)
  {
    ResendInAnyCase(s);
    s != "" && !Contains(s, "重新") && !Contains(s, "发送") && !Contains(Lower(s), "resend")
  }

  /** No six-character stretch of `s` lower-cases to `resend`. */
  ghost predicate NoResendInAnyCase(s: string)
  {
    forall i, j :: 0 <= i <= j <= |s| && j == i + 6 ==> Lower(s[i..j]) != "resend"
  }

  /** A stretch of the label that lower-cases to `resend` is an occurrence of `resend` in the lower-cased label. */
  lemma ResendInAnyCase(s: string)
    ensures forall i, j :: 0 <= i <= j <= |s| && j == i + 6 && Lower(s[i..j]) == "resend" ==> Contains(Lower(s), "resend")
  {
    forall i, j | 0 <= i <= j <= |s| && j == i + 6 && Lower(s[i..j]) == "resend"
      ensures Contains(Lower(s), "resend")
    {
      assert Lower(s)[i..j] == Lower(s[i..j]);
      assert OccursAt(Lower(s), "resend", i);
    }
  }

  /**
   * Whether a raw button text qualifies, stated on the text before stripping:
   * it has a non-space character and none of the resend markers, since
   * stripping removes only whitespace and the markers have none.
   */
  lemma VerifyLabelOfRawText(t: string)
    ensures IsVerifyLabel(Strip(t)) <==>
      (exists k :: 0 <= k < |t| && !IsSpace(t[k])) && !Contains(t, "重新") && !Contains(t, "发送") && !Contains(Lower(t), "resend")
  {
    var r := Strip(t);
    MarkersHaveNoSpace();
    assert r == "" <==> forall k :: 0 <= k < |t| ==> IsSpace(t[k]) by { StripEmpty(t); }
    assert Contains(r, "重新") <==> Contains(t, "重新") by { StripKeepsMarker(t, "重新"); }
    assert Contains(r, "发送") <==> Contains(t, "发送") by { StripKeepsMarker(t, "发送"); }
    assert Contains(Lower(r), "resend") <==> Contains(Lower(t), "resend") by {
      LowerStrip(t);
      StripKeepsMarker(Lower(t), "resend");
    }
    LabelOfText(r, t);
  }

  /** The markers the label test looks for contain no whitespace. */
  lemma MarkersHaveNoSpace()
    ensures forall k :: 0 <= k < |"resend"| ==> !IsSpace("resend"[k])
    ensures forall k :: 0 <= k < |"重新"| ==> !IsSpace("重新"[k])
    ensures forall k :: 0 <= k < |"发送"| ==> !IsSpace("发送"[k])
  {
    var r := "resend";
    assert r[0] == 'r' && r[1] == 'e' && r[2] == 's' && r[3] == 'e' && r[4] == 'n' && r[5] == 'd';
    var a := "重新";
    assert a[0] == '重' && a[1] == '新';
    var b := "发送";
    assert b[0] == '发' && b[1] == '送';
  }

  /** The label test, given a label that is empty and holds each marker exactly when the text does. */
  lemma LabelOfText(r: string, t: string)
    requires r == "" <==> forall k :: 0 <= k < |t| ==> IsSpace(t[k])
    requires Contains(r, "重新") <==> Contains(t, "重新")
    requires Contains(r, "发送") <==> Contains(t, "发送")
    requires Contains(Lower(r), "resend") <==> Contains(Lower(t), "resend")
    ensures IsVerifyLabel(r) <==>
      (exists k :: 0 <= k < |t| && !IsSpace(t[k])) && !Contains(t, "重新") && !Contains(t, "发送") && !Contains(Lower(t), "resend")
  {
  }

  /**
   * The loop over the page's buttons: the index of the first whose label
   * qualifies, or nothing, in which case Enter is sent instead.
   */
  method ChooseVerifyButton(texts: seq<Option<string>>) returns (choice: Option<nat>)
    ensures choice.Some? ==> choice.value < |texts| && IsVerifyLabel(ButtonLabel(texts[choice.value]))
    ensures choice.Some? ==> forall j :: 0 <= j < choice.value ==> !IsVerifyLabel(ButtonLabel(texts[j]))
    ensures choice.None? <==> forall j :: 0 <= j < |texts| ==> !IsVerifyLabel(ButtonLabel(texts[j]))
  {
    var i := 0;
    while i < |texts|
      invariant 0 <= i <= |texts|
      invariant forall j :: 0 <= j < i ==> !IsVerifyLabel(ButtonLabel(texts[j]))
    {
      var shown := ButtonLabel(texts[i]);
      if IsVerifyLabel(shown) {
        return Some(i);
      }
      assert forall j :: 0 <= j < i + 1 ==> !IsVerifyLabel(ButtonLabel(texts[j])) by {
        forall j | 0 <= j < i + 1
          ensures !IsVerifyLabel(ButtonLabel(texts[j]))
        {
          if j == i { assert ButtonLabel(texts[j]) == shown; }
        }
      }
      i := i + 1;
    }
    return None;
  }

  // ---------------------------------------------------------------------------
  // The final URL

  const SuccessMarkers: seq<string> := ["home", "admin", "setup", "create", "dashboard"]

  const FailureMarkers: seq<string> := ["verify", "oob", "error"]

  const OutcomeWaitRounds: nat := 5

  datatype Outcome = Success | Failure

  /** The verdict on a URL: the failure markers alone decide it. */
  function Classify(url: string): (o: Outcome)
    ensures o == Failure <==> ContainsAny(url, FailureMarkers)
  {
    if ContainsAny(url, FailureMarkers) then Failure else Success
  }

  /** A URL with a success marker and a failure marker is a failure. */
  lemma ExampleFailureWins()
    ensures ContainsAny("/admin/error", SuccessMarkers)
    ensures Classify("/admin/error") == Failure
  {
    var url := "/admin/error";
    assert OccursAt(url, SuccessMarkers[1], 1);
    assert OccursAt(url, FailureMarkers[2], 7);
  }

  /** How many reads of the URL the wait makes: up to the first URL with a success marker, at most five. */
  function WaitReads(urls: seq<string>, i: nat): (n: nat)
    requires i < OutcomeWaitRounds <= |urls|
    ensures i < n <= OutcomeWaitRounds
    decreases OutcomeWaitRounds - i
  {
    if ContainsAny(urls[i], SuccessMarkers) || i + 1 == OutcomeWaitRounds then i + 1 else WaitReads(urls, i + 1)
  }

  /** The wait ends at the first URL with a success marker, or after five reads when none has one. */
  lemma {:induction false} WaitReadsStops(urls: seq<string>, i: nat)
    requires i < OutcomeWaitRounds <= |urls|
    ensures forall j :: i <= j < WaitReads(urls, i) - 1 ==> !ContainsAny(urls[j], SuccessMarkers)
    ensures WaitReads(urls, i) < OutcomeWaitRounds ==> ContainsAny(urls[WaitReads(urls, i) - 1], SuccessMarkers)
    decreases OutcomeWaitRounds - i
  {
    if !ContainsAny(urls[i], SuccessMarkers) && i + 1 < OutcomeWaitRounds {
      WaitReadsStops(urls, i + 1);
    }
  }

  /**
   * The wait for the final URL: at most five reads of `page.url`, ending
   * early at a success marker, then one more read that alone decides the
   * verdict. `rounds` counts the reads inside the wait.
   */
  method AwaitOutcome(urls: seq<string>) returns (outcome: Outcome, rounds: nat)
    requires |urls| > OutcomeWaitRounds
    ensures rounds == WaitReads(urls, 0)
    ensures outcome == Classify(urls[rounds])
  {
    rounds := 0;
    while rounds < OutcomeWaitRounds
      invariant 0 <= rounds <= OutcomeWaitRounds
      invariant rounds < OutcomeWaitRounds ==> WaitReads(urls, 0) == WaitReads(urls, rounds)
      invariant rounds == OutcomeWaitRounds ==> WaitReads(urls, 0) == OutcomeWaitRounds
    {
      var url := urls[rounds];
      if ContainsAny(url, SuccessMarkers) {
        rounds := rounds + 1;
        break;
      }
      rounds := rounds + 1;
    }
    outcome := Classify(urls[rounds]);
  }

  /**
   * The end of a cycle: the account is saved to the ledger exactly when the
   * verdict is a success, and the ledger is otherwise left alone.
   */
  method FinishCycle(ledger: CsvLedger, urls: seq<string>, email: string, password: string, date: string) returns (outcome: Outcome)
    requires |urls| > OutcomeWaitRounds
    modifies ledger
    ensures outcome == Classify(urls[WaitReads(urls, 0)])
    ensures outcome == Success ==> ledger.rows == Saved(old(ledger.present), old(ledger.rows), email, password, date) && ledger.present
    ensures outcome == Failure ==> ledger.rows == old(ledger.rows) && ledger.present == old(ledger.present)
  {
    var rounds;
    outcome, rounds := AwaitOutcome(urls);
    if outcome == Success {
      var id := ledger.SaveAccount(email, password, date);
    }
  }
}
