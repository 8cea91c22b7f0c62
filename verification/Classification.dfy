/** Evidence-bound classification: request extraction, the model merge, validation and the fallback. */
module Classification {
  import opened Wrappers
  import opened Text

  datatype EmailType =
    | MissingInformationRequest | RenewalNotice | BondCorrespondence | AnnualReportOrAssessment | InvoiceOrFee
    | SubmissionConfirmation | LicenseOrProofReceived | RegulatorCorrespondence | InternalFollowup | GeneralCorrespondence

  datatype Category = ContactInformation | SupportingDocument | OtherCategory(name: string)

  datatype RequestedInformation = RequestedInformation(item: string, category: Category, required: bool, evidenceQuote: string)

  datatype Document = Document(filename: string, documentType: string)

  datatype Output = Output(
    vendor: Option<string>, emailType: EmailType, states: seq<string>, licenseTypes: seq<string>, licenseNumbers: seq<string>,
    actionRequired: bool, requests: seq<RequestedInformation>, documents: seq<Document>, dueDate: Option<int>,
    summary: string, proposedAction: string, destination: string, confidence: real, requiresHumanReview: bool,
    reviewReasons: seq<string>)

  /** The regular expressions of the request rules, as the predicates and captures they compute. */
  datatype Patterns = Patterns(
    intro: string -> bool, deadline: string -> bool, explicit: string -> Option<string>, category: string -> Category)

  /** What the other extractors found; only their results matter here. */
  datatype Signals = Signals(
    vendor: Option<string>, emailType: bool -> EmailType, states: seq<string>, licenseTypes: seq<string>,
    licenseNumbers: seq<string>, dueDate: Option<int>, summary: string, confidence: real)

  // ------------------------------------------------------------------------------------- destinations

  function DestinationOf(t: EmailType): string {
    match t
    case MissingInformationRequest => "08_Info_Required"
    case BondCorrespondence => "03_Cornerstone_Bonds"
    case InvoiceOrFee => "06_Invoices"
    case SubmissionConfirmation => "07_Proof_Received"
    case LicenseOrProofReceived => "07_Proof_Received"
    case RegulatorCorrespondence => "05_Regulators"
    case InternalFollowup => "09_Internal_Followups"
    case _ => "09_Internal_Followups"
  }

  const VALID_DESTINATIONS: set<string> := {
    "08_Info_Required", "03_Cornerstone_Bonds", "06_Invoices", "07_Proof_Received", "05_Regulators",
    "09_Internal_Followups", "02_RASI", "04_NMLS"}

  function Route(t: EmailType, vendor: Option<string>): string {
    if vendor == Some("NMLS") then "04_NMLS"
    else if vendor == Some("RASI") && t == RenewalNotice then "02_RASI"
    else DestinationOf(t)
  }

  /** Where each vendor's and each type's messages go. */
  lemma RouteExactly(t: EmailType, vendor: Option<string>)
    ensures Route(t, vendor) == "04_NMLS" <==> vendor == Some("NMLS")
    ensures Route(t, vendor) == "02_RASI" <==> vendor == Some("RASI") && t == RenewalNotice
    ensures vendor != Some("NMLS") && !(vendor == Some("RASI") && t == RenewalNotice) ==> RoutesByType(t, Route(t, vendor))
  {
    DestinationsByType(t);
    DestinationsDiffer(t);
  }

  predicate RoutesByType(t: EmailType, route: string) {
    && (t == MissingInformationRequest ==> route == "08_Info_Required")
    && (t == BondCorrespondence ==> route == "03_Cornerstone_Bonds")
    && (t == InvoiceOrFee ==> route == "06_Invoices")
    && (t in {SubmissionConfirmation, LicenseOrProofReceived} ==> route == "07_Proof_Received")
    && (t == RegulatorCorrespondence ==> route == "05_Regulators")
    && (t in {InternalFollowup, RenewalNotice, AnnualReportOrAssessment, GeneralCorrespondence} ==> route == "09_Internal_Followups")
  }

  lemma DestinationsByType(t: EmailType)
    ensures RoutesByType(t, DestinationOf(t))
  {
  }

  lemma DestinationsDiffer(t: EmailType)
    ensures DestinationOf(t) != "04_NMLS" && DestinationOf(t) != "02_RASI"
  {
    assert "04_NMLS"[1] == '4' && "02_RASI"[1] == '2' && |DestinationOf(t)| > 1;
    assert DestinationOf(t)[1] != '4' && DestinationOf(t)[1] != '2';
  }

  lemma RouteIsConfigured(t: EmailType, vendor: Option<string>)
    ensures Route(t, vendor) in VALID_DESTINATIONS
  {
  }

  // ----------------------------------------------------------------------------- extracting requests

  const QUOTE_LIMIT: nat := 1000
  const ITEM_LIMIT: nat := 500

  predicate LineNoise(ch: char) {
    ch in {' ', '\t', '-', '*', '\U{2022}'}
  }

  predicate Bullet(ch: char) {
    ch in {'-', '*', '\U{2022}'}
  }

  predicate FullStop(ch: char) {
    ch == '.'
  }

  predicate Closing(folded: string) {
    folded == "thank you" || folded == "thanks" || folded == "sincerely" || folded == "regards"
  }

  /** What one line of the body comes to. */
  datatype LineResult = Skipped | Extracted(request: RequestedInformation) | Rejected

  /** Not a request: an introduction, a deadline, a closing, or neither a recognised phrase nor a bullet. */
  predicate PassedOver(c: Charset, p: Patterns, raw: string, line: string) {
    var start := StripLeft(c.space, raw);
    || p.intro(line) || p.deadline(line) || Closing(Casefold(c, line))
    || (p.explicit(line).None? && !(start != "" && Bullet(start[0]) && |Words(c, line)| >= 2))
  }

  function Item(c: Charset, p: Patterns, line: string): string {
    StripRight(FullStop, Strip(c.space, if p.explicit(line).Some? then p.explicit(line).value else line))
  }

  function ReadLine(c: Charset, p: Patterns, raw: string): LineResult {
    ReadStripped(c, p, raw, Strip(LineNoise, raw))
  }

  function ReadStripped(c: Charset, p: Patterns, raw: string, line: string): LineResult {
    JudgeLine(PassedOver(c, p, raw, line), p, Item(c, p, line), line)
  }

  function JudgeLine(passed: bool, p: Patterns, item: string, line: string): LineResult {
    if |line| < 4 || passed then Skipped else MakeRequest(p, item, line)
  }

  /** The schema refuses an item of fewer than two characters. */
  function MakeRequest(p: Patterns, item: string, line: string): (r: LineResult)
    requires |line| >= 4
    ensures r.Rejected? || (r.Extracted? && SchemaRequest(r.request))
    ensures r.Extracted? ==> r.request.evidenceQuote == Truncate(line, QUOTE_LIMIT) && |r.request.evidenceQuote| >= 4
  {
    var shown := Truncate(item, ITEM_LIMIT);
    if |shown| < 2 then Rejected
    else Extracted(RequestedInformation(shown, p.category(item), true, Truncate(line, QUOTE_LIMIT)))
  }

  /** The lengths the schema asks of a request. */
  predicate SchemaRequest(r: RequestedInformation) {
    2 <= |r.item| <= ITEM_LIMIT && 2 <= |r.evidenceQuote| <= QUOTE_LIMIT
  }

  type Reader = string -> LineResult

  function LineReader(c: Charset, p: Patterns): Reader {
    raw => ReadLine(c, p, raw)
  }

  /** The requests of these lines, or nothing if the schema refuses one. */
  function Collect(read: Reader, lines: seq<string>): Option<seq<RequestedInformation>> {
    if lines == [] then Some([])
    else
      var before := Collect(read, lines[..|lines| - 1]);
      if before.None? then None
      else
        match read(lines[|lines| - 1])
        case Skipped => before
        case Extracted(r) => Some(before.value + [r])
        case Rejected => None
  }

  function Requests(c: Charset, p: Patterns, body: string): Option<seq<RequestedInformation>> {
    Collect(LineReader(c, p), SplitLines(c, body))
  }

  lemma {:induction false} RejectionPersists(read: Reader, lines: seq<string>, k: nat)
    requires k <= |lines| && Collect(read, lines[..k]).None?
    ensures Collect(read, lines).None?
    decreases |lines|
  {
    if k < |lines| {
      assert lines[..|lines| - 1][..k] == lines[..k];
      RejectionPersists(read, lines[..|lines| - 1], k);
    } else {
      assert lines[..k] == lines;
    }
  }

  /** Nothing is collected exactly when the schema refuses some line's request. */
  lemma {:induction false} CollectFailsExactly(read: Reader, lines: seq<string>)
    ensures Collect(read, lines).None? <==> exists l :: l in lines && read(l).Rejected?
  {
    if lines != [] {
      var last := lines[|lines| - 1];
      CollectFailsExactly(read, lines[..|lines| - 1]);
      assert forall l :: l in lines <==> l == last || l in lines[..|lines| - 1];
    }
  }

  /** The line asks for something whose name, stripped, is shorter than the schema allows. */
  predicate AsksTooBriefly(c: Charset, p: Patterns, raw: string) {
    AsksBriefly(c, p, raw, Strip(LineNoise, raw))
  }

  predicate AsksBriefly(c: Charset, p: Patterns, raw: string, line: string) {
    IsBrief(PassedOver(c, p, raw, line), Item(c, p, line), line)
  }

  predicate IsBrief(passed: bool, item: string, line: string) {
    |line| >= 4 && !passed && |item| < 2
  }

  lemma RejectsExactly(c: Charset, p: Patterns, raw: string)
    ensures ReadLine(c, p, raw).Rejected? <==> AsksTooBriefly(c, p, raw)
  {
    StrippedRejects(c, p, raw, Strip(LineNoise, raw));
  }

  lemma StrippedRejects(c: Charset, p: Patterns, raw: string, line: string)
    ensures ReadStripped(c, p, raw, line).Rejected? <==> AsksBriefly(c, p, raw, line)
  {
    JudgeRejects(PassedOver(c, p, raw, line), p, Item(c, p, line), line);
  }

  lemma JudgeRejects(passed: bool, p: Patterns, item: string, line: string)
    ensures JudgeLine(passed, p, item, line).Rejected? <==> IsBrief(passed, item, line)
  {
  }

  /** The extraction of a whole message fails exactly when one of its lines asks too briefly. */
  ghost predicate SomeLineTooBrief(c: Charset, p: Patterns, body: string) {
    exists l :: l in SplitLines(c, body) && AsksTooBriefly(c, p, l)
  }

  lemma RequestsFailExactly(c: Charset, p: Patterns, body: string)
    ensures Requests(c, p, body).None? <==> SomeLineTooBrief(c, p, body)
  {
    CollectFailsExactly(LineReader(c, p), SplitLines(c, body));
    forall l ensures LineReader(c, p)(l).Rejected? <==> AsksTooBriefly(c, p, l) {
      RejectsExactly(c, p, l);
    }
  }

  /** A one-line message that the patterns read as a request for `item`. */
  ghost predicate ReadsAsRequest(c: Charset, p: Patterns, line: string, item: string) {
    && |line| >= 4 && !LineNoise(line[0]) && !LineNoise(line[|line| - 1])
    && (forall i :: 0 <= i < |line| ==> !c.lineBreak(line[i]))
    && !p.intro(line) && !p.deadline(line) && !Closing(Casefold(c, line)) && p.explicit(line) == Some(item)
  }

  /** No such message can be classified when the item has fewer than two characters. */
  lemma BriefRequestFails(c: Charset, p: Patterns, line: string, item: string)
    requires ReadsAsRequest(c, p, line, item) && |item| < 2
    ensures AsksTooBriefly(c, p, line) && Requests(c, p, line).None?
  {
    OneLine(c, line);
    NothingToStrip(LineNoise, line);
    StripShortens(c.space, item);
    ItemIsBrief(c, p, line);
    NotPassedOver(c, p, line, line);
    assert line in SplitLines(c, line);
    RequestsFailExactly(c, p, line);
  }

  lemma ItemIsBrief(c: Charset, p: Patterns, line: string)
    requires p.explicit(line).Some? && |Strip(c.space, p.explicit(line).value)| < 2
    ensures |Item(c, p, line)| < 2
  {
  }

  lemma NotPassedOver(c: Charset, p: Patterns, raw: string, line: string)
    requires !p.intro(line) && !p.deadline(line) && !Closing(Casefold(c, line)) && p.explicit(line).Some?
    ensures !PassedOver(c, p, raw, line)
  {
  }

  /** "Send X." is one, for patterns that read it as a request for "X" and nothing else. */
  lemma SendXAsksTooBriefly(c: Charset, p: Patterns, line: string)
    requires line == "Send X." && p.explicit(line) == Some("X") && !p.intro(line) && !p.deadline(line)
    requires c.fold('S') == "s" && c.fold('e') == "e" && forall i :: 0 <= i < |line| ==> !c.lineBreak(line[i])
    ensures AsksTooBriefly(c, p, line) && Requests(c, p, line).None?
  {
    SendIsNoClosing(c, line);
    BriefRequestFails(c, p, line, "X");
  }

  lemma SendIsNoClosing(c: Charset, line: string)
    requires |line| >= 2 && line[0] == 'S' && line[1] == 'e' && c.fold('S') == "s" && c.fold('e') == "e"
    ensures !Closing(Casefold(c, line))
  {
    var rest := line[1..];
    assert Casefold(c, line) == c.fold(line[0]) + Casefold(c, rest);
    assert rest[0] == 'e' && Casefold(c, rest) == c.fold(rest[0]) + Casefold(c, rest[1..]);
    StartsSe(Casefold(c, line));
  }

  lemma StartsSe(folded: string)
    requires |folded| >= 2 && folded[0] == 's' && folded[1] == 'e'
    ensures !Closing(folded)
  {
  }

  /** Item `j` is the request of line `from[j]`; these are all the lines with a request, in order. */
  ghost predicate ReadFrom(read: Reader, lines: seq<string>, items: seq<RequestedInformation>, from: seq<nat>) {
    && |from| == |items|
    && (forall j :: 0 <= j < |from| ==> from[j] < |lines| && read(lines[from[j]]) == Extracted(items[j]))
    && (forall i, j :: 0 <= i < j < |from| ==> from[i] < from[j])
    && (forall k :: 0 <= k < |lines| && read(lines[k]).Extracted? ==> k in from)
  }

  lemma SkippedExtends(read: Reader, lines: seq<string>, items: seq<RequestedInformation>, from: seq<nat>, last: string)
    requires ReadFrom(read, lines, items, from) && !read(last).Extracted?
    ensures ReadFrom(read, lines + [last], items, from)
  {
    var more := lines + [last];
    forall k | 0 <= k < |more| && read(more[k]).Extracted? ensures k in from {
      assert k < |lines| && more[k] == lines[k];
    }
  }

  lemma ExtractedExtends(read: Reader, lines: seq<string>, items: seq<RequestedInformation>, from: seq<nat>, last: string)
    requires ReadFrom(read, lines, items, from) && read(last).Extracted?
    ensures ReadFrom(read, lines + [last], items + [read(last).request], from + [|lines|])
  {
    var more, all := lines + [last], from + [|lines|];
    forall k | 0 <= k < |more| && read(more[k]).Extracted? ensures k in all {
      if k < |lines| {
        assert more[k] == lines[k] && k in from;
      } else {
        assert all[|from|] == k;
      }
    }
  }

  /** What is collected, if nothing is refused, is every line's request, each once and in order. */
  lemma {:induction false} CollectsAll(read: Reader, lines: seq<string>) returns (from: seq<nat>)
    requires Collect(read, lines).Some?
    ensures ReadFrom(read, lines, Collect(read, lines).value, from)
  {
    from := [];
    if lines != [] {
      var front, last := lines[..|lines| - 1], lines[|lines| - 1];
      var before := CollectsAll(read, front);
      assert front + [last] == lines;
      if read(last).Extracted? {
        ExtractedExtends(read, front, Collect(read, front).value, before, last);
        from := before + [|front|];
      } else {
        SkippedExtends(read, front, Collect(read, front).value, before, last);
        from := before;
      }
    }
  }

  /** Nothing is collected exactly when a line is refused; otherwise every line's request, in order. */
  method CollectRequests(read: Reader, lines: seq<string>) returns (items: Option<seq<RequestedInformation>>)
    ensures items == Collect(read, lines)
    ensures items.None? <==> exists l :: l in lines && read(l).Rejected?
    ensures items.Some? ==> exists from :: ReadFrom(read, lines, items.value, from)
  {
    CollectFailsExactly(read, lines);
    if Collect(read, lines).Some? {
      var from := CollectsAll(read, lines);
    }
    var found: seq<RequestedInformation> := [];
    for k := 0 to |lines|
      invariant Collect(read, lines[..k]) == Some(found)
    {
      assert lines[..k + 1][..k] == lines[..k];
      var line := read(lines[k]);
      if line.Rejected? {
        RejectionPersists(read, lines, k + 1);
        return None;
      }
      if line.Extracted? {
        found := found + [line.request];
      }
    }
    assert lines[..|lines|] == lines;
    items := Some(found);
  }

  ghost predicate Traceable(c: Charset, message: string, r: RequestedInformation) {
    Contains(Normalized(c, message), Normalized(c, r.evidenceQuote))
  }

  /** A stripped, truncated line of the message is still found in it once both are normalized. */
  lemma LineIsTraceable(c: Charset, p: Patterns, body: string, raw: string)
    requires raw in SplitLines(c, body) && ReadLine(c, p, raw).Extracted?
    ensures Traceable(c, body, ReadLine(c, p, raw).request)
    ensures 4 <= |ReadLine(c, p, raw).request.evidenceQuote| <= QUOTE_LIMIT
  {
    ExtractedQuote(c, p, raw);
    LinesAreInText(c, body, raw);
    QuoteIsInText(c, body, raw);
  }

  function Quote(raw: string): string {
    Truncate(Strip(LineNoise, raw), QUOTE_LIMIT)
  }

  lemma ExtractedQuote(c: Charset, p: Patterns, raw: string)
    requires ReadLine(c, p, raw).Extracted?
    ensures ReadLine(c, p, raw).request.evidenceQuote == Quote(raw)
    ensures 4 <= |ReadLine(c, p, raw).request.evidenceQuote| <= QUOTE_LIMIT
  {
    MadeFrom(p, Item(c, p, Strip(LineNoise, raw)), Strip(LineNoise, raw));
  }

  lemma MadeFrom(p: Patterns, item: string, line: string)
    requires |line| >= 4 && MakeRequest(p, item, line).Extracted?
    ensures MakeRequest(p, item, line).request.evidenceQuote == Truncate(line, QUOTE_LIMIT)
    ensures 4 <= |MakeRequest(p, item, line).request.evidenceQuote| <= QUOTE_LIMIT
  {
  }

  lemma QuoteIsInText(c: Charset, body: string, raw: string)
    requires Contains(body, raw)
    ensures Contains(Normalized(c, body), Normalized(c, Quote(raw)))
  {
    var line := Strip(LineNoise, raw);
    ContainsTransitive(body, raw, line);
    ContainsTransitive(body, line, Truncate(line, QUOTE_LIMIT));
    NormalizedKeepsPieces(c, body, Quote(raw));
  }

  lemma {:induction false} CollectedAreRead(read: Reader, lines: seq<string>, r: RequestedInformation)
    requires Collect(read, lines).Some? && r in Collect(read, lines).value
    ensures exists l :: l in lines && read(l) == Extracted(r)
  {
    var last := lines[|lines| - 1];
    assert last in lines;
    if read(last) != Extracted(r) {
      CollectedAreRead(read, lines[..|lines| - 1], r);
    }
  }

  /** Every request extracted from a message is traceable to it. */
  lemma RequestsAreTraceable(c: Charset, p: Patterns, body: string, r: RequestedInformation)
    requires Requests(c, p, body).Some? && r in Requests(c, p, body).value
    ensures Traceable(c, body, r)
  {
    CollectedAreRead(LineReader(c, p), SplitLines(c, body), r);
    var l :| l in SplitLines(c, body) && LineReader(c, p)(l) == Extracted(r);
    LineIsTraceable(c, p, body, l);
  }

  // ----------------------------------------------------------------------------- the deterministic output

  function DeterministicOutput(s: Signals, requests: seq<RequestedInformation>, attachments: seq<Document>): Output {
    var emailType := s.emailType(requests != []);
    var action := requests != [] || emailType in {MissingInformationRequest, RenewalNotice, BondCorrespondence, InvoiceOrFee};
    Output(s.vendor, emailType, Deduplicate(s.states), s.licenseTypes, s.licenseNumbers, action, requests, attachments, s.dueDate, s.summary,
           if action then "Review the evidence and complete the requested licensing work." else "Review and file the correspondence.",
           Route(emailType, s.vendor), s.confidence, true,
           ["Initial rollout requires review."]
           + if s.confidence < 0.9 then ["Classification confidence is below the review threshold."] else [])
  }

  /** The rules' output carries what the extractors found, field by field. */
  lemma DeterministicFields(s: Signals, requests: seq<RequestedInformation>, attachments: seq<Document>)
    ensures var o := DeterministicOutput(s, requests, attachments);
            && o.vendor == s.vendor && o.emailType == s.emailType(requests != []) && o.requests == requests && o.documents == attachments
            && o.licenseTypes == s.licenseTypes && o.licenseNumbers == s.licenseNumbers && o.dueDate == s.dueDate
            && o.summary == s.summary && o.confidence == s.confidence && o.requiresHumanReview
            && (forall x :: x in o.states <==> x in s.states)
            && (o.actionRequired
                <==> requests != [] || o.emailType in {MissingInformationRequest, RenewalNotice, BondCorrespondence, InvoiceOrFee})
            && o.destination == Route(o.emailType, s.vendor)
            && |o.reviewReasons| == (if s.confidence < 0.9 then 2 else 1)
  {
    DeduplicateKeeps(s.states);
  }

  // ---------------------------------------------------------------------------------------- schema

  const SUMMARY_LIMIT: nat := 1000

  /** What the output schema refuses raises an error; repeated states it merges itself. */
  predicate SchemaValid(o: Output) {
    && (forall r :: r in o.requests ==> SchemaRequest(r))
    && |o.summary| <= SUMMARY_LIMIT && |o.proposedAction| <= SUMMARY_LIMIT
    && 0.0 <= o.confidence <= 1.0
  }

  lemma ExtractedFitsSchema(c: Charset, p: Patterns, raw: string)
    requires ReadLine(c, p, raw).Extracted?
    ensures SchemaRequest(ReadLine(c, p, raw).request)
  {
  }

  /** The rules' own output is refused only for its summary or its confidence. */
  lemma DeterministicFitsSchema(c: Charset, p: Patterns, s: Signals, message: string, attachments: seq<Document>)
    requires Requests(c, p, message).Some?
    ensures SchemaValid(DeterministicOutput(s, Requests(c, p, message).value, attachments))
            <==> |s.summary| <= 1000 && 0.0 <= s.confidence <= 1.0
  {
    var requests := Requests(c, p, message).value;
    forall r | r in requests ensures SchemaRequest(r) {
      CollectedAreRead(LineReader(c, p), SplitLines(c, message), r);
      var l :| l in SplitLines(c, message) && LineReader(c, p)(l) == Extracted(r);
      ExtractedFitsSchema(c, p, l);
    }
  }

  /** Merging two outputs the schema accepts gives one it accepts, so checking it again never raises. */
  lemma MergeFitsSchema(det: Output, model: Option<Output>)
    requires SchemaValid(det) && (model.Some? ==> SchemaValid(model.value))
    ensures SchemaValid(Merge(det, model))
  {
  }

  // ------------------------------------------------------------------------------------- validation

  datatype EvidenceError = UntraceableQuote(index: nat) | UnknownFilename(filename: string) | UnknownDestination

  function QuoteErrors(c: Charset, requests: seq<RequestedInformation>, message: string): seq<EvidenceError> {
    if requests == [] then []
    else
      var k := |requests| - 1;
      QuoteErrors(c, requests[..k], message)
      + if Contains(Normalized(c, message), Normalized(c, requests[k].evidenceQuote)) then [] else [UntraceableQuote(k)]
  }

  function FilenameErrors(documents: seq<Document>, filenames: set<string>): seq<EvidenceError> {
    if documents == [] then []
    else
      var k := |documents| - 1;
      FilenameErrors(documents[..k], filenames) + if documents[k].filename in filenames then [] else [UnknownFilename(documents[k].filename)]
  }

  function EvidenceErrors(c: Charset, o: Output, message: string, filenames: set<string>): seq<EvidenceError> {
    QuoteErrors(c, o.requests, message) + FilenameErrors(o.documents, filenames)
    + if o.destination in VALID_DESTINATIONS then [] else [UnknownDestination]
  }

  method ValidateEvidence(c: Charset, o: Output, message: string, filenames: set<string>) returns (errors: seq<EvidenceError>)
    ensures errors == EvidenceErrors(c, o, message, filenames)
  {
    errors := [];
    var normalized := Normalized(c, message);
    for k := 0 to |o.requests|
      invariant errors == QuoteErrors(c, o.requests[..k], message)
    {
      assert o.requests[..k + 1][..k] == o.requests[..k];
      if !Contains(normalized, Normalized(c, o.requests[k].evidenceQuote)) {
        errors := errors + [UntraceableQuote(k)];
      }
    }
    assert o.requests[..|o.requests|] == o.requests;
    for k := 0 to |o.documents|
      invariant errors == QuoteErrors(c, o.requests, message) + FilenameErrors(o.documents[..k], filenames)
    {
      assert o.documents[..k + 1][..k] == o.documents[..k];
      if o.documents[k].filename !in filenames {
        errors := errors + [UnknownFilename(o.documents[k].filename)];
      }
    }
    assert o.documents[..|o.documents|] == o.documents;
    if o.destination !in VALID_DESTINATIONS {
      errors := errors + [UnknownDestination];
    }
  }

  /** Every quote is found in the message, every file is attached, and the destination is configured. */
  ghost predicate EvidenceBound(c: Charset, o: Output, message: string, filenames: set<string>) {
    && (forall r :: r in o.requests ==> Traceable(c, message, r))
    && (forall d :: d in o.documents ==> d.filename in filenames)
    && o.destination in VALID_DESTINATIONS
  }

  lemma {:induction false} NoQuoteErrors(c: Charset, requests: seq<RequestedInformation>, message: string)
    ensures QuoteErrors(c, requests, message) == [] <==> forall r :: r in requests ==> Traceable(c, message, r)
  {
    if requests != [] {
      var k := |requests| - 1;
      NoQuoteErrors(c, requests[..k], message);
      assert requests[k] in requests;
      assert forall r :: r in requests <==> r == requests[k] || r in requests[..k];
    }
  }

  lemma {:induction false} NoFilenameErrors(documents: seq<Document>, filenames: set<string>)
    ensures FilenameErrors(documents, filenames) == [] <==> forall d :: d in documents ==> d.filename in filenames
  {
    if documents != [] {
      var k := |documents| - 1;
      NoFilenameErrors(documents[..k], filenames);
      assert documents[k] in documents;
      assert forall d :: d in documents <==> d == documents[k] || d in documents[..k];
    }
  }

  lemma {:induction false} QuoteErrorsListed(c: Charset, requests: seq<RequestedInformation>, message: string, e: EvidenceError)
    ensures e in QuoteErrors(c, requests, message)
            <==> e.UntraceableQuote? && e.index < |requests| && !Traceable(c, message, requests[e.index])
  {
    if requests != [] {
      QuoteErrorsListed(c, requests[..|requests| - 1], message, e);
    }
  }

  lemma {:induction false} FilenameErrorsListed(documents: seq<Document>, filenames: set<string>, e: EvidenceError)
    ensures e in FilenameErrors(documents, filenames)
            <==> e.UnknownFilename? && e.filename !in filenames && exists d :: d in documents && d.filename == e.filename
  {
    if documents != [] {
      var k := |documents| - 1;
      FilenameErrorsListed(documents[..k], filenames, e);
      assert forall d :: d in documents <==> d == documents[k] || d in documents[..k];
    }
  }

  /** Each error is reported exactly when it is there: a quote by its index, a file by its name. */
  lemma ErrorsListed(c: Charset, o: Output, message: string, filenames: set<string>, e: EvidenceError)
    ensures e in EvidenceErrors(c, o, message, filenames)
            <==> match e {
                   case UntraceableQuote(index) => index < |o.requests| && !Traceable(c, message, o.requests[index])
                   case UnknownFilename(filename) => filename !in filenames && exists d :: d in o.documents && d.filename == filename
                   case UnknownDestination => o.destination !in VALID_DESTINATIONS
                 }
  {
    QuoteErrorsListed(c, o.requests, message, e);
    FilenameErrorsListed(o.documents, filenames, e);
  }

  /** Validation reports nothing exactly when the output is bound to its evidence. */
  lemma NoErrorsMeansBound(c: Charset, o: Output, message: string, filenames: set<string>)
    ensures EvidenceErrors(c, o, message, filenames) == [] <==> EvidenceBound(c, o, message, filenames)
  {
    NoQuoteErrors(c, o.requests, message);
    NoFilenameErrors(o.documents, filenames);
  }

  // ------------------------------------------------------------------------------------- the merge

  function Prefer<T(==)>(mine: seq<T>, theirs: seq<T>): seq<T> {
    if mine != [] then mine else theirs
  }

  function Deduplicate(s: seq<string>): seq<string> {
    if s == [] then []
    else
      var front := Deduplicate(s[..|s| - 1]);
      if s[|s| - 1] in front then front else front + [s[|s| - 1]]
  }

  /** Verified fields win; the model fills the gaps and can only lower confidence's ceiling and add reasons. */
  function Merge(det: Output, model: Option<Output>): Output {
    if model.None? then det
    else
      var m := model.value;
      m.(vendor := if det.vendor.Some? && det.vendor.value != "" then det.vendor else m.vendor,
         emailType := if det.emailType != GeneralCorrespondence then det.emailType else m.emailType,
         states := Deduplicate(Prefer(det.states, m.states)),
         licenseTypes := Prefer(det.licenseTypes, m.licenseTypes),
         licenseNumbers := Prefer(det.licenseNumbers, m.licenseNumbers),
         requests := Prefer(det.requests, m.requests),
         documents := Prefer(det.documents, m.documents),
         dueDate := if det.dueDate.Some? then det.dueDate else m.dueDate,
         destination := if det.destination != "" then det.destination else m.destination,
         requiresHumanReview := true,
         confidence := if m.confidence < det.confidence + 0.05 then m.confidence else det.confidence + 0.05,
         reviewReasons := Deduplicate(det.reviewReasons + m.reviewReasons))
  }

  /** The deterministic output of a message is always bound to it. */
  lemma DeterministicIsBound(c: Charset, p: Patterns, s: Signals, message: string, attachments: seq<Document>)
    requires Requests(c, p, message).Some?
    ensures EvidenceBound(c, DeterministicOutput(s, Requests(c, p, message).value, attachments), message,
                          set d | d in attachments :: d.filename)
  {
    var requests := Requests(c, p, message).value;
    forall r | r in requests {
      RequestsAreTraceable(c, p, message, r);
    }
    RouteIsConfigured(s.emailType(requests != []), s.vendor);
  }

  /** Every line that asks for something is among the requests. */
  ghost predicate KeepsRequests(c: Charset, p: Patterns, message: string, o: Output) {
    forall l :: l in SplitLines(c, message) && ReadLine(c, p, l).Extracted? ==> ReadLine(c, p, l).request in o.requests
  }

  lemma AllRequestsKept(c: Charset, p: Patterns, message: string, o: Output)
    requires Requests(c, p, message).Some?
    requires Requests(c, p, message).value != [] ==> o.requests == Requests(c, p, message).value
    ensures KeepsRequests(c, p, message, o)
  {
    var read, lines, items := LineReader(c, p), SplitLines(c, message), Requests(c, p, message).value;
    var from := CollectsAll(read, lines);
    forall l | l in lines && ReadLine(c, p, l).Extracted? ensures ReadLine(c, p, l).request in o.requests {
      var k :| 0 <= k < |lines| && lines[k] == l;
      assert read(lines[k]).Extracted?;
      var j :| 0 <= j < |from| && from[j] == k;
      assert items[j] in items;
    }
  }

  /** What is stored for a message: always within the schema, bound to its evidence and flagged for review;
      the merge only if it validates, otherwise the deterministic output. The model's answer arrives as an
      instance of the schema. Nothing is stored exactly when a line asks for something too brief for the
      schema, or the rules' summary or confidence is outside it. */
  method ClassifyEmail(c: Charset, p: Patterns, s: Signals, message: string, attachments: seq<Document>, model: Option<Output>)
      returns (stored: Option<Output>, errors: seq<EvidenceError>)
    requires model.Some? ==> SchemaValid(model.value)
    ensures stored.None? <==> SomeLineTooBrief(c, p, message) || |s.summary| > 1000 || !(0.0 <= s.confidence <= 1.0)
    ensures stored.Some? ==> SchemaValid(stored.value) && Requests(c, p, message).Some?
    ensures stored.Some? ==> exists from :: ReadFrom(LineReader(c, p), SplitLines(c, message), Requests(c, p, message).value, from)
    ensures stored.Some? && Requests(c, p, message).value != [] ==> stored.value.requests == Requests(c, p, message).value
    ensures stored.Some? ==> KeepsRequests(c, p, message, stored.value)
    ensures stored.Some? ==>
              var filenames := set d | d in attachments :: d.filename;
              var det := DeterministicOutput(s, Requests(c, p, message).value, attachments);
              && EvidenceBound(c, stored.value, message, filenames)
              && stored.value.requiresHumanReview
              && stored.value == (if EvidenceBound(c, Merge(det, model), message, filenames) then Merge(det, model) else det)
              && (errors == [] <==> EvidenceBound(c, Merge(det, model), message, filenames))
  {
    errors := [];
    RequestsFailExactly(c, p, message);
    var requests := CollectRequests(LineReader(c, p), SplitLines(c, message));
    if requests.None? {
      return None, errors;
    }
    var det := DeterministicOutput(s, requests.value, attachments);
    DeterministicFitsSchema(c, p, s, message, attachments);
    if !SchemaValid(det) {
      return None, errors;
    }
    var filenames := set d | d in attachments :: d.filename;
    var output := Merge(det, model);
    MergeFitsSchema(det, model);
    errors := ValidateEvidence(c, output, message, filenames);
    NoErrorsMeansBound(c, output, message, filenames);
    DeterministicIsBound(c, p, s, message, attachments);
    if errors != [] && model.Some? {
      output := det;
    }
    AllRequestsKept(c, p, message, output);
    stored := Some(output);
  }

  /** The fields of `det` that are set are those of `o`, no reason is lost, and confidence is capped. */
  ghost predicate Prevails(det: Output, o: Output) {
    && (det.requests != [] ==> o.requests == det.requests)
    && (det.documents != [] ==> o.documents == det.documents)
    && (det.states != [] ==> o.states == det.states)
    && (det.licenseTypes != [] ==> o.licenseTypes == det.licenseTypes)
    && (det.licenseNumbers != [] ==> o.licenseNumbers == det.licenseNumbers)
    && (det.vendor.Some? && det.vendor.value != "" ==> o.vendor == det.vendor)
    && (det.emailType != GeneralCorrespondence ==> o.emailType == det.emailType)
    && (det.dueDate.Some? ==> o.dueDate == det.dueDate)
    && (det.destination != "" ==> o.destination == det.destination)
    && o.confidence <= det.confidence + 0.05
    && forall r :: r in det.reviewReasons ==> r in o.reviewReasons
  }

  /** Where the rules found nothing the model's finding is taken, with its wording and all its reasons, and
      its confidence up to a little above the rules'. */
  lemma ModelFillsGaps(det: Output, m: Output)
    ensures var o := Merge(det, Some(m));
            && (det.requests == [] ==> o.requests == m.requests)
            && (det.documents == [] ==> o.documents == m.documents)
            && (det.licenseTypes == [] ==> o.licenseTypes == m.licenseTypes)
            && (det.licenseNumbers == [] ==> o.licenseNumbers == m.licenseNumbers)
            && (det.states == [] ==> forall x :: x in o.states <==> x in m.states)
            && (det.vendor == None || det.vendor == Some("") ==> o.vendor == m.vendor)
            && (det.emailType == GeneralCorrespondence ==> o.emailType == m.emailType)
            && (det.dueDate == None ==> o.dueDate == m.dueDate)
            && (det.destination == "" ==> o.destination == m.destination)
            && o.summary == m.summary && o.proposedAction == m.proposedAction && o.actionRequired == m.actionRequired
            && o.confidence <= m.confidence && (o.confidence == m.confidence || o.confidence == det.confidence + 0.05)
            && forall r :: r in m.reviewReasons ==> r in o.reviewReasons
  {
    DeduplicateKeeps(m.states);
    DeduplicateKeeps(det.reviewReasons + m.reviewReasons);
  }

  lemma MergePrevails(det: Output, model: Option<Output>)
    requires forall i, j :: 0 <= i < j < |det.states| ==> det.states[i] != det.states[j]
    ensures Prevails(det, Merge(det, model))
    ensures det.requiresHumanReview ==> Merge(det, model).requiresHumanReview
  {
    DeduplicateDistinct(det.states);
    if model.Some? {
      DeduplicateKeeps(det.reviewReasons + model.value.reviewReasons);
    }
  }

  /** Whatever the model says, every field the rules verified is the rules' own after the merge. */
  lemma VerifiedFieldsWin(s: Signals, requests: seq<RequestedInformation>, attachments: seq<Document>, model: Option<Output>)
    ensures var det := DeterministicOutput(s, requests, attachments);
            Prevails(det, Merge(det, model)) && Merge(det, model).destination == det.destination
            && Merge(det, model).requiresHumanReview
  {
    var det := DeterministicOutput(s, requests, attachments);
    DeduplicateKeeps(s.states);
    MergePrevails(det, model);
    DestinationIsSet(det.emailType, s.vendor);
  }

  lemma DestinationIsSet(t: EmailType, vendor: Option<string>)
    ensures Route(t, vendor) != ""
  {
    assert |Route(t, vendor)| > 0;
  }

  lemma {:induction false} DeduplicateDistinct(s: seq<string>)
    requires forall i, j :: 0 <= i < j < |s| ==> s[i] != s[j]
    ensures Deduplicate(s) == s
  {
    if s != [] {
      DeduplicateDistinct(s[..|s| - 1]);
    }
  }

  /** Removing repeats keeps every entry, once. */
  lemma {:induction false} DeduplicateKeeps(s: seq<string>)
    ensures forall x :: x in Deduplicate(s) <==> x in s
    ensures forall i, j :: 0 <= i < j < |Deduplicate(s)| ==> Deduplicate(s)[i] != Deduplicate(s)[j]
  {
    if s != [] {
      DeduplicateKeeps(s[..|s| - 1]);
      assert forall x :: x in s <==> x == s[|s| - 1] || x in s[..|s| - 1];
    }
  }
}
