/** The `GET /fetch-studies` handler: it parses a comma-separated list of
    lead sponsors, builds a ClinicalTrials.gov search term for the studies
    those sponsors updated between yesterday and today, sends one request to
    the registry and reduces the studies it returns to identifier, sponsor
    and link. */
module FetchStudies {
  import opened Wrappers
  import opened Text
  import Calendar

  const NoSponsorsMessage := "No sponsors provided."
  const NoStudiesMessage := "No new studies found."
  const StudiesUrl := "https://clinicaltrials.gov/api/v2/studies"
  const SortOrder := "LastUpdatePostDate:desc"
  const PageSize := 50
  const StudyLinkPrefix := "https://clinicaltrials.gov/study/"

  // ---------------------------------------------------------------------
  // Sponsor parsing
  // ---------------------------------------------------------------------

  /** What one piece contributes: its stripped text, unless that is empty. */
  function KeptName(piece: string): (names: seq<string>)
    ensures |names| <= 1
    ensures names == [] <==> AllWhitespace(piece)
    ensures names != [] ==> names[0] == Strip(piece)
  {
    var name := Strip(piece);
    if name == [] then [] else [name]
  }

  /** The stripped pieces that are not empty, in order. */
  function KeepSponsors(pieces: seq<string>): (names: seq<string>)
    ensures |names| <= |pieces|
  {
    if pieces == [] then [] else KeptName(pieces[0]) + KeepSponsors(pieces[1..])
  }

  /** Every kept name is non-empty and has no whitespace at either end. */
  lemma {:induction false} KeepSponsorsClean(pieces: seq<string>)
    ensures forall k :: 0 <= k < |KeepSponsors(pieces)| ==>
      KeepSponsors(pieces)[k] != [] && Unpadded(KeepSponsors(pieces)[k])
  {
    if pieces != [] {
      KeepSponsorsClean(pieces[1..]);
      var head, rest := KeptName(pieces[0]), KeepSponsors(pieces[1..]);
      var names := head + rest;
      assert KeepSponsors(pieces) == names;
      forall k | 0 <= k < |names|
        ensures names[k] != [] && Unpadded(names[k])
      {
        if k < |head| {
          assert names[k] == Strip(pieces[0]);
        } else {
          assert names[k] == rest[k - |head|];
        }
      }
    }
  }

  /** `[s.strip() for s in sponsors.split(",") if s.strip()]`. */
  function ParseSponsors(sponsors: string): seq<string>
  {
    KeepSponsors(Split(sponsors, ','))
  }

  /** Keeping sponsors works piece by piece, so the names keep the order of
      the pieces they come from. */
  lemma {:induction false} KeepSponsorsAppend(a: seq<string>, b: seq<string>)
    ensures KeepSponsors(a + b) == KeepSponsors(a) + KeepSponsors(b)
  {
    if a != [] {
      assert (a + b)[0] == a[0];
      assert (a + b)[1..] == a[1..] + b;
      KeepSponsorsAppend(a[1..], b);
      calc {
        KeepSponsors(a + b);
        KeptName(a[0]) + KeepSponsors(a[1..] + b);
        KeptName(a[0]) + (KeepSponsors(a[1..]) + KeepSponsors(b));
      }
    } else {
      assert a + b == b;
    }
  }

  /** One piece gives its stripped text, or nothing when that is empty. */
  lemma KeepSponsorsSingle(piece: string)
    ensures KeepSponsors([piece]) == if AllWhitespace(piece) then [] else [Strip(piece)]
  {
    assert [piece][1..] == [];
    assert KeptName(piece) + [] == KeptName(piece);
  }

  /** No sponsor survives exactly when every piece is whitespace. */
  lemma {:induction false} KeepSponsorsEmpty(pieces: seq<string>)
    ensures KeepSponsors(pieces) == [] <==> forall k :: 0 <= k < |pieces| ==> AllWhitespace(pieces[k])
  {
    if pieces != [] {
      KeepSponsorsEmpty(pieces[1..]);
      if AllWhitespace(pieces[0]) {
        forall k | 0 < k < |pieces|
          ensures AllWhitespace(pieces[k]) <==> AllWhitespace(pieces[1..][k - 1])
        {
        }
      }
    }
  }

  /** The request is rejected exactly when every comma-separated piece of
      `sponsors` is empty or whitespace. */
  lemma ParseSponsorsEmpty(sponsors: string)
    ensures ParseSponsors(sponsors) == [] ==>
      forall k :: 0 <= k < |Split(sponsors, ',')| ==> AllWhitespace(Split(sponsors, ',')[k])
    ensures (forall k :: 0 <= k < |Split(sponsors, ',')| ==> AllWhitespace(Split(sponsors, ',')[k])) ==>
      ParseSponsors(sponsors) == []
  {
    var pieces := Split(sponsors, ',');
    assert ParseSponsors(sponsors) == KeepSponsors(pieces);
    KeepSponsorsEmpty(pieces);
  }

  /** Parsing a comma-joined list of comma-free pieces keeps the non-blank
      ones, stripped, in order. */
  lemma ParseJoinedPieces(pieces: seq<string>)
    requires |pieces| >= 1
    requires forall k :: 0 <= k < |pieces| ==> ',' !in pieces[k]
    ensures ParseSponsors(Join(pieces, ",")) == KeepSponsors(pieces)
  {
    SplitJoin(pieces, ',');
  }

  // ---------------------------------------------------------------------
  // Query term
  // ---------------------------------------------------------------------

  /** `f'AREA[LeadSponsor]"{"".join(s)}"'`. */
  function SponsorClause(name: string): string
  {
    "AREA[LeadSponsor]\"" + Join(Chars(name), "") + "\""
  }

  /** The clause quotes the sponsor name unchanged, internal whitespace
      included. */
  lemma SponsorClauseVerbatim(name: string)
    ensures SponsorClause(name) == "AREA[LeadSponsor]\"" + name + "\""
  {
    JoinCharsIdentity(name);
  }

  function SponsorClauses(names: seq<string>): seq<string>
  {
    seq(|names|, k requires 0 <= k < |names| => SponsorClause(names[k]))
  }

  /** `" OR ".join(...)` over the sponsor clauses. */
  function SponsorFilters(names: seq<string>): string
  {
    Join(SponsorClauses(names), " OR ")
  }

  /** Clause `k` of the filter quotes sponsor `k` verbatim and sits at the
      offset of part `k` of the join. */
  lemma SponsorFilterClauseAt(names: seq<string>, k: nat)
    requires k < |names|
    ensures SponsorClauses(names)[k] == "AREA[LeadSponsor]\"" + names[k] + "\""
    ensures JoinOffset(SponsorClauses(names), " OR ", k) + |SponsorClauses(names)[k]| <= |SponsorFilters(names)|
    ensures SponsorFilters(names)[JoinOffset(SponsorClauses(names), " OR ", k)
                                  ..JoinOffset(SponsorClauses(names), " OR ", k) + |SponsorClauses(names)[k]|]
         == SponsorClauses(names)[k]
  {
    SponsorClauseVerbatim(names[k]);
    JoinPartAt(SponsorClauses(names), " OR ", k);
  }

  /** `" OR "` follows every clause but the last. */
  lemma SponsorFilterSeparatorAt(names: seq<string>, k: nat)
    requires k + 1 < |names|
    ensures JoinOffset(SponsorClauses(names), " OR ", k) + |SponsorClauses(names)[k]| + 4 <= |SponsorFilters(names)|
    ensures SponsorFilters(names)[JoinOffset(SponsorClauses(names), " OR ", k) + |SponsorClauses(names)[k]|
                                  ..JoinOffset(SponsorClauses(names), " OR ", k) + |SponsorClauses(names)[k]| + 4]
         == " OR "
  {
    JoinSeparatorAt(SponsorClauses(names), " OR ", k);
  }

  /** The filter is the clauses plus one `" OR "` between each adjacent
      pair, and nothing else. */
  lemma SponsorFiltersLength(names: seq<string>)
    requires names != []
    ensures |SponsorFilters(names)| == TotalLength(SponsorClauses(names)) + (|names| - 1) * 4
  {
    JoinLength(SponsorClauses(names), " OR ");
  }

  /** `f'AREA[LastUpdatePostDate]RANGE[{start_date},{end_date}]'`. */
  function DateFilter(start: Calendar.Date, end: Calendar.Date): string
    requires Calendar.Valid(start) && Calendar.Valid(end)
  {
    "AREA[LastUpdatePostDate]RANGE[" + Calendar.Render(start) + "," + Calendar.Render(end) + "]"
  }

  /** `f"({sponsor_filters}) AND {date_filter}"`. */
  function QueryTerm(names: seq<string>, start: Calendar.Date, end: Calendar.Date): string
    requires Calendar.Valid(start) && Calendar.Valid(end)
  {
    "(" + SponsorFilters(names) + ") AND " + DateFilter(start, end)
  }

  /** The query term for today: the sponsor filters and the range from the
      day before `today` to `today`. There is none when `today` is the first
      representable day, where subtracting a day overflows. */
  function QueryTermFor(names: seq<string>, today: Calendar.Date): (term: Option<string>)
    requires Calendar.Valid(today)
    ensures term.None? <==> today == Calendar.MinDate
  {
    Calendar.PrevDayIsOneDayEarlier(today);
    match Calendar.PrevDay(today)
    case None => None
    case Some(start) => Some(QueryTerm(names, start, today))
  }

  /** The query term in full: each sponsor name quoted verbatim in its clause,
      the clauses joined with `" OR "` inside parentheses, then the date range
      whose start is the calendar day before `today`. */
  lemma QueryTermForExact(names: seq<string>, today: Calendar.Date)
    requires Calendar.Valid(today) && today != Calendar.MinDate
    ensures var start := Calendar.PrevDay(today).value;
      Calendar.Valid(start) && Calendar.Ordinal(start) + 1 == Calendar.Ordinal(today)
      && QueryTermFor(names, today) == Some(
        "(" + Join(seq(|names|, k requires 0 <= k < |names| => "AREA[LeadSponsor]\"" + names[k] + "\""), " OR ")
        + ") AND " + "AREA[LastUpdatePostDate]RANGE[" + Calendar.Render(start) + "," + Calendar.Render(today) + "]")
  {
    Calendar.PrevDayIsOneDayEarlier(today);
    var verbatim := seq(|names|, k requires 0 <= k < |names| => "AREA[LeadSponsor]\"" + names[k] + "\"");
    forall k | 0 <= k < |names| ensures SponsorClauses(names)[k] == verbatim[k] {
      SponsorClauseVerbatim(names[k]);
    }
    assert SponsorClauses(names) == verbatim;
    var start := Calendar.PrevDay(today).value;
    assert QueryTermFor(names, today) == Some(QueryTerm(names, start, today));
    var head := "(" + Join(verbatim, " OR ") + ") AND ";
    var from, to := Calendar.Render(start), Calendar.Render(today);
    assert QueryTerm(names, start, today) == head + ("AREA[LastUpdatePostDate]RANGE[" + from + "," + to + "]");
    assert head + ("AREA[LastUpdatePostDate]RANGE[" + from + "," + to + "]")
        == head + "AREA[LastUpdatePostDate]RANGE[" + from + "," + to + "]";
  }

  // ---------------------------------------------------------------------
  // Upstream request and reply
  // ---------------------------------------------------------------------

  /** The one GET request sent to the registry, with its query parameters. */
  datatype Request = Request(url: string, term: string, sort: string, pageSize: int)

  /** A study object of the reply, with the two fields the handler reads:
      `protocolSection.identificationModule.nctId` and
      `protocolSection.sponsorCollaboratorsModule.leadSponsor.name`. `None`
      stands for a missing key anywhere on the path. */
  datatype UpstreamStudy = UpstreamStudy(nctId: Option<string>, leadSponsorName: Option<string>)

  /** What the request produced: the decoded body, whose `studies` key may be
      missing, or the message of whatever the HTTP client raised (connection
      error, a non-2xx status, a body that is not JSON). */
  datatype Reply = Payload(studies: Option<seq<UpstreamStudy>>) | Failure(message: string)

  // ---------------------------------------------------------------------
  // Result formatting
  // ---------------------------------------------------------------------

  datatype StudyRecord = StudyRecord(nctId: string, leadSponsor: string, link: string)

  /** The record emitted for one upstream study: none when its identifier is
      missing or empty. */
  function RecordsOf(study: UpstreamStudy): seq<StudyRecord>
  {
    var id := study.nctId.GetOr("");
    if id == "" then [] else [StudyRecord(id, study.leadSponsorName.GetOr(""), StudyLinkPrefix + id)]
  }

  /** The records for a list of upstream studies, in upstream order; never
      more records than studies. */
  function Selected(studies: seq<UpstreamStudy>): (records: seq<StudyRecord>)
    ensures |records| <= |studies|
  {
    if studies == [] then [] else RecordsOf(studies[0]) + Selected(studies[1..])
  }

  /** Every selected record has a non-empty identifier and the registry
      link built from it. */
  lemma {:induction false} SelectedRecordsLinked(studies: seq<UpstreamStudy>)
    ensures forall k :: 0 <= k < |Selected(studies)| ==>
      Selected(studies)[k].nctId != ""
      && Selected(studies)[k].link == StudyLinkPrefix + Selected(studies)[k].nctId
  {
    if studies != [] {
      SelectedRecordsLinked(studies[1..]);
      var first, rest := RecordsOf(studies[0]), Selected(studies[1..]);
      var records := first + rest;
      forall k | 0 <= k < |records|
        ensures records[k].nctId != "" && records[k].link == StudyLinkPrefix + records[k].nctId
      {
        if k < |first| {
          var id := studies[0].nctId.GetOr("");
          assert k == 0 && records[k] == first[0];
          assert first[0].nctId == id && first[0].link == StudyLinkPrefix + id;
        } else {
          assert records[k] == rest[k - |first|];
        }
      }
    }
  }

  /** Selection works study by study: the records of a concatenation are
      the records of each part, in order. */
  lemma {:induction false} SelectedAppend(a: seq<UpstreamStudy>, b: seq<UpstreamStudy>)
    ensures Selected(a + b) == Selected(a) + Selected(b)
  {
    if a == [] {
      assert a + b == b;
    } else {
      assert (a + b)[0] == a[0];
      assert (a + b)[1..] == a[1..] + b;
      SelectedAppend(a[1..], b);
    }
  }

  /** A study yields a record exactly when its identifier is present and not
      empty; the record copies the identifier and the sponsor name, the
      latter defaulting to `""`. */
  lemma SelectedSingle(study: UpstreamStudy)
    ensures Selected([study]) == RecordsOf(study)
    ensures |Selected([study])| == 1 <==> study.nctId.Some? && study.nctId.value != ""
    ensures Selected([study]) != [] ==>
      (Selected([study])[0] ==
       StudyRecord(study.nctId.value, study.leadSponsorName.GetOr(""), StudyLinkPrefix + study.nctId.value))
  {
    assert [study][1..] == [];
    assert RecordsOf(study) + [] == RecordsOf(study);
  }

  /** No record is emitted exactly when no study has a non-empty identifier. */
  lemma {:induction false} SelectedEmpty(studies: seq<UpstreamStudy>)
    ensures Selected(studies) == [] <==> forall k :: 0 <= k < |studies| ==> studies[k].nctId.GetOr("") == ""
  {
    if studies != [] {
      var rest := studies[1..];
      SelectedEmpty(rest);
      assert forall k :: 0 < k < |studies| ==> studies[k] == rest[k - 1];
    }
  }

  /** The loop of the handler: one pass over the studies, appending a record
      for each one with a non-empty identifier. */
  method FormatResults(studies: seq<UpstreamStudy>) returns (results: seq<StudyRecord>)
    ensures results == Selected(studies)
  {
    results := [];
    for i := 0 to |studies|
      invariant results == Selected(studies[..i])
    {
      var study := studies[i];
      var nctId := study.nctId.GetOr("");
      var sponsor := study.leadSponsorName.GetOr("");
      if nctId != "" {
        results := results + [StudyRecord(nctId, sponsor, StudyLinkPrefix + nctId)];
      }
      assert studies[..i + 1] == studies[..i] + [study];
      SelectedAppend(studies[..i], [study]);
      SelectedSingle(study);
    }
    assert studies[..|studies|] == studies;
  }

  // ---------------------------------------------------------------------
  // The handler
  // ---------------------------------------------------------------------

  /** The `results` field of a successful reply: a list of records, or a
      fixed message instead of an empty list. */
  datatype Results = Records(records: seq<StudyRecord>) | Message(text: string)

  /** A reply of the handler: status 200 with the caller's email and the
      results, 400 for an empty sponsor list, 500 for any exception. */
  datatype Response =
    | Ok(email: string, results: Results)
    | BadRequest(error: string)
    | ServerError(error: string)
  {
    function Status(): int
    {
      match this
      case Ok(_, _) => 200
      case BadRequest(_) => 400
      case ServerError(_) => 500
    }
  }

  /** `fetch_studies(sponsors, email)` on the day `today`, with `upstream`
      answering the one request it sends; `sent` is that request, or `None`
      when the handler returns before sending one. */
  method HandleFetchStudies(sponsors: string, email: string, today: Calendar.Date, upstream: Request -> Reply)
    returns (response: Response, sent: Option<Request>)
    requires Calendar.Valid(today)
    ensures response.BadRequest? <==> ParseSponsors(sponsors) == []
    ensures response.BadRequest? ==> response.error == NoSponsorsMessage && sent == None
    ensures ParseSponsors(sponsors) != [] && today == Calendar.MinDate ==>
      response == ServerError(Calendar.OverflowMessage) && sent == None
    ensures ParseSponsors(sponsors) != [] && today != Calendar.MinDate ==>
      sent == Some(Request(StudiesUrl, QueryTermFor(ParseSponsors(sponsors), today).value, SortOrder, PageSize))
    ensures sent.Some? && upstream(sent.value).Failure? ==>
      response == ServerError(upstream(sent.value).message)
    ensures sent.Some? && upstream(sent.value).Payload? ==>
      var records := Selected(upstream(sent.value).studies.GetOr([]));
      response.Ok? && response.email == email
      && (records == [] ==> response.results == Message(NoStudiesMessage))
      && (records != [] ==> response.results == Records(records))
  {
    var sponsorList := ParseSponsors(sponsors);
    if sponsorList == [] {
      return BadRequest(NoSponsorsMessage), None;
    }
    var term := QueryTermFor(sponsorList, today);
    if term.None? {
      return ServerError(Calendar.OverflowMessage), None;
    }
    var request := Request(StudiesUrl, term.value, SortOrder, PageSize);
    sent := Some(request);
    match upstream(request)
    case Failure(message) =>
      response := ServerError(message);
    case Payload(studies) =>
      var results := FormatResults(studies.GetOr([]));
      var field := if results == [] then Message(NoStudiesMessage) else Records(results);
      response := Ok(email, field);
  }
}
