/**
 * `getSPFRecord`: ask the DNS for the TXT records of a name, pick the SPF text
 * among their segments and parse it. The DNS exchange itself is an oracle.
 */
module Dns {
  import opened Wrappers
  import opened Text
  import opened IPAddr
  import opened Record

  /** One record of an answer section: a TXT record with its segments, or any other type. */
  datatype Answer = TXT(segments: seq<string>) | OtherRR

  /**
   * The outcome of one exchange: a transport failure or a response code other
   * than success, or the answer section.
   */
  datatype Reply = QueryError | Answered(answers: seq<Answer>)

  /**
   * What one run of the flattener can observe: the reply the resolver gives for
   * each name it knows (a name outside `dns` gets `QueryError`), and how
   * `net.ParseIP` reads address texts.
   */
  datatype Env = Env(dns: map<string, Reply>, parseIP: IPParser)

  function Exchange(env: Env, name: string): Reply
  {
    if name in env.dns then env.dns[name] else QueryError
  }

  /** A segment that, compared without regard to case, starts with the version tag. */
  predicate IsSpfSegment(s: string)
  {
    HasPrefix(Lower(s), Version)
  }

  /** The first SPF segment of one TXT record, lower-cased. */
  function FirstSpfSegment(segments: seq<string>): Option<string>
  {
    if segments == [] then None
    else if IsSpfSegment(segments[0]) then Some(Lower(segments[0]))
    else FirstSpfSegment(segments[1..])
  }

  function SpfOf(a: Answer): Option<string>
  {
    match a
    case TXT(segments) => FirstSpfSegment(segments)
    case OtherRR => None
  }

  /**
   * The SPF text `getSPFRecord` settles on: the first SPF segment of the LAST
   * answer that has one; the empty string when no answer has one.
   */
  function SelectedSpfText(answers: seq<Answer>): string
  {
    if answers == [] then ""
    else
      match SpfOf(answers[|answers| - 1])
      case Some(t) => t
      case None => SelectedSpfText(answers[..|answers| - 1])
  }

  /**
   * The selection loop: every answer is scanned, and within a TXT record the
   * scan stops at the first SPF segment; a later answer overwrites `spfTxt`.
   */
  method SelectSpfText(answers: seq<Answer>) returns (spfTxt: string)
    ensures spfTxt == SelectedSpfText(answers)
  {
    spfTxt := "";
    for i := 0 to |answers|
      invariant spfTxt == SelectedSpfText(answers[..i])
    {
      var ans := answers[i];
      assert answers[..i + 1][..i] == answers[..i];
      if ans.TXT? {
        var segments := ans.segments;
        var j := 0;
        while j < |segments|
          invariant j <= |segments|
          invariant FirstSpfSegment(segments) == FirstSpfSegment(segments[j..])
          invariant spfTxt == SelectedSpfText(answers[..i])
        {
          var s := segments[j];
          assert segments[j..][1..] == segments[j + 1..];
          if HasPrefix(Lower(s), Version) {
            spfTxt := Lower(s);
            break;
          }
          j := j + 1;
        }
      }
    }
    assert answers[..|answers|] == answers;
  }

  /** `getSPFRecord` after the exchange: select the SPF text and parse it. */
  function FetchedRecord(env: Env, domain: string): (r: Result<SPFRecord, Error>)
    ensures r.Ok? ==> domain in env.dns
  {
    match Exchange(env, domain)
    case QueryError => Err(Error(QueryFailed, []))
    case Answered(answers) =>
      var spfTxt := SelectedSpfText(answers);
      if spfTxt == "" then Err(Error(NoRecord, []))
      else ParsedRecord(env.parseIP, spfTxt)
  }

  method GetSPFRecord(env: Env, domain: string) returns (res: Result<SPFRecord, Error>)
    ensures res == FetchedRecord(env, domain)
  {
    var reply := Exchange(env, domain);
    if reply.QueryError? {
      return Err(Error(QueryFailed, []));
    }
    var spfTxt := SelectSpfText(reply.answers);
    if spfTxt == "" {
      return Err(Error(NoRecord, []));
    }
    res := ParseSPFRecord(env.parseIP, spfTxt);
  }

  /** A TXT record has an SPF segment exactly when one of its segments is one; that one is returned lower-cased. */
  lemma {:induction false} FirstSpfSegmentSpec(segments: seq<string>)
    ensures FirstSpfSegment(segments).None? <==> forall j :: 0 <= j < |segments| ==> !IsSpfSegment(segments[j])
    ensures FirstSpfSegment(segments).Some? ==>
      exists j :: 0 <= j < |segments| && IsSpfSegment(segments[j])
        && FirstSpfSegment(segments).value == Lower(segments[j])
        && forall j' :: 0 <= j' < j ==> !IsSpfSegment(segments[j'])
  {
    if segments != [] && !IsSpfSegment(segments[0]) {
      var rest := segments[1..];
      FirstSpfSegmentSpec(rest);
      if FirstSpfSegment(rest).Some? {
        var j :| 0 <= j < |rest| && IsSpfSegment(rest[j])
          && FirstSpfSegment(rest).value == Lower(rest[j])
          && forall j' :: 0 <= j' < j ==> !IsSpfSegment(rest[j']);
        assert segments[j + 1] == rest[j];
        forall j' | 0 <= j' < j + 1 ensures !IsSpfSegment(segments[j']) {
          if j' > 0 {
            assert segments[j'] == rest[j' - 1];
          }
        }
      } else {
        forall j | 0 <= j < |segments| ensures !IsSpfSegment(segments[j]) {
          if j > 0 {
            assert segments[j] == rest[j - 1];
          }
        }
      }
    }
  }

  /** A chosen SPF text is never empty: it starts with the version tag. */
  lemma {:induction false} SelectedStartsWithVersion(answers: seq<Answer>)
    requires SelectedSpfText(answers) != ""
    ensures HasPrefix(SelectedSpfText(answers), Version)
  {
    var a := answers[|answers| - 1];
    if SpfOf(a).Some? {
      FirstSpfSegmentSpec(a.segments);
      var j :| 0 <= j < |a.segments| && IsSpfSegment(a.segments[j]) && SpfOf(a).value == Lower(a.segments[j]);
    } else {
      SelectedStartsWithVersion(answers[..|answers| - 1]);
    }
  }

  /**
   * No SPF text is selected exactly when no segment of any TXT answer starts,
   * without regard to case, with the version tag.
   */
  lemma {:induction false} NoSpfTextExactly(answers: seq<Answer>)
    ensures SelectedSpfText(answers) == "" <==>
      forall k, j :: 0 <= k < |answers| && answers[k].TXT? && 0 <= j < |answers[k].segments|
        ==> !IsSpfSegment(answers[k].segments[j])
  {
    if answers != [] {
      var init, a := answers[..|answers| - 1], answers[|answers| - 1];
      NoSpfTextExactly(init);
      if a.TXT? {
        FirstSpfSegmentSpec(a.segments);
      }
      if SpfOf(a).Some? {
        SelectedStartsWithVersion(answers);
      }
      assert forall k :: 0 <= k < |init| ==> answers[k] == init[k];
    }
  }

  /**
   * When an SPF text is selected, it comes from the last answer that has an
   * SPF segment: later answers have none.
   */
  lemma {:induction false} LastSpfAnswerWins(answers: seq<Answer>)
    requires SelectedSpfText(answers) != ""
    ensures exists k :: SpfAnswerIsLast(answers, k, SelectedSpfText(answers))
  {
    var n := |answers| - 1;
    if SpfOf(answers[n]).Some? {
      assert SpfAnswerIsLast(answers, n, SelectedSpfText(answers));
    } else {
      var init := answers[..n];
      assert SelectedSpfText(answers) == SelectedSpfText(init);
      LastSpfAnswerWins(init);
      var k :| SpfAnswerIsLast(init, k, SelectedSpfText(init));
      LastSpfAnswerExtends(answers, n, k, SelectedSpfText(init));
    }
  }

  /** Answer `k` yields SPF text `t`, and no later answer has an SPF segment. */
  predicate SpfAnswerIsLast(answers: seq<Answer>, k: int, t: string)
  {
    0 <= k < |answers| && SpfOf(answers[k]) == Some(t)
    && forall k' :: k < k' < |answers| ==> SpfOf(answers[k']).None?
  }

  lemma LastSpfAnswerExtends(answers: seq<Answer>, n: nat, k: int, t: string)
    requires n == |answers| - 1 && SpfOf(answers[n]).None? && SpfAnswerIsLast(answers[..n], k, t)
    ensures SpfAnswerIsLast(answers, k, t)
  {
    assert forall k' :: 0 <= k' < n ==> answers[k'] == answers[..n][k'];
  }

  /**
   * A later TXT record overrides an earlier one, within a record the first SPF
   * segment wins, and the version tag is matched without regard to case.
   */
  lemma LaterAnswerOverrides()
    ensures SelectedSpfText([TXT(["v=spf1 a"]), TXT(["x", "V=SPF1 b", "v=spf1 c"])]) == "v=spf1 b"
  {
    FirstSpfSegmentExample();
  }

  lemma FirstSpfSegmentExample()
    ensures FirstSpfSegment(["x", "V=SPF1 b", "v=spf1 c"]) == Some("v=spf1 b")
  {
    var segments := ["x", "V=SPF1 b", "v=spf1 c"];
    UpperCaseTagExample();
    assert !IsSpfSegment("x");
    assert segments[1..] == ["V=SPF1 b", "v=spf1 c"];
  }

  lemma UpperCaseTagExample()
    ensures Lower("V=SPF1 b") == "v=spf1 b" && IsSpfSegment("V=SPF1 b")
  {
    var s := "V=SPF1 b";
    assert forall k :: 0 <= k < |s| ==> Lower(s)[k] == LowerChar(s[k]);
  }

  /** A selected SPF text always parses: its first field is the version tag itself. */
  lemma SelectedTextParses(parseIP: IPParser, answers: seq<Answer>)
    requires SelectedSpfText(answers) != ""
    ensures ParsedRecord(parseIP, SelectedSpfText(answers)).Ok?
  {
    SelectedStartsWithVersion(answers);
    VersionFirstParses(parseIP, SelectedSpfText(answers));
  }

  /**
   * The error cases of `getSPFRecord`: a failed exchange, no SPF segment; and
   * never an invalid record, since the selected text starts with the version tag.
   */
  lemma FetchedRecordCases(env: Env, domain: string)
    ensures FetchedRecord(env, domain) == Err(Error(QueryFailed, [])) <==> Exchange(env, domain).QueryError?
    ensures FetchedRecord(env, domain) == Err(Error(NoRecord, []))
            <==> Exchange(env, domain).Answered? && SelectedSpfText(Exchange(env, domain).answers) == ""
    ensures FetchedRecord(env, domain).Err? ==> FetchedRecord(env, domain).error.kind != InvalidRecord
    ensures FetchedRecord(env, domain).Err? ==> FetchedRecord(env, domain).error.via == []
  {
    var reply := Exchange(env, domain);
    if reply.Answered? && SelectedSpfText(reply.answers) != "" {
      SelectedTextParses(env.parseIP, reply.answers);
    }
  }
}
