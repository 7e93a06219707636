/**
 * `parseSPFRecord`: split an (already lower-cased) SPF text into fields, check
 * the version tag, and collect the `ip4:`, `ip6:` and `include:` mechanisms.
 */
module Record {
  import opened Wrappers
  import opened Text
  import opened IPAddr

  datatype SPFRecord = SPFRecord(ip4: seq<string>, ip6: seq<string>, includes: seq<string>)

  /** The three causes of failure; every other error is one of these, wrapped. */
  datatype ErrorKind = QueryFailed | NoRecord | InvalidRecord

  /**
   * An error of a given kind, with the include domains named by the wrapping
   * layers, outermost first.
   */
  datatype Error = Error(kind: ErrorKind, via: seq<string>)

  const Version := "v=spf1"

  /** The mechanisms the flattener recognises. */
  datatype Mechanism = Ip4 | Ip6 | Include

  function Tag(m: Mechanism): string
  {
    match m
    case Ip4 => "ip4:"
    case Ip6 => "ip6:"
    case Include => "include:"
  }

  /** Which values of a mechanism are kept: valid addresses, non-empty domains. */
  predicate Keeps(parseIP: IPParser, m: Mechanism, value: string)
  {
    match m
    case Ip4 => IsValidIP(parseIP, value, 4)
    case Ip6 => IsValidIP(parseIP, value, 6)
    case Include => value != ""
  }

  /** The value `token` contributes to the `m` list: its tag stripped, if kept. */
  function Contribution(parseIP: IPParser, token: string, m: Mechanism): seq<string>
  {
    if HasPrefix(token, Tag(m)) && Keeps(parseIP, m, TrimPrefix(token, Tag(m)))
    then [TrimPrefix(token, Tag(m))] else []
  }

  /** The kept values of the `m` mechanisms among `tokens`, in token order. */
  function Collect(parseIP: IPParser, tokens: seq<string>, m: Mechanism): seq<string>
  {
    if tokens == [] then []
    else Contribution(parseIP, tokens[0], m) + Collect(parseIP, tokens[1..], m)
  }

  /** The record a field list denotes: fields after the version tag, filtered per mechanism. */
  function RecordOf(parseIP: IPParser, parts: seq<string>): Result<SPFRecord, Error>
  {
    if parts == [] || !HasPrefix(parts[0], Version) then Err(Error(InvalidRecord, []))
    else
      var rest := parts[1..];
      Ok(SPFRecord(Collect(parseIP, rest, Ip4), Collect(parseIP, rest, Ip6),
                   Collect(parseIP, rest, Include)))
  }

  function ParsedRecord(parseIP: IPParser, spf: string): Result<SPFRecord, Error>
  {
    RecordOf(parseIP, Fields(spf))
  }

  /** `parseSPFRecord`: split into fields, check the version tag, collect the rest. */
  method ParseSPFRecord(parseIP: IPParser, spf: string) returns (res: Result<SPFRecord, Error>)
    ensures res == ParsedRecord(parseIP, spf)
  {
    var parts := Fields(spf);
    if |parts| == 0 || !HasPrefix(parts[0], Version) {
      return Err(Error(InvalidRecord, []));
    }
    var ip4, ip6, includes := CollectMechanisms(parseIP, parts[1..]);
    res := Ok(SPFRecord(ip4, ip6, includes));
  }

  /**
   * The loop of `parseSPFRecord` over the fields after the version tag: one
   * if-else-if chain per field, appending to the list of the first tag that
   * matches.
   */
  method CollectMechanisms(parseIP: IPParser, tokens: seq<string>)
    returns (ip4: seq<string>, ip6: seq<string>, includes: seq<string>)
    ensures ip4 == Collect(parseIP, tokens, Ip4)
    ensures ip6 == Collect(parseIP, tokens, Ip6)
    ensures includes == Collect(parseIP, tokens, Include)
  {
    ip4, ip6, includes := [], [], [];
    for i := 0 to |tokens|
      invariant ip4 == Collect(parseIP, tokens[..i], Ip4)
      invariant ip6 == Collect(parseIP, tokens[..i], Ip6)
      invariant includes == Collect(parseIP, tokens[..i], Include)
    {
      var part := tokens[i];
      if HasPrefix(part, "ip4:") {
        var ip := TrimPrefix(part, "ip4:");
        CollectStepTagged(parseIP, tokens, i, Ip4);
        if IsValidIP(parseIP, ip, 4) {
          ip4 := ip4 + [ip];
        }
      } else if HasPrefix(part, "ip6:") {
        var ip := TrimPrefix(part, "ip6:");
        CollectStepTagged(parseIP, tokens, i, Ip6);
        if IsValidIP(parseIP, ip, 6) {
          ip6 := ip6 + [ip];
        }
      } else if HasPrefix(part, "include:") {
        var domain := TrimPrefix(part, "include:");
        CollectStepTagged(parseIP, tokens, i, Include);
        if domain != "" {
          includes := includes + [domain];
        }
      } else {
        CollectStepUntagged(parseIP, tokens, i);
      }
    }
    assert tokens[..|tokens|] == tokens;
  }

  /** A token carries at most one of the three tags. */
  lemma TagsExclusive(token: string)
    ensures HasPrefix(token, "ip4:") ==> !HasPrefix(token, "ip6:") && !HasPrefix(token, "include:")
    ensures HasPrefix(token, "ip6:") ==> !HasPrefix(token, "include:")
  {
    if HasPrefix(token, "ip4:") {
      assert token[1] == token[..4][1] && token[2] == token[..4][2];
    }
    if HasPrefix(token, "ip6:") {
      assert token[1] == token[..4][1];
    }
  }

  /** One more token adds exactly its own contribution to each list. */
  lemma CollectSnoc(parseIP: IPParser, tokens: seq<string>, t: string)
    ensures Collect(parseIP, tokens + [t], Ip4) == Collect(parseIP, tokens, Ip4) + Contribution(parseIP, t, Ip4)
    ensures Collect(parseIP, tokens + [t], Ip6) == Collect(parseIP, tokens, Ip6) + Contribution(parseIP, t, Ip6)
    ensures Collect(parseIP, tokens + [t], Include) == Collect(parseIP, tokens, Include) + Contribution(parseIP, t, Include)
  {
    CollectAppend(parseIP, tokens, [t], Ip4);
    CollectAppend(parseIP, tokens, [t], Ip6);
    CollectAppend(parseIP, tokens, [t], Include);
    CollectSingle(parseIP, t, Ip4);
    CollectSingle(parseIP, t, Ip6);
    CollectSingle(parseIP, t, Include);
  }

  /**
   * What one more token does to the three lists, case by case in the order of
   * the if-else-if chain of `parseSPFRecord`.
   */
  lemma CollectStep(parseIP: IPParser, tokens: seq<string>, i: nat)
    requires i < |tokens|
    ensures var t := tokens[i];
      var ip4, ip6, incs := Collect(parseIP, tokens[..i], Ip4), Collect(parseIP, tokens[..i], Ip6),
                            Collect(parseIP, tokens[..i], Include);
      var ip4', ip6', incs' := Collect(parseIP, tokens[..i + 1], Ip4), Collect(parseIP, tokens[..i + 1], Ip6),
                               Collect(parseIP, tokens[..i + 1], Include);
      if HasPrefix(t, "ip4:") then
        var v := TrimPrefix(t, "ip4:");
        ip4' == (if IsValidIP(parseIP, v, 4) then ip4 + [v] else ip4) && ip6' == ip6 && incs' == incs
      else if HasPrefix(t, "ip6:") then
        var v := TrimPrefix(t, "ip6:");
        ip6' == (if IsValidIP(parseIP, v, 6) then ip6 + [v] else ip6) && ip4' == ip4 && incs' == incs
      else if HasPrefix(t, "include:") then
        var v := TrimPrefix(t, "include:");
        incs' == (if v != "" then incs + [v] else incs) && ip4' == ip4 && ip6' == ip6
      else
        ip4' == ip4 && ip6' == ip6 && incs' == incs
  {
    assert tokens[..i + 1] == tokens[..i] + [tokens[i]];
    CollectSnoc(parseIP, tokens[..i], tokens[i]);
    TagsExclusive(tokens[i]);
  }

  /** A field carrying the tag of `m` (tested in the order ip4, ip6, include) feeds only the `m` list. */
  lemma CollectStepTagged(parseIP: IPParser, tokens: seq<string>, i: nat, m: Mechanism)
    requires i < |tokens| && HasPrefix(tokens[i], Tag(m))
    requires m != Ip4 ==> !HasPrefix(tokens[i], "ip4:")
    requires m == Include ==> !HasPrefix(tokens[i], "ip6:")
    ensures var v := TrimPrefix(tokens[i], Tag(m));
      Collect(parseIP, tokens[..i + 1], m)
      == Collect(parseIP, tokens[..i], m) + (if Keeps(parseIP, m, v) then [v] else [])
    ensures forall m' :: m' != m ==> Collect(parseIP, tokens[..i + 1], m') == Collect(parseIP, tokens[..i], m')
  {
    CollectStep(parseIP, tokens, i);
  }

  /** A field with none of the three tags changes nothing. */
  lemma CollectStepUntagged(parseIP: IPParser, tokens: seq<string>, i: nat)
    requires i < |tokens|
    requires !HasPrefix(tokens[i], "ip4:") && !HasPrefix(tokens[i], "ip6:") && !HasPrefix(tokens[i], "include:")
    ensures Collect(parseIP, tokens[..i + 1], Ip4) == Collect(parseIP, tokens[..i], Ip4)
    ensures Collect(parseIP, tokens[..i + 1], Ip6) == Collect(parseIP, tokens[..i], Ip6)
    ensures Collect(parseIP, tokens[..i + 1], Include) == Collect(parseIP, tokens[..i], Include)
  {
    assert tokens[..i + 1] == tokens[..i] + [tokens[i]];
    CollectSnoc(parseIP, tokens[..i], tokens[i]);
  }

  lemma CollectSingle(parseIP: IPParser, t: string, m: Mechanism)
    ensures Collect(parseIP, [t], m) == Contribution(parseIP, t, m)
  {
    assert [t][1..] == [];
  }

  /** Collecting distributes over concatenation of token lists. */
  lemma {:induction false} CollectAppend(parseIP: IPParser, a: seq<string>, b: seq<string>, m: Mechanism)
    ensures Collect(parseIP, a + b, m) == Collect(parseIP, a, m) + Collect(parseIP, b, m)
  {
    if a != [] {
      assert (a + b)[1..] == a[1..] + b;
      CollectAppend(parseIP, a[1..], b, m);
    } else {
      assert a + b == b;
    }
  }

  /**
   * A value is collected exactly when some token is the tag followed by that
   * value and the value is kept.
   */
  lemma {:induction false} CollectMembership(parseIP: IPParser, tokens: seq<string>, m: Mechanism, v: string)
    ensures v in Collect(parseIP, tokens, m)
            <==> Keeps(parseIP, m, v) && exists k :: 0 <= k < |tokens| && tokens[k] == Tag(m) + v
  {
    if tokens != [] {
      CollectMembership(parseIP, tokens[1..], m, v);
      var t := tokens[0];
      if HasPrefix(t, Tag(m)) {
        assert t == Tag(m) + TrimPrefix(t, Tag(m));
      }
      if t == Tag(m) + v {
        assert t[..|Tag(m)|] == Tag(m) && t[|Tag(m)|..] == v;
      }
      if exists k :: 0 <= k < |tokens| && tokens[k] == Tag(m) + v {
        var k :| 0 <= k < |tokens| && tokens[k] == Tag(m) + v;
        if k > 0 {
          assert tokens[1..][k - 1] == tokens[k];
        }
      }
      if exists k :: 0 <= k < |tokens[1..]| && tokens[1..][k] == Tag(m) + v {
        var k :| 0 <= k < |tokens[1..]| && tokens[1..][k] == Tag(m) + v;
        assert tokens[k + 1] == tokens[1..][k];
      }
    }
  }

  /**
   * Parsing fails exactly when the text, after its leading white space, does
   * not start with the version tag; nothing after the first field matters.
   */
  lemma ParseFailsExactly(parseIP: IPParser, spf: string)
    ensures ParsedRecord(parseIP, spf).Err? <==> !HasPrefix(TrimLeftSpace(spf), Version)
    ensures ParsedRecord(parseIP, spf).Err? ==> ParsedRecord(parseIP, spf).error == Error(InvalidRecord, [])
  {
    FirstFieldHasPrefix(spf, Version);
  }

  /** A text that starts with the version tag always parses. */
  lemma VersionFirstParses(parseIP: IPParser, spf: string)
    requires HasPrefix(spf, Version)
    ensures ParsedRecord(parseIP, spf).Ok?
  {
    VersionNoLeadingSpace(spf);
    ParseFailsExactly(parseIP, spf);
  }

  lemma VersionNoLeadingSpace(spf: string)
    requires HasPrefix(spf, Version)
    ensures TrimLeftSpace(spf) == spf
  {
    assert spf[0] == spf[..|Version|][0] == 'v';
  }

  /**
   * Fields after a good version tag never cause failure; they only extend
   * each list with their own entries.
   */
  lemma LaterFieldsOnlyExtend(parseIP: IPParser, parts: seq<string>, more: seq<string>)
    requires RecordOf(parseIP, parts).Ok?
    ensures RecordOf(parseIP, parts + more).Ok?
    ensures var r, r' := RecordOf(parseIP, parts).value, RecordOf(parseIP, parts + more).value;
      r'.ip4 == r.ip4 + Collect(parseIP, more, Ip4)
      && r'.ip6 == r.ip6 + Collect(parseIP, more, Ip6)
      && r'.includes == r.includes + Collect(parseIP, more, Include)
  {
    assert (parts + more)[1..] == parts[1..] + more;
    CollectAppend(parseIP, parts[1..], more, Ip4);
    CollectAppend(parseIP, parts[1..], more, Ip6);
    CollectAppend(parseIP, parts[1..], more, Include);
  }

  /**
   * Every entry of a parsed record is well formed: ip4 entries are valid IPv4,
   * ip6 entries valid IPv6, includes non-empty; and each comes from a field
   * carrying its tag.
   */
  lemma ParsedEntries(parseIP: IPParser, spf: string)
    requires ParsedRecord(parseIP, spf).Ok?
    ensures var r, rest := ParsedRecord(parseIP, spf).value, Fields(spf)[1..];
      (forall v :: v in r.ip4 ==> IsValidIP(parseIP, v, 4) && "ip4:" + v in rest)
      && (forall v :: v in r.ip6 ==> IsValidIP(parseIP, v, 6) && "ip6:" + v in rest)
      && (forall v :: v in r.includes ==> v != "" && "include:" + v in rest)
  {
    var rest := Fields(spf)[1..];
    forall m, v | v in Collect(parseIP, rest, m)
      ensures Keeps(parseIP, m, v) && Tag(m) + v in rest
    {
      CollectMembership(parseIP, rest, m, v);
    }
  }

  /** A field made of a tag and a value contributes that value, if kept, to that tag's list only. */
  lemma ContributionTagged(parseIP: IPParser, m: Mechanism, v: string)
    ensures Contribution(parseIP, Tag(m) + v, m) == (if Keeps(parseIP, m, v) then [v] else [])
    ensures forall m' :: m' != m ==> Contribution(parseIP, Tag(m) + v, m') == []
  {
    var t := Tag(m) + v;
    assert t[..|Tag(m)|] == Tag(m);
    assert TrimPrefix(t, Tag(m)) == v;
    TagsExclusive(t);
  }
}
