/**
 * `resolveDomain` and `flattenSPF`: depth-first expansion of includes with one
 * insert-only `visited` set as the cycle guard, then deduplication.
 */
module Flatten {
  import opened Wrappers
  import opened Text
  import opened Dedup
  import opened Record
  import opened Dns

  /**
   * What resolving yields: the entries or the error, the visited set
   * afterwards, and (for the proofs) the names looked up, in order.
   */
  datatype Outcome = Outcome(result: Result<seq<string>, Error>, visited: set<string>, lookups: seq<string>)

  /** Each wrapping layer names the include it was resolving. */
  function Wrap(e: Error, name: string): (r: Error)
    ensures r.kind == e.kind && r.via != [] && r.via[0] == name && r.via[1..] == e.via
  {
    Error(e.kind, [name] + e.via)
  }

  /** `ips` followed by a successful result; an error passes through. */
  function Prepend(ips: seq<string>, r: Result<seq<string>, Error>): Result<seq<string>, Error>
  {
    match r
    case Ok(more) => Ok(ips + more)
    case Err(e) => Err(e)
  }

  /**
   * The outcome of a whole include loop when `acc` and `lookups` are what the
   * iterations so far produced and `rest` is what the remaining ones produce.
   */
  function After(acc: seq<string>, lookups: seq<string>, rest: Outcome): Outcome
  {
    Outcome(Prepend(acc, rest.result), rest.visited, lookups + rest.lookups)
  }

  /** One iteration of the include loop, in terms of `After`: when the include fails. */
  lemma AfterStepErr(env: Env, acc: seq<string>, lookups: seq<string>, includes: seq<string>, k: nat,
                     visited: set<string>)
    requires k < |includes| && Resolution(env, includes[k], visited).result.Err?
    ensures var first := Resolution(env, includes[k], visited);
      After(acc, lookups, ResolutionOfAll(env, includes[k..], visited))
      == Outcome(Err(Wrap(first.result.error, includes[k])), first.visited, lookups + first.lookups)
  {
    assert includes[k..][0] == includes[k];
  }

  /** One iteration of the include loop, in terms of `After`: when the include resolves. */
  lemma AfterStepOk(env: Env, acc: seq<string>, lookups: seq<string>, includes: seq<string>, k: nat,
                    visited: set<string>)
    requires k < |includes| && Resolution(env, includes[k], visited).result.Ok?
    ensures var first := Resolution(env, includes[k], visited);
      After(acc, lookups, ResolutionOfAll(env, includes[k..], visited))
      == After(acc + first.result.value, lookups + first.lookups,
               ResolutionOfAll(env, includes[k + 1..], first.visited))
  {
    var first := Resolution(env, includes[k], visited);
    var rest := ResolutionOfAll(env, includes[k + 1..], first.visited);
    assert ResolutionOfAll(env, includes[k..], visited)
           == Outcome(Prepend(first.result.value, rest.result), rest.visited, first.lookups + rest.lookups) by {
      assert includes[k..][0] == includes[k];
      assert includes[k..][1..] == includes[k + 1..];
    }
    AfterAssociates(acc, lookups, first.result.value, first.lookups, rest);
  }

  lemma AfterAssociates(acc: seq<string>, lookups: seq<string>, ips: seq<string>, more: seq<string>, rest: Outcome)
    ensures After(acc, lookups, Outcome(Prepend(ips, rest.result), rest.visited, more + rest.lookups))
            == After(acc + ips, lookups + more, rest)
  {
    assert lookups + (more + rest.lookups) == (lookups + more) + rest.lookups;
    if rest.result.Ok? {
      assert acc + (ips + rest.result.value) == (acc + ips) + rest.result.value;
    }
  }

  /** The loop is over: nothing is left to add. */
  lemma AfterDone(env: Env, acc: seq<string>, lookups: seq<string>, includes: seq<string>, visited: set<string>)
    ensures After(acc, lookups, ResolutionOfAll(env, includes[|includes|..], visited)) == Outcome(Ok(acc), visited, lookups)
  {
    assert includes[|includes|..] == [];
    assert acc + [] == acc && lookups + [] == lookups;
  }

  /** How many names the DNS knows that are not visited yet: the termination measure. */
  function Unvisited(env: Env, visited: set<string>): nat
  {
    |env.dns.Keys - visited|
  }

  lemma {:induction false} CardinalityMono(a: set<string>, b: set<string>)
    requires a <= b
    ensures |a| <= |b|
  {
    if a != {} {
      var x :| x in a;
      CardinalityMono(a - {x}, b - {x});
    }
  }

  /** Entering a known, unvisited name strictly lowers the measure. */
  lemma EnterLowers(env: Env, d: string, visited: set<string>, later: set<string>)
    requires d in env.dns && d !in visited && visited + {d} <= later
    ensures Unvisited(env, later) < Unvisited(env, visited)
  {
    assert env.dns.Keys - (visited + {d}) == (env.dns.Keys - visited) - {d};
    CardinalityMono(env.dns.Keys - later, env.dns.Keys - (visited + {d}));
  }

  /** `resolveDomain(domain, visited)`. */
  function Resolution(env: Env, domain: string, visited: set<string>): (o: Outcome)
    ensures visited <= o.visited
    decreases Unvisited(env, visited), 0
  {
    var d := Lower(domain);
    if d in visited then Outcome(Ok([]), visited, [])
    else
      var entered := visited + {d};
      match FetchedRecord(env, d)
      case Err(e) => Outcome(Err(e), entered, [d])
      case Ok(rec) =>
        EnterLowers(env, d, visited, entered);
        var sub := ResolutionOfAll(env, rec.includes, entered);
        Outcome(Prepend(rec.ip4 + rec.ip6, sub.result), sub.visited, [d] + sub.lookups)
  }

  /** The include loop: resolve each name in order against the growing visited set. */
  function ResolutionOfAll(env: Env, includes: seq<string>, visited: set<string>): (o: Outcome)
    ensures visited <= o.visited
    decreases Unvisited(env, visited), 1, |includes|
  {
    if includes == [] then Outcome(Ok([]), visited, [])
    else
      var first := Resolution(env, includes[0], visited);
      match first.result
      case Err(e) => Outcome(Err(Wrap(e, includes[0])), first.visited, first.lookups)
      case Ok(ips) =>
        CardinalityMono(env.dns.Keys - first.visited, env.dns.Keys - visited);
        var rest := ResolutionOfAll(env, includes[1..], first.visited);
        Outcome(Prepend(ips, rest.result), rest.visited, first.lookups + rest.lookups)
  }

  /** `flattenSPF`: manual entries, then every include's entries, deduplicated. */
  function Flattened(env: Env, ip4List: seq<string>, ip6List: seq<string>, includeList: seq<string>)
    : (r: Result<seq<string>, Error>)
    ensures r.Ok? ==> NoDuplicates(r.value) && forall x :: x in ip4List || x in ip6List ==> x in r.value
    ensures r.Err? ==> r.error.via != [] && r.error.via[0] in includeList
  {
    ResolutionOfAllErrorNames(env, includeList, {});
    match ResolutionOfAll(env, includeList, {}).result
    case Err(e) => Err(e)
    case Ok(ips) => Ok(Deduplicated(ip4List + ip6List + ips))
  }

  method ResolveDomain(env: Env, domain: string, visited: set<string>)
    returns (ips: Result<seq<string>, Error>, visitedAfter: set<string>, ghost lookups: seq<string>)
    ensures ips == Resolution(env, domain, visited).result
    ensures visitedAfter == Resolution(env, domain, visited).visited
    ensures lookups == Resolution(env, domain, visited).lookups
    decreases Unvisited(env, visited)
  {
    var d := Lower(domain);
    if d in visited {
      return Ok([]), visited, [];
    }
    visitedAfter := visited + {d};
    var record := GetSPFRecord(env, d);
    if record.Err? {
      return Err(record.error), visitedAfter, [d];
    }
    var rec := record.value;
    var acc := rec.ip4 + rec.ip6;
    lookups := [d];
    assert rec.includes[0..] == rec.includes;
    for k := 0 to |rec.includes|
      invariant visited + {d} <= visitedAfter
      invariant Resolution(env, domain, visited)
                == After(acc, lookups, ResolutionOfAll(env, rec.includes[k..], visitedAfter))
    {
      var includeDomain := rec.includes[k];
      EnterLowers(env, d, visited, visitedAfter);
      var sub: Result<seq<string>, Error>;
      var subVisited: set<string>;
      ghost var subLookups: seq<string>;
      sub, subVisited, subLookups := ResolveDomain(env, includeDomain, visitedAfter);
      if sub.Err? {
        AfterStepErr(env, acc, lookups, rec.includes, k, visitedAfter);
        return Err(Wrap(sub.error, includeDomain)), subVisited, lookups + subLookups;
      }
      AfterStepOk(env, acc, lookups, rec.includes, k, visitedAfter);
      acc := acc + sub.value;
      visitedAfter := subVisited;
      lookups := lookups + subLookups;
    }
    AfterDone(env, acc, lookups, rec.includes, visitedAfter);
    ips := Ok(acc);
  }

  method FlattenSPF(env: Env, ip4List: seq<string>, ip6List: seq<string>, includeList: seq<string>)
    returns (res: Result<seq<string>, Error>, ghost lookups: seq<string>)
    ensures res == Flattened(env, ip4List, ip6List, includeList)
    ensures lookups == ResolutionOfAll(env, includeList, {}).lookups
  {
    var allIPs := ip4List + ip6List;
    var visited: set<string> := {};
    lookups := [];
    ghost var whole := After(allIPs, lookups, ResolutionOfAll(env, includeList, visited));
    assert includeList[0..] == includeList;
    for k := 0 to |includeList|
      invariant whole == After(allIPs, lookups, ResolutionOfAll(env, includeList[k..], visited))
    {
      var domain := includeList[k];
      var ips: Result<seq<string>, Error>;
      var visitedAfter: set<string>;
      ghost var subLookups: seq<string>;
      ips, visitedAfter, subLookups := ResolveDomain(env, domain, visited);
      if ips.Err? {
        AfterStepErr(env, allIPs, lookups, includeList, k, visited);
        return Err(Wrap(ips.error, domain)), lookups + subLookups;
      }
      AfterStepOk(env, allIPs, lookups, includeList, k, visited);
      allIPs := allIPs + ips.value;
      visited := visitedAfter;
      lookups := lookups + subLookups;
    }
    AfterDone(env, allIPs, lookups, includeList, visited);
    var uniqueIPs := DeduplicateIPs(allIPs);
    res := Ok(uniqueIPs);
  }

  // ---------------------------------------------------------------------------
  // What a resolution looks up

  function Elems(s: seq<string>): set<string>
  {
    set x | x in s
  }

  /**
   * The visited set grows by exactly the names looked up; no name is looked up
   * twice, and none that was already visited.
   */
  predicate LookupTrace(visited: set<string>, o: Outcome)
  {
    o.visited == visited + Elems(o.lookups)
    && NoDuplicates(o.lookups)
    && forall k :: 0 <= k < |o.lookups| ==> o.lookups[k] !in visited
  }

  lemma ElemsConcat(a: seq<string>, b: seq<string>)
    ensures Elems(a + b) == Elems(a) + Elems(b)
  {
  }

  lemma DisjointConcat(a: seq<string>, b: seq<string>)
    requires NoDuplicates(a) && NoDuplicates(b)
    requires forall k :: 0 <= k < |b| ==> b[k] !in Elems(a)
    ensures NoDuplicates(a + b)
  {
    forall i, j | 0 <= i < j < |a + b| ensures (a + b)[i] != (a + b)[j] {
      if i < |a| && j >= |a| {
        assert (a + b)[i] in Elems(a);
        assert (a + b)[j] == b[j - |a|];
      }
    }
  }

  /** Two resolutions in a row, the second starting where the first ended, keep the trace. */
  lemma TraceConcat(visited: set<string>, first: Outcome, rest: Outcome, r: Result<seq<string>, Error>)
    requires LookupTrace(visited, first) && LookupTrace(first.visited, rest)
    ensures LookupTrace(visited, Outcome(r, rest.visited, first.lookups + rest.lookups))
  {
    var a, b := first.lookups, rest.lookups;
    ElemsConcat(a, b);
    assert forall k :: 0 <= k < |b| ==> b[k] !in Elems(a);
    DisjointConcat(a, b);
    forall k | 0 <= k < |a + b| ensures (a + b)[k] !in visited {
      if k >= |a| {
        assert (a + b)[k] == b[k - |a|];
      }
    }
  }

  /**
   * The cycle guard: a name already visited is not looked up and adds nothing;
   * any other name is entered and looked up first, before its includes.
   */
  lemma {:induction false} ResolutionLookups(env: Env, domain: string, visited: set<string>)
    ensures var o := Resolution(env, domain, visited);
      LookupTrace(visited, o)
      && (Lower(domain) in visited ==> o == Outcome(Ok([]), visited, []))
      && (Lower(domain) !in visited ==> o.lookups != [] && o.lookups[0] == Lower(domain))
    decreases Unvisited(env, visited), 0
  {
    var d := Lower(domain);
    if d !in visited {
      var entered := visited + {d};
      assert LookupTrace(visited, Outcome(Ok([]), entered, [d])) by {
        assert Elems([d]) == {d};
      }
      if FetchedRecord(env, d).Ok? {
        var rec := FetchedRecord(env, d).value;
        EnterLowers(env, d, visited, entered);
        ResolutionOfAllLookups(env, rec.includes, entered);
        var sub := ResolutionOfAll(env, rec.includes, entered);
        TraceConcat(visited, Outcome(Ok([]), entered, [d]), sub, Prepend(rec.ip4 + rec.ip6, sub.result));
      }
    }
  }

  lemma {:induction false} ResolutionOfAllLookups(env: Env, includes: seq<string>, visited: set<string>)
    ensures LookupTrace(visited, ResolutionOfAll(env, includes, visited))
    decreases Unvisited(env, visited), 1, |includes|
  {
    if includes != [] {
      ResolutionLookups(env, includes[0], visited);
      var first := Resolution(env, includes[0], visited);
      if first.result.Ok? {
        CardinalityMono(env.dns.Keys - first.visited, env.dns.Keys - visited);
        ResolutionOfAllLookups(env, includes[1..], first.visited);
        var rest := ResolutionOfAll(env, includes[1..], first.visited);
        TraceConcat(visited, first, rest, Prepend(first.result.value, rest.result));
      }
    }
  }

  // ---------------------------------------------------------------------------
  // What a resolution yields

  /** What a looked-up name contributes by itself: its ip4 entries, then its ip6 entries. */
  function OwnEntries(env: Env, d: string): seq<string>
  {
    match FetchedRecord(env, d)
    case Ok(rec) => rec.ip4 + rec.ip6
    case Err(_) => []
  }

  /** The own entries of the names `ds`, in order. */
  function DirectEntries(env: Env, ds: seq<string>): seq<string>
  {
    if ds == [] then [] else OwnEntries(env, ds[0]) + DirectEntries(env, ds[1..])
  }

  predicate AllFetched(env: Env, ds: seq<string>)
  {
    forall k :: 0 <= k < |ds| ==> FetchedRecord(env, ds[k]).Ok?
  }

  /**
   * An outcome accounted for by its lookups: on success every lookup found a
   * record and the entries are their own entries in lookup order; on failure
   * every lookup but the last found a record, and the last one failed with
   * the same kind of error.
   */
  predicate Accounted(env: Env, o: Outcome)
  {
    match o.result
    case Ok(ips) => AllFetched(env, o.lookups) && ips == DirectEntries(env, o.lookups)
    case Err(e) =>
      o.lookups != []
      && AllFetched(env, o.lookups[..|o.lookups| - 1])
      && FetchedRecord(env, o.lookups[|o.lookups| - 1]).Err?
      && FetchedRecord(env, o.lookups[|o.lookups| - 1]).error.kind == e.kind
  }

  lemma {:induction false} DirectEntriesConcat(env: Env, a: seq<string>, b: seq<string>)
    ensures DirectEntries(env, a + b) == DirectEntries(env, a) + DirectEntries(env, b)
  {
    if a != [] {
      assert (a + b)[1..] == a[1..] + b;
      DirectEntriesConcat(env, a[1..], b);
    } else {
      assert a + b == b;
    }
  }

  lemma AllFetchedConcat(env: Env, a: seq<string>, b: seq<string>)
    ensures AllFetched(env, a + b) <==> AllFetched(env, a) && AllFetched(env, b)
  {
    assert forall k :: 0 <= k < |a| ==> (a + b)[k] == a[k];
    assert forall k :: 0 <= k < |b| ==> (a + b)[|a| + k] == b[k];
  }

  /** A resolution that succeeded, followed by another: the pair is accounted for. */
  lemma AccountedConcat(env: Env, first: Outcome, rest: Outcome, v: set<string>)
    requires first.result.Ok? && Accounted(env, first) && Accounted(env, rest)
    ensures Accounted(env, Outcome(Prepend(first.result.value, rest.result), v, first.lookups + rest.lookups))
  {
    if rest.result.Ok? {
      AccountedJoinOk(env, first, rest, v);
    } else {
      AccountedJoinErr(env, first.result.value, first.lookups, rest, v);
    }
  }

  lemma AccountedJoinOk(env: Env, first: Outcome, rest: Outcome, v: set<string>)
    requires first.result.Ok? && Accounted(env, first) && rest.result.Ok? && Accounted(env, rest)
    ensures Accounted(env, Outcome(Prepend(first.result.value, rest.result), v, first.lookups + rest.lookups))
  {
    AccountedConcatOk(env, first.lookups, rest.lookups);
  }

  lemma AccountedJoinErr(env: Env, ips: seq<string>, a: seq<string>, rest: Outcome, v: set<string>)
    requires AllFetched(env, a) && rest.result.Err? && Accounted(env, rest)
    ensures Accounted(env, Outcome(Prepend(ips, rest.result), v, a + rest.lookups))
  {
    AccountedConcatErr(env, a, rest.lookups);
  }

  lemma AccountedConcatOk(env: Env, a: seq<string>, b: seq<string>)
    requires AllFetched(env, a) && AllFetched(env, b)
    ensures AllFetched(env, a + b)
    ensures DirectEntries(env, a + b) == DirectEntries(env, a) + DirectEntries(env, b)
  {
    DirectEntriesConcat(env, a, b);
    AllFetchedConcat(env, a, b);
  }

  lemma AccountedConcatErr(env: Env, a: seq<string>, b: seq<string>)
    requires b != [] && AllFetched(env, a) && AllFetched(env, b[..|b| - 1])
    ensures (a + b)[|a + b| - 1] == b[|b| - 1]
    ensures AllFetched(env, (a + b)[..|a + b| - 1])
  {
    var c := b[..|b| - 1];
    assert (a + b)[..|a + b| - 1] == a + c;
    AllFetchedConcat(env, a, c);
  }

  /** A single lookup, accounted for by itself. */
  lemma AccountedSingle(env: Env, d: string, r: Result<seq<string>, Error>, v: set<string>)
    requires r == (match FetchedRecord(env, d) case Ok(rec) => Ok(rec.ip4 + rec.ip6) case Err(e) => Err(e))
    ensures Accounted(env, Outcome(r, v, [d]))
  {
    assert [d][..0] == [];
    assert [d][1..] == [];
  }

  lemma {:induction false} ResolutionAccounted(env: Env, domain: string, visited: set<string>)
    ensures Accounted(env, Resolution(env, domain, visited))
    decreases Unvisited(env, visited), 0
  {
    var d := Lower(domain);
    if d !in visited {
      var entered := visited + {d};
      match FetchedRecord(env, d)
      case Err(e) =>
        AccountedSingle(env, d, Err(e), entered);
      case Ok(rec) =>
        EnterLowers(env, d, visited, entered);
        ResolutionOfAllAccounted(env, rec.includes, entered);
        var sub := ResolutionOfAll(env, rec.includes, entered);
        var own := Outcome(Ok(rec.ip4 + rec.ip6), entered, [d]);
        AccountedSingle(env, d, own.result, entered);
        AccountedConcat(env, own, sub, sub.visited);
    }
  }

  lemma {:induction false} ResolutionOfAllAccounted(env: Env, includes: seq<string>, visited: set<string>)
    ensures Accounted(env, ResolutionOfAll(env, includes, visited))
    decreases Unvisited(env, visited), 1, |includes|
  {
    if includes != [] {
      ResolutionAccounted(env, includes[0], visited);
      var first := Resolution(env, includes[0], visited);
      if first.result.Ok? {
        CardinalityMono(env.dns.Keys - first.visited, env.dns.Keys - visited);
        ResolutionOfAllAccounted(env, includes[1..], first.visited);
        var rest := ResolutionOfAll(env, includes[1..], first.visited);
        AccountedConcat(env, first, rest, rest.visited);
      }
    }
  }

  // ---------------------------------------------------------------------------
  // Every include is followed

  /** The includes a name's record lists; none when it has no record. */
  function IncludesOf(env: Env, d: string): seq<string>
  {
    match FetchedRecord(env, d)
    case Ok(rec) => rec.includes
    case Err(_) => []
  }

  /** Every include listed by a name in `ds` is, lower-cased, in `vis`. */
  predicate Closed(env: Env, ds: seq<string>, vis: set<string>)
  {
    forall k, i :: 0 <= k < |ds| && i in IncludesOf(env, ds[k]) ==> Lower(i) in vis
  }

  lemma ClosedConcat(env: Env, a: seq<string>, b: seq<string>, va: set<string>, vb: set<string>)
    requires Closed(env, a, va) && Closed(env, b, vb) && va <= vb
    ensures Closed(env, a + b, vb)
  {
    forall k, i | 0 <= k < |a + b| && i in IncludesOf(env, (a + b)[k]) ensures Lower(i) in vb {
      if k < |a| {
        assert (a + b)[k] == a[k];
      } else {
        assert (a + b)[k] == b[k - |a|];
      }
    }
  }

  /**
   * After a resolution the name itself is visited; after a successful one,
   * every include of every name it looked up is visited too.
   */
  lemma {:induction false} ResolutionClosed(env: Env, domain: string, visited: set<string>)
    ensures var o := Resolution(env, domain, visited);
      Lower(domain) in o.visited && (o.result.Ok? ==> Closed(env, o.lookups, o.visited))
    decreases Unvisited(env, visited), 0
  {
    var d := Lower(domain);
    if d !in visited && FetchedRecord(env, d).Ok? {
      var rec := FetchedRecord(env, d).value;
      var entered := visited + {d};
      EnterLowers(env, d, visited, entered);
      ResolutionOfAllClosed(env, rec.includes, entered);
      var sub := ResolutionOfAll(env, rec.includes, entered);
      if sub.result.Ok? {
        assert Closed(env, [d], sub.visited) by {
          assert IncludesOf(env, d) == rec.includes;
        }
        ClosedConcat(env, [d], sub.lookups, sub.visited, sub.visited);
      }
    }
  }

  lemma {:induction false} ResolutionOfAllClosed(env: Env, includes: seq<string>, visited: set<string>)
    ensures var o := ResolutionOfAll(env, includes, visited);
      o.result.Ok? ==> (forall i :: i in includes ==> Lower(i) in o.visited) && Closed(env, o.lookups, o.visited)
    decreases Unvisited(env, visited), 1, |includes|
  {
    if includes != [] {
      ResolutionClosed(env, includes[0], visited);
      var first := Resolution(env, includes[0], visited);
      if first.result.Ok? {
        CardinalityMono(env.dns.Keys - first.visited, env.dns.Keys - visited);
        ResolutionOfAllClosed(env, includes[1..], first.visited);
        var rest := ResolutionOfAll(env, includes[1..], first.visited);
        if rest.result.Ok? {
          ClosedConcat(env, first.lookups, rest.lookups, first.visited, rest.visited);
          forall i | i in includes ensures Lower(i) in rest.visited {
            if i != includes[0] {
              assert i in includes[1..];
            }
          }
        }
      }
    }
  }

  /** A failure of the include loop names, first, the include being resolved when it happened. */
  lemma {:induction false} ResolutionOfAllErrorNames(env: Env, includes: seq<string>, visited: set<string>)
    ensures var o := ResolutionOfAll(env, includes, visited);
      o.result.Err? ==> o.result.error.via != [] && o.result.error.via[0] in includes
    decreases |includes|
  {
    if includes != [] {
      var first := Resolution(env, includes[0], visited);
      if first.result.Ok? {
        ResolutionOfAllErrorNames(env, includes[1..], first.visited);
      }
    }
  }

  /** Each name of `via` after the first is an include of the one before it (compared in lower case). */
  predicate IncludeChain(env: Env, via: seq<string>)
  {
    forall j :: 0 <= j < |via| - 1 ==> IsIncludeOf(env, via[j], via[j + 1])
  }

  /** `child` is listed among the includes of `parent` (looked up in lower case). */
  predicate IsIncludeOf(env: Env, parent: string, child: string)
  {
    child in IncludesOf(env, Lower(parent))
  }

  /** Wrapping under `name` keeps a chain when the old path starts with an include of `name`. */
  lemma IncludeChainCons(env: Env, name: string, via: seq<string>)
    requires IncludeChain(env, via) && (via != [] ==> IsIncludeOf(env, name, via[0]))
    ensures IncludeChain(env, [name] + via)
  {
    var w := [name] + via;
    forall j | 0 <= j < |w| - 1 ensures IsIncludeOf(env, w[j], w[j + 1]) {
      if j > 0 {
        assert w[j] == via[j - 1] && w[j + 1] == via[j];
      }
    }
  }

  /**
   * A failed outcome whose error path is a chain of includes ending at the
   * name whose lookup failed, which is the last one looked up.
   */
  predicate FailedAlongChain(env: Env, o: Outcome)
  {
    o.result.Err? ==>
      var via := o.result.error.via;
      via != [] && IncludeChain(env, via)
      && o.lookups != [] && o.lookups[|o.lookups| - 1] == Lower(via[|via| - 1])
  }

  /**
   * A failed resolution of `domain`: either `domain` itself failed, or the
   * error path starts with one of its includes and is a chain as above.
   */
  predicate FailedFrom(env: Env, domain: string, o: Outcome)
  {
    o.result.Err? ==>
      var via := o.result.error.via;
      (via == [] && o.lookups != [] && o.lookups[|o.lookups| - 1] == Lower(domain))
      || (via != [] && IsIncludeOf(env, domain, via[0]) && FailedAlongChain(env, o))
  }

  /** Wrapping a failure of `name` under `name` gives a failure along a chain. */
  lemma FailedAlongWrap(env: Env, name: string, o: Outcome)
    requires o.result.Err? && FailedFrom(env, name, o)
    ensures FailedAlongChain(env, Outcome(Err(Wrap(o.result.error, name)), o.visited, o.lookups))
  {
    if o.result.error.via == [] {
      FailedAlongWrapSelf(env, name, o.result.error, o.visited, o.lookups);
    } else {
      FailedAlongWrapNested(env, name, o.result.error, o.visited, o.lookups);
    }
  }

  /** `name` itself failed: the wrapped path is just `name`. */
  lemma FailedAlongWrapSelf(env: Env, name: string, e: Error, v: set<string>, ls: seq<string>)
    requires e.via == [] && ls != [] && ls[|ls| - 1] == Lower(name)
    ensures FailedAlongChain(env, Outcome(Err(Wrap(e, name)), v, ls))
  {
    assert Wrap(e, name).via == [name];
  }

  /** An include of `name` failed: the wrapped path puts `name` before the chain. */
  lemma FailedAlongWrapNested(env: Env, name: string, e: Error, v: set<string>, ls: seq<string>)
    requires e.via != [] && IsIncludeOf(env, name, e.via[0]) && IncludeChain(env, e.via)
    requires ls != [] && ls[|ls| - 1] == Lower(e.via[|e.via| - 1])
    ensures FailedAlongChain(env, Outcome(Err(Wrap(e, name)), v, ls))
  {
    var w := Wrap(e, name).via;
    assert w == [name] + e.via;
    IncludeChainCons(env, name, e.via);
    assert w[|w| - 1] == e.via[|e.via| - 1];
    assert Lower(w[|w| - 1]) == ls[|ls| - 1];
  }

  /** Lookups that succeeded, followed by a failure along a chain: still a failure along it. */
  lemma FailedAlongAfter(env: Env, ips: seq<string>, before: seq<string>, rest: Outcome)
    requires FailedAlongChain(env, rest)
    ensures FailedAlongChain(env, Outcome(Prepend(ips, rest.result), rest.visited, before + rest.lookups))
  {
    if rest.result.Err? {
      var ls := before + rest.lookups;
      assert ls[|ls| - 1] == rest.lookups[|rest.lookups| - 1];
    }
  }

  /** A failed resolution: its error path runs down a chain of includes from the starting name. */
  lemma {:induction false} ResolutionErrorChain(env: Env, domain: string, visited: set<string>)
    ensures FailedFrom(env, domain, Resolution(env, domain, visited))
    decreases Unvisited(env, visited), 0
  {
    var d := Lower(domain);
    if d !in visited {
      var entered := visited + {d};
      FetchedRecordCases(env, d);
      if FetchedRecord(env, d).Ok? {
        var rec := FetchedRecord(env, d).value;
        EnterLowers(env, d, visited, entered);
        ResolutionOfAllErrorChain(env, rec.includes, entered);
        ResolutionOfAllErrorNames(env, rec.includes, entered);
        var sub := ResolutionOfAll(env, rec.includes, entered);
        FailedAlongAfter(env, rec.ip4 + rec.ip6, [d], sub);
        assert IncludesOf(env, d) == rec.includes;
      }
    }
  }

  /**
   * A failed include loop: its error path starts with the include it was
   * resolving and runs down a chain of includes to the name whose lookup
   * failed, which is the last one looked up.
   */
  lemma {:induction false} ResolutionOfAllErrorChain(env: Env, includes: seq<string>, visited: set<string>)
    ensures FailedAlongChain(env, ResolutionOfAll(env, includes, visited))
    decreases Unvisited(env, visited), 1, |includes|
  {
    if includes != [] {
      ResolutionErrorChain(env, includes[0], visited);
      var first := Resolution(env, includes[0], visited);
      if first.result.Err? {
        FailedAlongWrap(env, includes[0], first);
      } else {
        CardinalityMono(env.dns.Keys - first.visited, env.dns.Keys - visited);
        ResolutionOfAllErrorChain(env, includes[1..], first.visited);
        FailedAlongAfter(env, first.result.value, first.lookups, ResolutionOfAll(env, includes[1..], first.visited));
      }
    }
  }

  // ---------------------------------------------------------------------------
  // Nothing else is looked up

  /** The includes of each name, as a function. */
  function IncludeMap(env: Env): string -> seq<string>
  {
    d => IncludesOf(env, d)
  }

  /** The names `roots`, lower-cased. */
  function Lowered(roots: seq<string>): (r: seq<string>)
    ensures |r| == |roots| && forall k :: 0 <= k < |roots| ==> r[k] == Lower(roots[k])
  {
    if roots == [] then [] else [Lower(roots[0])] + Lowered(roots[1..])
  }

  /** The includes (as `inc` lists them) of the names `ls`, lower-cased, in order. */
  function Children(inc: string -> seq<string>, ls: seq<string>): seq<string>
  {
    if ls == [] then [] else Lowered(inc(ls[0])) + Children(inc, ls[1..])
  }

  /**
   * Every name in `ls` was reached: it is one of the `roots` or an include of
   * a name before it (compared in lower case).
   */
  predicate Reached(inc: string -> seq<string>, roots: seq<string>, ls: seq<string>)
  {
    forall k :: 0 <= k < |ls| ==> ls[k] in Lowered(roots) || ls[k] in Children(inc, ls[..k])
  }

  lemma {:induction false} ChildrenConcat(inc: string -> seq<string>, a: seq<string>, b: seq<string>)
    ensures Children(inc, a + b) == Children(inc, a) + Children(inc, b)
  {
    if a == [] {
      assert a + b == b;
    } else {
      assert (a + b)[1..] == a[1..] + b;
      ChildrenConcat(inc, a[1..], b);
    }
  }

  /** A lower-cased name of `roots` is a lower-cased name of `more` when `roots` are among `more`. */
  lemma LoweredWiden(roots: seq<string>, more: seq<string>, x: string)
    requires x in Lowered(roots) && forall r :: r in roots ==> r in more
    ensures x in Lowered(more)
  {
    var k :| 0 <= k < |roots| && Lowered(roots)[k] == x;
    assert roots[k] in more;
    var j :| 0 <= j < |more| && more[j] == roots[k];
    assert Lowered(more)[j] == x;
  }

  lemma ReachedWiden(inc: string -> seq<string>, roots: seq<string>, more: seq<string>, ls: seq<string>)
    requires Reached(inc, roots, ls) && forall r :: r in roots ==> r in more
    ensures Reached(inc, more, ls)
  {
    forall k | 0 <= k < |ls| && ls[k] in Lowered(roots) ensures ls[k] in Lowered(more) {
      LoweredWiden(roots, more, ls[k]);
    }
  }

  lemma ReachedConcat(inc: string -> seq<string>, roots: seq<string>, a: seq<string>, b: seq<string>)
    requires Reached(inc, roots, a) && Reached(inc, roots, b)
    ensures Reached(inc, roots, a + b)
  {
    ReachedConcatFront(inc, roots, a, b);
    ReachedConcatBack(inc, roots, a, b);
  }

  lemma ReachedConcatFront(inc: string -> seq<string>, roots: seq<string>, a: seq<string>, b: seq<string>)
    requires Reached(inc, roots, a)
    ensures forall k :: 0 <= k < |a| ==>
      (a + b)[k] in Lowered(roots) || (a + b)[k] in Children(inc, (a + b)[..k])
  {
    forall k | 0 <= k < |a|
      ensures (a + b)[k] in Lowered(roots) || (a + b)[k] in Children(inc, (a + b)[..k])
    {
      ReachedKeep(inc, roots, a, b, k);
    }
  }

  lemma ReachedConcatBack(inc: string -> seq<string>, roots: seq<string>, a: seq<string>, b: seq<string>)
    requires Reached(inc, roots, b)
    ensures forall k :: |a| <= k < |a + b| ==>
      (a + b)[k] in Lowered(roots) || (a + b)[k] in Children(inc, (a + b)[..k])
  {
    forall k | |a| <= k < |a + b|
      ensures (a + b)[k] in Lowered(roots) || (a + b)[k] in Children(inc, (a + b)[..k])
    {
      ReachedShift(inc, roots, a, b, k);
    }
  }

  /** Position `k` of `a` keeps its reason once `b` follows. */
  lemma ReachedKeep(inc: string -> seq<string>, roots: seq<string>, a: seq<string>, b: seq<string>, k: int)
    requires 0 <= k < |a| && Reached(inc, roots, a)
    ensures (a + b)[k] in Lowered(roots) || (a + b)[k] in Children(inc, (a + b)[..k])
  {
    assert (a + b)[k] == a[k] && (a + b)[..k] == a[..k];
  }

  /** Position `k` of `a + b`, inside `b`, keeps its reason once `a` precedes it. */
  lemma ReachedShift(inc: string -> seq<string>, roots: seq<string>, a: seq<string>, b: seq<string>, k: int)
    requires |a| <= k < |a + b| && Reached(inc, roots, b)
    ensures (a + b)[k] in Lowered(roots) || (a + b)[k] in Children(inc, (a + b)[..k])
  {
    var m := k - |a|;
    assert (a + b)[k] == b[m] && (a + b)[..k] == a + b[..m];
    ChildrenConcat(inc, a, b[..m]);
  }

  /** A name looked up first, then names reached from its includes. */
  lemma ReachedEnter(inc: string -> seq<string>, domain: string, sub: seq<string>)
    requires Reached(inc, inc(Lower(domain)), sub)
    ensures Reached(inc, [domain], [Lower(domain)] + sub)
  {
    var d := Lower(domain);
    var ls := [d] + sub;
    forall k | 0 <= k < |ls| ensures ls[k] in Lowered([domain]) || ls[k] in Children(inc, ls[..k]) {
      if k == 0 {
        assert Lowered([domain])[0] == d;
      } else {
        ReachedEnterAt(inc, d, sub, k - 1);
      }
    }
  }

  /** Position `m` of the names reached from the includes of `d`, once `d` is put before them. */
  lemma ReachedEnterAt(inc: string -> seq<string>, d: string, sub: seq<string>, m: int)
    requires 0 <= m < |sub|
    requires sub[m] in Lowered(inc(d)) || sub[m] in Children(inc, sub[..m])
    ensures ([d] + sub)[m + 1] in Children(inc, ([d] + sub)[..m + 1])
  {
    assert ([d] + sub)[m + 1] == sub[m] && ([d] + sub)[..m + 1] == [d] + sub[..m];
    ChildrenConcat(inc, [d], sub[..m]);
    assert Children(inc, [d]) == Lowered(inc(d)) + Children(inc, []);
  }

  /** A resolution looks up the starting name and names reached from it, nothing else. */
  lemma {:induction false} ResolutionReached(env: Env, domain: string, visited: set<string>)
    ensures Reached(IncludeMap(env), [domain], Resolution(env, domain, visited).lookups)
    decreases Unvisited(env, visited), 0
  {
    var d := Lower(domain);
    if d !in visited {
      var entered := visited + {d};
      match FetchedRecord(env, d)
      case Err(_) =>
        ReachedEnter(IncludeMap(env), domain, []);
        assert [d] + [] == [d];
      case Ok(rec) =>
        EnterLowers(env, d, visited, entered);
        ResolutionOfAllReached(env, rec.includes, entered);
        assert IncludeMap(env)(d) == rec.includes;
        ReachedEnter(IncludeMap(env), domain, ResolutionOfAll(env, rec.includes, entered).lookups);
    }
  }

  lemma {:induction false} ResolutionOfAllReached(env: Env, includes: seq<string>, visited: set<string>)
    ensures Reached(IncludeMap(env), includes, ResolutionOfAll(env, includes, visited).lookups)
    decreases Unvisited(env, visited), 1, |includes|
  {
    if includes != [] {
      ResolutionReached(env, includes[0], visited);
      var first := Resolution(env, includes[0], visited);
      ReachedWiden(IncludeMap(env), [includes[0]], includes, first.lookups);
      if first.result.Ok? {
        CardinalityMono(env.dns.Keys - first.visited, env.dns.Keys - visited);
        ResolutionOfAllReached(env, includes[1..], first.visited);
        var rest := ResolutionOfAll(env, includes[1..], first.visited);
        ReachedWiden(IncludeMap(env), includes[1..], includes, rest.lookups);
        ReachedConcat(IncludeMap(env), includes, first.lookups, rest.lookups);
      }
    }
  }

  // ---------------------------------------------------------------------------
  // What `flattenSPF` promises

  /**
   * `flattenSPF` succeeds exactly when every name it looks up has an SPF
   * record; the entries are then the manual ones followed by the looked-up
   * names' own ones, each kept once, at its first occurrence.
   */
  lemma FlattenedEntries(env: Env, ip4List: seq<string>, ip6List: seq<string>, includeList: seq<string>)
    ensures var ls := ResolutionOfAll(env, includeList, {}).lookups;
      var all := ip4List + ip6List + DirectEntries(env, ls);
      var f := Flattened(env, ip4List, ip6List, includeList);
      (f.Ok? <==> AllFetched(env, ls))
      && (f.Ok? ==> NoDuplicates(f.value)
                    && (forall x :: x in f.value <==> x in ip4List || x in ip6List || x in DirectEntries(env, ls))
                    && InFirstOccurrenceOrder(f.value, all))
  {
    var o := ResolutionOfAll(env, includeList, {});
    ResolutionOfAllAccounted(env, includeList, {});
    if o.result.Ok? {
      DeduplicatedOrder(ip4List + ip6List + o.result.value);
    } else {
      var n := |o.lookups| - 1;
      assert !FetchedRecord(env, o.lookups[n]).Ok?;
    }
  }

  /**
   * Each name is looked up at most once; after a success every include named
   * on the command line, and every include of every looked-up name, has been
   * looked up (compared in lower case). Conversely, every name looked up is
   * an include named on the command line or an include of a name looked up
   * before it.
   */
  lemma FlattenedLookups(env: Env, ip4List: seq<string>, ip6List: seq<string>, includeList: seq<string>)
    ensures var ls := ResolutionOfAll(env, includeList, {}).lookups;
      NoDuplicates(ls)
      && (Flattened(env, ip4List, ip6List, includeList).Ok? ==>
            (forall i :: i in includeList ==> Lower(i) in ls)
            && forall k, i :: 0 <= k < |ls| && i in IncludesOf(env, ls[k]) ==> Lower(i) in ls)
      && forall k :: 0 <= k < |ls| ==> ls[k] in Lowered(includeList) || ls[k] in Children(IncludeMap(env), ls[..k])
  {
    var o := ResolutionOfAll(env, includeList, {});
    ResolutionOfAllReached(env, includeList, {});
    ResolutionOfAllLookups(env, includeList, {});
    ResolutionOfAllClosed(env, includeList, {});
    assert o.visited == Elems(o.lookups);
  }

  /**
   * A failure names the include given on the command line under which it
   * happened, then each nested include down to the name that failed; that
   * name is the last one looked up, and its query failed or it has no SPF
   * record; a record that is invalid never surfaces.
   */
  lemma FlattenedFailure(env: Env, ip4List: seq<string>, ip6List: seq<string>, includeList: seq<string>)
    requires Flattened(env, ip4List, ip6List, includeList).Err?
    ensures var e, ls := Flattened(env, ip4List, ip6List, includeList).error,
                         ResolutionOfAll(env, includeList, {}).lookups;
      e.via != [] && e.via[0] in includeList
      && ls != [] && FetchedRecord(env, ls[|ls| - 1]).Err?
      && e.kind == FetchedRecord(env, ls[|ls| - 1]).error.kind
      && e.kind != InvalidRecord
      && IncludeChain(env, e.via) && ls[|ls| - 1] == Lower(e.via[|e.via| - 1])
  {
    var ls := ResolutionOfAll(env, includeList, {}).lookups;
    ResolutionOfAllErrorNames(env, includeList, {});
    ResolutionOfAllErrorChain(env, includeList, {});
    ResolutionOfAllAccounted(env, includeList, {});
    FetchedRecordCases(env, ls[|ls| - 1]);
  }

  /** A name with a record, not yet visited: its entries, then those of its includes. */
  lemma ResolutionEnters(env: Env, d: string, visited: set<string>, rec: SPFRecord)
    requires Lower(d) == d && d !in visited && FetchedRecord(env, d) == Ok(rec)
    ensures var sub := ResolutionOfAll(env, rec.includes, visited + {d});
      Resolution(env, d, visited) == Outcome(Prepend(rec.ip4 + rec.ip6, sub.result), sub.visited, [d] + sub.lookups)
  {
  }

  /** An include loop over one name is the resolution of that name, its error wrapped. */
  lemma ResolutionOfOne(env: Env, name: string, visited: set<string>)
    ensures var o := Resolution(env, name, visited);
      ResolutionOfAll(env, [name], visited)
      == match o.result
         case Ok(_) => o
         case Err(e) => Outcome(Err(Wrap(e, name)), o.visited, o.lookups)
  {
    assert [name][1..] == [];
    var o := Resolution(env, name, visited);
    if o.result.Ok? {
      assert o.lookups + [] == o.lookups && o.result.value + [] == o.result.value;
    }
  }

  /**
   * Two domains that include each other: each is looked up once, the cycle
   * is cut by the visited set, and both contribute their entries.
   */
  lemma IncludeCycle(env: Env, a: string, b: string, x: string, y: string)
    requires Lower(a) == a && Lower(b) == b && a != b && x != y
    requires FetchedRecord(env, a) == Ok(SPFRecord([x], [], [b]))
    requires FetchedRecord(env, b) == Ok(SPFRecord([], [y], [a]))
    ensures Flattened(env, [], [], [a]) == Ok([x, y])
    ensures ResolutionOfAll(env, [a], {}).lookups == [a, b]
  {
    IncludeCycleBack(env, a, b, y);
    ResolutionEnters(env, a, {}, SPFRecord([x], [], [b]));
    assert {} + {a} == {a};
    assert Resolution(env, a, {}) == Outcome(Ok([x, y]), {a, b}, [a, b]) by {
      assert [x] + [] + [y] == [x, y] && [a] + [b] == [a, b];
    }
    ResolutionOfOne(env, a, {});
    DeduplicatedDistinct([x, y]);
    assert [] + [] + [x, y] == [x, y];
  }

  /** The inner half of the cycle: from `a`, the include of `b` leads back to `a` and stops. */
  lemma IncludeCycleBack(env: Env, a: string, b: string, y: string)
    requires Lower(a) == a && Lower(b) == b && a != b
    requires FetchedRecord(env, b) == Ok(SPFRecord([], [y], [a]))
    ensures ResolutionOfAll(env, [b], {a}) == Outcome(Ok([y]), {a, b}, [b])
  {
    var both := {a, b};
    ResolutionLookups(env, a, both);
    ResolutionOfOne(env, a, both);
    assert ResolutionOfAll(env, [a], both) == Outcome(Ok([]), both, []);
    ResolutionEnters(env, b, {a}, SPFRecord([], [y], [a]));
    assert {a} + {b} == both;
    assert Resolution(env, b, {a}) == Outcome(Ok([y]), both, [b]) by {
      assert [] + [y] + [] == [y] && [b] + [] == [b];
    }
    ResolutionOfOne(env, b, {a});
  }

  /** A name not yet visited whose record cannot be had: the failure, and only it is looked up. */
  lemma ResolutionFails(env: Env, domain: string, visited: set<string>)
    requires Lower(domain) !in visited && FetchedRecord(env, Lower(domain)).Err?
    ensures var d := Lower(domain);
      Resolution(env, domain, visited) == Outcome(Err(FetchedRecord(env, d).error), visited + {d}, [d])
  {
  }

  /**
   * An include whose record cannot be had (under its lower-case name) makes the
   * whole run fail with the same kind of error, naming that include as given
   * and returning no entries; that name is the only one looked up.
   */
  lemma FailingInclude(env: Env, n: string, ip4List: seq<string>, ip6List: seq<string>)
    requires FetchedRecord(env, Lower(n)).Err?
    ensures Flattened(env, ip4List, ip6List, [n]) == Err(Error(FetchedRecord(env, Lower(n)).error.kind, [n]))
    ensures ResolutionOfAll(env, [n], {}).lookups == [Lower(n)]
  {
    FetchedRecordCases(env, Lower(n));
    ResolutionFails(env, n, {});
    ResolutionOfOne(env, n, {});
    assert [n] + [] == [n];
  }

  /** A name the DNS does not answer, in any case, is a failed query, and the run fails naming it. */
  lemma UnansweredInclude(env: Env, n: string, ip4List: seq<string>, ip6List: seq<string>)
    requires Lower(n) !in env.dns
    ensures Flattened(env, ip4List, ip6List, [n]) == Err(Error(QueryFailed, [n]))
  {
    FailingInclude(env, n, ip4List, ip6List);
  }

  /**
   * Without includes nothing is looked up and the manual entries, whatever
   * they are, are only deduplicated: they are not checked to be addresses.
   */
  lemma FlattenedWithoutIncludes(env: Env, ip4List: seq<string>, ip6List: seq<string>)
    ensures Flattened(env, ip4List, ip6List, []) == Ok(Deduplicated(ip4List + ip6List))
    ensures ResolutionOfAll(env, [], {}).lookups == []
  {
    assert ip4List + ip6List + [] == ip4List + ip6List;
  }

  /** Without includes nothing is looked up, and repeated manual entries are kept once. */
  lemma ManualEntriesOnly(env: Env)
    ensures Flattened(env, ["198.51.100.1", "198.51.100.1"], ["2001:db8::1"], []) == Ok(["198.51.100.1", "2001:db8::1"])
    ensures ResolutionOfAll(env, [], {}).lookups == []
  {
    var s := ["198.51.100.1", "198.51.100.1", "2001:db8::1"];
    assert ["198.51.100.1", "198.51.100.1"] + ["2001:db8::1"] + [] == s;
    assert Deduplicated(s) == ["198.51.100.1", "2001:db8::1"] by {
      assert s[..2] == ["198.51.100.1", "198.51.100.1"];
      assert s[..1] == ["198.51.100.1"];
    }
  }
}
