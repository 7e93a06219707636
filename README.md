# SPF flattener, modelled in Dafny

`dns-spf-flattener` turns an SPF policy into a flat list of addresses. It
takes manual `ip4`/`ip6` entries and a list of include domains. For each
include it fetches the domain's TXT records and picks the SPF text. It parses
the `ip4:`, `ip6:` and `include:` mechanisms out of that text, then follows
the includes depth first. One `visited` set guards against include cycles.
The result is the manual entries followed by every included entry, each kept
once.

The model follows `main.go` function by function:

- `wrappers.dfy`: `Option` and `Result`.
- `text.dfy`: the Go string operations the code relies on, over `seq<char>`.
  These are `strings.ToLower` (ASCII letters only), `HasPrefix`/`TrimPrefix`,
  `strings.Fields` with Go's white-space set, and the text before the first
  `/`.
- `dedup.dfy`: `deduplicateIPs`. It is a method with the `seen` loop, proved
  equal to a recursive specification `Deduplicated`.
- `ipaddr.dfy`: `isValidIP`. `net.ParseIP` and `To4` are a parameter
  `parseIP: string -> IPForm`: not an address, or an address with or without
  a 4-byte form.
- `record.dfy`: `parseSPFRecord`. `ParseSPFRecord` checks the version tag and
  hands the remaining fields to `CollectMechanisms`, the loop with the
  if-else-if chain. `CollectMechanisms` is proved equal to `Collect`, list by
  list. `ParseSPFRecord` is proved equal to `ParsedRecord`, which is built
  from `Collect`.
- `dns.dfy`: `getSPFRecord` after the exchange. The DNS is an `Env`:
  - a finite map from names to replies, where a reply is a failed query or a
    list of answers (TXT records with their segments, or other records);
  - the address parser.

  `SelectSpfText` is the nested selection loop, proved equal to
  `SelectedSpfText`.
- `flatten.dfy`: `resolveDomain` and `flattenSPF`. They are recursive and
  looping methods that thread the `visited` set through. They are proved equal
  to the mutually recursive specifications `Resolution` and `ResolutionOfAll`.
  The specifications also record, as a ghost trace, the names looked up in
  order.

### Termination

Recursion terminates on the number of keys of the DNS map that are not yet
visited. Every key counts, including a name whose reply is a failed query.
Only a name with a record leads to further lookups, and such a name is a key,
so entering it removes one from the count. Any other name fails without
recursing. So the model assumes a finite DNS, which the Go code does not
bound.

### Errors

An error is a kind plus `via`, the chain of include names. The kinds are:

- `QueryFailed`: transport error, non-success response code, or a name the
  map does not know.
- `NoRecord`: no segment starts with `v=spf1`.
- `InvalidRecord`: parsing rejected the text.

Each wrapping layer of the Go code (`failed to resolve include %s`,
`failed to resolve include domain %s`) prepends its name to `via`. So `via`
is a chain of includes: it starts with an include given on the command line,
each later name is an include of the one before, and the last one is the name
whose lookup failed (`Flatten.FlattenedFailure`).

### Behaviour worth knowing

- **Last answer wins.** In the TXT selection, the `break` at `main.go:128`
  leaves only the loop over segments. A later TXT answer with an SPF segment
  therefore replaces an earlier one. Within one answer, the first SPF segment
  wins. This is proved in `Dns.LastSpfAnswerWins` and
  `Dns.LaterAnswerOverrides`.
- **`InvalidRecord` never surfaces.** The selected text always starts with
  `v=spf1`, because it is chosen for exactly that reason. So its first field
  carries the version tag and parsing cannot fail. `getSPFRecord` therefore
  returns only `QueryFailed` or `NoRecord` errors, and so does the whole run.
  This is proved in `Dns.FetchedRecordCases` and `Flatten.FlattenedFailure`.
  `parseSPFRecord` on its own does reject texts, as `Record.ParseFailsExactly`
  shows.
- **A missing domain is a failed query, not `NoRecord`.** A domain that does
  not exist comes back as a non-success response code, so its failure is
  `QueryFailed` (`Flatten.UnansweredInclude`). `NoRecord` needs an answer
  that has no SPF segment (`Flatten.FailingInclude` covers both).
- **Repeated includes are not a second lookup.** An include already visited,
  by a cycle or by being listed twice anywhere in the tree, contributes
  nothing a second time. Each name is looked up at most once per run. Every
  name looked up is a given include or an include of a name looked up before
  it (`Flatten.FlattenedLookups`).

## Model

| member | source | states |
|---|---|---|
| Text.Lower | main.go:78 | The lowered name has the same length, and each character is the ASCII lower-case form of the original. |
| Text.LowerIdempotent | main.go:78 | Lowering a lowered name changes nothing. |
| Text.TrimPrefix | main.go:155 | The prefix followed by the trimmed text is the original field. |
| Text.Fields | main.go:148 | Every field `strings.Fields` yields is non-empty and holds no white space. |
| Text.FieldsJoin | main.go:148 | The fields, laid end to end, are exactly the text's non-space characters in order: splitting loses and adds nothing. |
| Text.FieldsWord | main.go:148 | A non-empty text without white space is a single field, the whole text. |
| Text.FieldsHead | main.go:148 | A field ends only at white space: a space-free word followed by a white-space character is the first field, and the fields of the rest follow. |
| Text.FieldsEmpty | main.go:148-149 | There are no fields exactly when the text is all white space. |
| Text.FirstFieldHasPrefix | main.go:148-149 | The first field starts with a space-free tag exactly when the text, after its leading white space, does. |
| Text.BeforeSlash | main.go:176-177 | The address part has no '/', is a prefix of the entry, and ends at the first '/' or at the end. |
| Text.BeforeSlashWhole | main.go:176 | An entry without '/' is used whole. |
| Text.BeforeSlashCut | main.go:177 | For `a/b` with no '/' in `a`, only `a` is kept. |
| Dedup.Deduplicated | main.go:189-201 | The deduplicated list has no duplicates, the same elements as the input, and is no longer. |
| Dedup.DeduplicateIPs | main.go:189-201 | The `seen`-map loop returns exactly `Deduplicated` of its input. |
| Dedup.DeduplicatedOrder | main.go:193-197 | The kept elements appear in the order of their first occurrence in the input. |
| Dedup.DeduplicatedDistinct | main.go:193-197 | A list without duplicates comes back unchanged. |
| Dedup.DeduplicatedIdempotent | main.go:189-201 | Deduplicating twice gives the same as deduplicating once. |
| IPAddr.IsValidIP | main.go:175-187 | A valid entry's address part parses, with a 4-byte form exactly when version 4 was asked for. A valid non-4 entry holds ':' before any '/'. Conversely, a 4-byte parse makes a version-4 entry valid, and a parse without a 4-byte form whose address part holds ':' makes a non-4 entry valid. |
| IPAddr.FamiliesExclusive | main.go:183-186 | No entry is valid both as IPv4 and as IPv6. |
| IPAddr.IPv6HasColon | main.go:186 | A valid IPv6 entry has a ':' before its first '/'. |
| IPAddr.PrefixLengthIgnored | main.go:176-178 | `a/b` is valid for a family exactly when `a` is: the prefix length is never examined. |
| IPAddr.IPv4Examples | main.go:179-186 | When the parser reads `203.0.113.5` with a 4-byte form, the entry `203.0.113.5` is valid IPv4 and not IPv6. |
| IPAddr.IPv4NetworkExample | main.go:176-184 | When the parser reads `203.0.113.5` with a 4-byte form, the network entry `203.0.113.5/24` is valid IPv4: only the text before '/' is parsed. |
| IPAddr.IPv6Examples | main.go:179-186 | When the parser reads `2001:db8::1` without a 4-byte form, the entry `2001:db8::1` is valid IPv6 (it holds ':') and not IPv4. |
| IPAddr.NotAnIPExample | main.go:179-182 | When the parser rejects `not-an-ip`, the entry `not-an-ip` (which has no '/', so it is parsed whole) is valid for neither family. |
| Record.ParseSPFRecord | main.go:141-173 | The method's result is `ParsedRecord` of the text: an error when there are no fields or the first field lacks `v=spf1`, otherwise the three collected lists. |
| Record.CollectMechanisms | main.go:153-170 | The loop's three lists are, for each mechanism, the kept values of the fields with its tag, in field order. |
| Record.CollectStep | main.go:154-169 | One more field changes the lists exactly as the if-else-if chain does: the first matching tag decides, and invalid or empty values are dropped. |
| Record.TagsExclusive | main.go:154-164 | A field can carry at most one of the three tags. |
| Record.ContributionTagged | main.go:154-168 | A tag plus a value contributes that value, if kept, to that tag's list and to no other. |
| Record.CollectAppend | main.go:153-170 | Collecting a concatenation of field lists concatenates the results. |
| Record.CollectMembership | main.go:153-170 | A value is collected for a mechanism exactly when it is kept and some field is the tag followed by it. |
| Record.ParseFailsExactly | main.go:148-151 | Parsing fails, with `InvalidRecord`, exactly when the text after its leading white space does not start with `v=spf1`. |
| Record.VersionFirstParses | main.go:148-151 | A text starting with `v=spf1` always parses. |
| Record.LaterFieldsOnlyExtend | main.go:153-170 | Fields after a valid version tag never cause failure; they only append their own entries. |
| Record.ParsedEntries | main.go:153-170 | Every ip4 entry is valid IPv4, every ip6 entry valid IPv6, every include non-empty, and each comes from a field with its tag. |
| Dns.SelectSpfText | main.go:122-132 | The nested loop with its inner `break` yields `SelectedSpfText`. |
| Dns.FirstSpfSegmentSpec | main.go:125-130 | Within one TXT record, the first segment that starts with `v=spf1` regardless of case is chosen, lower-cased. There is none exactly when no segment qualifies. |
| Dns.SelectedStartsWithVersion | main.go:126-127 | A selected SPF text starts with `v=spf1`. |
| Dns.NoSpfTextExactly | main.go:122-136 | No text is selected exactly when no segment of any TXT answer starts with `v=spf1` regardless of case. |
| Dns.LastSpfAnswerWins | main.go:123-132 | The selected text comes from an answer after which no answer has an SPF segment. |
| Dns.LaterAnswerOverrides | main.go:123-132 | With answers `v=spf1 a` and then `x`, `V=SPF1 b`, `v=spf1 c`, the text chosen is `v=spf1 b`. |
| Dns.SelectedTextParses | main.go:134-138 | Whatever text is selected parses successfully. |
| Dns.FetchedRecord | main.go:105-139 | A record is returned only for a name the DNS answers. |
| Dns.GetSPFRecord | main.go:105-139 | Exchange, selection and parsing together yield `FetchedRecord`. |
| Dns.FetchedRecordCases | main.go:113-138 | The fetch fails with `QueryFailed` exactly on a failed exchange, and with `NoRecord` exactly when no SPF text is selected. It never fails with `InvalidRecord`. |
| Flatten.Wrap | main.go:97 | Wrapping keeps the error's kind and puts the include's name in front of the path; `main.go:68` wraps the same way. |
| Flatten.Resolution | main.go:77-103 | Resolving a name only ever adds to the visited set. |
| Flatten.ResolutionOfAll | main.go:94-100 | The include loop only ever adds to the visited set. |
| Flatten.ResolveDomain | main.go:77-103 | The recursive method's entries or error, and its visited set afterwards, are those of `Resolution`. |
| Flatten.Flattened | main.go:58-75 | A successful run's list has no duplicates and keeps every manual entry. A failed run's error names an include given on the command line first. |
| Flatten.FlattenSPF | main.go:58-75 | The method returns `Flattened`; its lookups are those of the include loop from an empty visited set. |
| Flatten.EnterLowers | main.go:80-83 | Entering a known, unvisited name lowers the count of unvisited known names: the recursion terminates. |
| Flatten.ResolutionLookups | main.go:78-85 | An already-visited lower-cased name is not looked up and leaves everything unchanged. Otherwise it is looked up first. The visited set grows by exactly the names looked up, none twice and none visited before. |
| Flatten.ResolutionOfAllLookups | main.go:94-100 | Across an include loop, the visited set grows by exactly the names looked up, none twice and none visited before. |
| Flatten.ResolutionAccounted | main.go:85-102 | Success means every lookup found a record, and the entries are each looked-up name's ip4 then ip6 entries, in lookup order. Failure means the last lookup failed with the same kind and all earlier ones succeeded. |
| Flatten.ResolutionOfAllAccounted | main.go:94-100 | The same account holds for a whole include loop. |
| Flatten.ResolutionClosed | main.go:80-100 | After resolving, the name is visited. After a success, every include of every looked-up name is visited. |
| Flatten.ResolutionOfAllClosed | main.go:94-100 | After a successful include loop, every listed include and every include of every looked-up name is visited. |
| Flatten.ResolutionOfAllErrorNames | main.go:94-98 | A failing include loop's error names first the include it was resolving. |
| Flatten.ResolutionErrorChain | main.go:85-98 | A failed resolution either failed at the starting name itself, which is then the last lookup, with an empty path; or its path starts with an include of the starting name, is a chain of includes, and ends at the last name looked up. |
| Flatten.ResolutionOfAllErrorChain | main.go:94-98 | A failed include loop's path is a non-empty chain of includes ending at the last name looked up. |
| Flatten.ResolutionReached | main.go:77-100 | Every name a resolution looks up is the starting name, lower-cased, or an include of a name it looked up earlier. |
| Flatten.ResolutionOfAllReached | main.go:94-100 | Every name an include loop looks up is one of its includes, lower-cased, or an include of a name it looked up earlier. |
| Flatten.FlattenedEntries | main.go:58-75 | The run succeeds exactly when every looked-up name has a record. The result is then duplicate-free, holds exactly the manual entries and the looked-up names' own entries, and follows their first-occurrence order. |
| Flatten.FlattenedLookups | main.go:64-71 | No name is looked up twice. After a success, every include given and every include of every looked-up name was looked up. Conversely, every name looked up is a given include or an include of a name looked up before it (all in lower case). |
| Flatten.FlattenedFailure | main.go:65-69 | A failure's path starts with a given include and runs down a chain of includes to the last name looked up. The failure has that lookup's kind, which is never `InvalidRecord`. |
| Flatten.IncludeCycle | main.go:77-103 | Two domains that include each other are each looked up once, and both contribute their entries. |
| Flatten.FailingInclude | main.go:65-69 | An include, in any letter case, whose lower-cased fetch fails makes the run fail with the same kind. The error names the include as given, there is no partial list, and only the lower-cased name is looked up. |
| Flatten.UnansweredInclude | main.go:113-116 | An include whose lower-cased name the DNS does not answer fails the run with `QueryFailed`, naming the include as given. |
| Flatten.FlattenedWithoutIncludes | main.go:58-75 | Without includes nothing is looked up, and the manual entries are deduplicated but not validated. |
| Flatten.ManualEntriesOnly | main.go:61-73 | A repeated manual entry is kept once, before the IPv6 entries. |

## Left out

- `main` (`main.go:19-56`) is not modelled: flag parsing, the usage check, printing, and the `ip4:`/`ip6:` decoration of the output are command-line I/O.
- The DNS exchange (`main.go:106-120`) is a network call. It is replaced by a fixed reply per name: `dns.Fqdn`, EDNS0, recursion-desired and the resolver address are not modelled, and every non-success response code becomes `QueryFailed`.
- The DNS is modelled as finite, and each name always gets the same reply. Each name is looked up at most once per run, so a fixed reply loses nothing for one run. Finiteness is what makes the recursion terminate; the Go code has no such bound.
- `getDNSResolver` (`main.go:203-208`) reads an environment variable and is not modelled.
- The `stringSlice` flag adapter (`main.go:210-219`) is not modelled.
- `net.ParseIP` and `To4` are a parameter of the model, not a definition.
- Text.Lower: does not model `strings.ToLower` beyond ASCII, because non-ASCII case mappings belong to Go's Unicode tables.
- Error messages are not modelled as text: an error is its kind plus the chain of include names from the wrapping layers.
- Flatten.ResolveDomain: the Go code shares one `visited` map by reference. The method takes the set and returns the new one, which the caller passes on. After an error the Go map keeps its new entries, but the run ends there, so nothing observes them.
- A concrete parse of a whole SPF text is not stated for a literal string. `Text.FieldsHead` and `Text.FieldsWord` fix how any single-spaced text splits into fields, and `Record.ContributionTagged`, `Record.CollectAppend` and `Record.CollectMembership` then fix what each field contributes. Together they determine the parse of any such text.
