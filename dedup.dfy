/**
 * `deduplicateIPs`: keep the first occurrence of every string, in order.
 */
module Dedup {

  predicate NoDuplicates(s: seq<string>)
  {
    forall i, j :: 0 <= i < j < |s| ==> s[i] != s[j]
  }

  /** The position of the first occurrence of `x` in `s`. */
  function FirstIndex(s: seq<string>, x: string): (k: nat)
    requires x in s
    ensures k < |s| && s[k] == x && x !in s[..k]
  {
    if s[0] == x then 0
    else
      var k := 1 + FirstIndex(s[1..], x);
      assert s[..k] == [s[0]] + s[1..][..k - 1];
      k
  }

  /**
   * The deduplicated sequence: `s` with every element that already occurred
   * earlier in `s` removed. It has no duplicates and the same elements as `s`.
   */
  function Deduplicated(s: seq<string>): (r: seq<string>)
    ensures NoDuplicates(r)
    ensures forall x :: x in r <==> x in s
    ensures |r| <= |s|
  {
    if s == [] then []
    else
      var init := s[..|s| - 1];
      assert s == init + [s[|s| - 1]];
      if s[|s| - 1] in init then Deduplicated(init)
      else Deduplicated(init) + [s[|s| - 1]]
  }

  /** The loop of `deduplicateIPs`, with its `seen` map as a set of keys. */
  method DeduplicateIPs(ips: seq<string>) returns (result: seq<string>)
    ensures result == Deduplicated(ips)
  {
    var seen: set<string> := {};
    result := [];
    for i := 0 to |ips|
      invariant forall x :: x in seen <==> x in ips[..i]
      invariant result == Deduplicated(ips[..i])
    {
      var ip := ips[i];
      assert ips[..i + 1][..i] == ips[..i];
      if ip !in seen {
        seen := seen + {ip};
        result := result + [ip];
      }
    }
    assert ips[..|ips|] == ips;
  }

  /** Any position that holds `x` with no earlier `x` is the first index of `x`. */
  lemma FirstIndexUnique(s: seq<string>, x: string, j: nat)
    requires j < |s| && s[j] == x && x !in s[..j]
    ensures FirstIndex(s, x) == j
  {
  }

  /** Extending a sequence does not move the first occurrence of what it already holds. */
  lemma FirstIndexPrefix(s: seq<string>, n: nat, x: string)
    requires n <= |s| && x in s[..n]
    ensures FirstIndex(s, x) == FirstIndex(s[..n], x)
  {
    var k := FirstIndex(s[..n], x);
    assert s[..n][..k] == s[..k];
    FirstIndexUnique(s, x, k);
  }

  /** Every element of `r` occurs in `s`, and `r` lists them by their first position in `s`. */
  predicate InFirstOccurrenceOrder(r: seq<string>, s: seq<string>)
  {
    (forall x :: x in r ==> x in s)
    && forall i, j :: 0 <= i < j < |r| ==> FirstIndex(s, r[i]) < FirstIndex(s, r[j])
  }

  /**
   * Each kept element sits in the output in the order of its first occurrence
   * in the input.
   */
  lemma {:induction false} DeduplicatedOrder(s: seq<string>)
    ensures InFirstOccurrenceOrder(Deduplicated(s), s)
  {
    if s != [] {
      var init := s[..|s| - 1];
      var last := s[|s| - 1];
      DeduplicatedOrder(init);
      OrderExtends(s, Deduplicated(init));
      if last !in init {
        OrderAppendsNew(s, Deduplicated(init));
      }
    }
  }

  /** An order by first occurrence in `init` is one in `init` extended by one element. */
  lemma OrderExtends(s: seq<string>, r: seq<string>)
    requires s != [] && InFirstOccurrenceOrder(r, s[..|s| - 1])
    ensures InFirstOccurrenceOrder(r, s)
  {
    var init := s[..|s| - 1];
    forall x | x in r ensures x in s && FirstIndex(s, x) == FirstIndex(init, x) {
      FirstIndexPrefix(s, |s| - 1, x);
    }
  }

  /** An element first occurring at the very end can follow all the others. */
  lemma OrderAppendsNew(s: seq<string>, r: seq<string>)
    requires s != [] && s[|s| - 1] !in s[..|s| - 1]
    requires InFirstOccurrenceOrder(r, s) && forall x :: x in r ==> x in s[..|s| - 1]
    ensures InFirstOccurrenceOrder(r + [s[|s| - 1]], s)
  {
    var last := s[|s| - 1];
    var r' := r + [last];
    FirstIndexUnique(s, last, |s| - 1);
    forall i, j | 0 <= i < j < |r'| ensures FirstIndex(s, r'[i]) < FirstIndex(s, r'[j]) {
      assert r'[i] == r[i];
      if j < |r| {
        assert r'[j] == r[j];
      } else {
        assert r[i] in r;
        FirstIndexPrefix(s, |s| - 1, r[i]);
      }
    }
  }

  /** A sequence without duplicates is its own deduplication. */
  lemma {:induction false} DeduplicatedDistinct(s: seq<string>)
    requires NoDuplicates(s)
    ensures Deduplicated(s) == s
  {
    if s != [] {
      var init := s[..|s| - 1];
      assert s[|s| - 1] !in init;
      DeduplicatedDistinct(init);
    }
  }

  /** Deduplicating twice is the same as deduplicating once. */
  lemma DeduplicatedIdempotent(s: seq<string>)
    ensures Deduplicated(Deduplicated(s)) == Deduplicated(s)
  {
    DeduplicatedDistinct(Deduplicated(s));
  }
}
