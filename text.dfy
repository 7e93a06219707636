/**
 * The string operations of Go's `strings` package that the flattener relies on,
 * over `seq<char>`: ASCII lower-casing, prefix tests, `Fields` and the part of a
 * string before its first '/'.
 */
module Text {

  /** `strings.ToLower`, restricted to the ASCII letters. */
  function LowerChar(c: char): char
  {
    if 'A' <= c <= 'Z' then (c as int + 32) as char else c
  }

  function Lower(s: string): (r: string)
    ensures |r| == |s|
    ensures forall k :: 0 <= k < |s| ==> r[k] == LowerChar(s[k])
  {
    if s == [] then [] else [LowerChar(s[0])] + Lower(s[1..])
  }

  lemma {:induction false} LowerIdempotent(s: string)
    ensures Lower(Lower(s)) == Lower(s)
  {
    var t := Lower(s);
    assert forall k :: 0 <= k < |s| ==> LowerChar(t[k]) == t[k];
  }

  predicate HasPrefix(s: string, p: string)
  {
    |p| <= |s| && s[..|p|] == p
  }

  /** `strings.TrimPrefix` where the prefix is known to be present. */
  function TrimPrefix(s: string, p: string): (r: string)
    requires HasPrefix(s, p)
    ensures p + r == s
  {
    s[|p|..]
  }

  /** Go's `unicode.IsSpace`, the separator set of `strings.Fields`. */
  predicate IsSpace(c: char)
  {
    var u := c as int;
    (0x09 <= u <= 0x0D) || u == 0x20 || u == 0x85 || u == 0xA0 || u == 0x1680
    || (0x2000 <= u <= 0x200A) || u == 0x2028 || u == 0x2029 || u == 0x202F
    || u == 0x205F || u == 0x3000
  }

  predicate NoSpace(s: string)
  {
    forall k :: 0 <= k < |s| ==> !IsSpace(s[k])
  }

  /** `s` with its leading white space removed. */
  function TrimLeftSpace(s: string): (r: string)
    ensures |r| <= |s| && r == s[|s| - |r|..]
    ensures r == [] || !IsSpace(r[0])
    ensures forall k :: 0 <= k < |s| - |r| ==> IsSpace(s[k])
  {
    if s != [] && IsSpace(s[0]) then TrimLeftSpace(s[1..]) else s
  }

  /** The length of the maximal run of non-space characters at the head of `s`. */
  function TokenLength(s: string): (n: nat)
    ensures n <= |s|
    ensures NoSpace(s[..n])
    ensures n == |s| || IsSpace(s[n])
  {
    if s == [] || IsSpace(s[0]) then 0 else 1 + TokenLength(s[1..])
  }

  /**
   * `strings.Fields`: the maximal runs of non-space characters of `s`, in
   * order. Every field is non-empty and free of white space.
   */
  function Fields(s: string): (r: seq<string>)
    ensures forall k :: 0 <= k < |r| ==> r[k] != [] && NoSpace(r[k])
    decreases |s|
  {
    var t := TrimLeftSpace(s);
    if t == [] then []
    else
      var n := TokenLength(t);
      FieldsCons(t[..n], Fields(t[n..]));
      [t[..n]] + Fields(t[n..])
  }

  lemma FieldsCons(f: string, rest: seq<string>)
    requires f != [] && NoSpace(f)
    requires forall k :: 0 <= k < |rest| ==> rest[k] != [] && NoSpace(rest[k])
    ensures forall k :: 0 <= k < |[f] + rest| ==> ([f] + rest)[k] != [] && NoSpace(([f] + rest)[k])
  {
    forall k | 0 <= k < |[f] + rest| ensures ([f] + rest)[k] != [] && NoSpace(([f] + rest)[k]) {
      if k > 0 {
        assert ([f] + rest)[k] == rest[k - 1];
      }
    }
  }

  /** The fields laid end to end. */
  function Concat(fs: seq<string>): string
  {
    if fs == [] then [] else fs[0] + Concat(fs[1..])
  }

  /** The characters of `s` that are not white space, in order. */
  function NonSpaceChars(s: string): string
  {
    if s == [] then [] else (if IsSpace(s[0]) then [] else [s[0]]) + NonSpaceChars(s[1..])
  }

  lemma {:induction false} NonSpaceCharsConcat(a: string, b: string)
    ensures NonSpaceChars(a + b) == NonSpaceChars(a) + NonSpaceChars(b)
  {
    if a != [] {
      assert (a + b)[1..] == a[1..] + b;
      NonSpaceCharsConcat(a[1..], b);
    } else {
      assert a + b == b;
    }
  }

  lemma {:induction false} NonSpaceCharsOfNoSpace(a: string)
    requires NoSpace(a)
    ensures NonSpaceChars(a) == a
  {
    if a != [] {
      NonSpaceCharsOfNoSpace(a[1..]);
    }
  }

  lemma {:induction false} NonSpaceCharsOfSpace(a: string)
    requires forall k :: 0 <= k < |a| ==> IsSpace(a[k])
    ensures NonSpaceChars(a) == []
  {
    if a != [] {
      NonSpaceCharsOfSpace(a[1..]);
    }
  }

  /** The fields, laid end to end, are exactly the non-space characters of `s`: nothing is lost or added. */
  lemma {:induction false} FieldsJoin(s: string)
    ensures Concat(Fields(s)) == NonSpaceChars(s)
    decreases |s|
  {
    var t := TrimLeftSpace(s);
    NonSpaceCharsTrim(s);
    if t != [] {
      var n := TokenLength(t);
      NonSpaceCharsToken(t, n);
      FieldsJoin(t[n..]);
      assert Fields(s) == [t[..n]] + Fields(t[n..]);
      assert Concat(Fields(s)) == t[..n] + Concat(Fields(t[n..]));
    }
  }

  lemma NonSpaceCharsTrim(s: string)
    ensures NonSpaceChars(s) == NonSpaceChars(TrimLeftSpace(s))
  {
    var t := TrimLeftSpace(s);
    var lead := s[..|s| - |t|];
    assert s == lead + t;
    NonSpaceCharsConcat(lead, t);
    NonSpaceCharsOfSpace(lead);
  }

  lemma NonSpaceCharsToken(t: string, n: nat)
    requires n == TokenLength(t)
    ensures NonSpaceChars(t) == t[..n] + NonSpaceChars(t[n..])
  {
    assert t == t[..n] + t[n..];
    NonSpaceCharsConcat(t[..n], t[n..]);
    NonSpaceCharsOfNoSpace(t[..n]);
  }

  /** A token run stops exactly at the end of a space-free `w` followed by white space or nothing. */
  lemma {:induction false} TokenLengthWord(w: string, tail: string)
    requires NoSpace(w)
    requires tail == [] || IsSpace(tail[0])
    ensures TokenLength(w + tail) == |w|
  {
    if w != [] {
      assert (w + tail)[0] == w[0];
      assert (w + tail)[1..] == w[1..] + tail;
      TokenLengthWord(w[1..], tail);
    } else {
      assert w + tail == tail;
    }
  }

  /** A non-empty, space-free text is a single field. */
  lemma FieldsWord(s: string)
    requires s != [] && NoSpace(s)
    ensures Fields(s) == [s]
  {
    TokenLengthWord(s, []);
    assert s + [] == s;
    assert TrimLeftSpace(s) == s;
    assert s[..|s|] == s;
    assert Fields(s[|s|..]) == [];
  }

  /** A leading white-space character never starts or splits a field. */
  lemma FieldsSkipSpace(c: char, rest: string)
    requires IsSpace(c)
    ensures Fields([c] + rest) == Fields(rest)
  {
    assert ([c] + rest)[1..] == rest;
    assert TrimLeftSpace([c] + rest) == TrimLeftSpace(rest);
  }

  /**
   * A field ends only at white space: a space-free word followed by a
   * white-space character is the first field, whatever follows.
   */
  lemma FieldsHead(w: string, c: char, rest: string)
    requires w != [] && NoSpace(w) && IsSpace(c)
    ensures Fields(w + [c] + rest) == [w] + Fields(rest)
  {
    var t := w + [c] + rest;
    assert t == w + ([c] + rest);
    TokenLengthWord(w, [c] + rest);
    assert TrimLeftSpace(t) == t by {
      assert t[0] == w[0];
    }
    assert t[..|w|] == w;
    assert t[|w|..] == [c] + rest;
    FieldsSkipSpace(c, rest);
  }

  /** `s` has no fields exactly when it is all white space. */
  lemma FieldsEmpty(s: string)
    ensures Fields(s) == [] <==> forall k :: 0 <= k < |s| ==> IsSpace(s[k])
  {
    var t := TrimLeftSpace(s);
    if t != [] {
      assert s[|s| - |t|] == t[0];
    }
  }

  /**
   * The first field of `s` starts with a non-empty, space-free `p` exactly when
   * `s`, once its leading white space is dropped, starts with `p`.
   */
  lemma FirstFieldHasPrefix(s: string, p: string)
    requires p != [] && NoSpace(p)
    ensures (Fields(s) != [] && HasPrefix(Fields(s)[0], p)) <==> HasPrefix(TrimLeftSpace(s), p)
  {
    var t := TrimLeftSpace(s);
    if t != [] {
      var n := TokenLength(t);
      assert Fields(s)[0] == t[..n];
      if HasPrefix(t, p) {
        TokenCoversPrefix(t, p);
      }
      PrefixOfTake(t, n, p);
    }
  }

  /** A token run is at least as long as any space-free prefix of `t`. */
  lemma TokenCoversPrefix(t: string, p: string)
    requires NoSpace(p) && HasPrefix(t, p)
    ensures |p| <= TokenLength(t)
  {
  }

  lemma PrefixOfTake(t: string, n: nat, p: string)
    requires n <= |t|
    ensures HasPrefix(t[..n], p) <==> |p| <= n && HasPrefix(t, p)
  {
    if |p| <= n {
      assert t[..n][..|p|] == t[..|p|];
    }
  }

  /** The text before the first '/', the whole of `s` when it has none. */
  function BeforeSlash(s: string): (r: string)
    ensures '/' !in r
    ensures HasPrefix(s, r)
    ensures |r| == |s| || s[|r|] == '/'
  {
    if s == [] || s[0] == '/' then [] else [s[0]] + BeforeSlash(s[1..])
  }

  /** A string without '/' is kept whole. */
  lemma {:induction false} BeforeSlashWhole(s: string)
    requires '/' !in s
    ensures BeforeSlash(s) == s
  {
    if s != [] {
      BeforeSlashWhole(s[1..]);
    }
  }

  /** Only what precedes the first '/' matters: `a + "/" + b` cuts to `a`. */
  lemma {:induction false} BeforeSlashCut(a: string, b: string)
    requires '/' !in a
    ensures BeforeSlash(a + "/" + b) == a
  {
    if a != [] {
      assert (a + "/" + b)[1..] == a[1..] + "/" + b;
      BeforeSlashCut(a[1..], b);
    } else {
      assert (a + "/" + b)[0] == '/';
    }
  }
}
