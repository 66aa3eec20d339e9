/** The few string operations of the host language that the core relies on:
    `str.startswith`, `str.partition` and `str.replace`. `FindFrom` (`str.find`)
    is only the scan `Partition` is defined with. */
module Text {
  import opened Wrappers

  /** `p` occurs in `s` starting at index `k`. */
  predicate OccursAt(s: string, p: string, k: nat)
  {
    k + |p| <= |s| && s[k..k + |p|] == p
  }

  ghost predicate Contains(s: string, p: string)
  {
    exists k: nat :: OccursAt(s, p, k)
  }

  /** `s.startswith(p)` */
  predicate StartsWith(s: string, p: string)
  {
    |p| <= |s| && s[..|p|] == p
  }

  /** The first index at or after `from` where `p` occurs in `s` (`s.find(p, from)`). */
  function FindFrom(s: string, p: string, from: nat): (r: Option<nat>)
    requires from <= |s|
    decreases |s| - from
    ensures r.Some? ==> from <= r.value && OccursAt(s, p, r.value)
    ensures r.Some? ==> forall j: nat :: from <= j < r.value ==> !OccursAt(s, p, j)
    ensures r.None? ==> forall j: nat :: from <= j ==> !OccursAt(s, p, j)
  {
    if |s| - from < |p| then None
    else if s[from..from + |p|] == p then Some(from)
    else FindFrom(s, p, from + 1)
  }

  /** `s.partition(sep)`: split at the first occurrence of `sep`; when `sep` does
      not occur, the whole string comes first and the other two parts are empty.
      The host raises on an empty separator, hence the precondition. */
  function Partition(s: string, sep: string): (r: (string, string, string))
    requires sep != ""
    ensures r.0 + r.1 + r.2 == s
    ensures Contains(s, sep) ==> r.1 == sep && OccursAt(s, sep, |r.0|)
    ensures Contains(s, sep) ==> forall j: nat :: j < |r.0| ==> !OccursAt(s, sep, j)
    ensures !Contains(s, sep) ==> r == (s, "", "")
  {
    match FindFrom(s, sep, 0)
    case None => (s, "", "")
    case Some(i) => (s[..i], sep, s[i + |sep|..])
  }

  /** `s.replace(pat, rep)`: every occurrence of `pat`, scanned left to right
      without overlap, is replaced by `rep`. */
  function Replace(s: string, pat: string, rep: string): string
    requires pat != ""
    decreases |s|
  {
    if |s| < |pat| then s
    else if s[..|pat|] == pat then rep + Replace(s[|pat|..], pat, rep)
    else [s[0]] + Replace(s[1..], pat, rep)
  }

  /** Replacement leaves a prefix without an occurrence of `pat` untouched. */
  lemma {:induction false} ReplaceSkip(s: string, pat: string, rep: string, n: nat)
    requires pat != "" && n <= |s|
    requires forall k: nat :: k < n ==> !OccursAt(s, pat, k)
    ensures Replace(s, pat, rep) == s[..n] + Replace(s[n..], pat, rep)
    decreases n
  {
    if n > 0 {
      assert !OccursAt(s, pat, 0);
      forall k: nat | k < n - 1 ensures !OccursAt(s[1..], pat, k) {
        assert !OccursAt(s, pat, k + 1);
        if k + |pat| <= |s| - 1 {
          assert s[1..][k..k + |pat|] == s[k + 1..k + 1 + |pat|];
        }
      }
      ReplaceSkip(s[1..], pat, rep, n - 1);
      assert s[1..][n - 1..] == s[n..];
      assert s[..n] == [s[0]] + s[1..][..n - 1];
    }
  }

  /** A string without `pat` is left as it is. */
  lemma {:induction false} ReplaceAbsent(s: string, pat: string, rep: string)
    requires pat != ""
    requires !Contains(s, pat)
    ensures Replace(s, pat, rep) == s
    decreases |s|
  {
    if |s| >= |pat| {
      assert !OccursAt(s, pat, 0);
      forall k: nat | OccursAt(s[1..], pat, k) ensures false {
        assert s[1..][k..k + |pat|] == s[k + 1..k + 1 + |pat|];
        assert OccursAt(s, pat, k + 1);
      }
      ReplaceAbsent(s[1..], pat, rep);
    }
  }

  /** If the result of replacing "extern" by "_vendor" begins with a string that
      has no underscore, the input began with that string too. */
  lemma {:induction false} ReplaceExternKeepsPrefix(t: string, w: string)
    requires '_' !in w
    requires StartsWith(Replace(t, "extern", "_vendor"), w)
    ensures StartsWith(t, w)
    decreases |t|
  {
    if |w| > 0 && |t| >= 6 {
      var r := Replace(t, "extern", "_vendor");
      assert r[0] == w[0];
      assert t[..6] != "extern";
      var rest := Replace(t[1..], "extern", "_vendor");
      assert r == [t[0]] + rest;
      assert StartsWith(rest, w[1..]) by {
        assert rest[..|w| - 1] == r[1..|w|];
      }
      assert '_' !in w[1..] by {
        forall c | c in w[1..] ensures c in w { }
      }
      ReplaceExternKeepsPrefix(t[1..], w[1..]);
      assert t[..|w|] == [t[0]] + t[1..][..|w| - 1];
    }
  }

  /** "extern" cannot start inside a leading "_vendor". */
  lemma NoExternAfterVendor(rest: string)
    requires !Contains(rest, "extern")
    ensures !Contains("_vendor" + rest, "extern")
  {
    var r := "_vendor" + rest;
    forall k: nat ensures !OccursAt(r, "extern", k) {
      if k + 6 <= |r| {
        if k >= 7 {
          assert !OccursAt(rest, "extern", k - 7);
          assert r[k..k + 6] == rest[k - 7..k - 1];
        } else {
          assert r[k..k + 6][0] == r[k] && r[k..k + 6][1] == r[k + 1];
        }
      }
    }
  }

  /** A character put in front of a string without "extern" forms one only by
      completing an "xtern" at the start. */
  lemma NoExternAfterChar(c: char, rest: string)
    requires !Contains(rest, "extern")
    requires c == 'e' ==> !StartsWith(rest, "xtern")
    ensures !Contains([c] + rest, "extern")
  {
    var r := [c] + rest;
    forall k: nat ensures !OccursAt(r, "extern", k) {
      if k + 6 <= |r| {
        if k == 0 {
          assert r[0..6] == [c] + rest[..5];
          assert r[0..6][0] == c && r[0..6][1..] == rest[..5];
          assert "extern"[0] == 'e' && "extern"[1..] == "xtern";
        } else {
          assert !OccursAt(rest, "extern", k - 1);
          assert r[k..k + 6] == rest[k - 1..k + 5];
        }
      }
    }
  }

  /** Replacing "extern" by "_vendor" leaves no "extern" behind: every occurrence
      is replaced, and none is formed across a replacement. */
  lemma {:induction false} ReplaceExternRemovesAll(s: string)
    ensures !Contains(Replace(s, "extern", "_vendor"), "extern")
    decreases |s|
  {
    if |s| < 6 {
      assert Replace(s, "extern", "_vendor") == s;
      forall k: nat ensures !OccursAt(s, "extern", k) { }
    } else if s[..6] == "extern" {
      ReplaceExternRemovesAll(s[6..]);
      NoExternAfterVendor(Replace(s[6..], "extern", "_vendor"));
    } else {
      var rest := Replace(s[1..], "extern", "_vendor");
      ReplaceExternRemovesAll(s[1..]);
      if StartsWith(rest, "xtern") {
        ReplaceExternKeepsPrefix(s[1..], "xtern");
        assert s[..6] == [s[0]] + s[1..][..5];
      }
      NoExternAfterChar(s[0], rest);
    }
  }
}
