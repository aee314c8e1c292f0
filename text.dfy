/** String operations the scraper takes from Rust's `str` and `String`:
    substring search, `replace`, ASCII lower-casing, suffix tests, and the
    UTF-8 byte length that `str::find` counts in. */
module Text {
  import opened Wrappers

  /** `pat` occurs in `s` starting at character index `i`. */
  predicate OccursAt(s: string, pat: string, i: nat) {
    i + |pat| <= |s| && s[i..i + |pat|] == pat
  }

  predicate EndsWith(s: string, suffix: string) {
    |suffix| <= |s| && s[|s| - |suffix|..] == suffix
  }

  /** The first occurrence of `pat` at or after character index `from`. */
  function FindFrom(s: string, pat: string, from: nat): (r: Option<nat>)
    decreases |s| - from
    ensures r.Some? ==> from <= r.value && OccursAt(s, pat, r.value)
    ensures r.Some? ==> forall k :: from <= k < r.value ==> !OccursAt(s, pat, k)
    ensures r.None? ==> forall k :: from <= k ==> !OccursAt(s, pat, k)
  {
    if from + |pat| > |s| then None
    else if OccursAt(s, pat, from) then Some(from)
    else FindFrom(s, pat, from + 1)
  }

  /** Character index of the first occurrence of `pat` in `s`. */
  function Find(s: string, pat: string): Option<nat> {
    FindFrom(s, pat, 0)
  }

  /** A match found in `s` is still the first match once anything is appended. */
  lemma {:induction false} FindFromAppend(s: string, rest: string, pat: string, from: nat)
    requires FindFrom(s, pat, from).Some?
    ensures FindFrom(s + rest, pat, from) == FindFrom(s, pat, from)
    decreases |s| - from
  {
    var t := s + rest;
    assert t[from..from + |pat|] == s[from..from + |pat|];
    if !OccursAt(s, pat, from) {
      FindFromAppend(s, rest, pat, from + 1);
    }
  }

  // ---- UTF-8 ------------------------------------------------------------

  predicate IsAscii(c: char) {
    c as int < 0x80
  }

  /** Number of bytes UTF-8 uses for one Unicode scalar value. */
  function Utf8Width(c: char): (w: nat)
    ensures 1 <= w <= 4
    ensures w == 1 <==> IsAscii(c)
  {
    if c as int < 0x80 then 1
    else if c as int < 0x800 then 2
    else if c as int < 0x1_0000 then 3
    else 4
  }

  /** Length in bytes of the UTF-8 encoding of `s` (what Rust's `str::len` and
      the offsets returned by `str::find` count). */
  function Utf8Length(s: string): nat {
    if s == [] then 0 else Utf8Length(s[..|s| - 1]) + Utf8Width(s[|s| - 1])
  }

  predicate AllAscii(s: string) {
    forall i :: 0 <= i < |s| ==> IsAscii(s[i])
  }

  /** A byte offset is never smaller than the character index it belongs to,
      and the two agree exactly when everything before it is ASCII. */
  lemma {:induction false} Utf8LengthVsChars(s: string)
    ensures Utf8Length(s) >= |s|
    ensures Utf8Length(s) == |s| <==> AllAscii(s)
  {
    if s != [] {
      var init := s[..|s| - 1];
      Utf8LengthVsChars(init);
      if AllAscii(s) {
        assert AllAscii(init) by {
          forall i | 0 <= i < |init| ensures IsAscii(init[i]) { assert init[i] == s[i]; }
        }
      }
      if Utf8Length(s) == |s| {
        forall i | 0 <= i < |s| ensures IsAscii(s[i]) {
          if i < |s| - 1 { assert s[i] == init[i]; }
        }
      }
    }
  }

  // ---- replace ------------------------------------------------------------

  /** Rust's `str::replace`: every non-overlapping occurrence of `from`,
      scanning left to right, is replaced by `to`. */
  function ReplaceAll(s: string, from: string, to: string): (r: string)
    requires from != []
    decreases |s|
    ensures |to| <= |from| ==> |r| <= |s|
    ensures |to| >= |from| ==> |r| >= |s|
  {
    if s == [] then []
    else if OccursAt(s, from, 0) then to + ReplaceAll(s[|from|..], from, to)
    else [s[0]] + ReplaceAll(s[1..], from, to)
  }

  /** With no occurrence of `from`, replacing changes nothing. */
  lemma {:induction false} ReplaceAllNoMatch(s: string, from: string, to: string)
    requires from != []
    requires forall k :: 0 <= k < |s| ==> !OccursAt(s, from, k)
    ensures ReplaceAll(s, from, to) == s
    decreases |s|
  {
    if s != [] {
      assert !OccursAt(s, from, 0);
      forall k | 0 <= k < |s| - 1 ensures !OccursAt(s[1..], from, k) {
        assert !OccursAt(s, from, k + 1);
        if k + |from| <= |s| - 1 { assert s[1..][k..k + |from|] == s[k + 1..k + 1 + |from|]; }
      }
      ReplaceAllNoMatch(s[1..], from, to);
    }
  }

  /** `find` reporting no match means there is nothing to replace. */
  lemma ReplaceAllNotFound(s: string, from: string, to: string)
    requires from != []
    ensures Find(s, from).None? ==> ReplaceAll(s, from, to) == s
  {
    if Find(s, from).None? {
      ReplaceAllNoMatch(s, from, to);
    }
  }

  /** A string shorter than `from` is left as it is. */
  lemma ReplaceAllShort(s: string, from: string, to: string)
    requires from != [] && |s| < |from|
    ensures ReplaceAll(s, from, to) == s
  {
    ReplaceAllNoMatch(s, from, to);
  }

  /** Deleting every occurrence never lengthens a string, and shortens it
      when there is an occurrence to delete. */
  lemma {:induction false} ReplaceAllDeleteShrinks(s: string, from: string, i: nat)
    requires from != []
    ensures |ReplaceAll(s, from, [])| <= |s|
    ensures OccursAt(s, from, i) ==> |ReplaceAll(s, from, [])| < |s|
    decreases |s|
  {
    if s == [] {
    } else if OccursAt(s, from, 0) {
      ReplaceAllDeleteShrinks(s[|from|..], from, 0);
    } else {
      if OccursAt(s, from, i) {
        assert i > 0;
        assert s[1..][i - 1..i - 1 + |from|] == s[i..i + |from|];
      }
      ReplaceAllDeleteShrinks(s[1..], from, if i > 0 then i - 1 else 0);
    }
  }

  /** Replacing distributes over a concatenation when no occurrence can straddle
      the join: the right part does not start with a character found in `from`
      after its first position. */
  lemma {:induction false} ReplaceAllConcat(a: string, b: string, from: string, to: string)
    requires from != []
    requires b == [] || b[0] !in from[1..]
    ensures ReplaceAll(a + b, from, to) == ReplaceAll(a, from, to) + ReplaceAll(b, from, to)
    decreases |a|
  {
    if a == [] {
      assert a + b == b;
    } else if |from| <= |a| && OccursAt(a, from, 0) {
      assert (a + b)[..|from|] == a[..|from|];
      assert (a + b)[|from|..] == a[|from|..] + b;
      ReplaceAllConcat(a[|from|..], b, from, to);
    } else {
      if |from| <= |a| {
        assert (a + b)[..|from|] == a[..|from|];
      } else if |from| <= |a + b| {
        // an occurrence reaching into `b` would put b[0] inside from[1..]
        assert from[1..][|a| - 1] == from[|a|];
        assert (a + b)[|a|] == b[0];
      }
      assert !OccursAt(a + b, from, 0);
      assert (a + b)[1..] == a[1..] + b;
      ReplaceAllConcat(a[1..], b, from, to);
    }
  }

  // ---- lower-casing -------------------------------------------------------

  function LowerChar(c: char): (r: char)
    ensures !('A' <= r <= 'Z')
    ensures IsAscii(c) <==> IsAscii(r)
  {
    if 'A' <= c <= 'Z' then (c as int + 32) as char else c
  }

  /** `to_lowercase` / `ToLower`, restricted to the ASCII letters. */
  function Lower(s: string): (r: string)
    ensures |r| == |s|
    ensures forall i :: 0 <= i < |s| ==> r[i] == LowerChar(s[i])
  {
    if s == [] then [] else [LowerChar(s[0])] + Lower(s[1..])
  }

  /** Two strings that differ only in the case of ASCII letters. */
  predicate EqualIgnoringCase(a: string, b: string) {
    |a| == |b| && forall i :: 0 <= i < |a| ==> LowerChar(a[i]) == LowerChar(b[i])
  }

  /** Lower-casing identifies exactly the strings that differ only in case. */
  lemma LowerIdentifiesCase(a: string, b: string)
    ensures Lower(a) == Lower(b) <==> EqualIgnoringCase(a, b)
  {
    if EqualIgnoringCase(a, b) {
      assert forall i :: 0 <= i < |a| ==> Lower(a)[i] == Lower(b)[i];
    }
    if Lower(a) == Lower(b) {
      assert forall i :: 0 <= i < |a| ==> LowerChar(a[i]) == Lower(a)[i] == Lower(b)[i] == LowerChar(b[i]);
    }
  }
}
