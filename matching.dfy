/** Case-insensitive search for a pattern made only of literal characters, as
    Ruby's `string.match(/literal/i)` performs it. */
module IgnoreCase {
  import opened Wrappers

  /** The case fold of a character: ASCII upper-case letters fold to lower case,
      every other character to itself. */
  function Fold(c: char): char {
    if 'A' <= c <= 'Z' then (c as int - 'A' as int + 'a' as int) as char else c
  }

  /** `pat` occurs in `s` at index `i` when characters are compared by their folds. */
  predicate OccursAt(s: string, i: nat, pat: string) {
    i + |pat| <= |s| && forall k :: 0 <= k < |pat| ==> Fold(s[i + k]) == Fold(pat[k])
  }

  /** The first index at or after `from` where `pat` occurs: the regex engine's
      left-to-right attempt at every start position. */
  function IndexFrom(s: string, pat: string, from: nat): Option<nat>
    decreases |s| - from
  {
    if from + |pat| > |s| then None
    else if OccursAt(s, from, pat) then Some(from)
    else IndexFrom(s, pat, from + 1)
  }

  lemma {:induction false} IndexFromSpec(s: string, pat: string, from: nat)
    ensures IndexFrom(s, pat, from).Some? ==>
              var i := IndexFrom(s, pat, from).value;
              from <= i && OccursAt(s, i, pat) && forall j :: from <= j < i ==> !OccursAt(s, j, pat)
    ensures IndexFrom(s, pat, from).None? ==> forall j: nat :: from <= j ==> !OccursAt(s, j, pat)
    decreases |s| - from
  {
    if from + |pat| > |s| {
    } else if OccursAt(s, from, pat) {
    } else {
      IndexFromSpec(s, pat, from + 1);
    }
  }

  /** Whether `s.match(/pat/i)` is non-nil, for a pattern of literal characters:
      true exactly when `pat` occurs somewhere in `s`, ignoring case. */
  function ContainsIgnoringCase(s: string, pat: string): (r: bool)
    ensures r <==> exists i: nat :: OccursAt(s, i, pat)
  {
    IndexFromSpec(s, pat, 0);
    IndexFrom(s, pat, 0).Some?
  }
}

/** The session-cookie pattern `/siemens_ad_session=(.*?);/i` applied to the text
    of a `Set-Cookie` header, and the group it captures. */
module SessionCookie {
  import opened Wrappers
  import opened IgnoreCase

  /** The literal part of the pattern in front of the capture group. */
  const Name: string := "siemens_ad_session="

  /** `v` is what the lazy group `(.*?);` captures when it starts at index `k` of
      `s`: `v` stands at `k` and is followed by a `;`; it holds no newline, since
      `.` does not match one without the multiline flag; and it holds no `;`,
      since the lazy group stops at the first one. */
  predicate LazyCapture(s: string, k: nat, v: string) {
    && k + |v| < |s|
    && s[k..k + |v|] == v
    && s[k + |v|] == ';'
    && forall n :: 0 <= n < |v| ==> v[n] != '\n' && v[n] != ';'
  }

  /** The whole pattern matches at index `i` of `s`, capturing `v`. */
  predicate CaptureAt(s: string, i: nat, v: string) {
    OccursAt(s, i, Name) && LazyCapture(s, i + |Name|, v)
  }

  /** Some match of the pattern starts at index `i`. */
  ghost predicate MatchesAt(s: string, i: nat) {
    exists v :: CaptureAt(s, i, v)
  }

  /** `v` is the group of the leftmost match, the one Ruby's `match` reports. */
  ghost predicate LeftmostCapture(s: string, v: string) {
    exists i: nat :: CaptureAt(s, i, v) && forall j: nat :: j < i ==> !MatchesAt(s, j)
  }

  /** The lazy group run from index `k`: it stops at the first `;` and fails
      at a newline or at the end of the text. */
  function Capture(s: string, k: nat): Option<string>
    decreases |s| - k
  {
    if k >= |s| || s[k] == '\n' then None
    else if s[k] == ';' then Some("")
    else match Capture(s, k + 1)
      case None => None
      case Some(v) => Some([s[k]] + v)
  }

  /** The pattern tried at every start position from `i` on, leftmost first. */
  function ScanFrom(s: string, i: nat): Option<string>
    decreases |s| - i
  {
    if i + |Name| > |s| then None
    else if OccursAt(s, i, Name) && Capture(s, i + |Name|).Some? then Capture(s, i + |Name|)
    else ScanFrom(s, i + 1)
  }

  /** `setCookie.match(/siemens_ad_session=(.*?);/i)`: the captured group
      `[1]` of the match, or None where Ruby returns nil. */
  function ExtractSession(setCookie: string): (r: Option<string>)
    ensures r.Some? ==> LeftmostCapture(setCookie, r.value)
    ensures r.None? ==> forall i: nat :: !MatchesAt(setCookie, i)
  {
    ScanSpec(setCookie, 0);
    ScanFrom(setCookie, 0)
  }

  lemma {:induction false} CaptureSpec(s: string, k: nat)
    ensures Capture(s, k).Some? ==> LazyCapture(s, k, Capture(s, k).value)
    ensures Capture(s, k).None? ==> forall v :: !LazyCapture(s, k, v)
    decreases |s| - k
  {
    if k >= |s| {
    } else if s[k] == '\n' {
      forall v ensures !LazyCapture(s, k, v) {
        assert LazyCapture(s, k, v) ==> v != [];
      }
    } else if s[k] == ';' {
      assert LazyCapture(s, k, "");
    } else {
      CaptureSpec(s, k + 1);
      match Capture(s, k + 1)
      case Some(w) =>
        assert s[k..k + 1 + |w|] == [s[k]] + s[k + 1..k + 1 + |w|];
        assert LazyCapture(s, k, [s[k]] + w);
      case None =>
        forall v ensures !LazyCapture(s, k, v) {
          if LazyCapture(s, k, v) {
            assert v != [];
            assert s[k + 1..k + 1 + |v[1..]|] == s[k..k + |v|][1..];
            assert LazyCapture(s, k + 1, v[1..]);
          }
        }
    }
  }

  /** The lazy group captures at most one value from a given start. */
  lemma CaptureUnique(s: string, k: nat, v: string, w: string)
    requires LazyCapture(s, k, v) && LazyCapture(s, k, w)
    ensures v == w
  {
  }

  lemma {:induction false} ScanSpec(s: string, i: nat)
    ensures ScanFrom(s, i).Some? ==>
              exists j: nat :: i <= j && CaptureAt(s, j, ScanFrom(s, i).value) &&
                               forall m: nat :: i <= m < j ==> !MatchesAt(s, m)
    ensures ScanFrom(s, i).None? ==> forall m: nat :: i <= m ==> !MatchesAt(s, m)
    decreases |s| - i
  {
    if i + |Name| > |s| {
      forall m: nat | i <= m ensures !MatchesAt(s, m) {
        assert !OccursAt(s, m, Name);
      }
    } else {
      CaptureSpec(s, i + |Name|);
      if OccursAt(s, i, Name) && Capture(s, i + |Name|).Some? {
        assert CaptureAt(s, i, ScanFrom(s, i).value);
      } else {
        assert !MatchesAt(s, i);
        ScanSpec(s, i + 1);
        assert ScanFrom(s, i) == ScanFrom(s, i + 1);
        if ScanFrom(s, i).Some? {
          var j: nat :| i + 1 <= j && CaptureAt(s, j, ScanFrom(s, i).value) &&
                        forall m: nat :: i + 1 <= m < j ==> !MatchesAt(s, m);
          assert forall m: nat :: i <= m < j ==> !MatchesAt(s, m);
        }
      }
    }
  }

  /** The extracted value is exactly the group of the leftmost match: the first
      case-insensitive occurrence of the name that a `;` follows with no newline
      in between, cut at the first such `;`. */
  lemma ExtractSessionSpec(s: string, v: string)
    ensures ExtractSession(s) == Some(v) <==> LeftmostCapture(s, v)
  {
    ScanSpec(s, 0);
    if LeftmostCapture(s, v) {
      var i: nat :| CaptureAt(s, i, v) && forall j: nat :: j < i ==> !MatchesAt(s, j);
      assert MatchesAt(s, i);
      var w := ExtractSession(s).value;
      var j: nat :| CaptureAt(s, j, w) && forall m: nat :: m < j ==> !MatchesAt(s, m);
      assert MatchesAt(s, j);
      assert i == j;
      CaptureUnique(s, i + |Name|, v, w);
    }
  }

  /** `ExtractSessionSpec` for every candidate value at once. */
  lemma ExtractSessionSpecAll(s: string)
    ensures forall v :: ExtractSession(s) == Some(v) <==> LeftmostCapture(s, v)
  {
    forall v ensures ExtractSession(s) == Some(v) <==> LeftmostCapture(s, v) {
      ExtractSessionSpec(s, v);
    }
  }

  /** The extracted value never holds a `;` or a newline. */
  lemma ExtractedValueIsClean(s: string)
    requires ExtractSession(s).Some?
    ensures ';' !in ExtractSession(s).value && '\n' !in ExtractSession(s).value
  {
  }

  /** Ruby's `match` is nil exactly when no start position admits a match. */
  lemma ExtractSessionNone(s: string)
    ensures ExtractSession(s).None? <==> forall i: nat :: !MatchesAt(s, i)
  {
    ScanSpec(s, 0);
    if ExtractSession(s).Some? {
      var j: nat :| CaptureAt(s, j, ExtractSession(s).value);
      assert MatchesAt(s, j);
    }
  }

  /** A header text without any `;` never yields a session, even when it holds
      the cookie name: an unterminated `siemens_ad_session=<v>` is not a match. */
  lemma NoSemicolonNoSession(s: string)
    requires ';' !in s
    ensures ExtractSession(s).None?
  {
  }

  /** A session cookie of any letter case is found on its own line of the header
      text, whatever follows it, provided the lines before it hold no match. */
  lemma SessionOnFreshLine(p: string, n: string, v: string, q: string)
    requires |n| == |Name| && OccursAt(n, 0, Name)
    requires ';' !in v && '\n' !in v
    requires p == [] || (p[|p| - 1] == '\n' && ExtractSession(p).None?)
    ensures ExtractSession(p + n + v + ";" + q) == Some(v)
  {
    var s := p + n + v + ";" + q;
    var k := |p| + |Name|;
    assert s[k..k + |v|] == v;
    assert s[k + |v|] == ';';
    forall x | 0 <= x < |Name| ensures Fold(s[|p| + x]) == Fold(Name[x]) {
      assert s[|p| + x] == n[x];
    }
    assert CaptureAt(s, |p|, v);
    if p != [] {
      ExtractSessionNone(p);
      forall j: nat | j < |p| ensures !MatchesAt(s, j) {
        if MatchesAt(s, j) {
          var w :| CaptureAt(s, j, w);
          NoMatchAcrossNewline(p, s, j, w);
          assert MatchesAt(p, j);
        }
      }
    }
    ExtractSessionSpec(s, v);
  }

  /** A match in `s` that starts before the final newline of its prefix `p`
      ends before that newline, and so is a match in `p`. */
  lemma NoMatchAcrossNewline(p: string, s: string, j: nat, w: string)
    requires p != [] && p[|p| - 1] == '\n' && |p| <= |s| && s[..|p|] == p
    requires j < |p| && CaptureAt(s, j, w)
    ensures CaptureAt(p, j, w)
  {
    var nl := |p| - 1;
    var e := j + |Name| + |w|;
    assert s[nl] == '\n' by { assert s[nl] == s[..|p|][nl]; }
    forall x | j <= x < j + |Name| ensures s[x] != '\n' {
      assert Fold(s[j + (x - j)]) == Fold(Name[x - j]);
      assert Name[x - j] in Name;
    }
    forall x | j + |Name| <= x < e ensures s[x] != '\n' {
      assert s[x] == s[j + |Name|..e][x - j - |Name|];
    }
    assert e < nl;
    assert p[j + |Name|..e] == s[j + |Name|..e] by { assert p == s[..|p|]; }
    assert p[e] == s[e] by { assert p == s[..|p|]; }
    forall x | 0 <= x < |Name| ensures Fold(p[j + x]) == Fold(Name[x]) {
      assert p[j + x] == s[j + x] by { assert p == s[..|p|]; }
    }
  }
}
