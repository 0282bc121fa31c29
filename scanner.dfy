/** The template scanner: the captures that `text.matchAll(/\{\{(.*?)\}\}/g)`
    yields, group 1 of each match, in order. `.` matches any character but a
    line terminator, `(.*?)` is lazy, and after each match the search resumes
    just after its closing `}}`. Characters are Dafny characters; the UTF-16
    code units JavaScript works on are not modelled. */
module Scanner {
  import opened Common

  /** JavaScript's line terminators: the characters `.` does not match. */
  predicate IsLineTerminator(c: char) {
    c == '\n' || c == '\r' || c == '\U{2028}' || c == '\U{2029}'
  }

  predicate OpensAt(s: string, k: nat) {
    k + 1 < |s| && s[k] == '{' && s[k + 1] == '{'
  }

  predicate ClosesAt(s: string, k: nat) {
    k + 1 < |s| && s[k] == '}' && s[k + 1] == '}'
  }

  /** The regular expression matches at `q` and its closing `}}` starts at `e`:
      `{{` at `q`, then the shortest run of non-line-terminators that is
      followed by `}}`. This is the reference the scanner is proved against. */
  ghost predicate MatchesAt(s: string, q: nat, e: nat) {
    && OpensAt(s, q)
    && q + 2 <= e
    && ClosesAt(s, e)
    && forall k :: q + 2 <= k < e ==> !IsLineTerminator(s[k]) && !ClosesAt(s, k)
  }

  /** No match of the regular expression starts at or after `p`. */
  ghost predicate NoMatchFrom(s: string, p: nat) {
    forall q: nat, e: nat :: p <= q && MatchesAt(s, q, e) ==> false
  }

  /** Where the lazy `(.*?)\}\}` that begins at `j` stops: the first `}}` at or
      after `j`, unless a line terminator or the end of the text comes first. */
  function CloseFrom(s: string, j: nat): (r: Option<nat>)
    requires j <= |s|
    ensures r.Some? ==> j <= r.value && ClosesAt(s, r.value)
    ensures r.Some? ==> forall k :: j <= k < r.value ==> !IsLineTerminator(s[k]) && !ClosesAt(s, k)
    ensures r.None? ==> forall c :: j <= c && ClosesAt(s, c) ==> exists k :: j <= k < c && IsLineTerminator(s[k])
    decreases |s| - j
  {
    if ClosesAt(s, j) then Some(j)
    else if j == |s| || IsLineTerminator(s[j]) then None
    else CloseFrom(s, j + 1)
  }

  /** The captures of every match found by a search that starts at `p`. */
  function MatchAll(s: string, p: nat): seq<string>
    requires p <= |s|
    decreases |s| - p
  {
    if p == |s| then []
    else if OpensAt(s, p) && CloseFrom(s, p + 2).Some? then
      var e := CloseFrom(s, p + 2).value;
      [s[p + 2..e]] + MatchAll(s, e + 2)
    else MatchAll(s, p + 1)
  }

  /** The references a text value holds, as the reconciler reads them. */
  function Scan(s: string): seq<string> {
    MatchAll(s, 0)
  }

  /** A match determines where its capture ends. */
  lemma MatchCloses(s: string, q: nat, e: nat)
    requires MatchesAt(s, q, e)
    ensures CloseFrom(s, q + 2) == Some(e)
  {
  }

  /** The search finds the leftmost match, yields its capture and resumes
      after the closing braces. */
  lemma {:induction false} MatchAllLeftmost(s: string, p: nat, q: nat, e: nat)
    requires p <= q
    requires MatchesAt(s, q, e)
    requires NoMatchBetween(s, p, q)
    ensures MatchAll(s, p) == [s[q + 2..e]] + MatchAll(s, e + 2)
    decreases q - p
  {
    MatchCloses(s, q, e);
    if p < q {
      if OpensAt(s, p) && CloseFrom(s, p + 2).Some? {
        assert MatchesAt(s, p, CloseFrom(s, p + 2).value);
        assert false;
      }
      MatchAllLeftmost(s, p + 1, q, e);
    }
  }

  /** No match starts in `[p, q)`. */
  ghost predicate NoMatchBetween(s: string, p: nat, q: nat) {
    forall r: nat, e: nat :: p <= r < q && MatchesAt(s, r, e) ==> false
  }

  /** The search yields nothing exactly when no match starts at or after `p`. */
  lemma {:induction false} MatchAllEmpty(s: string, p: nat)
    requires p <= |s|
    ensures MatchAll(s, p) == [] <==> NoMatchFrom(s, p)
    decreases |s| - p
  {
    if p < |s| {
      MatchAllEmpty(s, p + 1);
      if OpensAt(s, p) && CloseFrom(s, p + 2).Some? {
        assert MatchesAt(s, p, CloseFrom(s, p + 2).value);
      } else {
        forall e | MatchesAt(s, p, e) ensures false {
          MatchCloses(s, p, e);
        }
      }
    }
  }

  /** Every capture is the text of a match: a `{{`, the shortest stretch
      without a line terminator, then `}}`. */
  lemma {:induction false} MatchAllSound(s: string, p: nat, i: nat)
    requires p <= |s|
    requires i < |MatchAll(s, p)|
    ensures exists q: nat, e: nat :: p <= q && MatchesAt(s, q, e) && MatchAll(s, p)[i] == s[q + 2..e]
    decreases |s| - p
  {
    if OpensAt(s, p) && CloseFrom(s, p + 2).Some? {
      var e := CloseFrom(s, p + 2).value;
      if i == 0 {
        assert MatchesAt(s, p, e);
      } else {
        MatchAllSound(s, e + 2, i - 1);
      }
    } else {
      MatchAllSound(s, p + 1, i);
    }
  }

  /** An unterminated `{{` yields nothing: a text without `}}` has no references. */
  lemma ScanUnterminated(s: string)
    requires forall k :: 0 <= k < |s| ==> !ClosesAt(s, k)
    ensures Scan(s) == []
  {
    MatchAllEmpty(s, 0);
  }

  /** A text without `{` has no references. */
  lemma ScanWithoutBraces(s: string)
    requires forall k :: 0 <= k < |s| ==> s[k] != '{'
    ensures Scan(s) == []
  {
    MatchAllEmpty(s, 0);
  }

  /** `{{}}` yields one reference, the empty string. */
  lemma ScanEmptyReference()
    ensures Scan("{{}}") == [""]
  {
    var s := "{{}}";
    assert OpensAt(s, 0) && ClosesAt(s, 2);
    assert CloseFrom(s, 2) == Some(2);
    assert s[2..2] == "";
    assert MatchAll(s, 4) == [];
  }
}
