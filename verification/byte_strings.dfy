/** The few `std::string` and `<cctype>` operations the notification code is built on.

    A byte string is a Dafny `string`: one `char` per byte.  Nothing below depends on how
    large a character code is, so every result covers all byte strings. */
module ByteStrings {
  import opened Wrappers

  type Bytes = string

  predicate IsPrefix(p: Bytes, s: Bytes) {
    |p| <= |s| && p == s[..|p|]
  }

  predicate OccursAt(s: Bytes, pat: Bytes, i: nat) {
    i + |pat| <= |s| && s[i..i + |pat|] == pat
  }

  /** `s.find(pat, from)`: the least occurrence at or after `from`. */
  function Find(s: Bytes, pat: Bytes, from: nat): (r: Option<nat>)
    ensures r.Some? ==> from <= r.value && OccursAt(s, pat, r.value)
    ensures forall j: nat :: from <= j && (r.Some? ==> j < r.value) ==> !OccursAt(s, pat, j)
    decreases |s| - from
  {
    if from + |pat| > |s| then None
    else if OccursAt(s, pat, from) then Some(from)
    else Find(s, pat, from + 1)
  }

  /** `s.find(c, from)` for a single character. */
  function FindChar(s: Bytes, c: char, from: nat): (r: Option<nat>)
    ensures r.Some? ==> from <= r.value < |s| && s[r.value] == c
    ensures forall j: nat :: from <= j < |s| && (r.Some? ==> j < r.value) ==> s[j] != c
    decreases |s| - from
  {
    if from >= |s| then None
    else if s[from] == c then Some(from)
    else FindChar(s, c, from + 1)
  }

  /** `isspace` in the C locale: space and the codes 9 to 13. */
  predicate IsSpace(c: char) {
    c == ' ' || '\t' <= c <= '\r'
  }

  predicate Blank(s: Bytes) {
    forall i :: 0 <= i < |s| ==> IsSpace(s[i])
  }

  function TrimLeft(s: Bytes): Bytes {
    if s != [] && IsSpace(s[0]) then TrimLeft(s[1..]) else s
  }

  function TrimRight(s: Bytes): Bytes {
    if s != [] && IsSpace(s[|s| - 1]) then TrimRight(s[..|s| - 1]) else s
  }

  function TrimCopy(s: Bytes): Bytes {
    TrimRight(TrimLeft(s))
  }

  /** Trimming removes a blank prefix and a blank suffix and stops at the first and last non-space. */
  lemma {:induction false} TrimCopySplits(s: Bytes) returns (before: Bytes, after: Bytes)
    ensures s == before + TrimCopy(s) + after
    ensures Blank(before) && Blank(after)
    ensures TrimCopy(s) != [] ==> !IsSpace(TrimCopy(s)[0]) && !IsSpace(TrimCopy(s)[|TrimCopy(s)| - 1])
  {
    before := TrimLeftSplits(s);
    after := TrimRightSplits(TrimLeft(s));
  }

  lemma BlankOutside(s: Bytes, before: Bytes, mid: Bytes, after: Bytes)
    requires s == before + mid + after && Blank(before) && Blank(after)
    ensures forall i :: 0 <= i < |s| && (i < |before| || |before| + |mid| <= i) ==> IsSpace(s[i])
  {
  }

  lemma {:induction false} TrimLeftSplits(s: Bytes) returns (before: Bytes)
    ensures s == before + TrimLeft(s) && Blank(before)
    ensures TrimLeft(s) != [] ==> !IsSpace(TrimLeft(s)[0])
  {
    if s != [] && IsSpace(s[0]) {
      var rest := TrimLeftSplits(s[1..]);
      before := [s[0]] + rest;
    } else {
      before := [];
    }
  }

  lemma {:induction false} TrimRightSplits(s: Bytes) returns (after: Bytes)
    ensures s == TrimRight(s) + after && Blank(after)
    ensures TrimRight(s) != [] ==> !IsSpace(TrimRight(s)[|TrimRight(s)| - 1])
  {
    if s != [] && IsSpace(s[|s| - 1]) {
      var rest := TrimRightSplits(s[..|s| - 1]);
      after := rest + [s[|s| - 1]];
    } else {
      after := [];
    }
  }

  /** And that is the only way to split a string like this, so it says what trimming returns. */
  lemma TrimCopyIs(s: Bytes, before: Bytes, mid: Bytes, after: Bytes)
    requires s == before + mid + after && Blank(before) && Blank(after)
    requires mid != [] && !IsSpace(mid[0]) && !IsSpace(mid[|mid| - 1])
    ensures TrimCopy(s) == mid
  {
    hide TrimCopy, IsSpace;
    var b, a := TrimCopySplits(s);
    var t := TrimCopy(s);
    BlankOutside(s, before, mid, after);
    BlankOutside(s, b, t, a);
    assert s[|before|] == mid[0] && s[|before| + |mid| - 1] == mid[|mid| - 1];
    assert t != [] ==> s[|b|] == t[0] && s[|b| + |t| - 1] == t[|t| - 1];
    assert |b| == |before| && |t| == |mid|;
    assert s[|b|..|b| + |t|] == t && s[|before|..|before| + |mid|] == mid;
  }

  /** A string trims to nothing exactly when it is blank. */
  lemma TrimsToNothing(s: Bytes)
    ensures TrimCopy(s) == [] <==> Blank(s)
  {
    var before, after := TrimCopySplits(s);
    assert TrimCopy(s) != [] ==> s[|before|] == TrimCopy(s)[0];
  }

  lemma OccurrenceBegins(s: Bytes, pat: Bytes, i: nat)
    requires OccursAt(s, pat, i) && pat != []
    ensures i < |s| && s[i] == pat[0]
  {
    assert s[i] == s[i..i + |pat|][0];
  }

  lemma OccurrenceShows(s: Bytes, pat: Bytes, i: nat, j: nat)
    requires OccursAt(s, pat, i) && j < |pat|
    ensures s[i + j] == pat[j]
  {
    assert s[i + j] == s[i..i + |pat|][j];
  }

  /** An occurrence is decided by the bytes it covers: more bytes behind do not change it. */
  lemma OccursInFront(s: Bytes, x: Bytes, pat: Bytes, i: nat)
    requires i + |pat| <= |s|
    ensures OccursAt(s + x, pat, i) <==> OccursAt(s, pat, i)
  {
    assert (s + x)[i..i + |pat|] == s[i..i + |pat|];
  }

  /** A found occurrence stays the first one however the string goes on. */
  lemma FindInFront(s: Bytes, x: Bytes, pat: Bytes, from: nat)
    requires Find(s, pat, from).Some?
    ensures Find(s + x, pat, from) == Find(s, pat, from)
  {
    var i := Find(s, pat, from).value;
    OccursInFront(s, x, pat, i);
    forall j: nat | from <= j < i ensures !OccursAt(s + x, pat, j) {
      OccursInFront(s, x, pat, j);
    }
  }

  /** A prefix that still covers the first occurrence has the same first occurrence. */
  lemma FindInPrefix(s: Bytes, pat: Bytes, from: nat, n: nat)
    requires Find(s, pat, from).Some? && Find(s, pat, from).value + |pat| <= n <= |s|
    ensures Find(s[..n], pat, from) == Find(s, pat, from)
  {
    hide Find;
    var i := Find(s, pat, from).value;
    assert s == s[..n] + s[n..];
    OccursInFront(s[..n], s[n..], pat, i);
    if Find(s[..n], pat, from).Some? {
      FindInFront(s[..n], s[n..], pat, from);
    }
  }

  /** No prefix of a string shows what the string does not contain. */
  lemma FindNoneInPrefix(s: Bytes, pat: Bytes, n: nat)
    requires Find(s, pat, 0).None? && n <= |s|
    ensures Find(s[..n], pat, 0).None?
  {
    assert s == s[..n] + s[n..];
    if Find(s[..n], pat, 0).Some? {
      FindInFront(s[..n], s[n..], pat, 0);
    }
  }
}
