/** The part of `java.lang.String` the validation relies on: `trim()` and the
    blank test `trim().isEmpty()`. */
module JavaString {

  /** `String.trim()` removes every leading and trailing character whose code
      is at or below U+0020 (space and all ASCII control characters). */
  predicate IsTrimmable(c: char) {
    c <= ' '
  }

  /** True when the string has at least one character that trim keeps. */
  ghost predicate NonBlank(s: string) {
    exists i :: 0 <= i < |s| && !IsTrimmable(s[i])
  }

  /** The half-open range `s[start..end]` that `trim()` returns. */
  datatype Bounds = Bounds(start: nat, end: nat)

  /** The first loop of `trim()`: advance `st` over trimmable characters. */
  function SkipLeading(s: string, st: nat): (r: nat)
    requires st <= |s|
    requires forall i :: 0 <= i < st ==> IsTrimmable(s[i])
    ensures st <= r <= |s|
    ensures forall i :: 0 <= i < r ==> IsTrimmable(s[i])
    ensures r < |s| ==> !IsTrimmable(s[r])
    decreases |s| - st
  {
    if st < |s| && IsTrimmable(s[st]) then SkipLeading(s, st + 1) else st
  }

  /** The second loop of `trim()`: pull `len` back over trimmable characters,
      never past `st`. */
  function SkipTrailing(s: string, st: nat, len: nat): (r: nat)
    requires st <= len <= |s|
    requires forall i :: len <= i < |s| ==> IsTrimmable(s[i])
    ensures st <= r <= len
    ensures forall i :: r <= i < |s| ==> IsTrimmable(s[i])
    ensures st < r ==> !IsTrimmable(s[r - 1])
    decreases len
  {
    if st < len && IsTrimmable(s[len - 1]) then SkipTrailing(s, st, len - 1) else len
  }

  /** The range kept by `trim()`: everything outside it is trimmable, and a
      non-empty range starts and ends with a kept character. */
  function TrimBounds(s: string): (b: Bounds)
    ensures b.start <= b.end <= |s|
    ensures forall i :: 0 <= i < b.start ==> IsTrimmable(s[i])
    ensures forall i :: b.end <= i < |s| ==> IsTrimmable(s[i])
    ensures b.start < b.end ==> !IsTrimmable(s[b.start]) && !IsTrimmable(s[b.end - 1])
  {
    var st := SkipLeading(s, 0);
    Bounds(st, SkipTrailing(s, st, |s|))
  }

  function Trim(s: string): (r: string)
    ensures |r| <= |s|
    ensures r == [] || (!IsTrimmable(r[0]) && !IsTrimmable(r[|r| - 1]))
    ensures r == [] <==> !NonBlank(s)
  {
    var b := TrimBounds(s);
    s[b.start..b.end]
  }

  /** `s.trim().isEmpty()`. */
  predicate IsBlank(s: string) {
    Trim(s) == []
  }

  /** Trim removes exactly the padding: whatever trimmable characters surround
      a core that starts and ends with a kept character, trim returns that core. */
  lemma {:induction false} TrimRemovesPadding(pre: string, core: string, post: string)
    requires forall i :: 0 <= i < |pre| ==> IsTrimmable(pre[i])
    requires forall i :: 0 <= i < |post| ==> IsTrimmable(post[i])
    requires core == [] || (!IsTrimmable(core[0]) && !IsTrimmable(core[|core| - 1]))
    ensures Trim(pre + core + post) == core
  {
    var s := pre + core + post;
    var b := TrimBounds(s);
    if core == [] {
      assert forall i :: 0 <= i < |s| ==> IsTrimmable(s[i]) by {
        forall i | 0 <= i < |s| ensures IsTrimmable(s[i]) {
          if i < |pre| { assert s[i] == pre[i]; } else { assert s[i] == post[i - |pre|]; }
        }
      }
      assert !NonBlank(s);
    } else {
      assert s[|pre|] == core[0];
      assert s[|pre| + |core| - 1] == core[|core| - 1];
      assert b.start < b.end;
      assert forall i :: 0 <= i < |pre| ==> s[i] == pre[i];
      assert forall i :: |pre| + |core| <= i < |s| ==> s[i] == post[i - |pre| - |core|];
      assert b.start == |pre| && b.end == |pre| + |core|;
      assert s[b.start..b.end] == core;
    }
  }

  /** Trimming twice is the same as trimming once. */
  lemma TrimIdempotent(s: string)
    ensures Trim(Trim(s)) == Trim(s)
  {
  }
}
