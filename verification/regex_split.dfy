/** `String.prototype.split` with a global regular expression that has one
    capturing group around the whole pattern, for the two patterns the chat
    renderer splits on (src/components/Chat.jsx:44 and :58).

    The split walks a position `q` along the string. It tries the pattern
    anchored at `q`. When that fails it moves `q` on by one. When it matches
    `s[q..e]`, it emits the text since the previous match, `s[p..q]`, and then
    the captured match itself, and carries on from `e`. At the end it emits
    the rest of the string. Both patterns need at least six characters to
    match, so a match is never empty and the guard the algorithm has for
    empty matches never fires. */
module RegexSplit {
  import opened Options
  import opened JsString

  const Fence: string := "```"

  datatype Pattern =
    | FencedCode  // /(```[\s\S]*?```)/g
    | Url         // /(https?:\/\/[^\s]+)/g

  /** Three backticks start at index `i` of `s`. */
  predicate FenceAt(s: string, i: nat) {
    i + 3 <= |s| && s[i] == '`' && s[i + 1] == '`' && s[i + 2] == '`'
  }

  /** The first index at or after `from` where three backticks start. */
  function FindFence(s: string, from: nat): (r: Option<nat>)
    ensures r.Some? ==> from <= r.value && FenceAt(s, r.value)
    ensures r.Some? ==> forall m :: from <= m < r.value ==> !FenceAt(s, m)
    ensures r.None? ==> forall m :: from <= m ==> !FenceAt(s, m)
    decreases |s| - from
  {
    if from + 3 > |s| then None
    else if FenceAt(s, from) then Some(from)
    else FindFence(s, from + 1)
  }

  /** Length of the `https://` or `http://` that starts at `i`, or 0. When
      `https://` is there, `http://` cannot be, so the optional `s` of the
      pattern has only one way to match. */
  function SchemeLength(s: string, i: nat): (k: nat)
    ensures k == 0 || k == 7 || k == 8
    ensures k == 8 <==> HasPrefixAt(s, i, "https://")
    ensures k == 7 <==> HasPrefixAt(s, i, "http://")
  {
    assert HasPrefixAt(s, i, "https://") ==> s[i + 4] == "https://"[4] == 's';
    assert HasPrefixAt(s, i, "http://") ==> s[i + 4] == "http://"[4] == ':';
    if HasPrefixAt(s, i, "https://") then 8
    else if HasPrefixAt(s, i, "http://") then 7
    else 0
  }

  /** The index of the first white space at or after `j`, or the length of
      `s`: where the greedy `[^\s]+` stops. */
  function RunEnd(s: string, j: nat): (e: nat)
    requires j <= |s|
    ensures j <= e <= |s|
    ensures forall m :: j <= m < e ==> !IsSpace(s[m])
    ensures e == |s| || IsSpace(s[e])
    decreases |s| - j
  {
    if j == |s| || IsSpace(s[j]) then j else RunEnd(s, j + 1)
  }

  /** The URL pattern matches at `i`: a scheme followed by at least one
      character that is not white space. */
  predicate UrlStartsAt(s: string, i: nat) {
    var k := SchemeLength(s, i);
    k > 0 && i + k < |s| && !IsSpace(s[i + k])
  }

  /** The pattern, tried anchored at `i`, succeeds. */
  ghost predicate StartsMatch(pat: Pattern, s: string, i: nat) {
    match pat
    case FencedCode => FenceAt(s, i) && exists j :: i + 3 <= j && FenceAt(s, j)
    case Url => UrlStartsAt(s, i)
  }

  /** `s[i..e]` is the text the pattern matches when tried at `i`: the lazy
      `[\s\S]*?` stops at the first closing fence, the greedy `[^\s]+` runs
      up to the next white space or the end. */
  ghost predicate IsMatch(pat: Pattern, s: string, i: nat, e: nat) {
    && e <= |s|
    && match pat
       case FencedCode =>
         && FenceAt(s, i) && i + 6 <= e && FenceAt(s, e - 3)
         && forall m :: i + 3 <= m < e - 3 ==> !FenceAt(s, m)
       case Url =>
         var k := SchemeLength(s, i);
         && k > 0 && i + k < e
         && (forall m :: i + k <= m < e ==> !IsSpace(s[m]))
         && (e == |s| || IsSpace(s[e]))
  }

  /** Where the match that starts at `i` ends, if the pattern matches there. */
  function MatchEnd(pat: Pattern, s: string, i: nat): (e: Option<nat>)
    ensures e.Some? <==> StartsMatch(pat, s, i)
    ensures e.Some? ==> IsMatch(pat, s, i, e.value)
  {
    match pat
    case FencedCode =>
      if !FenceAt(s, i) then None
      else (match FindFence(s, i + 3)
            case None => None
            case Some(j) => Some(j + 3))
    case Url =>
      if UrlStartsAt(s, i) then Some(RunEnd(s, i + SchemeLength(s, i))) else None
  }

  /** A pattern matches at most one text at a given index. */
  lemma MatchIsUnique(pat: Pattern, s: string, i: nat, e1: nat, e2: nat)
    requires IsMatch(pat, s, i, e1) && IsMatch(pat, s, i, e2)
    ensures e1 == e2
  {
  }

  /** The split from position `q`, with the current piece starting at `p`. */
  function SplitFrom(pat: Pattern, s: string, p: nat, q: nat): seq<string>
    requires p <= q <= |s|
    decreases |s| - q
  {
    if q == |s| then [s[p..]]
    else match MatchEnd(pat, s, q)
      case None => SplitFrom(pat, s, p, q + 1)
      case Some(e) => [s[p..q], s[q..e]] + SplitFrom(pat, s, e, e)
  }

  /** `s.split(pattern)`: an odd number of pieces that join back to `s`. */
  function Split(pat: Pattern, s: string): (r: seq<string>)
    ensures |r| % 2 == 1
    ensures Concat(r) == s
  {
    SplitFromOdd(pat, s, 0, 0);
    SplitFromJoins(pat, s, 0, 0);
    SplitFrom(pat, s, 0, 0)
  }

  /** The pattern matches nowhere in `t`. */
  ghost predicate NoMatch(pat: Pattern, t: string) {
    NoMatchBefore(pat, t, |t|)
  }

  /** The pattern matches at no index of `t` below `n`. */
  ghost predicate NoMatchBefore(pat: Pattern, t: string, n: nat) {
    forall i :: 0 <= i < n ==> !StartsMatch(pat, t, i)
  }

  /** `t` is one match of the pattern, from its first character to its last. */
  predicate WholeMatch(pat: Pattern, t: string) {
    MatchEnd(pat, t, 0) == Some(|t|)
  }

  /** A word lies at index `i` of a slice exactly when it lies at the
      corresponding index of the whole string, as long as it fits the slice. */
  lemma PrefixInSlice(s: string, p: nat, q: nat, i: nat, w: string)
    requires p <= q <= |s|
    requires i + |w| <= q - p
    ensures HasPrefixAt(s[p..q], i, w) <==> HasPrefixAt(s, p + i, w)
  {
    var t := s[p..q];
    forall j | 0 <= j < |w| ensures (t[i + j] == w[j]) == (s[p + i + j] == w[j]) {
    }
  }

  /** A match found inside a slice of `s` is a match of `s` at the same place:
      the fence pattern finds its closing fence there too, and the URL pattern
      its scheme and first character. */
  lemma MatchInSlice(pat: Pattern, s: string, p: nat, q: nat, i: nat)
    requires p <= q <= |s| && i < q - p
    requires StartsMatch(pat, s[p..q], i)
    ensures StartsMatch(pat, s, p + i)
  {
    var t := s[p..q];
    match pat
    case FencedCode =>
      var j :| i + 3 <= j && FenceAt(t, j);
      assert FenceAt(s, p + j);
    case Url =>
      assert UrlStartsAt(t, i);
      var k := SchemeLength(t, i);
      PrefixInSlice(s, p, q, i, "https://");
      PrefixInSlice(s, p, q, i, "http://");
      assert SchemeLength(s, p + i) == k;
      assert s[p + i + k] == t[i + k];
  }

  /** The text of a match, taken on its own, is one whole match. */
  lemma MatchIsWhole(pat: Pattern, s: string, q: nat, e: nat)
    requires q <= e
    requires IsMatch(pat, s, q, e)
    ensures WholeMatch(pat, s[q..e])
  {
    var t := s[q..e];
    match pat
    case FencedCode =>
      assert FenceAt(t, 0) && FenceAt(t, |t| - 3);
      forall m | 3 <= m < |t| - 3 ensures !FenceAt(t, m) {
        assert !FenceAt(s, q + m);
      }
      assert StartsMatch(pat, t, 0);
      MatchIsUnique(pat, t, 0, MatchEnd(pat, t, 0).value, |t|);
    case Url =>
      var k := SchemeLength(s, q);
      PrefixInSlice(s, q, e, 0, "https://");
      PrefixInSlice(s, q, e, 0, "http://");
      assert SchemeLength(t, 0) == k;
      assert t[k] == s[q + k];
      assert IsMatch(pat, t, 0, |t|);
      MatchIsUnique(pat, t, 0, MatchEnd(pat, t, 0).value, |t|);
  }

  lemma ConcatPair(a: string, b: string)
    ensures Concat([a, b]) == a + b
  {
    assert [a, b][1..] == [b];
    assert Concat([b]) == b + Concat([]);
  }

  /** The pieces the split loop produces from `(p, q)` join back to `s[p..]`. */
  lemma {:induction false} SplitFromJoins(pat: Pattern, s: string, p: nat, q: nat)
    requires p <= q <= |s|
    ensures Concat(SplitFrom(pat, s, p, q)) == s[p..]
    decreases |s| - q
  {
    if q == |s| {
      assert Concat([s[p..]]) == s[p..] + Concat([]);
    } else {
      match MatchEnd(pat, s, q)
      case None =>
        SplitFromJoins(pat, s, p, q + 1);
      case Some(e) =>
        SplitFromJoins(pat, s, e, e);
        SplitFromStep(pat, s, p, q, e);
        JoinsStep(s, SplitFrom(pat, s, p, q), SplitFrom(pat, s, e, e), p, q, e);
    }
  }

  /** The text before a capture and the capture, in front of pieces that
      join to `s[e..]`, join to `s[p..]`. */
  lemma JoinsStep(s: string, ps: seq<string>, rest: seq<string>, p: nat, q: nat, e: nat)
    requires p <= q <= e <= |s|
    requires ps == [s[p..q], s[q..e]] + rest
    requires Concat(rest) == s[e..]
    ensures Concat(ps) == s[p..]
  {
    var head, body := s[p..q], s[q..e];
    calc {
      Concat(ps);
      { ConcatAppend([head, body], rest); }
      Concat([head, body]) + Concat(rest);
      { ConcatPair(head, body); }
      head + body + s[e..];
      s[p..];
    }
  }

  /** The split loop produces an odd number of pieces: text, then capture and
      text any number of times. */
  lemma {:induction false} SplitFromOdd(pat: Pattern, s: string, p: nat, q: nat)
    requires p <= q <= |s|
    ensures |SplitFrom(pat, s, p, q)| % 2 == 1
    decreases |s| - q
  {
    if q < |s| {
      var m := MatchEnd(pat, s, q);
      if m.Some? {
        SplitFromOdd(pat, s, m.value, m.value);
        SplitFromStep(pat, s, p, q, m.value);
        OddAfterTwo(SplitFrom(pat, s, p, q), s[p..q], s[q..m.value], SplitFrom(pat, s, m.value, m.value));
      } else {
        SplitFromOdd(pat, s, p, q + 1);
        assert SplitFrom(pat, s, p, q) == SplitFrom(pat, s, p, q + 1);
      }
    }
  }

  /** Two more pieces in front keep the number of pieces odd. */
  lemma OddAfterTwo(ps: seq<string>, a: string, b: string, rest: seq<string>)
    requires ps == [a, b] + rest
    requires |rest| % 2 == 1
    ensures |ps| % 2 == 1
  {
  }

  /** Every piece at an odd position is exactly one match. */
  ghost predicate CapturesAreMatches(pat: Pattern, ps: seq<string>) {
    forall k :: 0 <= k < |ps| && k % 2 == 1 ==> WholeMatch(pat, ps[k])
  }

  /** No piece at an even position contains a match. */
  ghost predicate GapsHaveNoMatch(pat: Pattern, ps: seq<string>) {
    forall k :: 0 <= k < |ps| && k % 2 == 0 ==> NoMatch(pat, ps[k])
  }

  /** A piece at an even position has no match starting inside it even when
      the capture that follows it is put back behind it. */
  ghost predicate GapsEndBeforeMatch(pat: Pattern, ps: seq<string>) {
    forall k :: 0 <= k < |ps| - 1 && k % 2 == 0 ==>
      NoMatchBefore(pat, ps[k] + ps[k + 1], |ps[k]|)
  }

  /** The pieces at odd positions are the captures: each is exactly one match. */
  lemma {:induction false} SplitFromCaptures(pat: Pattern, s: string, p: nat, q: nat)
    requires p <= q <= |s|
    ensures CapturesAreMatches(pat, SplitFrom(pat, s, p, q))
    decreases |s| - q
  {
    if q < |s| {
      match MatchEnd(pat, s, q)
      case None =>
        SplitFromCaptures(pat, s, p, q + 1);
      case Some(e) =>
        SplitFromCaptures(pat, s, e, e);
        MatchIsWhole(pat, s, q, e);
        var ps, rest := SplitFrom(pat, s, p, q), SplitFrom(pat, s, e, e);
        assert ps == [s[p..q], s[q..e]] + rest;
        forall k | 0 <= k < |ps| && k % 2 == 1 ensures WholeMatch(pat, ps[k]) {
          if k == 1 {
            assert ps[k] == s[q..e];
          } else {
            assert ps[k] == rest[k - 2];
          }
        }
    }
  }

  /** The pieces at even positions are the text between captures. Given that
      the pattern did not match anywhere in `[p, q)`, none of them contains a
      match, and one that is followed by a capture has no match starting in
      it even with that capture appended. */
  lemma {:induction false} SplitFromGaps(pat: Pattern, s: string, p: nat, q: nat)
    requires p <= q <= |s|
    requires forall i :: p <= i < q ==> !StartsMatch(pat, s, i)
    ensures GapsHaveNoMatch(pat, SplitFrom(pat, s, p, q))
    ensures GapsEndBeforeMatch(pat, SplitFrom(pat, s, p, q))
    decreases |s| - q
  {
    if q == |s| {
      var t := s[p..];
      assert t == s[p..|s|];
      forall i | 0 <= i < |t| ensures !StartsMatch(pat, t, i) {
        if StartsMatch(pat, t, i) {
          MatchInSlice(pat, s, p, |s|, i);
        }
      }
    } else {
      match MatchEnd(pat, s, q)
      case None =>
        SplitFromGaps(pat, s, p, q + 1);
      case Some(e) =>
        SplitFromGaps(pat, s, e, e);
        SplitFromStep(pat, s, p, q, e);
        GapsStep(pat, s, SplitFrom(pat, s, p, q), SplitFrom(pat, s, e, e), p, q, e);
    }
  }

  /** A text piece with no match starting in `[p, q)`, and the capture from
      `q` to `e`, in front of pieces whose gaps have no match: the gaps of the
      whole have none either. */
  lemma GapsStep(pat: Pattern, s: string, ps: seq<string>, rest: seq<string>,
                 p: nat, q: nat, e: nat)
    requires p <= q <= e <= |s|
    requires forall i :: p <= i < q ==> !StartsMatch(pat, s, i)
    requires ps == [s[p..q], s[q..e]] + rest
    requires GapsHaveNoMatch(pat, rest)
    requires GapsEndBeforeMatch(pat, rest)
    ensures GapsHaveNoMatch(pat, ps)
    ensures GapsEndBeforeMatch(pat, ps)
  {
    var head, body := s[p..q], s[q..e];
    assert head + body == s[p..e];
    forall i | 0 <= i < |head| ensures !StartsMatch(pat, head, i) {
      if StartsMatch(pat, head, i) {
        MatchInSlice(pat, s, p, q, i);
      }
    }
    forall i | 0 <= i < |head| ensures !StartsMatch(pat, head + body, i) {
      if StartsMatch(pat, head + body, i) {
        MatchInSlice(pat, s, p, e, i);
      }
    }
    forall k | 0 <= k < |ps| && k % 2 == 0 ensures NoMatch(pat, ps[k]) {
      if k >= 2 { assert ps[k] == rest[k - 2]; }
    }
    forall k | 0 <= k < |ps| - 1 && k % 2 == 0
      ensures NoMatchBefore(pat, ps[k] + ps[k + 1], |ps[k]|)
    {
      if k >= 2 { assert ps[k] == rest[k - 2] && ps[k + 1] == rest[k - 1]; }
    }
  }

  /** Where piece `k` of `ps` starts in the joined text. */
  function Offset(ps: seq<string>, k: nat): nat
    requires k <= |ps|
  {
    |Concat(ps[..k])|
  }

  /** The pattern tried at each index of `s`, as one function. */
  function Matcher(pat: Pattern, s: string): nat -> Option<nat> {
    i => MatchEnd(pat, s, i)
  }

  /** Every piece at an odd position is the match `ends` finds at the place
      where the piece stands (shifted by `p`): the match starts where the
      piece starts and ends exactly where the piece ends. With `Matcher` this
      pins the greedy end of a URL, which a capture checked on its own would
      not. */
  ghost predicate CapturesInPlace(ends: nat -> Option<nat>, ps: seq<string>, p: nat) {
    forall k :: 0 <= k < |ps| && k % 2 == 1 ==>
      ends(p + Offset(ps, k)) == Some(p + Offset(ps, k) + |ps[k]|)
  }

  lemma ConcatSingle(a: string)
    ensures Concat([a]) == a
  {
    assert [a][1..] == [];
  }

  /** Offsets in pieces that start with `a` and `b`. */
  lemma OffsetAfterTwo(a: string, b: string, rest: seq<string>, ps: seq<string>, n: nat)
    requires ps == [a, b] + rest
    requires 2 <= n <= |ps|
    ensures Offset(ps, n) == |a| + |b| + Offset(rest, n - 2)
  {
    ConcatPair(a, b);
    assert ps[..n] == [a, b] + rest[..n - 2];
    ConcatAppend([a, b], rest[..n - 2]);
  }

  /** A text piece and a capture in front of pieces whose captures are in
      place: the capture is in place too, and so are the later ones. */
  lemma CapturesInPlaceCons(ends: nat -> Option<nat>, ps: seq<string>, a: string, b: string,
                            rest: seq<string>, p: nat)
    requires ps == [a, b] + rest
    requires ends(p + |a|) == Some(p + |a| + |b|)
    requires CapturesInPlace(ends, rest, p + |a| + |b|)
    ensures CapturesInPlace(ends, ps, p)
  {
    forall k | 0 <= k < |ps| && k % 2 == 1
      ensures ends(p + Offset(ps, k)) == Some(p + Offset(ps, k) + |ps[k]|)
    {
      if k == 1 {
        assert ps[..1] == [a];
        ConcatSingle(a);
      } else {
        OffsetAfterTwo(a, b, rest, ps, k);
        assert ps[k] == rest[k - 2];
      }
    }
  }

  /** The captures the split loop produces from `(p, q)` are matches of `s`
      at their own places. */
  lemma {:induction false} SplitFromCapturesInPlace(pat: Pattern, s: string, p: nat, q: nat)
    requires p <= q <= |s|
    ensures CapturesInPlace(Matcher(pat, s), SplitFrom(pat, s, p, q), p)
    decreases |s| - q
  {
    if q < |s| {
      var m := MatchEnd(pat, s, q);
      if m.Some? {
        SplitFromCapturesInPlace(pat, s, m.value, m.value);
        SplitFromStep(pat, s, p, q, m.value);
        CaptureStepInPlace(Matcher(pat, s), s, SplitFrom(pat, s, p, q),
                           SplitFrom(pat, s, m.value, m.value), p, q, m.value);
      } else {
        SplitFromCapturesInPlace(pat, s, p, q + 1);
      }
    }
  }

  /** A match from `q` to `e` puts its capture in place in front of the
      later ones. */
  lemma CaptureStepInPlace(ends: nat -> Option<nat>, s: string, ps: seq<string>,
                           rest: seq<string>, p: nat, q: nat, e: nat)
    requires p <= q <= e <= |s|
    requires ends(q) == Some(e)
    requires ps == [s[p..q], s[q..e]] + rest
    requires CapturesInPlace(ends, rest, e)
    ensures CapturesInPlace(ends, ps, p)
  {
    assert p + |s[p..q]| == q && q + |s[q..e]| == e;
    CapturesInPlaceCons(ends, ps, s[p..q], s[q..e], rest, p);
  }

  /** The pieces of `s.split(pattern)` join back to `s`; there is an odd
      number of them; the captured pieces (odd positions) are each exactly one
      match; the pieces between them (even positions) contain no match; a
      piece between captures has no match starting in it even with the
      following capture appended; and each capture is the pattern's match at
      the index of `s` where it stands. */
  lemma SplitShape(pat: Pattern, s: string)
    ensures Concat(Split(pat, s)) == s
    ensures |Split(pat, s)| % 2 == 1
    ensures CapturesAreMatches(pat, Split(pat, s))
    ensures GapsHaveNoMatch(pat, Split(pat, s))
    ensures GapsEndBeforeMatch(pat, Split(pat, s))
    ensures CapturesInPlace(Matcher(pat, s), Split(pat, s), 0)
  {
    SplitFromCapturesInPlace(pat, s, 0, 0);
    SplitFromJoins(pat, s, 0, 0);
    SplitFromOdd(pat, s, 0, 0);
    SplitFromCaptures(pat, s, 0, 0);
    SplitFromGaps(pat, s, 0, 0);
  }

  lemma {:induction false} SplitFromNoMatch(pat: Pattern, s: string, p: nat, q: nat)
    requires p <= q <= |s|
    requires forall i :: q <= i < |s| ==> !StartsMatch(pat, s, i)
    ensures SplitFrom(pat, s, p, q) == [s[p..]]
    decreases |s| - q
  {
    if q < |s| {
      SplitFromNoMatch(pat, s, p, q + 1);
    }
  }

  /** Indices where the pattern does not match are passed over. */
  lemma {:induction false} SplitFromSkip(pat: Pattern, s: string, p: nat, q: nat, r: nat)
    requires p <= q <= r <= |s|
    requires forall i :: q <= i < r ==> !StartsMatch(pat, s, i)
    ensures SplitFrom(pat, s, p, q) == SplitFrom(pat, s, p, r)
    decreases r - q
  {
    if q < r {
      SplitFromSkip(pat, s, p, q + 1, r);
    }
  }

  /** A match at `q` closes the current piece, adds the match, and starts a
      new piece after it. */
  lemma SplitFromStep(pat: Pattern, s: string, p: nat, q: nat, e: nat)
    requires p <= q < |s|
    requires MatchEnd(pat, s, q) == Some(e)
    ensures q <= e <= |s|
    ensures SplitFrom(pat, s, p, q) == [s[p..q], s[q..e]] + SplitFrom(pat, s, e, e)
  {
  }

  /** Where the pattern matches nowhere, the split is the whole string as its
      only piece; this includes the empty string. */
  lemma SplitWithoutMatch(pat: Pattern, s: string)
    requires forall i :: 0 <= i < |s| ==> !StartsMatch(pat, s, i)
    ensures Split(pat, s) == [s]
  {
    SplitFromNoMatch(pat, s, 0, 0);
  }
}
