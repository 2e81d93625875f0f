/** How `renderMessage` (src/components/Chat.jsx:43-75) renders the usual
    shapes of a message: a fenced span between two texts, a text ending in a
    link, a fence that is never closed; and one worked message. */
module RenderExamples {
  import opened JsString
  import opened RegexSplit
  import opened ChatRender
  import opened Options

  /** No fenced span starts where there is no backtick. */
  lemma NoBacktickNoFence(s: string, a: nat, b: nat)
    requires a <= b <= |s|
    requires '`' !in s[a..b]
    ensures forall i :: a <= i < b ==> !StartsMatch(FencedCode, s, i)
  {
    forall i | a <= i < b ensures !StartsMatch(FencedCode, s, i) {
      assert s[i] in s[a..b];
    }
  }

  /** No URL starts where there is no `h`. */
  lemma NoLetterHNoUrl(s: string, a: nat, b: nat)
    requires a <= b <= |s|
    requires 'h' !in s[a..b]
    ensures forall i :: a <= i < b ==> !StartsMatch(Url, s, i)
  {
    forall i | a <= i < b ensures !StartsMatch(Url, s, i) {
      assert s[i] in s[a..b];
      assert s[i + 0] != "http://"[0] && s[i + 0] != "https://"[0];
    }
  }

  /** No URL starts in a text shorter than `http://x`. */
  lemma ShortTextNoUrl(s: string)
    requires |s| < 8
    ensures forall i :: 0 <= i < |s| ==> !StartsMatch(Url, s, i)
    ensures !ContainsUrl(s)
  {
  }

  /** Removing fences from text that starts without a backtick keeps that
      text in front. */
  lemma {:induction false} StripFencesPlainPrefix(x: string, y: string)
    requires '`' !in x
    ensures StripFences(x + y) == x + StripFences(y)
    decreases |x|
  {
    if x != [] {
      assert x[0] in x;
      assert (x + y)[1..] == x[1..] + y;
      StripFencesPlainPrefix(x[1..], y);
    } else {
      assert x + y == y;
    }
  }

  /** Removing the backticks from a text that opens with three of them is
      removing them from the rest. */
  lemma StripFencesAfterFence(y: string)
    ensures StripFences(Fence + y) == StripFences(y)
  {
    assert FenceAt(Fence + y, 0);
    assert (Fence + y)[3..] == y;
  }

  /** Where `x + y` splits into `x`, `y` and where `x + y + z` into its three
      parts. */
  lemma Slices(x: string, y: string, z: string)
    ensures (x + y)[..|x|] == x && (x + y)[|x|..] == y
    ensures (x + y + z)[|x|..|x| + |y|] == y && (x + y + z)[|x| + |y|..] == z
  {
    assert (x + y + z)[|x|..|x| + |y|] == y;
  }

  // ---------------------------------------------------------------------
  // A fenced span between two texts

  /** The fence split of `a`, a closed span holding `p`, and `c`, when none
      of them holds a backtick. */
  lemma SpanSplit(a: string, p: string, c: string)
    requires '`' !in a && '`' !in p && '`' !in c
    ensures Split(FencedCode, a + (Fence + p + Fence) + c) == [a, Fence + p + Fence, c]
  {
    var b := Fence + p + Fence;
    var t := a + b + c;
    var e := |a| + |b|;
    Slices(a, b, c);
    Slices(a + b, c, []);
    assert t[..|a|] == a;
    NoBacktickNoFence(t, 0, |a|);
    SplitFromSkip(FencedCode, t, 0, 0, |a|);
    SpanMatch(a, p, c);
    SplitFromStep(FencedCode, t, 0, |a|, e);
    assert t[e..|t|] == c;
    NoBacktickNoFence(t, e, |t|);
    SplitFromNoMatch(FencedCode, t, e, e);
  }

  /** The span that starts after `a` ends at its closing fence. */
  lemma SpanMatch(a: string, p: string, c: string)
    requires '`' !in p
    ensures var t := a + (Fence + p + Fence) + c;
      MatchEnd(FencedCode, t, |a|) == Some(|a| + |p| + 6)
  {
    var t := a + (Fence + p + Fence) + c;
    var close := |a| + 3 + |p|;
    assert FenceAt(t, |a|) && FenceAt(t, close);
    forall m | |a| + 3 <= m < close ensures !FenceAt(t, m) {
      assert t[m] == p[m - |a| - 3];
      assert p[m - |a| - 3] in p;
    }
  }

  /** A closed span holding no backtick shows its trimmed content. */
  lemma SpanCode(p: string)
    requires '`' !in p
    ensures RenderPart(Fence + p + Fence) == CodeBlock(Trim(p))
  {
    var b := Fence + p + Fence;
    FencePrefix(b);
    assert b == Fence + (p + Fence);
    StripFencesAfterFence(p + Fence);
    StripFencesPlainPrefix(p, Fence);
    StripFencesAfterFence([]);
    assert p + [] == p;
  }

  /** A message made of a text, a fenced span and a text renders as the
      first text, a code block with the span's trimmed content, and the last
      text. */
  lemma SpanBetweenTexts(a: string, p: string, c: string)
    requires '`' !in a && '`' !in p && '`' !in c
    ensures RenderMessage(a + (Fence + p + Fence) + c)
         == [RenderPart(a), CodeBlock(Trim(p)), RenderPart(c)]
  {
    SpanSplit(a, p, c);
    SpanCode(p);
    var parts := Split(FencedCode, a + (Fence + p + Fence) + c);
    var rs := seq(|parts|, k requires 0 <= k < |parts| => RenderPart(parts[k]));
    assert rs == [RenderPart(parts[0]), RenderPart(parts[1]), RenderPart(parts[2])];
  }

  // ---------------------------------------------------------------------
  // A text that ends in a link

  /** A text `w` that is one URL from start to end is matched as a whole
      after any text `x`. */
  lemma UrlAtEnd(x: string, w: string)
    requires UrlStartsAt(w, 0) && forall m :: 0 <= m < |w| ==> !IsSpace(w[m])
    ensures MatchEnd(Url, x + w, |x|) == Some(|x| + |w|)
  {
    var u := x + w;
    var k := SchemeLength(w, 0);
    var w0 := if k == 8 then "https://" else "http://";
    PrefixShift(x, w, w0);
    assert SchemeLength(u, |x|) == k;
    assert u[|x| + k] == w[k];
    assert RunEnd(u, |x| + k) == |u| by {
      forall m | |x| + k <= m < |u| ensures !IsSpace(u[m]) {
        assert u[m] == w[m - |x|];
      }
    }
  }

  lemma PrefixShift(x: string, w: string, w0: string)
    ensures HasPrefixAt(x + w, |x|, w0) <==> HasPrefixAt(w, 0, w0)
  {
    if HasPrefixAt(w, 0, w0) {
      forall j | 0 <= j < |w0| ensures (x + w)[|x| + j] == w0[j] {
        assert (x + w)[|x| + j] == w[0 + j];
      }
    }
    if HasPrefixAt(x + w, |x|, w0) {
      forall j | 0 <= j < |w0| ensures w[0 + j] == w0[j] {
        assert (x + w)[|x| + j] == w[j];
      }
    }
  }

  /** A URL that starts inside `x` starts at the same index of `x + y`. */
  lemma UrlInPrefix(x: string, y: string, i: nat)
    requires UrlStartsAt(x, i)
    ensures UrlStartsAt(x + y, i)
  {
    var k := SchemeLength(x, i);
    var w0 := if k == 8 then "https://" else "http://";
    assert HasPrefixAt(x, i, w0);
    assert HasPrefixAt(x + y, i, w0) by {
      forall j | 0 <= j < |w0| ensures (x + y)[i + j] == w0[j] {
        assert (x + y)[i + j] == x[i + j];
      }
    }
    assert (x + y)[i + k] == x[i + k];
    if k == 7 {
      assert x[i + 4] == w0[4] == ':' != "https://"[4];
      assert (x + y)[i + 4] == x[i + 4];
    }
  }

  /** A text in which no URL starts, followed by one URL, splits into the
      text, the URL and the empty text after it. */
  lemma LinkSplit(x: string, w: string)
    requires forall i :: 0 <= i < |x| ==> !UrlStartsAt(x + w, i)
    requires UrlStartsAt(w, 0) && forall m :: 0 <= m < |w| ==> !IsSpace(w[m])
    ensures Split(Url, x + w) == [x, w, ""]
  {
    var u := x + w;
    Slices(x, w, []);
    forall i | 0 <= i < |x| ensures !StartsMatch(Url, u, i) {
    }
    SplitFromSkip(Url, u, 0, 0, |x|);
    UrlAtEnd(x, w);
    SplitFromStep(Url, u, 0, |x|, |u|);
    assert |u[|u|..]| == 0;
    assert SplitFrom(Url, u, |u|, |u|) == [u[|u|..]] == [""];
    assert u[0..|x|] == x && u[|x|..|u|] == w;
  }

  /** A piece made of a text in which no URL starts followed by one URL
      renders as the text, the link, and the empty text after it. */
  lemma LinkAfterText(x: string, w: string)
    requires forall i :: 0 <= i < |x| ==> !UrlStartsAt(x + w, i)
    requires UrlStartsAt(w, 0) && forall m :: 0 <= m < |w| ==> !IsSpace(w[m])
    requires !StartsWith(x + w, Fence)
    ensures RenderPart(x + w) == Run([Plain(x), Anchor(w, w), Plain("")])
  {
    LinkSplit(x, w);
    forall i | 0 <= i < |x| ensures !UrlStartsAt(x, i) {
      if UrlStartsAt(x, i) {
        UrlInPrefix(x, w, i);
      }
    }
    assert ContainsUrl(w);
    var subs := Split(Url, x + w);
    var xs := seq(|subs|, m requires 0 <= m < |subs| => RenderSub(subs[m]));
    assert xs[0] == Plain(x) && xs[1] == Anchor(w, w) && xs[2] == Plain("");
    assert xs == [Plain(x), Anchor(w, w), Plain("")];
  }

  // ---------------------------------------------------------------------
  // A fence left open

  /** A message that opens a fence and never closes it is one code block. */
  lemma UnclosedAtStart(p: string)
    requires '`' !in p
    ensures RenderMessage(Fence + p) == [CodeBlock(Trim(p))]
  {
    var t := Fence + p;
    forall i | 0 <= i < |t| ensures !StartsMatch(FencedCode, t, i) {
      forall j | 3 <= j < |t| ensures !FenceAt(t, j) {
        assert t[j] == p[j - 3];
        assert p[j - 3] in p;
      }
    }
    SplitWithoutMatch(FencedCode, t);
    FencePrefix(t);
    StripFencesAfterFence(p);
    StripFencesPlainPrefix(p, []);
    assert p + [] == p;
  }

  /** After other text, a fence that is never closed stays in the plain text,
      backticks and all. */
  lemma UnclosedAfterText(a: string, p: string)
    requires a != [] && '`' !in a && '`' !in p
    ensures var t := a + Fence + p;
      && RenderMessage(t) == [RenderPart(t)]
      && RenderPart(t).Run?
      && Concat(ShownTexts(RenderPart(t).inlines)) == t
  {
    var t := a + Fence + p;
    Slices(a, Fence, p);
    NoBacktickNoFence(t, 0, |a|);
    forall i | |a| <= i < |t| ensures !StartsMatch(FencedCode, t, i) {
      forall j | i + 3 <= j < |t| ensures !FenceAt(t, j) {
        assert t[j] == p[j - |a| - 3];
        assert p[j - |a| - 3] in p;
      }
    }
    SplitWithoutMatch(FencedCode, t);
    assert a[0] in a;
    FencePrefix(t);
    SplitShape(Url, t);
    LinksInRun(t, 0);
  }

  // ---------------------------------------------------------------------
  // A worked message

  /** "check ```print(1)``` and https://example.com" shows the text before
      the span, the code `print(1)`, and the text after it with its link. */
  lemma SampleRendering(a: string, p: string, x: string, w: string)
    requires a == "check " && p == "print(1)" && x == " and "
    requires w == "https://example.com"
    ensures RenderMessage(a + (Fence + p + Fence) + (x + w))
         == [ Run([Plain(a)]),
              CodeBlock(p),
              Run([Plain(x), Anchor(w, w), Plain("")]) ]
  {
    SampleHasNoBacktick(a, p, x, w);
    SpanBetweenTexts(a, p, x + w);
    SampleFirst(a);
    SampleCode(p);
    SampleLink(x, w);
  }

  lemma SampleHasNoBacktick(a: string, p: string, x: string, w: string)
    requires a == "check " && p == "print(1)" && x == " and "
    requires w == "https://example.com"
    ensures '`' !in a && '`' !in p && '`' !in x + w
  {
  }

  lemma SampleFirst(a: string)
    requires a == "check "
    ensures RenderPart(a) == Run([Plain(a)])
  {
    FencePrefix(a);
    ShortTextNoUrl(a);
    SplitWithoutMatch(Url, a);
  }

  lemma SampleCode(p: string)
    requires p == "print(1)"
    ensures Trim(p) == p
  {
    TrimKeepsTrimmed(p);
  }

  lemma SampleLink(x: string, w: string)
    requires x == " and " && w == "https://example.com"
    ensures RenderPart(x + w) == Run([Plain(x), Anchor(w, w), Plain("")])
  {
    SampleLinkPrefix(x, w);
    LinkScheme(w);
    LinkHasNoSpace(w);
    LinkAfterText(x, w);
  }

  lemma SampleLinkPrefix(x: string, w: string)
    requires x == " and " && w == "https://example.com"
    ensures forall i :: 0 <= i < |x| ==> !UrlStartsAt(x + w, i)
    ensures !StartsWith(x + w, Fence)
  {
    var u := x + w;
    Slices(x, w, []);
    NoLetterHNoUrl(u, 0, |x|);
    forall i | 0 <= i < |x| ensures !UrlStartsAt(u, i) {
      assert !StartsMatch(Url, u, i);
    }
    assert u[0] == ' ';
    FencePrefix(u);
  }

  lemma LinkScheme(w: string)
    requires w == "https://example.com"
    ensures UrlStartsAt(w, 0)
  {
    assert w[0..8] == "https://";
    assert HasPrefixAt(w, 0, "https://");
  }

  lemma LinkHasNoSpace(w: string)
    requires w == "https://example.com"
    ensures forall m :: 0 <= m < |w| ==> !IsSpace(w[m])
  {
    forall m | 0 <= m < |w| ensures !IsSpace(w[m]) {
      assert w[m] in w;
    }
  }
}
