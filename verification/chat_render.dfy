/** The chat widget's message renderer, `renderMessage`
    (src/components/Chat.jsx:43-75).

    The text is split on fenced code spans. A piece that starts with three
    backticks becomes a code block: its backticks are removed and the rest is
    trimmed. Every other piece is split again on URLs; a sub-piece that the
    URL pattern matches becomes a link whose target and text are the
    sub-piece, and the rest stays plain text. */
module ChatRender {
  import opened JsString
  import opened RegexSplit
  import opened Options

  datatype Inline =
    | Plain(text: string)                  // a text node
    | Anchor(href: string, caption: string)  // <a href={sub}>{sub}</a>

  datatype Part =
    | CodeBlock(code: string)              // <pre><code>{...}</code></pre>
    | Run(inlines: seq<Inline>)            // the sub-pieces of a non-code piece

  /** `s.replace(/```/g, "")`: every run of three backticks, found from left
      to right without overlapping, is removed. */
  function StripFences(s: string): (r: string)
    ensures |r| <= |s|
    decreases |s|
  {
    if FenceAt(s, 0) then StripFences(s[3..])
    else if s == [] then []
    else [s[0]] + StripFences(s[1..])
  }

  /** `sub.match(urlRegex)` is not null: the URL pattern matches somewhere. */
  predicate ContainsUrl(t: string) {
    exists i :: 0 <= i < |t| && UrlStartsAt(t, i)
  }

  /** A sub-piece in which the URL pattern matches becomes a link to
      itself; any other stays text. Either way it shows the sub-piece. */
  function RenderSub(sub: string): (r: Inline)
    ensures r.Anchor? <==> ContainsUrl(sub)
    ensures r.Anchor? ==> r.href == sub
    ensures Shown(r) == sub
  {
    if ContainsUrl(sub) then Anchor(sub, sub) else Plain(sub)
  }

  /** One piece of the fence split: code exactly when it starts with three
      backticks. */
  function RenderPart(part: string): (r: Part)
    ensures r.CodeBlock? <==> StartsWith(part, Fence)
  {
    if StartsWith(part, Fence) then CodeBlock(Trim(StripFences(part)))
    else
      var subs := Split(Url, part);
      Run(seq(|subs|, m requires 0 <= m < |subs| => RenderSub(subs[m])))
  }

  /** `renderMessage`: one part per piece of the fence split. */
  function RenderMessage(text: string): (r: seq<Part>)
    ensures |r| == |Split(FencedCode, text)|
  {
    var parts := Split(FencedCode, text);
    seq(|parts|, k requires 0 <= k < |parts| => RenderPart(parts[k]))
  }

  /** The text an inline element shows. */
  function Shown(x: Inline): string {
    match x
    case Plain(t) => t
    case Anchor(_, caption) => caption
  }

  function ShownTexts(xs: seq<Inline>): seq<string> {
    seq(|xs|, m requires 0 <= m < |xs| => Shown(xs[m]))
  }

  // ---------------------------------------------------------------------
  // Removing the backticks

  lemma FirstCharKept(t: string)
    requires t != [] && t[0] != '`'
    ensures StripFences(t) != [] && StripFences(t)[0] == t[0]
  {
  }

  /** A lone backtick (one that does not start three) is not followed, after
      the removal, by two more. */
  lemma NoFenceAfterLoneBacktick(s: string)
    requires s != [] && s[0] == '`' && !FenceAt(s, 0)
    ensures var rest := StripFences(s[1..]);
      !(|rest| >= 2 && rest[0] == '`' && rest[1] == '`')
  {
    if |s| > 1 {
      var t := s[1..];
      if t[0] != '`' {
        FirstCharKept(t);
      } else {
        assert !FenceAt(t, 0);
        assert StripFences(t) == [t[0]] + StripFences(t[1..]);
        if |s| > 2 {
          assert t[1..] == s[2..];
          FirstCharKept(s[2..]);
        }
      }
    }
  }

  /** No three backticks survive the removal, even where characters from both
      sides of a removed run come together. */
  lemma {:induction false} StripFencesLeavesNoFence(s: string)
    ensures forall i :: !FenceAt(StripFences(s), i)
    decreases |s|
  {
    if FenceAt(s, 0) {
      StripFencesLeavesNoFence(s[3..]);
    } else if s != [] {
      var rest := StripFences(s[1..]);
      StripFencesLeavesNoFence(s[1..]);
      var r := StripFences(s);
      assert r == [s[0]] + rest;
      forall i: nat ensures !FenceAt(r, i) {
        if i >= 1 {
          assert !FenceAt(rest, i - 1);
        } else if s[0] == '`' {
          NoFenceAfterLoneBacktick(s);
        }
      }
    }
  }

  /** The characters of `s` other than backticks, in order. */
  function NonBackticks(s: string): string {
    if s == [] then []
    else (if s[0] == '`' then [] else [s[0]]) + NonBackticks(s[1..])
  }

  /** The number of backticks in `s`. */
  function Backticks(s: string): nat {
    if s == [] then 0
    else (if s[0] == '`' then 1 else 0) + Backticks(s[1..])
  }

  /** The removal deletes backticks only, three at a time: every other
      character is kept, in order. */
  lemma {:induction false} StripFencesRemovesOnlyBackticks(s: string)
    ensures NonBackticks(StripFences(s)) == NonBackticks(s)
    ensures Backticks(StripFences(s)) <= Backticks(s)
    ensures (Backticks(s) - Backticks(StripFences(s))) % 3 == 0
    decreases |s|
  {
    if FenceAt(s, 0) {
      StripFencesRemovesOnlyBackticks(s[3..]);
      FenceIsThreeBackticks(s);
    } else if s != [] {
      StripFencesRemovesOnlyBackticks(s[1..]);
      assert StripFences(s) == [s[0]] + StripFences(s[1..]);
      CountsOfCons(s[0], StripFences(s[1..]));
    }
  }

  /** A fence at the front of `s` is three backticks and nothing else. */
  lemma FenceIsThreeBackticks(s: string)
    requires FenceAt(s, 0)
    ensures NonBackticks(s) == NonBackticks(s[3..])
    ensures Backticks(s) == 3 + Backticks(s[3..])
  {
    assert s[1..][1..] == s[2..] && s[2..][1..] == s[3..];
    assert NonBackticks(s[2..]) == NonBackticks(s[3..]);
    assert NonBackticks(s[1..]) == NonBackticks(s[2..]);
    assert Backticks(s[2..]) == 1 + Backticks(s[3..]);
    assert Backticks(s[1..]) == 1 + Backticks(s[2..]);
  }

  /** Putting one character in front adds it to the kept characters or to
      the backticks. */
  lemma CountsOfCons(c: char, t: string)
    ensures NonBackticks([c] + t) == (if c == '`' then [] else [c]) + NonBackticks(t)
    ensures Backticks([c] + t) == (if c == '`' then 1 else 0) + Backticks(t)
  {
    assert ([c] + t)[1..] == t;
  }

  /** Text without three backticks in a row is left as it is. */
  lemma {:induction false} StripFencesKeepsPlainText(s: string)
    requires forall i :: !FenceAt(s, i)
    ensures StripFences(s) == s
    decreases |s|
  {
    if s != [] {
      assert forall i :: !FenceAt(s[1..], i) by {
        forall i: nat ensures !FenceAt(s[1..], i) {
          assert !FenceAt(s, i + 1);
        }
      }
      StripFencesKeepsPlainText(s[1..]);
    }
  }

  /** Removing the backticks a second time changes nothing. */
  lemma StripFencesIdempotent(s: string)
    ensures StripFences(StripFences(s)) == StripFences(s)
  {
    StripFencesLeavesNoFence(s);
    StripFencesKeepsPlainText(StripFences(s));
  }

  lemma NoFenceInSlice(s: string, a: nat, b: nat)
    requires a <= b <= |s|
    requires forall i :: !FenceAt(s, i)
    ensures forall i :: !FenceAt(s[a..b], i)
  {
    forall i: nat ensures !FenceAt(s[a..b], i) {
      assert !FenceAt(s, a + i);
    }
  }

  lemma TrimKeepsNoFence(u: string)
    requires forall i :: !FenceAt(u, i)
    ensures forall i :: !FenceAt(Trim(u), i)
  {
    var a := TrimmedSlice(u);
    NoFenceInSlice(u, a, a + |Trim(u)|);
  }

  /** The content of a code block never contains three backticks. */
  lemma CodeHasNoFence(part: string)
    ensures forall i :: !FenceAt(Trim(StripFences(part)), i)
  {
    StripFencesLeavesNoFence(part);
    TrimKeepsNoFence(StripFences(part));
  }

  // ---------------------------------------------------------------------
  // Which pieces become code

  lemma FencePrefix(t: string)
    ensures StartsWith(t, Fence) <==> FenceAt(t, 0)
  {
    if FenceAt(t, 0) {
      forall j | 0 <= j < 3 ensures t[j] == Fence[j] {
      }
    }
    if StartsWith(t, Fence) {
      assert t[0] == Fence[0] && t[1] == Fence[1] && t[2] == Fence[2];
    }
  }

  /** The rendered parts correspond one to one to the pieces of the fence
      split, and those pieces join back to the message. */
  lemma RenderKeepsEveryPiece(text: string)
    ensures |RenderMessage(text)| == |Split(FencedCode, text)|
    ensures Concat(Split(FencedCode, text)) == text
  {
    SplitShape(FencedCode, text);
  }

  /** A piece is rendered as code exactly when it starts with three
      backticks. Those are the captured fenced spans (odd positions) and, in
      addition, a last piece that opens a fence and never closes it; no other
      piece between captures starts with a fence. */
  lemma CodeBlockWhenFenced(text: string, k: nat)
    requires k < |Split(FencedCode, text)|
    ensures var parts := Split(FencedCode, text);
      && (RenderMessage(text)[k].CodeBlock? <==> StartsWith(parts[k], Fence))
      && (RenderMessage(text)[k].CodeBlock? <==>
            (k % 2 == 1 || (k == |parts| - 1 && StartsWith(parts[k], Fence))))
  {
    var parts := Split(FencedCode, text);
    SplitShape(FencedCode, text);
    FencePrefix(parts[k]);
    if k % 2 == 1 {
      assert WholeMatch(FencedCode, parts[k]);
    } else if k < |parts| - 1 && StartsWith(parts[k], Fence) {
      var head, next := parts[k], parts[k + 1];
      assert WholeMatch(FencedCode, next);
      assert NoMatchBefore(FencedCode, head + next, |head|);
      assert FenceAt(head + next, 0);
      assert FenceAt(next, 0);
      assert FenceAt(head + next, |head|);
      assert StartsMatch(FencedCode, head + next, 0);
      assert false;
    }
  }

  /** A piece that renders as code but is not a captured span has no closing
      fence: it is the unclosed tail of the message. */
  lemma UnclosedFenceIsCode(text: string, k: nat)
    requires k < |Split(FencedCode, text)|
    requires k % 2 == 0 && RenderMessage(text)[k].CodeBlock?
    ensures k == |Split(FencedCode, text)| - 1
    ensures forall j :: 3 <= j ==> !FenceAt(Split(FencedCode, text)[k], j)
  {
    var parts := Split(FencedCode, text);
    CodeBlockWhenFenced(text, k);
    SplitShape(FencedCode, text);
    FencePrefix(parts[k]);
    assert NoMatch(FencedCode, parts[k]);
    assert !StartsMatch(FencedCode, parts[k], 0);
  }

  /** A code block shows the piece with every triple backtick removed and
      then trimmed, and so never shows three backticks in a row. */
  lemma CodeBlockContent(text: string, k: nat)
    requires k < |Split(FencedCode, text)|
    requires RenderMessage(text)[k].CodeBlock?
    ensures RenderMessage(text)[k].code == Trim(StripFences(Split(FencedCode, text)[k]))
    ensures forall i :: !FenceAt(RenderMessage(text)[k].code, i)
  {
    CodeHasNoFence(Split(FencedCode, text)[k]);
  }

  // ---------------------------------------------------------------------
  // Links

  lemma SchemeHasNoSpace(t: string)
    requires SchemeLength(t, 0) > 0
    ensures forall j :: 0 <= j < SchemeLength(t, 0) ==> !IsSpace(t[j])
  {
    forall j | 0 <= j < SchemeLength(t, 0) ensures !IsSpace(t[j]) {
      var w := if SchemeLength(t, 0) == 8 then "https://" else "http://";
      assert HasPrefixAt(t, 0, w);
      assert t[j] == w[j];
      assert forall c :: c in w ==> !IsSpace(c);
      assert w[j] in w;
    }
  }

  /** Inside a non-code piece, the sub-pieces join back to the piece; exactly
      the captured sub-pieces (odd positions) become links; a link's target is
      its own text, which starts with `http://` or `https://` and holds no
      white space; and plain sub-pieces contain no URL at all. */
  lemma LinksInRun(part: string, m: nat)
    requires !StartsWith(part, Fence)
    requires m < |RenderPart(part).inlines|
    ensures Concat(ShownTexts(RenderPart(part).inlines)) == part
    ensures var x := RenderPart(part).inlines[m];
      && (x.Anchor? <==> m % 2 == 1)
      && (x.Anchor? ==> && x.href == x.caption
                        && (StartsWith(x.href, "http://") || StartsWith(x.href, "https://"))
                        && forall j :: 0 <= j < |x.href| ==> !IsSpace(x.href[j]))
      && (x.Plain? ==> forall i :: 0 <= i < |x.text| ==> !UrlStartsAt(x.text, i))
  {
    var subs := Split(Url, part);
    var xs := RenderPart(part).inlines;
    SplitShape(Url, part);
    assert ShownTexts(xs) == subs;
    var sub := subs[m];
    if m % 2 == 1 {
      assert WholeMatch(Url, sub);
      assert IsMatch(Url, sub, 0, |sub|);
      assert UrlStartsAt(sub, 0);
      assert ContainsUrl(sub);
      SchemeHasNoSpace(sub);
    } else {
      assert NoMatch(Url, sub);
      forall i | 0 <= i < |sub| ensures !UrlStartsAt(sub, i) {
        assert !StartsMatch(Url, sub, i);
      }
    }
  }

  /** A link is the text of its piece from where it starts up to the next
      white space or the end of the piece: the greedy `[^\s]+` is not cut
      short, so the text after a link never goes on with its URL. */
  lemma LinkRunsToSpace(part: string, m: nat)
    requires !StartsWith(part, Fence)
    requires m < |RenderPart(part).inlines| && m % 2 == 1
    ensures var subs := Split(Url, part);
      var o, e := Offset(subs, m), Offset(subs, m) + |subs[m]|;
      && e <= |part|
      && RenderPart(part).inlines[m] == Anchor(part[o..e], part[o..e])
      && (e == |part| || IsSpace(part[e]))
  {
    CaptureIsAnchor(part, m);
    CaptureEndsAtSpace(part, m);
  }

  lemma CaptureIsAnchor(part: string, m: nat)
    requires !StartsWith(part, Fence)
    requires m < |Split(Url, part)| && m % 2 == 1
    ensures |RenderPart(part).inlines| == |Split(Url, part)|
    ensures RenderPart(part).inlines[m] == Anchor(Split(Url, part)[m], Split(Url, part)[m])
  {
    var subs := Split(Url, part);
    SplitFromCaptures(Url, part, 0, 0);
    var sub := subs[m];
    assert WholeMatch(Url, sub);
    assert IsMatch(Url, sub, 0, |sub|);
    assert UrlStartsAt(sub, 0);
    assert RenderPart(part).inlines[m] == RenderSub(sub);
  }

  lemma CaptureEndsAtSpace(part: string, m: nat)
    requires m < |Split(Url, part)| && m % 2 == 1
    ensures var subs := Split(Url, part);
      var o, e := Offset(subs, m), Offset(subs, m) + |subs[m]|;
      && e <= |part|
      && part[o..e] == subs[m]
      && (e == |part| || IsSpace(part[e]))
  {
    var subs := Split(Url, part);
    SplitFromCapturesInPlace(Url, part, 0, 0);
    var o, e := Offset(subs, m), Offset(subs, m) + |subs[m]|;
    assert Matcher(Url, part)(o) == Some(e);
    assert MatchEnd(Url, part, o) == Some(e);
    LinkInJoinedText(subs, m);
  }

  /** Piece `m` sits in the joined text at its offset. */
  lemma LinkInJoinedText(ps: seq<string>, m: nat)
    requires m < |ps|
    ensures Offset(ps, m) + |ps[m]| <= |Concat(ps)|
    ensures Concat(ps)[Offset(ps, m)..Offset(ps, m) + |ps[m]|] == ps[m]
  {
    assert ps == ps[..m] + ([ps[m]] + ps[m + 1..]);
    ConcatAppend(ps[..m], [ps[m]] + ps[m + 1..]);
    ConcatAppend([ps[m]], ps[m + 1..]);
    ConcatSingle(ps[m]);
  }

  /** The same, for the pieces of a whole message. */
  lemma LinksInMessage(text: string, k: nat, m: nat)
    requires k < |Split(FencedCode, text)|
    requires RenderMessage(text)[k].Run?
    requires m < |RenderMessage(text)[k].inlines|
    ensures Concat(ShownTexts(RenderMessage(text)[k].inlines)) == Split(FencedCode, text)[k]
    ensures var x := RenderMessage(text)[k].inlines[m];
      && (x.Anchor? <==> m % 2 == 1)
      && (x.Anchor? ==> && x.href == x.caption
                        && (StartsWith(x.href, "http://") || StartsWith(x.href, "https://"))
                        && forall j :: 0 <= j < |x.href| ==> !IsSpace(x.href[j]))
      && (x.Plain? ==> forall i :: 0 <= i < |x.text| ==> !UrlStartsAt(x.text, i))
  {
    LinksInRun(Split(FencedCode, text)[k], m);
  }

  // ---------------------------------------------------------------------
  // Plain messages

  /** A message with no three backticks in a row and no URL renders as one
      plain piece equal to the message; the empty message is one of them. */
  lemma PlainMessage(text: string)
    requires forall i :: !FenceAt(text, i)
    requires !ContainsUrl(text)
    ensures RenderMessage(text) == [Run([Plain(text)])]
  {
    forall i | 0 <= i < |text| ensures !StartsMatch(Url, text, i) {
      assert !UrlStartsAt(text, i);
    }
    SplitWithoutMatch(FencedCode, text);
    SplitWithoutMatch(Url, text);
    FencePrefix(text);
    assert !StartsWith(text, Fence);
    assert RenderPart(text) == Run([Plain(text)]);
  }

  lemma EmptyMessage()
    ensures RenderMessage("") == [Run([Plain("")])]
  {
    PlainMessage("");
  }
}
