# Portfolio site logic, modelled in Dafny

This project models the three pieces of behaviour in a React portfolio site
that go beyond presentation, and proves what they guarantee.

- **The chat widget** (`src/components/Chat.jsx`) has two parts.
  - `renderMessage` turns a message into display parts. It splits the text
    on fenced code spans, which become code blocks. It then splits every
    other piece on `http(s)://` URLs, which become links.
  - The component state holds:
    - the message log, seeded with a greeting;
    - the `typing` flag of a request in flight;
    - the input box and the open/closed state;
    - the colour theme, which cycles dark, light, gold;
    - three hint flags (`blink`, `tooltip`, `notify`).
- **The navigation bar** (`src/components/Navbar.jsx`) has:
  - a scroll handler that sets the `scrolled` look and picks the active
    section (the scroll-spy);
  - a click handler for the links, which sets the active link, closes the
    menu and computes where the window scrolls to;
  - the mobile menu's toggle and its close-on-outside-press.
- **The FAQ accordion** (`src/components/Faq.jsx`) keeps one optional index
  of the open card. A click toggles it.

The project is organised by module:

- `JsString` holds the string functions the components call. These are
  `trim`, with ECMAScript's white-space set, and `startsWith`.
- `RegexSplit` holds `String.prototype.split` with a capturing global
  pattern. It follows the ECMAScript split algorithm:
  - try the pattern anchored at each index;
  - on a match, push the text before it and the captured match;
  - go on after the match.

  Each of the two patterns, the fenced span and the URL, is modelled by an
  exact description of what it matches at an index. The lazy fence body
  stops at the first closing fence. The greedy URL body runs to the next
  white space.
- `ChatRender` holds `renderMessage` and its properties. `RenderExamples`
  holds general message shapes and one worked message.
- `ChatWidget`, `Navbar` and `Faq` hold the three components' state. Each
  is a class whose methods are the event handlers.

Three behaviours of the code may surprise a reader:

- A message whose last piece opens a fence and never closes it renders
  that piece as code. The code only asks whether the piece starts with
  three backticks.
- An unclosed fence after other text in the same piece stays in the plain
  text.
- The empty message renders as one run holding one empty text, not as
  nothing.

The scroll-spy picks the **last** qualifying link in list order. That need
not be the reached section lowest on the page, the one with the largest
`offsetTop`.

## Model

| member | source | states |
|---|---|---|
| JsString.IsSpace | src/components/Chat.jsx:53-58 | The white-space set shared by `trim` and by `\s` in the URL pattern: ECMAScript's WhiteSpace and LineTerminator characters. |
| JsString.StartsWith | src/components/Chat.jsx:47 | `part.startsWith("```")`: the text begins with the given prefix. |
| JsString.Trim | src/components/Chat.jsx:53 | `trim` returns text with no white space at either end. It is empty exactly when the input is all white space. |
| JsString.TrimmedSlice | src/components/Chat.jsx:53 | What `trim` keeps is the slice of the input between an all-white-space prefix and an all-white-space suffix. |
| JsString.TrimKeepsTrimmed | src/components/Chat.jsx:53 | Text that starts and ends with a non-space character is left unchanged by `trim`. |
| JsString.TrimIdempotent | src/components/Chat.jsx:53 | Trimming twice gives the same result as trimming once. |
| RegexSplit.FindFence | src/components/Chat.jsx:44 | Finds the first index at or after a position where three backticks start, or reports that there is none. |
| RegexSplit.SchemeLength | src/components/Chat.jsx:58 | `https?://` matches at an index with length 8 exactly when `https://` is there, and with length 7 exactly when `http://` is there. |
| RegexSplit.RunEnd | src/components/Chat.jsx:58 | The greedy `[^\s]+` stops at the first white space or at the end of the text. |
| RegexSplit.StartsMatch | src/components/Chat.jsx:44-58 | The pattern, tried anchored at an index, succeeds. For the fence pattern this means three backticks there and a closing three further on. For the URL pattern it means a scheme followed by a character that is not white space. |
| RegexSplit.IsMatch | src/components/Chat.jsx:44-58 | The text between two indices is what the pattern matches there. The lazy fence body ends at the first closing fence, and the greedy URL body runs to the next white space or the end. This is the description MatchEnd is tied to. |
| RegexSplit.MatchEnd | src/components/Chat.jsx:44-58 | The pattern matches at an index exactly when its description allows it. The returned end is the lazy (fence) or greedy (URL) end. |
| RegexSplit.MatchIsUnique | src/components/Chat.jsx:44-58 | At a given index each pattern matches at most one text. |
| RegexSplit.SplitFrom | src/components/Chat.jsx:44-59 | The ECMAScript split loop from position `q`, with the current piece starting at `p`. It moves on by one where the pattern fails, and emits the piece and the capture where it matches. Its properties are SplitShape, SplitFromSkip and SplitWithoutMatch. |
| RegexSplit.Split | src/components/Chat.jsx:44-59 | `s.split(pattern)` gives an odd number of pieces, and they join back into `s`. |
| RegexSplit.SplitShape | src/components/Chat.jsx:44-59 | The pieces of a split join back into the input. There is an odd number of them. Every odd piece is a whole match. No even piece contains a match. No match starts in an even piece and runs into the following capture. Each capture is the pattern's match at the index of the input where the capture stands, so a capture is not cut short of where the pattern's own match would end. |
| RegexSplit.SplitFromCapturesInPlace | src/components/Chat.jsx:44-59 | Every capture the split loop emits from `(p, q)` is the pattern's match at the capture's own index of the input: the match that starts there ends exactly where the capture ends. |
| RegexSplit.SplitWithoutMatch | src/components/Chat.jsx:44-59 | Where the pattern matches nowhere, the split is the whole text as its only piece. This includes the empty text. |
| RegexSplit.SplitFromSkip | src/components/Chat.jsx:44-59 | The split passes over indices where the pattern does not match. |
| ChatRender.ContainsUrl | src/components/Chat.jsx:60 | `sub.match(urlRegex)` is not null: the URL pattern matches at some index of the sub-piece. |
| ChatRender.StripFences | src/components/Chat.jsx:53 | ``replace(/```/g, "")`` removes three-backtick runs found left to right without overlap. The result is never longer than the input. The body is the definition of that left-to-right, non-overlapping removal. The lemmas below describe its result. |
| ChatRender.StripFencesRemovesOnlyBackticks | src/components/Chat.jsx:53 | The removal keeps every character that is not a backtick, in order. It removes backticks only, and their number is a multiple of three. |
| ChatRender.StripFencesLeavesNoFence | src/components/Chat.jsx:53 | After ``replace(/```/g, "")`` no three backticks remain, even where the removal brings backticks together. |
| ChatRender.StripFencesKeepsPlainText | src/components/Chat.jsx:53 | Text without three backticks in a row is unchanged by the removal. |
| ChatRender.StripFencesIdempotent | src/components/Chat.jsx:53 | Removing the backticks a second time changes nothing. |
| ChatRender.RenderSub | src/components/Chat.jsx:59-72 | A sub-piece becomes a link exactly when the URL pattern matches in it. A link's target is the sub-piece, and either way the sub-piece is what is shown. |
| ChatRender.RenderPart | src/components/Chat.jsx:46-73 | A piece becomes a code block exactly when it starts with three backticks. |
| ChatRender.RenderMessage | src/components/Chat.jsx:43-75 | `renderMessage` gives one part per piece of the fence split. |
| ChatRender.RenderKeepsEveryPiece | src/components/Chat.jsx:44-46 | There is one rendered part per piece of the fence split, and the pieces join back into the message. |
| ChatRender.CodeBlockWhenFenced | src/components/Chat.jsx:44-56 | A part is a code block exactly when its piece starts with three backticks. This happens exactly for the captured spans and for a last piece that opens a fence. |
| ChatRender.UnclosedFenceIsCode | src/components/Chat.jsx:44-56 | A code block that is not a captured span is the last piece, and no closing fence follows its opening one. |
| ChatRender.CodeBlockContent | src/components/Chat.jsx:53 | A code block shows its piece with every triple backtick removed and then trimmed. It never shows three backticks in a row. |
| ChatRender.LinksInRun | src/components/Chat.jsx:58-73 | In a non-code piece, the sub-pieces join back into the piece, and exactly the odd ones are links. A link's target equals its text, starts with `http://` or `https://` and holds no white space. A plain sub-piece contains no URL. |
| ChatRender.LinkRunsToSpace | src/components/Chat.jsx:58-63 | Link `m` of a non-code piece is the text of the piece from the link's own offset up to the next white space or the end of the piece, because the URL pattern is greedy. Its target and its caption are both that text. |
| ChatRender.LinksInMessage | src/components/Chat.jsx:46-73 | The same, for each non-code part of a whole message. |
| ChatRender.PlainMessage | src/components/Chat.jsx:43-75 | A message with no three backticks in a row and no URL renders as one run holding the message as plain text. |
| ChatRender.EmptyMessage | src/components/Chat.jsx:43-75 | The empty message renders as one run holding one empty text. |
| RenderExamples.SpanCode | src/components/Chat.jsx:47-55 | A closed span with no backtick inside shows its trimmed content as code. |
| RenderExamples.SpanBetweenTexts | src/components/Chat.jsx:43-75 | Text, a closed span, then text, all without other backticks, render as the first text's run, the span's code block and the last text's run. |
| RenderExamples.LinkSplit | src/components/Chat.jsx:58-59 | A text in which no URL starts, followed by one URL, splits into the text, the URL and an empty text. |
| RenderExamples.LinkAfterText | src/components/Chat.jsx:58-73 | Such a piece renders as plain text, a link whose target is the URL, and an empty plain text. |
| RenderExamples.UnclosedAtStart | src/components/Chat.jsx:44-55 | A message that opens a fence and never closes it is one code block holding the rest, trimmed. |
| RenderExamples.UnclosedAfterText | src/components/Chat.jsx:44-73 | After other text, an unclosed fence stays in one plain run. The run's texts join back into the message, backticks included. |
| RenderExamples.SampleRendering | src/components/Chat.jsx:43-75 | The message "check ", a fenced span holding `print(1)`, then " and https://example.com" renders as three parts: the run "check ", the code `print(1)`, and the run " and ", link, "". |
| ChatWidget.ReplyText | src/components/Chat.jsx:114-129 | The text the bot answers with: the server's `reply`, or the fixed "Server is busy" text when the request or the reading of its body failed. Used by ChatBot.ReceiveReply. |
| ChatWidget.IsBlank | src/components/Chat.jsx:132 | `!message.trim()`: the trimmed message is empty. BlankIsAllSpace characterises it. |
| ChatWidget.BlankIsAllSpace | src/components/Chat.jsx:132 | A message is rejected as blank exactly when it is all white space. |
| ChatWidget.NextTheme | src/components/Chat.jsx:193-197 | The theme button always changes the theme. |
| ChatWidget.ThemeCycle | src/components/Chat.jsx:161-197 | Three clicks return to the starting theme. The two themes in between are the other two, so the cycle visits dark, light and gold. |
| ChatWidget.LastSpeaker | src/components/Chat.jsx:131-142 | In a well-formed log, a request is in flight exactly when the user's message is the last one. |
| ChatWidget.SendKeepsLog | src/components/Chat.jsx:132-136 | Appending a non-blank user message when no request is in flight keeps the log well formed. Well formed means: the greeting first, turns alternating, no blank user message, and `typing` matching the last speaker. |
| ChatWidget.ReplyKeepsLog | src/components/Chat.jsx:140-141 | Appending the bot's answer to a request in flight keeps the log well formed. |
| ChatWidget.ChatBot.constructor | src/components/Chat.jsx:78-93 | Initial state: closed, empty input, dark theme, not typing, all three hints on, and the log holding only the greeting. |
| ChatWidget.ChatBot.SendMessage | src/components/Chat.jsx:131-136 | A blank message, or one sent while `typing`, changes nothing. Any other is appended untrimmed as the user's, the input is cleared and `typing` is set. The log stays well formed. |
| ChatWidget.ChatBot.ReceiveReply | src/components/Chat.jsx:114-141 | `typing` is cleared and exactly one bot message is appended. It holds the reply, or the fixed "Server is busy" text when the request failed. |
| ChatWidget.ChatBot.Converse | src/components/Chat.jsx:131-142 | An accepted message grows the log by exactly the user's message and the bot's answer. Earlier messages stay in place, and the input is cleared and `typing` is off at the end. A rejected one changes nothing. |
| ChatWidget.ChatBot.SubmitInput | src/components/Chat.jsx:240-249 | The Enter key and the send button send the input box's text under the same rules. |
| ChatWidget.ChatBot.EditInput | src/components/Chat.jsx:242 | Typing changes only the input box. |
| ChatWidget.ChatBot.HandleOpen | src/components/Chat.jsx:147-154 | Opening sets `isOpen` and clears `blink`. The other hints, the log and the theme are unchanged. |
| ChatWidget.ChatBot.HandleClose | src/components/Chat.jsx:156-159 | Closing clears `isOpen` when the browser has speech synthesis. Without it, `speechSynthesis.cancel()` throws first and nothing changes. The other fields never change. |
| ChatWidget.ChatBot.CycleTheme | src/components/Chat.jsx:193-197 | The theme becomes the next in the cycle. No hint flag rises. |
| ChatWidget.ChatBot.BlinkTimeout | src/components/Chat.jsx:106 | The timer clears `blink` and changes nothing else. |
| ChatWidget.ChatBot.TooltipTimeout | src/components/Chat.jsx:107 | The timer clears `tooltip` and changes nothing else. |
| ChatWidget.ChatBot.NotifyTimeout | src/components/Chat.jsx:108 | The timer clears `notify` and changes nothing else. |
| Navbar.IsScrolled | src/components/Navbar.jsx:17 | The bar turns solid when the scroll offset is above 50. Used by NavState.HandleScroll. |
| Navbar.InternalLinks | src/components/Navbar.jsx:20-21 | The filter keeps every non-external link and nothing else. It maps the empty list to the empty list, and a single link to itself or to nothing. |
| Navbar.InternalLinksAppend | src/components/Navbar.jsx:20-21 | The filter of a concatenation is the concatenation of the filters. With the one-link cases this fixes the filter: every internal link is kept exactly once, in list order. |
| Navbar.Sections | src/components/Navbar.jsx:20-22 | One lookup per internal link. A found section carries that link's id, and the id is on the page. |
| Navbar.SectionsAppend | src/components/Navbar.jsx:20-22 | A link added at the end adds its lookup at the end when it is internal, and nothing when it is external. |
| Navbar.Reached | src/components/Navbar.jsx:26-29 | The `if (section)` test together with `window.scrollY >= sectionTop - 300`: the section exists and its top, less 300, is at or above the scroll offset. |
| Navbar.LastReached | src/components/Navbar.jsx:24-33 | The chosen id is that of the last section in list order that exists and whose top minus 300 is at most the scroll offset. It is "" when there is no such section. |
| Navbar.LastReachedSnoc | src/components/Navbar.jsx:25-32 | The loop's last step: a reached section overwrites the pick, and any other keeps it. |
| Navbar.SpyStep | src/components/Navbar.jsx:20-32 | A link added at the end of the list becomes the pick when it is internal and its section is reached. Otherwise the pick stays what it was. |
| Navbar.ScrollSpy | src/components/Navbar.jsx:24-33 | The `forEach` loop that overwrites `currentSection` computes exactly that id. |
| Navbar.SpiedSectionIsCandidate | src/components/Navbar.jsx:20-33 | Stated over the link list itself: the pick is the id of the last internal link, in list order, whose section exists and is reached. It is "" exactly when no internal link's section is reached. |
| Navbar.ListOrderWins | src/components/Navbar.jsx:25-31 | When both sections are reached, a section listed later but higher on the page wins over the one being read. |
| Navbar.NavState.constructor | src/components/Navbar.jsx:10-12 | Initial state: no active link, menu closed, not scrolled. |
| Navbar.NavState.HandleScroll | src/components/Navbar.jsx:15-40 | `scrolled` is true exactly when the offset exceeds 50. If a section was picked, `active` becomes its id. Otherwise `active` becomes "" when the offset is below 100, and is left unchanged when it is not. The menu is unchanged. |
| Navbar.NavState.HandleNavClick | src/components/Navbar.jsx:59-79 | An external link changes nothing and scrolls nowhere. An internal link becomes active and closes the menu. The home link scrolls to 0. Any other scrolls to its box's top plus the offset minus the bar's height, or nowhere when its element is missing. |
| Navbar.NavState.ToggleMenu | src/components/Navbar.jsx:155 | The menu button flips `toggle` and nothing else. |
| Navbar.NavState.MouseDown | src/components/Navbar.jsx:49-57 | A press outside the menu and its button closes an open menu. Any other press leaves the menu as it was. |
| Navbar.NavState.ExternalMenuClick | src/components/Navbar.jsx:182 | An external link in the mobile menu closes the menu. |
| Faq.IsActive | src/components/Faq.jsx:10 | `index === activeIndex`: the card is the open one. |
| Faq.Toggled | src/components/Faq.jsx:10-22 | After a click, a card is open exactly when it is the clicked card and that card was closed. |
| Faq.AtMostOneOpen | src/components/Faq.jsx:10-71 | At most one card is open, and none when the index is null. |
| Faq.ClickOpensOrCloses | src/components/Faq.jsx:10-22 | A click on a closed card makes it the only open card. A click on the open card leaves every card closed. |
| Faq.TwoClicks | src/components/Faq.jsx:22 | Two clicks on a card that was closed leave every card closed. Two clicks on the open card leave it open. |
| Faq.Accordion.constructor | src/components/Faq.jsx:71 | Every card starts closed. |
| Faq.Accordion.ShowsAnswer | src/components/Faq.jsx:53-64 | `{isActive && ...}`: a card shows its answer exactly when it is the open one. |
| Faq.Accordion.Click | src/components/Faq.jsx:22-64 | A click flips whether the clicked card shows its answer, and every other card then hides its answer. |

## Left out

- The HTTP request and the parsing of its body (src/components/Chat.jsx:116-125) are not modelled. Their result is a `BackendOutcome`: either the server's `reply` string or a failure. A body whose `reply` is missing, `null` or not a string is not modelled: the message text would then not be a string, and `renderMessage` would throw at `text.split` (src/components/Chat.jsx:44), so the log could not be rendered at all.
- Speech synthesis (`speak`, src/components/Chat.jsx:14-38, 151-153) is not modelled: what is spoken does not affect the widget's state. `speak` checks that the API exists before it uses it, so opening never fails. The unguarded `window.speechSynthesis.cancel()` of `handleClose` (src/components/Chat.jsx:157) is modelled by the `speechAvailable` input of ChatWidget.ChatBot.HandleClose, because there it decides whether the widget closes.
- The hint timers (src/components/Chat.jsx:105-109) are modelled as three events that each clear one flag. Their timing and order are not modelled.
- Auto-scrolling of the log (`scrollIntoView`, src/components/Chat.jsx:98-100) is not modelled.
- React's asynchronous state updates are not modelled. `sendMessage` reads `typing` from its closure, so two very fast sends could both pass the guard. The model treats the guard as atomic.
- ChatWidget.ChatBot.ReceiveReply requires `typing`: it models only the continuation of an accepted send, not a reply arriving at any other time.
- Strings are sequences of Unicode characters, not UTF-16 code units. The two patterns and `trim` only look at characters of the Basic Multilingual Plane, so both readings agree on them.
- The JSX output is reduced to the `Part`/`Inline` datatypes: code block, run, plain text, link. CSS classes, keys, icons and the link's `target`/`rel` are not modelled.
- Page measurements (`offsetTop`, `getBoundingClientRect().top`, `scrollY`/`pageYOffset`, the bar's `offsetHeight`) are integers here, not floating-point numbers. `window.scrollTo` is modelled as the returned target.
- `document.getElementById` is a browser call. It is modelled by Navbar.GetElementById on a map from ids to element measurements, which assumes two things: no element has the id "", and a found element's `id` attribute is the id it was looked up by.
- `closest(".mobile-menu-container")` and `closest(".menu-trigger")` become one boolean input of Navbar.NavState.MouseDown.
- The contents of the link list and of the FAQ list (src/constants/index.js) are inputs, because that file is not part of this model.
- Animations, random particle fields, and the other components (Hero, About, Projects, Experience, Education, Contact, the 3D avatar, the section wrapper) are not modelled. They hold no logic beyond presentation and I/O.
