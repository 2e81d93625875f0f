/** The chat widget's state (src/components/Chat.jsx:77-165): the message
    log and the `typing` flag driven by `sendMessage`, the input box, the
    open/closed state, the colour theme and the three hint flags.

    The backend call is an outcome given to the model: the reply the server
    sent, or a failure of the request. Timers, speech and scrolling are
    events or are left out. */
module ChatWidget {
  import opened JsString

  datatype Sender = User | Bot

  datatype Message = Message(from: Sender, text: string)

  datatype Theme = Dark | Light | Gold

  /** How `sendToBackend` ends: with the `reply` field of the server's
      answer, or with an exception from the request or from reading its
      body. */
  datatype BackendOutcome = Replied(reply: string) | Failed

  /** The greeting the log starts with, character for character as the
      source file stores it (its emoji and apostrophes are stored as UTF-8
      bytes read back as Windows-1252 characters). */
  const Greeting: string :=
    "Hi \U{00F0}\U{0178}\U{2018}\U{2039} I\U{00E2}\U{20AC}\U{2122}m Himanshu"
    + "\U{00E2}\U{20AC}\U{2122}s AI assistant. Ask me about his skills, "
    + "projects, or how to contact him!"

  /** The text a failed request is replaced by, stored the same way. */
  const ServerBusy: string :=
    "\U{00E2}\U{0161}\U{00A0}\U{00EF}\U{00B8} Server is busy. Please try again."

  /** The text the bot answers with: a failure never escapes, it becomes the
      fixed fallback text. */
  function ReplyText(outcome: BackendOutcome): string {
    match outcome
    case Replied(reply) => reply
    case Failed => ServerBusy
  }

  /** `!message.trim()`: nothing but white space. */
  predicate IsBlank(message: string) {
    Trim(message) == []
  }

  lemma BlankIsAllSpace(message: string)
    ensures IsBlank(message) <==> AllSpace(message)
  {
  }

  /** The theme button: dark, then light, then gold, then dark again. */
  function NextTheme(t: Theme): (r: Theme)
    ensures r != t
  {
    match t
    case Dark => Light
    case Light => Gold
    case Gold => Dark
  }

  /** Three clicks bring every theme back, and the two in between are the
      other two themes. */
  lemma ThemeCycle(t: Theme)
    ensures NextTheme(NextTheme(NextTheme(t))) == t
    ensures NextTheme(NextTheme(t)) != t
    ensures {t, NextTheme(t), NextTheme(NextTheme(t))} == {Dark, Light, Gold}
  {
  }

  // ---------------------------------------------------------------------
  // The message log

  /** The log as the widget keeps it: the greeting first; then the user and
      the bot take turns, the user's messages at odd positions; no user
      message is blank; and a request is in flight exactly when the last
      message is the user's. */
  predicate WellFormedLog(log: seq<Message>, typing: bool) {
    && |log| >= 1
    && log[0] == Message(Bot, Greeting)
    && (forall i :: 0 <= i < |log| ==> (log[i].from == User <==> i % 2 == 1))
    && (forall i :: 0 <= i < |log| && log[i].from == User ==> !IsBlank(log[i].text))
    && (typing <==> |log| % 2 == 0)
  }

  /** While a request is in flight the user spoke last; otherwise the bot
      did. */
  lemma LastSpeaker(log: seq<Message>, typing: bool)
    requires WellFormedLog(log, typing)
    ensures typing <==> log[|log| - 1].from == User
  {
    var n := |log| - 1;
    assert log[n].from == User <==> n % 2 == 1;
    assert n % 2 == 1 <==> |log| % 2 == 0;
  }

  /** Sending when no request is in flight keeps the log well formed. */
  lemma {:induction false} SendKeepsLog(log: seq<Message>, message: string)
    requires WellFormedLog(log, false) && !IsBlank(message)
    ensures WellFormedLog(log + [Message(User, message)], true)
  {
    var log' := log + [Message(User, message)];
    forall i | 0 <= i < |log'|
      ensures log'[i].from == User <==> i % 2 == 1
    {
      if i < |log| {
        assert log'[i] == log[i];
      } else {
        assert i == |log| && |log| % 2 == 1;
      }
    }
    forall i | 0 <= i < |log'| && log'[i].from == User
      ensures !IsBlank(log'[i].text)
    {
      if i < |log| {
        assert log'[i] == log[i];
      }
    }
    assert |log'| == |log| + 1;
  }

  /** The bot's reply to a request in flight keeps the log well formed. */
  lemma {:induction false} ReplyKeepsLog(log: seq<Message>, reply: string)
    requires WellFormedLog(log, true)
    ensures WellFormedLog(log + [Message(Bot, reply)], false)
  {
    var log' := log + [Message(Bot, reply)];
    forall i | 0 <= i < |log'|
      ensures log'[i].from == User <==> i % 2 == 1
    {
      if i < |log| {
        assert log'[i] == log[i];
      } else {
        assert i == |log| && |log| % 2 == 0;
      }
    }
    forall i | 0 <= i < |log'| && log'[i].from == User
      ensures !IsBlank(log'[i].text)
    {
      assert i < |log| && log'[i] == log[i];
    }
    assert |log'| == |log| + 1;
  }

  // ---------------------------------------------------------------------
  // The component

  class ChatBot {
    var isOpen: bool
    var input: string
    var theme: Theme
    var typing: bool
    var blink: bool     // the launcher button bounces
    var tooltip: bool   // "Need help?"
    var notify: bool    // "ASK ME ANYTHING!"
    var messages: seq<Message>

    predicate Valid()
      reads this
    {
      WellFormedLog(messages, typing)
    }

    /** The component's first render. */
    constructor()
      ensures !isOpen && input == "" && theme == Dark && !typing
      ensures blink && tooltip && notify
      ensures messages == [Message(Bot, Greeting)]
      ensures Valid()
    {
      isOpen := false;
      input := "";
      theme := Dark;
      typing := false;
      blink := true;
      tooltip := true;
      notify := true;
      messages := [Message(Bot, Greeting)];
    }

    /** The first half of `sendMessage`, up to the request: a blank message,
        or one sent while a request is in flight, changes nothing; any other
        is appended as the user's, untrimmed, the input box is cleared and
        the request is in flight. */
    method SendMessage(message: string) returns (accepted: bool)
      requires Valid()
      modifies this
      ensures accepted <==> !IsBlank(message) && !old(typing)
      ensures accepted ==> messages == old(messages) + [Message(User, message)]
                           && input == "" && typing
      ensures !accepted ==> messages == old(messages) && input == old(input)
                            && typing == old(typing)
      ensures isOpen == old(isOpen) && theme == old(theme)
      ensures blink == old(blink) && tooltip == old(tooltip) && notify == old(notify)
      ensures Valid()
    {
      if IsBlank(message) || typing {
        return false;
      }
      SendKeepsLog(messages, message);
      messages := messages + [Message(User, message)];
      input := "";
      typing := true;
      return true;
    }

    /** The second half of `sendMessage`, once the request has ended: the
        request is no longer in flight and the bot's answer is appended. */
    method ReceiveReply(outcome: BackendOutcome)
      requires Valid() && typing
      modifies this
      ensures messages == old(messages) + [Message(Bot, ReplyText(outcome))]
      ensures !typing
      ensures input == old(input) && isOpen == old(isOpen) && theme == old(theme)
      ensures blink == old(blink) && tooltip == old(tooltip) && notify == old(notify)
      ensures Valid()
    {
      ReplyKeepsLog(messages, ReplyText(outcome));
      typing := false;
      messages := messages + [Message(Bot, ReplyText(outcome))];
    }

    /** `sendMessage` from start to end, with the request ending in
        `outcome`: an accepted message grows the log by exactly the user's
        message and the bot's answer, keeping every earlier message in
        place. */
    method Converse(message: string, outcome: BackendOutcome) returns (accepted: bool)
      requires Valid()
      modifies this
      ensures accepted <==> !IsBlank(message) && !old(typing)
      ensures accepted ==> && messages == old(messages) + [Message(User, message),
                                                           Message(Bot, ReplyText(outcome))]
                           && input == "" && !typing
      ensures !accepted ==> messages == old(messages) && input == old(input)
                            && typing == old(typing)
      ensures isOpen == old(isOpen) && theme == old(theme)
      ensures blink == old(blink) && tooltip == old(tooltip) && notify == old(notify)
      ensures Valid()
    {
      accepted := SendMessage(message);
      if accepted {
        ReceiveReply(outcome);
      }
    }

    /** The Enter key and the send button: the input box is sent. */
    method SubmitInput(outcome: BackendOutcome) returns (accepted: bool)
      requires Valid()
      modifies this
      ensures accepted <==> !IsBlank(old(input)) && !old(typing)
      ensures accepted ==> && messages == old(messages) + [Message(User, old(input)),
                                                           Message(Bot, ReplyText(outcome))]
                           && input == "" && !typing
      ensures !accepted ==> messages == old(messages) && input == old(input)
                            && typing == old(typing)
      ensures isOpen == old(isOpen) && theme == old(theme)
      ensures blink == old(blink) && tooltip == old(tooltip) && notify == old(notify)
      ensures Valid()
    {
      accepted := Converse(input, outcome);
    }

    /** Typing in the input box. */
    method EditInput(value: string)
      requires Valid()
      modifies this
      ensures Valid()
      ensures input == value
      ensures messages == old(messages) && typing == old(typing)
      ensures isOpen == old(isOpen) && theme == old(theme)
      ensures blink == old(blink) && tooltip == old(tooltip) && notify == old(notify)
    {
      input := value;
    }

    /** `handleOpen`: the widget opens and the launcher stops bouncing. */
    method HandleOpen()
      requires Valid()
      modifies this
      ensures Valid()
      ensures isOpen && !blink
      ensures tooltip == old(tooltip) && notify == old(notify)
      ensures messages == old(messages) && typing == old(typing)
      ensures input == old(input) && theme == old(theme)
    {
      isOpen := true;
      blink := false;
    }

    /** `handleClose`. It calls `window.speechSynthesis.cancel()` before
        closing, without the availability test `speak` makes, so where the
        browser has no speech synthesis the handler throws and the widget
        stays as it was. */
    method HandleClose(speechAvailable: bool)
      requires Valid()
      modifies this
      ensures Valid()
      ensures isOpen == (old(isOpen) && !speechAvailable)
      ensures blink == old(blink) && tooltip == old(tooltip) && notify == old(notify)
      ensures messages == old(messages) && typing == old(typing)
      ensures input == old(input) && theme == old(theme)
    {
      if speechAvailable {
        isOpen := false;
      }
    }

    /** The theme button. */
    method CycleTheme()
      requires Valid()
      modifies this
      ensures Valid()
      ensures theme == NextTheme(old(theme))
      ensures isOpen == old(isOpen)
      ensures blink == old(blink) && tooltip == old(tooltip) && notify == old(notify)
      ensures messages == old(messages) && typing == old(typing) && input == old(input)
    {
      theme := NextTheme(theme);
    }

    /** The 8-second timer: the launcher stops bouncing. */
    method BlinkTimeout()
      requires Valid()
      modifies this
      ensures Valid()
      ensures !blink
      ensures tooltip == old(tooltip) && notify == old(notify) && isOpen == old(isOpen)
      ensures messages == old(messages) && typing == old(typing)
      ensures input == old(input) && theme == old(theme)
    {
      blink := false;
    }

    /** The 5-second timer: the tooltip goes away. */
    method TooltipTimeout()
      requires Valid()
      modifies this
      ensures Valid()
      ensures !tooltip
      ensures blink == old(blink) && notify == old(notify) && isOpen == old(isOpen)
      ensures messages == old(messages) && typing == old(typing)
      ensures input == old(input) && theme == old(theme)
    {
      tooltip := false;
    }

    /** The 7-second timer: the "ask me" badge goes away. */
    method NotifyTimeout()
      requires Valid()
      modifies this
      ensures Valid()
      ensures !notify
      ensures blink == old(blink) && tooltip == old(tooltip) && isOpen == old(isOpen)
      ensures messages == old(messages) && typing == old(typing)
      ensures input == old(input) && theme == old(theme)
    {
      notify := false;
    }
  }
}
