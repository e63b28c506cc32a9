/** The bot's per-user mode store and the routing of each incoming text
    message: a mode selection, a prompt for the selected mode, or a notice. */
module Router {
  import opened PyText

  type UserId = int

  datatype Mode = Chat | Imagine

  datatype Option<T> = None | Some(value: T)

  /** One new text message from a user, as the bot receives it. */
  datatype Message = Message(sender: UserId, text: string)

  /** What the bot does in answer to one message. A selection or a notice is a
      fixed reply; a call posts the progress message and asks the provider with
      the given prompt. */
  datatype Action =
    | Welcome
    | Confirm(mode: Mode)
    | NoModeNotice
    | EmptyPromptNotice(mode: Mode)
    | Call(mode: Mode, prompt: string)

  const ChatLabel: string := "\U{1F4AC} Chat Mode"
  const ImageLabel: string := "\U{1F3A8} Image Mode"

  /** The reply keyboard `/start` sends: one row with the two mode buttons. */
  const Keyboard: seq<seq<string>> := [[ChatLabel, ImageLabel]]

  /** The text the bot sends for an action; for a call, the progress message. */
  function Reply(a: Action): string {
    match a
    case Welcome => "\U{1F44B} Welcome to your AI Bot!\nChoose a mode to begin:"
    case Confirm(Chat) => "\U{1F4AC} You're now in *Chat Mode*. Just type your message!"
    case Confirm(Imagine) => "\U{1F3A8} You're now in *Image Mode*. Send a prompt to generate an image."
    case NoModeNotice => "\U{2757} Please select a mode first by using /start."
    case EmptyPromptNotice(Chat) => "\U{1F9E0} Please type something to chat."
    case EmptyPromptNotice(Imagine) => "\U{1F5BC}\U{FE0F} Please type a prompt to generate an image."
    case Call(Chat, _) => "\U{1F914} Thinking..."
    case Call(Imagine, _) => "\U{1F3A8} Generating your image..."
  }

  function Lookup(modes: map<UserId, Mode>, user: UserId): Option<Mode> {
    if user in modes then Some(modes[user]) else None
  }

  /** The mode a message selects: its text, stripped, is one of the labels. */
  function Selection(text: string): Option<Mode> {
    var t := Strip(text);
    if t == ChatLabel then Some(Chat)
    else if t == ImageLabel then Some(Imagine)
    else None
  }

  /** A command of the given mode with its whitespace-separated arguments:
      the arguments joined by single spaces form the prompt. */
  function Command(mode: Mode, args: seq<string>): (a: Action)
    ensures a == EmptyPromptNotice(mode) <==> Join(args) == []
    ensures a.Call? ==> a.mode == mode && a.prompt == Join(args)
    ensures Join(args) != [] ==> a == Call(mode, Join(args))
  {
    var prompt := Join(args);
    if prompt == [] then EmptyPromptNotice(mode) else Call(mode, prompt)
  }

  /** Routing of a message that selects no mode. */
  function Dispatch(modes: map<UserId, Mode>, user: UserId, text: string): (a: Action)
    ensures !a.Welcome? && !a.Confirm?
  {
    match Lookup(modes, user)
    case None => NoModeNotice
    case Some(mode) => Command(mode, Split(Strip(text)))
  }

  /** One text message: the new store and the action taken. */
  function Step(modes: map<UserId, Mode>, m: Message): (r: (map<UserId, Mode>, Action))
    ensures r.0.Keys == modes.Keys + {m.sender} || r.0 == modes
    ensures forall u :: u in modes && u != m.sender ==> u in r.0 && r.0[u] == modes[u]
  {
    match Selection(m.text)
    case Some(mode) => (modes[m.sender := mode], Confirm(mode))
    case None => (modes, Dispatch(modes, m.sender, m.text))
  }

  /** The store after a sequence of messages, processed in order. */
  function Replay(modes: map<UserId, Mode>, msgs: seq<Message>): map<UserId, Mode>
    decreases |msgs|
  {
    if msgs == [] then modes
    else Step(Replay(modes, msgs[..|msgs| - 1]), msgs[|msgs| - 1]).0
  }

  /** The last mode a user selected in the messages. */
  function LastSelection(msgs: seq<Message>, user: UserId): Option<Mode>
    decreases |msgs|
  {
    if msgs == [] then None
    else
      var m := msgs[|msgs| - 1];
      if m.sender == user && Selection(m.text).Some? then Selection(m.text)
      else LastSelection(msgs[..|msgs| - 1], user)
  }

  /** The messages a given user sent, in order. */
  function From(msgs: seq<Message>, user: UserId): seq<Message>
    decreases |msgs|
  {
    if msgs == [] then []
    else
      var m := msgs[|msgs| - 1];
      From(msgs[..|msgs| - 1], user) + (if m.sender == user then [m] else [])
  }

  // ---------------------------------------------------------------------
  // The bot

  class Bot {
    /** The mode each user last selected. */
    var modes: map<UserId, Mode>

    constructor ()
      ensures modes == map[]
    {
      modes := map[];
    }

    /** `/start`: greets and offers the keyboard; the store is untouched. */
    method Start() returns (a: Action)
      ensures a == Welcome
      ensures Reply(a) == "\U{1F44B} Welcome to your AI Bot!\nChoose a mode to begin:"
    {
      a := Welcome;
    }

    /** Every text message that is not a command: a stripped label records
        that mode for the sender; anything else is handled as user input. */
    method HandleModeSwitch(m: Message) returns (a: Action)
      modifies this
      ensures (modes, a) == Step(old(modes), m)
      ensures forall u :: u != m.sender ==> Lookup(modes, u) == Lookup(old(modes), u)
      ensures Selection(m.text).None? ==> modes == old(modes)
      ensures Selection(m.text).Some? ==>
        Lookup(modes, m.sender) == Selection(m.text) && a == Confirm(Selection(m.text).value)
    {
      var text := Strip(m.text);
      if text == ChatLabel {
        modes := modes[m.sender := Chat];
        a := Confirm(Chat);
      } else if text == ImageLabel {
        modes := modes[m.sender := Imagine];
        a := Confirm(Imagine);
      } else {
        a := HandleUserInput(m);
      }
    }

    /** A message that selects no mode: a notice when the sender has no mode,
        otherwise the command of the sender's mode on the text's words. */
    method HandleUserInput(m: Message) returns (a: Action)
      ensures a == Dispatch(modes, m.sender, m.text)
      ensures a == NoModeNotice <==> m.sender !in modes
      ensures a.EmptyPromptNotice? <==> m.sender in modes && AllSpace(m.text)
      ensures a.Call? <==> m.sender in modes && !AllSpace(m.text)
      ensures a.EmptyPromptNotice? || a.Call? ==> a.mode == modes[m.sender]
      ensures a.Call? ==> a.prompt == Normalize(m.text) && IsNormal(a.prompt)
    {
      var text := Strip(m.text);
      var mode := Lookup(modes, m.sender);
      if mode.None? {
        return NoModeNotice;
      }
      var args := Split(text);
      var prompt := Join(args);
      if prompt == [] {
        a := EmptyPromptNotice(mode.value);
      } else {
        a := Call(mode.value, prompt);
      }
      DispatchSpec(modes, m.sender, m.text);
    }
  }

  // ---------------------------------------------------------------------
  // Properties of one step

  /** Routing of a non-selecting message, case by case: no mode gives the
      notice; otherwise an all-whitespace text gives the empty-prompt notice of
      the sender's mode, and any other text calls that mode's provider with the
      text's words joined by single spaces. */
  lemma DispatchSpec(modes: map<UserId, Mode>, user: UserId, text: string)
    ensures var a := Dispatch(modes, user, text);
      && (a == NoModeNotice <==> user !in modes)
      && (a.EmptyPromptNotice? <==> user in modes && AllSpace(text))
      && (a.Call? <==> user in modes && !AllSpace(text))
      && (a.EmptyPromptNotice? || a.Call? ==> a.mode == modes[user])
      && (a.Call? ==> a.prompt == Normalize(text) && IsNormal(a.prompt))
  {
    SplitStripped(text);
    NormalizeSpec(text);
  }

  /** A command on the words `split()` produced: the empty-prompt notice comes
      exactly when there are no words, and a call's prompt is in normal form
      and splits back into those same words. */
  lemma CommandOnWords(mode: Mode, args: seq<string>)
    requires AllWords(args)
    ensures Command(mode, args).EmptyPromptNotice? <==> args == []
    ensures Command(mode, args).Call? ==>
      Split(Command(mode, args).prompt) == args && IsNormal(Command(mode, args).prompt)
  {
    JoinEmpty(args);
    if args != [] {
      SplitJoin(args);
      JoinIsNormal(args);
    }
  }

  /** Every text message has exactly one outcome: a confirmation exactly when
      it selects a mode; otherwise the no-mode notice, the empty-prompt notice
      or a provider call, as the sender's entry and the text decide. The
      welcome is only ever the answer to `/start`. */
  lemma StepRoute(modes: map<UserId, Mode>, m: Message)
    ensures var a := Step(modes, m).1; var sel := Selection(m.text);
      && (a.Confirm? <==> sel.Some?)
      && (a == NoModeNotice <==> sel.None? && m.sender !in modes)
      && (a.EmptyPromptNotice? <==> sel.None? && m.sender in modes && AllSpace(m.text))
      && (a.Call? <==> sel.None? && m.sender in modes && !AllSpace(m.text))
      && !a.Welcome?
  {
    DispatchSpec(modes, m.sender, m.text);
  }

  /** The prompt a call carries keeps every visible character of the message
      in order, has no leading, trailing or repeated whitespace, and is never
      empty. */
  lemma PromptShape(modes: map<UserId, Mode>, m: Message)
    requires Step(modes, m).1.Call?
    ensures var p := Step(modes, m).1.prompt;
      p != [] && Visible(p) == Visible(m.text) && NoStraySpace(p) && Split(p) == Split(m.text)
  {
    DispatchSpec(modes, m.sender, m.text);
    NormalizeSpec(m.text);
    var ws := Split(m.text);
    SplitJoin(ws);
  }

  /** A selection records the mode for the sender and confirms it; any other
      message leaves the store as it was. No other user's mode ever changes. */
  lemma StepStore(modes: map<UserId, Mode>, m: Message)
    ensures var (after, a) := Step(modes, m);
      && (forall u :: u != m.sender ==> Lookup(after, u) == Lookup(modes, u))
      && (Selection(m.text).Some? ==>
            Lookup(after, m.sender) == Selection(m.text) && a == Confirm(Selection(m.text).value))
      && (Selection(m.text).None? ==> after == modes && !a.Confirm?)
  {
  }

  /** Sending the same message twice has the same effect and reply as once. */
  lemma StepIdempotent(modes: map<UserId, Mode>, m: Message)
    ensures Step(Step(modes, m).0, m) == Step(modes, m)
  {
    if Selection(m.text).Some? {
      var mode := Selection(m.text).value;
      assert modes[m.sender := mode][m.sender := mode] == modes[m.sender := mode];
    }
  }

  /** What a step does depends on the store only through the sender's entry. */
  lemma StepLocal(m1: map<UserId, Mode>, m2: map<UserId, Mode>, m: Message)
    requires Lookup(m1, m.sender) == Lookup(m2, m.sender)
    ensures Step(m1, m).1 == Step(m2, m).1
    ensures Lookup(Step(m1, m).0, m.sender) == Lookup(Step(m2, m).0, m.sender)
  {
  }

  /** Each key of the start keyboard, sent back as it is, selects its mode,
      and so does the label with whitespace around it. */
  lemma KeyboardSelects(pad1: string, pad2: string)
    requires AllSpace(pad1) && AllSpace(pad2)
    ensures Keyboard == [[ChatLabel, ImageLabel]]
    ensures Selection(pad1 + ChatLabel + pad2) == Some(Chat)
    ensures Selection(pad1 + ImageLabel + pad2) == Some(Imagine)
  {
    LabelEnds();
    StripPadded(pad1, ChatLabel, pad2);
    StripPadded(pad1, ImageLabel, pad2);
  }

  lemma LabelEnds()
    ensures !IsSpace(ChatLabel[0]) && !IsSpace(ChatLabel[|ChatLabel| - 1])
    ensures !IsSpace(ImageLabel[0]) && !IsSpace(ImageLabel[|ImageLabel| - 1])
  {
    assert ChatLabel[0] == '\U{1F4AC}' && ImageLabel[0] == '\U{1F3A8}';
    assert ChatLabel[|ChatLabel| - 1] == 'e' && ImageLabel[|ImageLabel| - 1] == 'e';
    assert !IsSpace('\U{1F4AC}') && !IsSpace('\U{1F3A8}') && !IsSpace('e');
  }

  /** Stripping a padded text that has no whitespace at either end. */
  lemma StripPadded(g1: string, w: string, g2: string)
    requires AllSpace(g1) && AllSpace(g2)
    requires w != [] && !IsSpace(w[0]) && !IsSpace(w[|w| - 1])
    ensures Strip(g1 + w + g2) == w
  {
    var s := g1 + w + g2;
    StripIsSlice(s);
    StripTrimsBothEnds(s);
    var k, r := LeadingSpace(s), Strip(s);
    assert s[|g1|] == w[0];
    assert s[|g1| + |w| - 1] == w[|w| - 1];
    assert k == |g1|;
    assert |r| == |w|;
    assert r == s[|g1|..|g1| + |w|] == w;
  }

  // ---------------------------------------------------------------------
  // Properties of a conversation

  /** After any sequence of messages, each user's mode is the last one that
      user selected, or the initial one if they never selected any. */
  lemma {:induction false} ReplayIsLastSelection(modes: map<UserId, Mode>, msgs: seq<Message>, u: UserId)
    ensures Lookup(Replay(modes, msgs), u) ==
      match LastSelection(msgs, u)
      case Some(mode) => Some(mode)
      case None => Lookup(modes, u)
    decreases |msgs|
  {
    if msgs != [] {
      ReplayIsLastSelection(modes, msgs[..|msgs| - 1], u);
      StepStore(Replay(modes, msgs[..|msgs| - 1]), msgs[|msgs| - 1]);
    }
  }

  /** Other users' messages do not affect a user's last selection. */
  lemma {:induction false} LastSelectionFrom(msgs: seq<Message>, u: UserId)
    ensures LastSelection(From(msgs, u), u) == LastSelection(msgs, u)
    decreases |msgs|
  {
    if msgs != [] {
      var init, m := msgs[..|msgs| - 1], msgs[|msgs| - 1];
      LastSelectionFrom(init, u);
      if m.sender == u {
        var f := From(init, u) + [m];
        assert f[..|f| - 1] == From(init, u);
      } else {
        assert From(init, u) + [] == From(init, u);
        assert From(msgs, u) == From(init, u);
      }
    }
  }

  /** Users are isolated: the reply a user gets after any conversation is the
      one they would get had only their own messages been sent. */
  lemma Isolation(modes: map<UserId, Mode>, msgs: seq<Message>, m: Message)
    ensures Step(Replay(modes, msgs), m).1 == Step(Replay(modes, From(msgs, m.sender)), m).1
  {
    ReplayIsLastSelection(modes, msgs, m.sender);
    ReplayIsLastSelection(modes, From(msgs, m.sender), m.sender);
    LastSelectionFrom(msgs, m.sender);
    StepLocal(Replay(modes, msgs), Replay(modes, From(msgs, m.sender)), m);
  }
}
