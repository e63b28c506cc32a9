# Per-user mode router of the Inspiro AI Telegram bot

The bot keeps one process-wide store, `user_modes`. It maps each Telegram user
id to the mode that user last selected: chat (text completion) or imagine
(image generation). Every text message that is not a command goes to one
handler, `handle_mode_switch`:

- The message text is stripped of Python whitespace.
- If it equals one of the two keyboard labels, the sender's entry is written and a confirmation is sent.
- Otherwise the message is handed to `handle_user_input`:
  - without an entry, the user gets a "select a mode first" notice;
  - with an entry, the text's words are joined by single spaces into the prompt;
  - the prompt goes to the chat path or the image path, whichever the mode names.
- Each path answers an empty prompt with a notice.
- Otherwise the path posts a progress message, calls its provider, and resolves that message from the outcome. When the provider call returns, with a response or an exception, there is exactly one final state:
  - the message is edited to show the reply or an error;
  - or, for images, it is deleted and replaced by the photo.

The Dafny model has four modules:

- `PyText` (`text.dfy`): Python's `str.strip()`, `str.split()` with no separator, and `" ".join(...)`. `PyText.IsSpace` is the exact code-point set for which `str.isspace()` holds, written as a range table. The main results are:
  - the split/join round trip;
  - the normal form: no leading, trailing or doubled whitespace, and idempotent;
  - preservation of the visible characters;
  - a prompt is empty exactly when the text is all whitespace.
- `Decimal` (`decimal.dfy`): `str()` of a non-negative status code, with its inverse.
- `Router` (`router.dfy`):
  - the `Action` datatype, one value per observable answer;
  - the pure step function `Step` over the store;
  - the class `Bot`, whose `modes: map<UserId, Mode>` field is the store. Its methods `HandleModeSwitch` and `HandleUserInput` mirror the two handlers;
  - lemmas about single steps and about whole conversations (`Replay`).
- `Placeholder` (`placeholder.dfy`): how a provider response or exception becomes the final state of the progress message, for the chat path and the image path.

Two details of the code are easy to miss:

- A label is matched after `strip()` (main.py:38). So a label with whitespace around it also selects the mode; there is no exact-string match on the raw text.
- A chat or image prompt is the message's words joined by single spaces (main.py:60, 68, 99). It is not the message text verbatim: runs of inner whitespace collapse to one space.

## Model

| member | source | states |
|---|---|---|
| Router.Bot.constructor | main.py:23 | The store starts empty. |
| Router.Bot.Start | main.py:26-33 | `/start` answers with the welcome, whose text is the greeting of main.py:31, and changes no state (no `modifies`). |
| Router.Reply | main.py:31-104 | Definition: the text the bot sends for each action (greeting, confirmations, notices, progress messages). |
| Router.Selection | main.py:38-46 | Definition: the mode whose label equals the stripped text, if any; facts in Router.KeyboardSelects and Router.StepRoute. |
| Router.Command | main.py:68-70 | Definition: `prompt = " ".join(context.args)` and the `if not prompt` guard, shared by main.py:99-101; facts in Router.CommandOnWords and, in terms of the message text, Router.DispatchSpec. |
| Router.CommandOnWords | main.py:60-70 | On the words `split()` gives, the empty-prompt notice comes exactly when there are no words; a call's prompt is in normal form and splits back into exactly those words. |
| Router.Lookup | main.py:55 | Definition: `user_modes.get(user_id)`; None when the user has no entry. |
| Router.Dispatch | main.py:52-64 | A non-selecting message is never answered with a welcome or a confirmation; full decision table in Router.DispatchSpec. |
| Router.Step | main.py:36-64 | The new store is the old one, or the old one with the sender's entry written; every other user's entry keeps its value. |
| Router.Bot.HandleModeSwitch | main.py:36-49 | The new store and the action are those of `Step` on the old store. No entry other than the sender's changes. Non-label text leaves the store unchanged. A label writes the sender's entry and confirms that mode. |
| Router.Bot.HandleUserInput | main.py:52-64 | The action is `Dispatch` of the current store. No-mode notice iff the sender has no entry. Empty-prompt notice iff the sender has an entry and the text is all whitespace. Call iff the sender has an entry and the text is not all whitespace. The notice or call carries the sender's mode, and a call's prompt is the normalised text. |
| Router.DispatchSpec | main.py:52-70 | Decision table of the dispatcher with every direction of each iff. The no-mode check comes before the empty-prompt check, so whitespace-only text from a user without an entry gets the no-mode notice. |
| Router.StepRoute | main.py:36-64 | Every text message produces exactly one action kind. It is a confirmation iff the text selects a mode. Otherwise it is the no-mode notice, the empty-prompt notice or a provider call, each under an exact condition. The welcome never comes from a text message. |
| Router.PromptShape | main.py:60-68 | The prompt of a call is non-empty. It keeps the message's visible characters in order, has no stray whitespace, and splits into the same words as the message. |
| Router.StepStore | main.py:40-49 | A selection sets the sender's entry to the selected mode and confirms it, whatever the entry was before. Any other message leaves the store unchanged and is not a confirmation. No other user's entry ever changes. |
| Router.StepIdempotent | main.py:40-46 | Repeating a message gives the same store and the same answer as sending it once, so selecting a mode twice leaves the same store. |
| Router.StepLocal | main.py:55 | A step's answer and the sender's new entry depend on the store only through the sender's entry. |
| Router.KeyboardSelects | main.py:27-46 | The `/start` keyboard is exactly one row holding the two labels. Each label selects its mode, with or without surrounding whitespace. |
| Router.ReplayIsLastSelection | main.py:41-45 | After any sequence of messages, a user's entry is the mode of that user's last selecting message. If they never sent one, it is the initial entry. |
| Router.LastSelectionFrom | main.py:37-41 | Other users' messages do not change a user's last selection. |
| Router.Isolation | main.py:53-58 | After any conversation, a user's next answer equals the answer they would get had only their own messages been sent. |
| PyText.IsSpace | main.py:38 | Definition: the code points for which Python's `str.isspace()` holds, which `strip()` and `split()` cut at. |
| PyText.Strip | main.py:38 | Definition of `str.strip()`; facts in PyText.StripIsSlice and PyText.StripTrimsBothEnds. |
| PyText.Split | main.py:60 | `str.split()` with no separator returns only non-empty words without whitespace; further facts in PyText.SplitEmpty and PyText.SplitKeepsVisible. |
| PyText.Join | main.py:68 | Definition of `" ".join(...)`; facts in PyText.SplitJoin. |
| PyText.Normalize | main.py:99 | Definition of the prompt built from a text, `" ".join(text.split())`; facts in PyText.NormalizeSpec. |
| PyText.StripIsSlice | main.py:38 | `strip()` returns a contiguous slice of the text, with only whitespace cut on either side. |
| PyText.StripTrimsBothEnds | main.py:38 | The stripped text neither starts nor ends with whitespace. It is empty iff the text is all whitespace. |
| PyText.SplitStripped | main.py:54-60 | Splitting the stripped text gives the same words as splitting the raw text. |
| PyText.SplitEmpty | main.py:60 | `split()` gives no words iff the text is all whitespace. |
| PyText.SplitJoin | main.py:60-68 | Joining words by single spaces and splitting again gives back the same words. |
| PyText.NormalIsFixpoint | main.py:68 | A string is a join of words by single spaces iff normalising it leaves it unchanged. |
| PyText.NormalHasNoStraySpace | main.py:68 | A normal string has no leading, trailing, doubled or non-space whitespace. |
| PyText.SplitKeepsVisible | main.py:60 | The concatenated words are exactly the text's non-whitespace characters, in order. |
| PyText.NormalizeSpec | main.py:68-70 | Normalising keeps the visible characters and yields a normal string with no stray whitespace. The result is empty iff the text is all whitespace. Normalising is idempotent, and stripping first changes nothing. |
| Decimal.Show | main.py:92 | The decimal text of a status code, as the f-strings at main.py:92 and 131 render it: non-empty, digits only, no leading zero except for 0 itself, one digit exactly below 10. |
| Decimal.ValueOfShow | main.py:92 | Reading back the decimal rendering of a status code gives the code. |
| Decimal.ShowInjective | main.py:92 | Distinct status codes render differently. |
| Placeholder.ResolveChat | main.py:85-95 | A chat call that returns always ends in an edited text; the cases are in Placeholder.ChatOutcome. |
| Placeholder.ResolveImage | main.py:122-133 | Definition of the image outcome; the cases are in Placeholder.ImageOutcome. |
| Placeholder.ChatOutcome | main.py:85-95 | When the provider call returns, the chat progress message ends as one edited text. A 200 with readable content gives exactly that content. Any other status gives the error prefix, the status code and the body. A fault, or an unreadable 200 body, gives the fault prefix and the exception message. |
| Placeholder.ChatErrorShowsStatus | main.py:92 | Two chat error edits with the same text came from the same status code and body. |
| Placeholder.ImageOutcome | main.py:122-133 | When the provider call returns, the image progress message is deleted and replaced by a photo iff the status is 200, and the photo is exactly the response bytes. Any other status gives the error prefix, the status code and the body. A fault gives the fault prefix and the exception message. |
| Placeholder.ImageErrorShowsStatus | main.py:131 | Two image error edits with the same text came from the same status code and body. |

## Left out

- The `requests.post` calls, HTTP headers, URLs and payload constants (model names, output format, aspect ratio, style, seed). They are foreign calls with no decision logic. A provider outcome is a parameter (`Placeholder.Response`).
- JSON decoding of the completion body (main.py:89). The content lookup is an abstract `Extracted` value: the reply, or the message of the exception it raised.
- Telegram plumbing: `send_action`, `reply_text`, Markdown parse mode, keyboard rendering, `ApplicationBuilder`, handler registration and polling (main.py:137-143). Each answer is an `Action`, and `Router.Reply` gives its text.
- Failures of Telegram calls themselves, for example an edit that Telegram rejects, or a reply that is not a string, raised inside the `try`. The model assumes edits, deletes and photo sends succeed.
- Messages that are commands other than `/start`. They never reach the handler, because of the `~filters.COMMAND` filter.
- Loading secrets from the environment and the `keep_alive` web server (main.py:17-20). These are configuration and I/O.
- async/await and concurrent delivery of messages. Each message is one sequential step.
- A provider call that never returns: `requests.post` has no timeout (main.py:86, 123), so the progress message can stay unresolved for good. The outcome lemmas cover calls that return a response or raise.
- Edited messages and channel posts. The text filter (main.py:140) lets them reach the handler, where `update.message` is absent and main.py:37 raises, so they get no reply and change nothing. `Router.Message` is a new message from a user only.
- Status codes are natural numbers. The range HTTP allows is not enforced.
- The missing `else` after `elif mode == "imagine"` (main.py:63-64) would drop a message in any third mode. The store only ever holds the two modes, so that case cannot arise, and `Mode` has exactly two values.
