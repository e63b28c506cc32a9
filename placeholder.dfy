/** How the chat and image paths resolve their progress message once the
    provider call returns, with a response or an exception: exactly one
    terminal action per such call. */
module Placeholder {
  import opened Decimal

  newtype byte = b: int | 0 <= b < 256

  /** What one provider call gives back: an HTTP response (status code, body
      decoded as text, and a payload read from the body), or the exception the
      call raised, as `str(e)` shows it. */
  datatype Response<T> = Ok(status: nat, text: string, payload: T) | Fault(message: string)

  /** Reading `choices[0].message.content` from the JSON body of a completion
      response: the reply, or the message of the exception the lookup raised. */
  datatype Extracted = Content(reply: string) | Malformed(message: string)

  /** The final state of the progress message. */
  datatype Terminal = EditText(text: string) | DeleteAndSendPhoto(photo: seq<byte>)

  const ChatErrorPrefix: string := "\U{274C} Chat Error: "
  const ChatFaultPrefix: string := "\U{26A0}\U{FE0F} Error during chat: "
  const ImageErrorPrefix: string := "\U{274C} Stability API Error:\n"
  const ImageFaultPrefix: string := "\U{26A0}\U{FE0F} Error during image generation: "

  /** The completion path: a 200 response edits the "thinking" message to the
      reply; any other status shows the status code and the body; an exception
      (from the call or from reading the JSON) shows its message. */
  function ResolveChat(r: Response<Extracted>): (t: Terminal)
    ensures t.EditText?
  {
    match r
    case Fault(e) => EditText(ChatFaultPrefix + e)
    case Ok(status, body, extracted) =>
      if status == 200 then
        match extracted
        case Content(reply) => EditText(reply)
        case Malformed(e) => EditText(ChatFaultPrefix + e)
      else
        EditText(ChatErrorPrefix + Show(status) + "\n" + body)
  }

  /** The image path: a 200 response deletes the "generating" message and sends
      the body bytes as a photo; any other status or an exception edits the
      message to an error. */
  function ResolveImage(r: Response<seq<byte>>): Terminal {
    match r
    case Fault(e) => EditText(ImageFaultPrefix + e)
    case Ok(status, body, content) =>
      if status == 200 then DeleteAndSendPhoto(content)
      else EditText(ImageErrorPrefix + Show(status) + "\n" + body)
  }

  // ---------------------------------------------------------------------
  // Substrings

  ghost predicate OccursAt(t: string, p: string, i: int) {
    0 <= i && i + |p| <= |t| && t[i..i + |p|] == p
  }

  ghost predicate Contains(t: string, p: string) {
    exists i :: OccursAt(t, p, i)
  }

  lemma PrefixOccurs(p: string, e: string)
    ensures Contains(p + e, p) && Contains(p + e, e)
  {
    assert OccursAt(p + e, p, 0);
    assert OccursAt(p + e, e, |p|);
  }

  /** The error text `prefix status "\n" body` shows all three parts. */
  lemma ErrorTextShows(p: string, s: string, body: string)
    ensures Contains(p + s + "\n" + body, p)
    ensures Contains(p + s + "\n" + body, s)
    ensures Contains(p + s + "\n" + body, body)
  {
    var t := p + s + "\n" + body;
    assert t[..|p|] == p;
    assert t[|p|..|p| + |s|] == s;
    assert t[|p| + |s| + 1..] == body;
    assert OccursAt(t, p, 0);
    assert OccursAt(t, s, |p|);
    assert OccursAt(t, body, |p| + |s| + 1);
  }

  /** A status line `digits "\n" rest` determines both its digits and its rest. */
  lemma {:induction false} StatusLineDetermines(a: string, x: string, b: string, y: string)
    requires forall i :: 0 <= i < |a| ==> IsDigit(a[i])
    requires forall i :: 0 <= i < |b| ==> IsDigit(b[i])
    requires a + "\n" + x == b + "\n" + y
    ensures a == b && x == y
  {
    var l, r := a + "\n" + x, b + "\n" + y;
    NewlineAfter(a, x);
    NewlineAfter(b, y);
    if |a| != |b| {
      assert false;
    } else {
      assert a == l[..|a|] && b == r[..|b|];
      assert x == l[|a| + 1..] && y == r[|b| + 1..];
    }
  }

  lemma NewlineAfter(a: string, x: string)
    ensures (a + "\n" + x)[|a|] == '\n'
    ensures forall i :: 0 <= i < |a| ==> (a + "\n" + x)[i] == a[i]
  {
  }

  lemma PrefixCancel(p: string, u: string, v: string)
    requires p + u == p + v
    ensures u == v
  {
    assert u == (p + u)[|p|..] && v == (p + v)[|p|..];
  }

  // ---------------------------------------------------------------------
  // The chat path

  /** Once the call returns, the chat placeholder ends as one edited text: exactly the reply on
      a 200 whose content could be read; otherwise an error text that contains
      the status code and the body, or the exception message. */
  lemma ChatOutcome(r: Response<Extracted>)
    ensures ResolveChat(r).EditText?
    ensures r.Ok? && r.status == 200 && r.payload.Content? ==>
      ResolveChat(r).text == r.payload.reply
    ensures r.Ok? && r.status != 200 ==>
      Contains(ResolveChat(r).text, ChatErrorPrefix) &&
      Contains(ResolveChat(r).text, Show(r.status)) && Contains(ResolveChat(r).text, r.text)
    ensures r.Ok? && r.status == 200 && r.payload.Malformed? ==>
      Contains(ResolveChat(r).text, ChatFaultPrefix) && Contains(ResolveChat(r).text, r.payload.message)
    ensures r.Fault? ==>
      Contains(ResolveChat(r).text, ChatFaultPrefix) && Contains(ResolveChat(r).text, r.message)
  {
    match r
    case Fault(e) =>
      PrefixOccurs(ChatFaultPrefix, e);
    case Ok(status, body, extracted) =>
      if status != 200 {
        ErrorTextShows(ChatErrorPrefix, Show(status), body);
      } else if extracted.Malformed? {
        PrefixOccurs(ChatFaultPrefix, extracted.message);
      }
  }

  /** An error edit tells the user which status code came back: two error
      responses that show the same text had the same status and body. */
  lemma ChatErrorShowsStatus(s1: nat, b1: string, p1: Extracted, s2: nat, b2: string, p2: Extracted)
    requires s1 != 200 && s2 != 200
    requires ResolveChat(Ok(s1, b1, p1)) == ResolveChat(Ok(s2, b2, p2))
    ensures s1 == s2 && b1 == b2
  {
    assert ChatErrorPrefix + Show(s1) + "\n" + b1 == ChatErrorPrefix + (Show(s1) + "\n" + b1);
    assert ChatErrorPrefix + Show(s2) + "\n" + b2 == ChatErrorPrefix + (Show(s2) + "\n" + b2);
    PrefixCancel(ChatErrorPrefix, Show(s1) + "\n" + b1, Show(s2) + "\n" + b2);
    StatusLineDetermines(Show(s1), b1, Show(s2), b2);
    ShowInjective(s1, s2);
  }

  // ---------------------------------------------------------------------
  // The image path

  /** Once the call returns, the image placeholder ends in exactly one terminal state: it is deleted
      and replaced by a photo exactly when the status is 200, and the photo is
      the response content byte for byte; otherwise it is edited to an error
      that contains the status code and the body, or the exception message. */
  lemma ImageOutcome(r: Response<seq<byte>>)
    ensures ResolveImage(r).DeleteAndSendPhoto? <==> r.Ok? && r.status == 200
    ensures ResolveImage(r).DeleteAndSendPhoto? ==> ResolveImage(r).photo == r.payload
    ensures r.Ok? && r.status != 200 ==>
      Contains(ResolveImage(r).text, ImageErrorPrefix) &&
      Contains(ResolveImage(r).text, Show(r.status)) && Contains(ResolveImage(r).text, r.text)
    ensures r.Fault? ==>
      Contains(ResolveImage(r).text, ImageFaultPrefix) && Contains(ResolveImage(r).text, r.message)
  {
    match r
    case Fault(e) =>
      PrefixOccurs(ImageFaultPrefix, e);
    case Ok(status, body, content) =>
      if status != 200 {
        ErrorTextShows(ImageErrorPrefix, Show(status), body);
      }
  }

  /** The image error edit, too, tells the status code and body apart. */
  lemma ImageErrorShowsStatus(s1: nat, b1: string, c1: seq<byte>, s2: nat, b2: string, c2: seq<byte>)
    requires s1 != 200 && s2 != 200
    requires ResolveImage(Ok(s1, b1, c1)) == ResolveImage(Ok(s2, b2, c2))
    ensures s1 == s2 && b1 == b2
  {
    assert ImageErrorPrefix + Show(s1) + "\n" + b1 == ImageErrorPrefix + (Show(s1) + "\n" + b1);
    assert ImageErrorPrefix + Show(s2) + "\n" + b2 == ImageErrorPrefix + (Show(s2) + "\n" + b2);
    PrefixCancel(ImageErrorPrefix, Show(s1) + "\n" + b1, Show(s2) + "\n" + b2);
    StatusLineDetermines(Show(s1), b1, Show(s2), b2);
    ShowInjective(s1, s2);
  }
}
