/** What both inbox monitors do with one fetched message: pull the plain-text
    body out of its MIME parts, take the first decoded chunk of the Subject
    and From headers, and compose the text handed to the classifier.
    The `email` library's parsing and `decode_header` are not modelled: a
    message arrives already split into parts, each with the outcome of
    decoding its payload. */
module MailMessage {
  import opened Common

  /** One payload as the `email` library exposes it: `raw` is what
      `get_payload()` returns (still transfer-encoded) and `decoded` is the
      outcome of `get_payload(decode=True).decode()`, None when that raised. */
  datatype Payload = Payload(raw: string, decoded: Option<string>)

  datatype Part = Part(contentType: string, payload: Payload)

  /** A parsed message. A multipart message is given by the parts `walk()`
      yields, in walk order (containers included); a single-part message by
      its one payload. */
  datatype Message = Multipart(walk: seq<Part>) | SinglePart(payload: Payload)

  const TextPlain := "text/plain"

  /** What one walked part adds to the content: its decoded text when it is
      `text/plain` and decodes, nothing otherwise. */
  function PartText(p: Part): string
  {
    if p.contentType == TextPlain && p.payload.decoded.Some? then p.payload.decoded.value else ""
  }

  /** A `text/plain` part whose decoding raised. */
  predicate IsFailedPlain(p: Part)
  {
    p.contentType == TextPlain && p.payload.decoded.None?
  }

  /** The content accumulated over the walked parts, in walk order. */
  function WalkText(parts: seq<Part>): string
  {
    if parts == [] then "" else WalkText(parts[..|parts| - 1]) + PartText(parts[|parts| - 1])
  }

  /** The number of `text/plain` parts whose decoding raised. */
  function FailedPlainCount(parts: seq<Part>): nat
  {
    if parts == [] then 0
    else FailedPlainCount(parts[..|parts| - 1]) + (if IsFailedPlain(parts[|parts| - 1]) then 1 else 0)
  }

  /** The text `get_email_content` returns for a message. */
  function Content(m: Message): string
  {
    match m
    case Multipart(walk) => WalkText(walk)
    case SinglePart(p) => if p.decoded.Some? then p.decoded.value else p.raw
  }

  /** The number of decode errors `get_email_content` logs for a message. */
  function DecodeErrors(m: Message): nat
  {
    match m
    case Multipart(walk) => FailedPlainCount(walk)
    case SinglePart(p) => if p.decoded.Some? then 0 else 1
  }

  lemma {:induction false} WalkTextAppend(a: seq<Part>, b: seq<Part>)
    ensures WalkText(a + b) == WalkText(a) + WalkText(b)
    decreases |b|
  {
    if b == [] {
      assert a + b == a;
    } else {
      var b', last := b[..|b| - 1], b[|b| - 1];
      var ab := a + b;
      assert ab[..|ab| - 1] == a + b';
      assert ab[|ab| - 1] == last;
      calc {
        WalkText(ab);
        WalkText(a + b') + PartText(last);
        { WalkTextAppend(a, b'); }
        WalkText(a) + WalkText(b') + PartText(last);
        WalkText(a) + WalkText(b);
      }
    }
  }

  /** A part that is not `text/plain`, or a `text/plain` part whose decoding
      fails, is skipped: extraction goes on with the remaining parts as if it
      were not there. */
  lemma WalkTextSkips(before: seq<Part>, p: Part, after: seq<Part>)
    requires p.contentType != TextPlain || p.payload.decoded.None?
    ensures WalkText(before + [p] + after) == WalkText(before + after)
  {
    var bp := before + [p];
    assert [p][..0] == [];
    assert WalkText([p]) == "";
    WalkTextAppend(before, [p]);
    assert WalkText(bp) == WalkText(before);
    WalkTextAppend(bp, after);
    WalkTextAppend(before, after);
  }

  /** When every walked part is a decodable `text/plain` part, the content is
      exactly the concatenation of their decoded payloads. */
  lemma {:induction false} WalkTextAllPlain(parts: seq<Part>, texts: seq<string>)
    requires |texts| == |parts|
    requires forall i :: 0 <= i < |parts| ==> parts[i] == Part(TextPlain, Payload(parts[i].payload.raw, Some(texts[i])))
    ensures WalkText(parts) == Concat(texts)
    decreases |parts|
  {
    if parts != [] {
      var n := |parts| - 1;
      WalkTextAllPlain(parts[..n], texts[..n]);
      assert texts[..n] + [texts[n]] == texts;
      ConcatAppend(texts[..n], texts[n]);
    }
  }

  /** The concatenation of a sequence of strings. */
  function Concat(texts: seq<string>): string
  {
    if texts == [] then "" else Concat(texts[..|texts| - 1]) + texts[|texts| - 1]
  }

  lemma ConcatAppend(texts: seq<string>, t: string)
    ensures Concat(texts + [t]) == Concat(texts) + t
  {
    assert (texts + [t])[..|texts|] == texts;
  }

  /** `get_email_content` as server/EmailMonitor.py writes it: the decodable
      `text/plain` parts are concatenated and every part that fails to decode
      is logged; a single-part message whose payload fails to decode falls
      back to the raw payload. */
  method GetEmailContent(msg: Message) returns (content: string, errorsLogged: nat)
    ensures content == Content(msg)
    ensures errorsLogged == DecodeErrors(msg)
    ensures msg.SinglePart? && msg.payload.decoded.None? ==> content == msg.payload.raw
  {
    content := "";
    errorsLogged := 0;
    match msg
    case Multipart(walk) =>
      for i := 0 to |walk|
        invariant content == WalkText(walk[..i])
        invariant errorsLogged == FailedPlainCount(walk[..i])
      {
        assert walk[..i + 1][..i] == walk[..i];
        var part := walk[i];
        if part.contentType == TextPlain {
          match part.payload.decoded
          case Some(text) =>
            content := content + text;
          case None =>
            errorsLogged := errorsLogged + 1;
        }
      }
      assert walk[..|walk|] == walk;
    case SinglePart(payload) =>
      match payload.decoded
      case Some(text) =>
        content := text;
      case None =>
        errorsLogged := errorsLogged + 1;
        content := payload.raw;
  }

  /** `get_email_content` as server/server.py writes it: the same content,
      with undecodable parts dropped silently. */
  method GetEmailContentQuietly(msg: Message) returns (content: string)
    ensures content == Content(msg)
    ensures msg.SinglePart? && msg.payload.decoded.None? ==> content == msg.payload.raw
  {
    content := "";
    match msg
    case Multipart(walk) =>
      for i := 0 to |walk|
        invariant content == WalkText(walk[..i])
      {
        assert walk[..i + 1][..i] == walk[..i];
        var part := walk[i];
        if part.contentType == TextPlain && part.payload.decoded.Some? {
          content := content + part.payload.decoded.value;
        }
      }
      assert walk[..|walk|] == walk;
    case SinglePart(payload) =>
      content := if payload.decoded.Some? then payload.decoded.value else payload.raw;
  }

  /** One chunk of what `decode_header` returns: text as is, or bytes with the
      outcome of `.decode()` (None when that raised). */
  datatype HeaderChunk = TextChunk(text: string) | BytesChunk(decoded: Option<string>)

  /** A header as the monitor sees it: absent (then `decode_header` raises),
      or present with the chunks `decode_header` returns. */
  datatype Header = Absent | Present(chunks: seq<HeaderChunk>)

  function ChunkText(c: HeaderChunk): Option<string>
  {
    match c
    case TextChunk(t) => Some(t)
    case BytesChunk(d) => d
  }

  /** `decode_header(h)[0][0]`, decoded when it is bytes; None when that
      raises (no header, no chunk, undecodable bytes). */
  function FirstChunkText(h: Header): (r: Option<string>)
    ensures r.Some? <==> h.Present? && |h.chunks| > 0 && (h.chunks[0].TextChunk? || h.chunks[0].decoded.Some?)
    ensures r.Some? && h.chunks[0].TextChunk? ==> r.value == h.chunks[0].text
    ensures r.Some? && h.chunks[0].BytesChunk? ==> r == h.chunks[0].decoded
  {
    if h.Absent? || h.chunks == [] then None else ChunkText(h.chunks[0])
  }

  /** Only the first chunk matters: whatever chunks follow it are ignored,
      and a header with no chunk or no header at all yields nothing. */
  lemma FirstChunkOnly(h: Header)
    ensures FirstChunkText(h).Some? ==> h.Present? && |h.chunks| > 0
    ensures h.Present? && |h.chunks| > 0 ==>
      forall rest :: FirstChunkText(Present([h.chunks[0]] + rest)) == FirstChunkText(h)
  {
  }

  const FromLabel := "\nFrom: "
  const SubjectLabel := "\nSubject: "
  /** The label of the content field in server/EmailMonitor.py. */
  const ContentLabel := "\nContent: "
  /** The misspelt label of the content field in server/server.py. */
  const LegacyContentLabel := "\nContet: "

  /** The text handed to the classifier: sender, subject and content, each
      after its label, in that order. */
  function ClassifierText(from: string, subject: string, contentLabel: string, content: string): (r: string)
    ensures |r| == |FromLabel| + |from| + |SubjectLabel| + |subject| + |contentLabel| + |content|
  {
    FromLabel + from + SubjectLabel + subject + contentLabel + content
  }

  /** Every field of the classifier text can be read back at its offset, so
      nothing is lost, reordered or run together. */
  lemma ClassifierTextFields(from: string, subject: string, contentLabel: string, content: string)
    ensures var r := ClassifierText(from, subject, contentLabel, content);
      var a := |FromLabel|;
      var b := a + |from|;
      var c := b + |SubjectLabel|;
      var d := c + |subject|;
      && |r| == d + |contentLabel| + |content|
      && r[..a] == FromLabel && r[a..b] == from
      && r[b..c] == SubjectLabel && r[c..d] == subject
      && r[d..|r| - |content|] == contentLabel && r[|r| - |content|..] == content
  {
  }

  /** The two monitors never hand the classifier the same text for the same
      message: the misspelt label is one character shorter. */
  lemma LegacyTextDiffers(from: string, subject: string, content: string)
    ensures ClassifierText(from, subject, LegacyContentLabel, content) != ClassifierText(from, subject, ContentLabel, content)
    ensures |ClassifierText(from, subject, LegacyContentLabel, content)| + 1 == |ClassifierText(from, subject, ContentLabel, content)|
  {
  }

  /** The structured answer of the classifier (server/Requests.py), opaque
      to the monitors beyond its fields. */
  datatype Classification = Classification(kind: int, companyName: string, jobTitle: string, status: string, date: string)

  /** What `classify_email` does with a text: it raises, or it returns the
      parsed answer of the completion, which is None when the reply could
      not be parsed into a classification. */
  datatype ClassifierReply = Raised | Parsed(parsed: Option<Classification>)

  /** The classifier as the monitors call it. */
  type Classifier = string -> ClassifierReply

  /** A fetched message: its two headers and its parsed body. */
  datatype RawEmail = RawEmail(subject: Header, from: Header, body: Message)

  /** A selected mailbox session: the UNSEEN search result (None when select
      or search raises) and, per message number, the outcome of fetching and
      parsing that message (None when it raises). */
  datatype Session = Session(unseen: Option<seq<nat>>, fetch: nat -> Option<RawEmail>)

  /** How far one message gets: a failure at fetch, at header decoding or
      inside the classifier, or the classifier's (possibly empty) answer. */
  datatype MessageOutcome = FetchFailed | HeaderFailed | ClassifyFailed | Classified(answer: Option<Classification>)

  /** The outcome of fetching, decoding and classifying one message. */
  function Outcome(s: Session, num: nat, contentLabel: string, classify: Classifier): MessageOutcome
  {
    match s.fetch(num)
    case None => FetchFailed
    case Some(e) =>
      match FirstChunkText(e.subject)
      case None => HeaderFailed
      case Some(subject) =>
        match FirstChunkText(e.from)
        case None => HeaderFailed
        case Some(from) =>
          match classify(ClassifierText(from, subject, contentLabel, Content(e.body)))
          case Raised => ClassifyFailed
          case Parsed(answer) => Classified(answer)
  }

  /** A message's outcome depends on nothing but its own fetch: neither on
      the search result nor on what any other message number fetches. */
  lemma OutcomeOwnFetch(s: Session, s': Session, num: nat, contentLabel: string, classify: Classifier)
    requires s.fetch(num) == s'.fetch(num)
    ensures Outcome(s, num, contentLabel, classify) == Outcome(s', num, contentLabel, classify)
  {
  }

  /** The classifier is reached exactly when the fetch and both headers
      succeed, and then it sees the first chunks of From and Subject and the
      message's content; a raise inside it is the only way to ClassifyFailed. */
  lemma OutcomeStages(s: Session, num: nat, contentLabel: string, classify: Classifier)
    ensures var o := Outcome(s, num, contentLabel, classify);
      && (o == FetchFailed <==> s.fetch(num).None?)
      && (o == HeaderFailed <==>
            s.fetch(num).Some? && (FirstChunkText(s.fetch(num).value.subject).None? || FirstChunkText(s.fetch(num).value.from).None?))
      && ((o.ClassifyFailed? || o.Classified?) ==>
            var e := s.fetch(num).value;
            && FirstChunkText(e.subject).Some? && FirstChunkText(e.from).Some?
            && var reply := classify(ClassifierText(FirstChunkText(e.from).value, FirstChunkText(e.subject).value, contentLabel, Content(e.body)));
               (o.ClassifyFailed? <==> reply.Raised?) && (o.Classified? ==> reply == Parsed(o.answer)))
  {
  }

  /** Adding a walked part that is not `text/plain`, or a `text/plain` part
      that fails to decode, anywhere in a multipart message leaves the
      classifier's text, and thus the outcome, unchanged. */
  lemma {:induction false} OutcomeIgnoresSkippedPart(s: Session, s': Session, num: nat, contentLabel: string, classify: Classifier,
                                                     subject: Header, from: Header, before: seq<Part>, p: Part, after: seq<Part>)
    requires p.contentType != TextPlain || p.payload.decoded.None?
    requires s.fetch(num) == Some(RawEmail(subject, from, Multipart(before + after)))
    requires s'.fetch(num) == Some(RawEmail(subject, from, Multipart(before + [p] + after)))
    ensures Outcome(s', num, contentLabel, classify) == Outcome(s, num, contentLabel, classify)
  {
    WalkTextSkips(before, p, after);
    assert Content(Multipart(before + [p] + after)) == Content(Multipart(before + after));
  }

  /** The outcomes of a run of messages, in order. */
  function Outcomes(s: Session, nums: seq<nat>, contentLabel: string, classify: Classifier): seq<MessageOutcome>
  {
    if nums == [] then []
    else Outcomes(s, nums[..|nums| - 1], contentLabel, classify) + [Outcome(s, nums[|nums| - 1], contentLabel, classify)]
  }

  /** Each message's outcome depends on that message alone: the k-th entry
      is the outcome of the k-th message number, whatever the others do. */
  lemma {:induction false} OutcomesAt(s: Session, nums: seq<nat>, contentLabel: string, classify: Classifier)
    ensures |Outcomes(s, nums, contentLabel, classify)| == |nums|
    ensures forall k :: 0 <= k < |nums| ==> Outcomes(s, nums, contentLabel, classify)[k] == Outcome(s, nums[k], contentLabel, classify)
    decreases |nums|
  {
    if nums != [] {
      OutcomesAt(s, nums[..|nums| - 1], contentLabel, classify);
    }
  }

  /** Fetch, header decoding and classification of one message, with the
      content taken as `check_for_new_emails` in server/EmailMonitor.py
      takes it. */
  method PrepareMessage(s: Session, num: nat, contentLabel: string, classify: Classifier)
    returns (o: MessageOutcome)
    ensures o == Outcome(s, num, contentLabel, classify)
  {
    var fetched := s.fetch(num);
    if fetched.None? {
      return FetchFailed;
    }
    var e := fetched.value;
    var subject := FirstChunkText(e.subject);
    if subject.None? {
      return HeaderFailed;
    }
    var from := FirstChunkText(e.from);
    if from.None? {
      return HeaderFailed;
    }
    var content, _ := GetEmailContent(e.body);
    var reply := classify(ClassifierText(from.value, subject.value, contentLabel, content));
    if reply.Raised? {
      return ClassifyFailed;
    }
    o := Classified(reply.parsed);
  }
}
