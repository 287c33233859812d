/**
 * One turn of the assistant chat screen: the guard on the input, the two
 * messages added to the current thread, the history sent to the chat
 * endpoint, the text finally stored for the assistant's reply, and the list
 * the screen shows. The network exchange is a parameter (`Reply`); the
 * stream's frames go through the decoder of `StreamFrames`.
 */
module ChatTurn {
  import opened Optional
  import opened Strings
  import Seqs
  import opened ChatStore
  import StreamFrames

  const NoResponse: string := "No response received."
  const Thinking: string := "Thinking..."
  const ErrorMark: string := "Error:"
  const DefaultError: string := "Something went wrong."
  const UnknownBody: string := "Unknown error"
  const ErrorBodyLimit: nat := 200

  // ---------------------------------------------------------------------------
  // Report attachment type
  // ---------------------------------------------------------------------------

  /** `getMimeType(fileName)`: decided by the lowercased text after the last `.`. */
  function GetMimeType(fileName: string): (r: string)
    ensures r == "application/pdf" || r == "image/png" || r == "image/jpeg"
  {
    var ext := Lower(LastSegment(fileName, '.'));
    if ext == "pdf" then "application/pdf"
    else if ext == "png" then "image/png"
    else "image/jpeg"
  }

  /**
   * Only the last piece of the name matters: the rest of it never changes the type.
   */
  lemma MimeTypeFromLastPiece(stem: string, ext: string)
    requires '.' !in ext
    ensures GetMimeType(stem + "." + ext) == GetMimeType(ext)
  {
    LastSegmentAfterSeparator(stem, ext, '.');
    LastSegmentWithoutSeparator(ext, '.');
  }

  /**
   * The mapping for every name with a `.`: the lowercased last piece decides,
   * whatever comes before it.
   */
  lemma ExtensionDecides(stem: string, ext: string)
    requires '.' !in ext
    ensures Lower(ext) == "pdf" ==> GetMimeType(stem + "." + ext) == "application/pdf"
    ensures Lower(ext) == "png" ==> GetMimeType(stem + "." + ext) == "image/png"
    ensures Lower(ext) != "pdf" && Lower(ext) != "png" ==> GetMimeType(stem + "." + ext) == "image/jpeg"
  {
    MimeTypeFromLastPiece(stem, ext);
    LastSegmentWithoutSeparator(ext, '.');
  }

  /** A name without a `.` is judged as a whole. */
  lemma DotlessName(name: string)
    requires '.' !in name
    ensures Lower(name) == "pdf" ==> GetMimeType(name) == "application/pdf"
    ensures Lower(name) == "png" ==> GetMimeType(name) == "image/png"
    ensures Lower(name) != "pdf" && Lower(name) != "png" ==> GetMimeType(name) == "image/jpeg"
  {
    LastSegmentWithoutSeparator(name, '.');
  }

  /** Upper-case extensions are recognised, whatever comes before them. */
  lemma UpperCasePdfName(stem: string)
    ensures GetMimeType(stem + "." + "PDF") == "application/pdf"
  {
    MimeTypeFromLastPiece(stem, "PDF");
    LastSegmentWithoutSeparator("PDF", '.');
    assert Lower("PDF") == "pdf";
  }

  /** A double extension is judged by its last part. */
  lemma DoubleExtension(stem: string)
    ensures GetMimeType(stem + "." + "pdf" + "." + "png") == "image/png"
  {
    MimeTypeFromLastPiece(stem + "." + "pdf", "png");
    LastSegmentWithoutSeparator("png", '.');
    assert Lower("png") == "png";
  }

  // ---------------------------------------------------------------------------
  // History sent to the endpoint
  // ---------------------------------------------------------------------------

  /** The history filter: not the placeholder, and not empty, failed or placeholder text. */
  predicate Resent(placeholderId: string, m: ChatMessage) {
    m.id != placeholderId
    && m.content != ""
    && !(ErrorMark <= m.content)
    && m.content != NoResponse
    && m.content != Thinking
  }

  function ResentBy(placeholderId: string): ChatMessage -> bool {
    m => Resent(placeholderId, m)
  }

  function History(all: seq<ChatMessage>, placeholderId: string): seq<ChatMessage> {
    Seqs.Filter(ResentBy(placeholderId), all)
  }

  /**
   * The history is the thread with some messages left out and the rest in
   * order; a message is in it exactly when it passes the filter.
   */
  lemma HistoryKeepsExactly(all: seq<ChatMessage>, placeholderId: string)
    ensures Seqs.IsSubsequence(History(all, placeholderId), all)
    ensures forall m :: m in History(all, placeholderId) <==> m in all && Resent(placeholderId, m)
  {
    Seqs.FilterIsSubsequence(ResentBy(placeholderId), all);
    Seqs.FilterKeepsExactly(ResentBy(placeholderId), all);
    var h := History(all, placeholderId);
    forall m | m in h
      ensures m in all
    {
      Seqs.SubsequenceMembers(h, all, m);
    }
  }

  /**
   * Asking adds the question and the empty placeholder; the history then
   * grows by the question alone, when the question passes the filter.
   */
  lemma HistoryAfterAsking(all: seq<ChatMessage>, question: ChatMessage, placeholder: ChatMessage)
    requires question.id != placeholder.id
    requires Resent(placeholder.id, question)
    ensures History(all + [question, placeholder], placeholder.id) == History(all, placeholder.id) + [question]
  {
    var keep := ResentBy(placeholder.id);
    Seqs.FilterAppend(keep, all, [question, placeholder]);
    assert [question, placeholder][1..] == [placeholder];
    assert Seqs.Filter(keep, [question, placeholder]) == [question] + Seqs.Filter(keep, [placeholder]);
    assert Seqs.Filter(keep, [placeholder]) == [] + Seqs.Filter(keep, []);
  }

  // ---------------------------------------------------------------------------
  // Request payload
  // ---------------------------------------------------------------------------

  datatype ReportFile = ReportFile(base64: string, mediaType: string, filename: string)

  datatype Part = TextPart(text: string) | FilePart(mediaType: string, url: string)

  datatype ApiMessage = ApiMessage(id: string, role: Role, parts: seq<Part>)

  /** `filteredMessages.findIndex(m => m.role === 'user')`: `-1` when there is none. */
  function FirstUserIndex(ms: seq<ChatMessage>): (r: int)
    ensures -1 <= r < |ms|
    ensures r >= 0 ==> ms[r].role == User
    ensures forall j :: 0 <= j < |ms| && (r < 0 || j < r) ==> ms[j].role != User
    decreases |ms|
  {
    if |ms| == 0 then -1
    else if ms[0].role == User then 0
    else
      var k := FirstUserIndex(ms[1..]);
      if k < 0 then -1 else k + 1
  }

  function DataUrl(report: ReportFile): string {
    "data:" + report.mediaType + ";base64," + report.base64
  }

  function ReportPart(report: ReportFile): Part {
    FilePart(report.mediaType, DataUrl(report))
  }

  function ToApiMessage(m: ChatMessage, attachment: Option<ReportFile>): ApiMessage {
    ApiMessage(m.id, m.role, [TextPart(m.content)] + (if attachment.Some? then [ReportPart(attachment.value)] else []))
  }

  /**
   * `filteredMessages.map(...)`: one text part per message, first, with the
   * message's id and role; the report goes on the first user message only,
   * and only when a report is held.
   */
  function BuildApiMessages(ms: seq<ChatMessage>, report: Option<ReportFile>): (r: seq<ApiMessage>)
    ensures |r| == |ms|
    ensures forall i :: 0 <= i < |ms| ==>
      r[i].id == ms[i].id && r[i].role == ms[i].role && 1 <= |r[i].parts| <= 2 && r[i].parts[0] == TextPart(ms[i].content)
    ensures forall i :: 0 <= i < |ms| ==>
      (|r[i].parts| == 2 <==> report.Some? && ms[i].role == User && forall j :: 0 <= j < i ==> ms[j].role != User)
    ensures forall i :: 0 <= i < |ms| && |r[i].parts| == 2 ==> r[i].parts[1] == ReportPart(report.value)
  {
    var first := FirstUserIndex(ms);
    seq(|ms|, i requires 0 <= i < |ms| =>
      ToApiMessage(ms[i], if i == first && ms[i].role == User && report.Some? then report else None))
  }

  /** At most one message carries the report. */
  lemma OneAttachment(ms: seq<ChatMessage>, report: Option<ReportFile>, i: int, j: int)
    requires 0 <= i < |ms| && 0 <= j < |ms|
    requires |BuildApiMessages(ms, report)[i].parts| == 2 && |BuildApiMessages(ms, report)[j].parts| == 2
    ensures i == j
  {
  }

  // ---------------------------------------------------------------------------
  // What the network hands back, and the text committed for the reply
  // ---------------------------------------------------------------------------

  /** The body of a response: a readable stream, a whole text, or a read that rejects with a message. */
  datatype Body = Stream(chunks: seq<string>) | Whole(text: string) | Unreadable(message: string)

  /** The request either throws (with `error.message`, `""` when missing) or gets a status and a body. */
  datatype Reply = Thrown(message: string) | Answered(status: nat, body: Body)

  /** `response.ok` */
  predicate IsOk(status: nat) {
    200 <= status <= 299
  }

  /** `` `Error: ${error?.message || 'Something went wrong.'}` `` */
  function ErrorText(message: string): (r: string)
    ensures ErrorMark <= r
    ensures |r| > |"Error: "| && r[..|"Error: "|] == "Error: "
    ensures message != "" ==> r[|"Error: "|..] == message
    ensures message == "" ==> r[|"Error: "|..] == DefaultError
  {
    "Error: " + (if message == "" then DefaultError else message)
  }

  /** `fullContent || 'No response received.'` */
  function OrFallback(content: string): (r: string)
    ensures r != ""
    ensures content != "" ==> r == content
    ensures content == "" ==> r == NoResponse
  {
    if content == "" then NoResponse else content
  }

  /** `await response.text().catch(() => 'Unknown error')` */
  function ErrorBodyText(body: Body): string {
    match body
    case Stream(chunks) => Concat(chunks)
    case Whole(text) => text
    case Unreadable(_) => UnknownBody
  }

  function ServerError(status: nat, body: Body): string {
    "Server Error (" + NatToString(status) + "): " + Take(ErrorBodyText(body), ErrorBodyLimit)
  }

  /** The text of a reply from a successful exchange, `""` when it carried no text. */
  function Answer(decode: StreamFrames.Decoder, body: Body): Option<string> {
    match body
    case Stream(chunks) => Some(StreamFrames.ParseSseResponse(decode, Concat(chunks)))
    case Whole(text) => Some(StreamFrames.ParseSseResponse(decode, text))
    case Unreadable(_) => None
  }

  /** The content the placeholder ends with. */
  function Committed(decode: StreamFrames.Decoder, reply: Reply): (r: string)
    ensures r != ""
    ensures reply.Thrown? ==> r == ErrorText(reply.message)
    ensures reply.Answered? && !IsOk(reply.status) ==>
      r == ErrorText(ServerError(reply.status, reply.body))
    ensures reply.Answered? && IsOk(reply.status) && reply.body.Unreadable? ==>
      r == ErrorText(reply.body.message)
    ensures reply.Answered? && IsOk(reply.status) && !reply.body.Unreadable? ==>
      var answer := Answer(decode, reply.body).value;
      (answer != "" ==> r == answer) && (answer == "" ==> r == NoResponse)
  {
    match reply
    case Thrown(message) => ErrorText(message)
    case Answered(status, body) =>
      if !IsOk(status) then ErrorText(ServerError(status, body))
      else match body
        case Unreadable(message) => ErrorText(message)
        case _ => OrFallback(Answer(decode, body).value)
  }

  /** The exchange produced text for the reply. */
  predicate Delivered(decode: StreamFrames.Decoder, reply: Reply) {
    reply.Answered? && IsOk(reply.status) && Answer(decode, reply.body).Some? && Answer(decode, reply.body).value != ""
  }

  /** The exchange failed: the request threw, the status was not 2xx, or the body could not be read. */
  predicate Failed(reply: Reply) {
    reply.Thrown? || !IsOk(reply.status) || reply.body.Unreadable?
  }

  /** The message of a failure, which the `catch` block puts after `Error: `. */
  function FailureMessage(reply: Reply): string
    requires Failed(reply)
  {
    if reply.Thrown? then reply.message
    else if !IsOk(reply.status) then ServerError(reply.status, reply.body)
    else reply.body.message
  }

  /**
   * Exactly one of three outcomes: a delivered answer is stored as it is; a
   * failure is stored as `Error: ` and its message; a successful exchange
   * without text is stored as the fallback notice. The last two are left out
   * of every later request by the history filter.
   */
  lemma CommittedOutcome(decode: StreamFrames.Decoder, reply: Reply, placeholderId: string, m: ChatMessage)
    requires m.content == Committed(decode, reply)
    ensures Delivered(decode, reply) ==> !Failed(reply) && m.content == Answer(decode, reply.body).value
    ensures Failed(reply) ==> m.content == ErrorText(FailureMessage(reply))
    ensures !Failed(reply) && !Delivered(decode, reply) ==> m.content == NoResponse
    ensures !Delivered(decode, reply) ==> !Resent(placeholderId, m)
  {
  }

  /**
   * A status outside 200–299 is stored as `Error: Server Error (<status>): `
   * followed by the first 200 characters of the body (`Take` keeps at most
   * that many, from the front).
   */
  lemma ServerErrorText(decode: StreamFrames.Decoder, status: nat, body: Body)
    requires !IsOk(status)
    ensures Committed(decode, Answered(status, body)) ==
      "Error: " + "Server Error (" + NatToString(status) + "): " + Take(ErrorBodyText(body), ErrorBodyLimit)
  {
    CommittedServerError(decode, status, body);
    ServerErrorNotEmpty(status, body);
    ErrorTextOfMessage(ServerError(status, body));
    JoinAssociates("Error: ", "Server Error (", NatToString(status), "): ", Take(ErrorBodyText(body), ErrorBodyLimit));
  }

  lemma CommittedServerError(decode: StreamFrames.Decoder, status: nat, body: Body)
    requires !IsOk(status)
    ensures Committed(decode, Answered(status, body)) == ErrorText(ServerError(status, body))
  {
  }

  lemma ErrorTextOfMessage(message: string)
    requires message != ""
    ensures ErrorText(message) == "Error: " + message
  {
  }

  lemma ServerErrorNotEmpty(status: nat, body: Body)
    ensures ServerError(status, body) != ""
  {
    assert ServerError(status, body)[0] == 'S';
  }

  lemma JoinAssociates(a: string, b: string, c: string, d: string, e: string)
    ensures a + (b + c + d + e) == a + b + c + d + e
  {
  }

  // ---------------------------------------------------------------------------
  // The list the screen shows
  // ---------------------------------------------------------------------------

  datatype Message = Message(id: string, role: Role, content: string, isStreaming: bool)

  function Shown(m: ChatMessage, streamingId: Option<string>, streamingContent: string): Message {
    if Some(m.id) == streamingId then Message(m.id, m.role, streamingContent, true)
    else Message(m.id, m.role, m.content, false)
  }

  /**
   * The greeting, when there is one, then every stored message in order; the
   * message being streamed shows the streamed text instead of its stored content.
   */
  function DisplayMessages(greeting: Option<Message>, stored: seq<ChatMessage>, streamingId: Option<string>, streamingContent: string): (r: seq<Message>)
    ensures |r| == |stored| + (if greeting.Some? then 1 else 0)
    ensures greeting.Some? ==> r[0] == greeting.value
    ensures var offset := if greeting.Some? then 1 else 0;
      forall k :: 0 <= k < |stored| ==>
        r[offset + k].id == stored[k].id && r[offset + k].role == stored[k].role &&
        r[offset + k].isStreaming == (Some(stored[k].id) == streamingId) &&
        r[offset + k].content == (if Some(stored[k].id) == streamingId then streamingContent else stored[k].content)
  {
    (if greeting.Some? then [greeting.value] else [])
      + seq(|stored|, k requires 0 <= k < |stored| => Shown(stored[k], streamingId, streamingContent))
  }

  // ---------------------------------------------------------------------------
  // The turn
  // ---------------------------------------------------------------------------

  /** The user's question and the empty placeholder, added when the guard lets the turn through. */
  function Asked(threads: seq<ChatThread>, current: Option<string>, question: NewMessage, placeholderId: string): seq<ChatThread> {
    if IsCurrent(current) then
      EditThreads(EditThreads(threads, current.value, Append(Unsent(question))), current.value,
        Append(Unsent(NewMessage(placeholderId, Assistant, ""))))
    else threads
  }

  /** The threads after the placeholder gets the committed content. */
  function AfterTurn(threads: seq<ChatThread>, current: Option<string>, question: NewMessage, placeholderId: string, content: string): seq<ChatThread> {
    var asked := Asked(threads, current, question, placeholderId);
    if IsCurrent(current) then EditThreads(asked, current.value, Update(placeholderId, Some(content))) else asked
  }

  /**
   * A turn on a current thread whose messages do not already use the
   * placeholder's id leaves that thread with exactly two more messages at its
   * end: the question, then the reply with the committed content; no other
   * thread changes.
   */
  lemma TurnAppendsExchange(threads: seq<ChatThread>, current: string, question: NewMessage, placeholderId: string, content: string, k: nat)
    requires current != ""
    requires question.id != placeholderId
    requires k < |threads|
    requires forall n :: 0 <= n < |threads[k].messages| ==> threads[k].messages[n].id != placeholderId
    ensures var after := AfterTurn(threads, Some(current), question, placeholderId, content);
      |after| == |threads| && after[k].id == threads[k].id &&
      after[k].messages == (if threads[k].id == current
        then threads[k].messages + [Unsent(question), ChatMessage(placeholderId, Assistant, content, false)]
        else threads[k].messages)
  {
    var placeholder := Unsent(NewMessage(placeholderId, Assistant, ""));
    var once := EditThreads(threads, current, Append(Unsent(question)));
    var asked := EditThreads(once, current, Append(placeholder));
    var after := EditThreads(asked, current, Update(placeholderId, Some(content)));
    assert after == AfterTurn(threads, Some(current), question, placeholderId, content);
    if threads[k].id == current {
      assert once[k].messages == threads[k].messages + [Unsent(question)];
      assert asked[k].messages == threads[k].messages + [Unsent(question)] + [placeholder];
      FillPlaceholder(threads[k].messages, Unsent(question), placeholderId, content);
    }
  }

  /**
   * The question's id is printed from the first `Date.now()` reading and the
   * placeholder's from the second plus one. They coincide exactly when the
   * second reading is one less than the first, which a clock that never goes
   * back rules out.
   */
  lemma TurnIdsDiffer(askedAt: nat, placedAt: nat)
    ensures NatToString(askedAt) == NatToString(placedAt + 1) <==> askedAt == placedAt + 1
    ensures askedAt <= placedAt ==> NatToString(askedAt) != NatToString(placedAt + 1)
  {
    if NatToString(askedAt) == NatToString(placedAt + 1) {
      NatToStringInjective(askedAt, placedAt + 1);
    }
  }

  /**
   * On a current thread that exists, the history posted is the history of
   * the thread before the turn followed by the question, provided the question
   * itself passes the filter.
   */
  lemma QuestionIsLastSent(threads: seq<ChatThread>, current: string, question: NewMessage, placeholderId: string)
    requires current != ""
    requires FindThread(threads, current).Some?
    requires question.id != placeholderId
    requires Resent(placeholderId, Unsent(question))
    ensures History(CurrentMessages(Asked(threads, Some(current), question, placeholderId), Some(current)), placeholderId)
      == History(CurrentMessages(threads, Some(current)), placeholderId) + [Unsent(question)]
  {
    AskedMessages(threads, current, question, placeholderId);
    HistoryAfterAsking(CurrentMessages(threads, Some(current)), Unsent(question), Unsent(NewMessage(placeholderId, Assistant, "")));
  }

  /** The first thread with the current id gains the question and the placeholder at its end. */
  lemma AskedMessages(threads: seq<ChatThread>, current: string, question: NewMessage, placeholderId: string)
    requires current != ""
    requires FindThread(threads, current).Some?
    ensures CurrentMessages(Asked(threads, Some(current), question, placeholderId), Some(current))
      == CurrentMessages(threads, Some(current)) + [Unsent(question), Unsent(NewMessage(placeholderId, Assistant, ""))]
  {
    var placeholder := Unsent(NewMessage(placeholderId, Assistant, ""));
    var twice := EditThreads(EditThreads(threads, current, Append(Unsent(question))), current, Append(placeholder));
    assert Asked(threads, Some(current), question, placeholderId) == twice by {
      assert IsCurrent(Some(current));
    }
    AppendTwice(threads, current, Unsent(question), placeholder);
  }

  /** Updating the placeholder's id touches the placeholder and nothing before it. */
  lemma FillPlaceholder(before: seq<ChatMessage>, question: ChatMessage, placeholderId: string, content: string)
    requires question.id != placeholderId
    requires forall n :: 0 <= n < |before| ==> before[n].id != placeholderId
    ensures UpdateContent(before + [question] + [ChatMessage(placeholderId, Assistant, "", false)], placeholderId, Some(content))
      == before + [question, ChatMessage(placeholderId, Assistant, content, false)]
  {
    var grown := before + [question] + [ChatMessage(placeholderId, Assistant, "", false)];
    var expected := before + [question, ChatMessage(placeholderId, Assistant, content, false)];
    var updated := UpdateContent(grown, placeholderId, Some(content));
    forall n | 0 <= n < |expected|
      ensures updated[n] == expected[n]
    {
      if n < |before| {
        assert grown[n] == before[n] && expected[n] == before[n];
      } else if n == |before| {
        assert grown[n] == question && expected[n] == question;
      } else {
        assert grown[n] == ChatMessage(placeholderId, Assistant, "", false);
      }
    }
  }

  /**
   * The part of the turn between posting and committing: reads the reply and
   * returns the text to commit, with the last text shown while streaming.
   */
  method ReceiveReply(decode: StreamFrames.Decoder, reply: Reply) returns (content: string, shown: Option<string>)
    ensures content == Committed(decode, reply)
    ensures shown.Some? ==> reply.Answered? && reply.body.Stream? && shown.value <= Answer(decode, reply.body).value
  {
    shown := None;
    match reply {
      case Thrown(message) =>
        content := ErrorText(message);
      case Answered(status, body) =>
        if !IsOk(status) {
          content := ErrorText(ServerError(status, body));
        } else {
          match body {
            case Stream(chunks) =>
              var fullContent, published := StreamFrames.ReadStream(decode, chunks);
              if |published| > 0 {
                shown := Some(published[|published| - 1]);
              }
              content := OrFallback(fullContent);
            case Whole(responseText) =>
              content := OrFallback(StreamFrames.ParseSseResponse(decode, responseText));
            case Unreadable(message) =>
              content := ErrorText(message);
          }
        }
    }
  }

  class ChatScreen {
    var store: Store
    var inputText: string
    var isLoading: bool
    var streamingMessageId: Option<string>
    var streamingContent: string
    var greetingMessage: Option<Message>
    var report: Option<ReportFile>

    ghost predicate Valid()
      reads this, store
    {
      store.Valid()
    }

    constructor (store: Store)
      requires store.Valid()
      ensures Valid()
      ensures this.store == store
      ensures inputText == "" && !isLoading && streamingMessageId == None && streamingContent == ""
      ensures greetingMessage == None && report == None
    {
      this.store := store;
      inputText := "";
      isLoading := false;
      streamingMessageId := None;
      streamingContent := "";
      greetingMessage := None;
      report := None;
    }

    /** The `messages` list the screen renders. */
    function Messages(): seq<Message>
      reads this, store
    {
      DisplayMessages(greetingMessage, CurrentMessages(store.threads, store.currentThreadId), streamingMessageId, streamingContent)
    }

    /**
     * `sendMessage(text)` with the two `Date.now()` readings `askedAt` (the
     * question's id) and `placedAt` (the placeholder's id), against the exchange
     * `reply`. The default argument is the caller's business: a call without
     * one passes `inputText` as `text`. Returns the messages posted to the
     * endpoint, or `None` when the guard stops the turn and nothing is posted
     * (a posted list may itself be empty).
     */
    method SendMessage(text: string, askedAt: nat, placedAt: nat, decode: StreamFrames.Decoder, reply: Reply) returns (posted: Option<seq<ApiMessage>>)
      requires Valid()
      modifies this, store
      ensures Valid()
      ensures store == old(store) && report == old(report) && greetingMessage == old(greetingMessage)
      ensures store.currentThreadId == old(store.currentThreadId) && store.lastSyncedAt == old(store.lastSyncedAt)
      ensures Trim(text) == "" || old(isLoading) ==>
        posted == None && store.threads == old(store.threads) && inputText == old(inputText) &&
        isLoading == old(isLoading) && streamingMessageId == old(streamingMessageId) &&
        streamingContent == old(streamingContent)
      ensures Trim(text) != "" && !old(isLoading) ==>
        var question := NewMessage(NatToString(askedAt), User, Trim(text));
        var placeholderId := NatToString(placedAt + 1);
        var asked := Asked(old(store.threads), old(store.currentThreadId), question, placeholderId);
        posted == Some(BuildApiMessages(History(CurrentMessages(asked, old(store.currentThreadId)), placeholderId), report)) &&
        store.threads == AfterTurn(old(store.threads), old(store.currentThreadId), question, placeholderId, Committed(decode, reply)) &&
        inputText == "" && !isLoading && streamingMessageId == None && streamingContent == ""
    {
      var msgText := Trim(text);
      if msgText == "" || isLoading {
        posted := None;
        return;
      }
      var sent := RunTurn(msgText, askedAt, placedAt, decode, reply);
      posted := Some(sent);
    }

    /** The part of `sendMessage` after the guard: post, stream, commit. */
    method RunTurn(msgText: string, askedAt: nat, placedAt: nat, decode: StreamFrames.Decoder, reply: Reply) returns (sent: seq<ApiMessage>)
      requires Valid()
      modifies this, store
      ensures Valid()
      ensures store == old(store) && report == old(report) && greetingMessage == old(greetingMessage)
      ensures store.currentThreadId == old(store.currentThreadId) && store.lastSyncedAt == old(store.lastSyncedAt)
      ensures
        var question := NewMessage(NatToString(askedAt), User, msgText);
        var placeholderId := NatToString(placedAt + 1);
        var asked := Asked(old(store.threads), old(store.currentThreadId), question, placeholderId);
        sent == BuildApiMessages(History(CurrentMessages(asked, old(store.currentThreadId)), placeholderId), report) &&
        store.threads == AfterTurn(old(store.threads), old(store.currentThreadId), question, placeholderId, Committed(decode, reply)) &&
        inputText == "" && !isLoading && streamingMessageId == None && streamingContent == ""
    {
      ghost var before, current := store.threads, store.currentThreadId;
      var userMsg := NewMessage(NatToString(askedAt), User, msgText);
      store.AddMessage(userMsg);
      inputText := "";
      isLoading := true;
      var aiMsgId := NatToString(placedAt + 1);
      store.AddMessage(NewMessage(aiMsgId, Assistant, ""));
      ghost var asked := store.threads;
      assert asked == Asked(before, current, userMsg, aiMsgId);
      streamingMessageId := Some(aiMsgId);
      streamingContent := "";
      var allMessages := CurrentMessages(store.threads, store.currentThreadId);
      sent := BuildApiMessages(History(allMessages, aiMsgId), report);
      var content, shown := ReceiveReply(decode, reply);
      if shown.Some? {
        streamingContent := shown.value;
      }
      store.UpdateMessage(aiMsgId, Some(content));
      assert store.threads == AfterTurn(before, current, userMsg, aiMsgId, content);
      streamingMessageId := None;
      streamingContent := "";
      isLoading := false;
    }
  }
}
