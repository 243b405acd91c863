/**
 The boundary every generative call crosses: the request is redacted, then audited,
 then handed to the provider. SHA-256 is ideal, so a digest is the bytes it is
 taken of; how a `[]string` prints is a parameter.
 */
module AiBoundary {
  import opened AlikeTexts
  import opened ExactMarkers
  import opened Options
  import opened PrivateKeys
  import opened Redaction
  import opened RequestRedaction
  import opened WhiteSpace
  import Delimiters
  import PromptHash

  type Message = PromptHash.Message

  datatype Request = Request(seam: string, model: string, system: string, messages: seq<Message>,
                             context: seq<Fields>, maxTokens: int, invoker: string, sanitized: bool)

  // ---------- redaction ----------

  function RedactedMessage(m: Message, secret: string -> bool): Message { m.(content := Redacted(m.content, secret)) }

  function Redact(req: Request, secret: string -> bool): Request {
    req.(system := Redacted(req.system, secret),
         messages := seq(|req.messages|, i requires 0 <= i < |req.messages| => RedactedMessage(req.messages[i], secret)),
         context := seq(|req.context|, i requires 0 <= i < |req.context| => Scrubbed(req.context[i], secret)),
         sanitized := true)
  }

  method RedactRequest(req: Request, secret: string -> bool) returns (out: Request)
    ensures out == Redact(req, secret)
  {
    hide Scrubbed;
    var system := RedactText(req.system, secret);
    var messages := [];
    for i := 0 to |req.messages|
      invariant |messages| == i
      invariant forall k :: 0 <= k < i ==> messages[k] == RedactedMessage(req.messages[k], secret)
    {
      var content := RedactText(req.messages[i].content, secret);
      messages := messages + [PromptHash.Message(req.messages[i].role, content)];
    }
    var context := [];
    for i := 0 to |req.context|
      invariant |context| == i
      invariant forall k :: 0 <= k < i ==> context[k] == Scrubbed(req.context[k], secret)
    {
      context := context + [Scrubbed(req.context[i], secret)];
    }
    out := req.(system := system, messages := messages, context := context, sanitized := true);
  }

  /** Is there nothing left in this request that redaction would change? */
  ghost predicate CleanRequest(req: Request, secret: string -> bool) {
    && req.sanitized && CleanText(req.system, secret)
    && (forall i :: 0 <= i < |req.messages| ==> CleanText(req.messages[i].content, secret))
    && forall i :: 0 <= i < |req.context| ==> CleanFields(req.context[i], secret)
  }

  /** A redacted request has nothing left to redact, and exactly such requests are left
      as they are. */
  lemma RedactIsExact(req: Request, secret: string -> bool)
    ensures CleanRequest(Redact(req, secret), secret)
    ensures Redact(req, secret) == req <==> CleanRequest(req, secret)
  {
    hide Scrubbed, CleanText, CleanFields, Redacted;
    var r := Redact(req, secret);
    CleanTextIsFixed(req.system, secret);
    forall i | 0 <= i < |req.messages|
      ensures CleanText(r.messages[i].content, secret)
      ensures r.messages[i] == req.messages[i] <==> CleanText(req.messages[i].content, secret)
    {
      CleanTextIsFixed(req.messages[i].content, secret);
    }
    forall i | 0 <= i < |req.context|
      ensures CleanFields(r.context[i], secret)
      ensures r.context[i] == req.context[i] <==> CleanFields(req.context[i], secret)
    {
      ScrubsFields(req.context[i], secret);
      ScrubbedFieldsAreClean(req.context[i], r.context[i], secret);
    }
    if CleanRequest(req, secret) {
      assert r.messages == req.messages && r.context == req.context;
    }
  }

  /** Are the secrets of this request marked exactly, with nothing of them behind? */
  ghost predicate ExactRequest(req: Request, secret: string -> bool) {
    && AllExactlyMarked(req.system, secret, 0)
    && (forall i :: 0 <= i < |req.messages| ==> AllExactlyMarked(req.messages[i].content, secret, 0))
    && forall i :: 0 <= i < |req.context| ==> ExactFields(req.context[i], secret)
  }

  /** No secret value in its prose goes on behind where the scanner takes it to end. */
  ghost predicate EndedRequest(req: Request, secret: string -> bool) {
    && EndedText(req.system, secret)
    && (forall i :: 0 <= i < |req.messages| ==> EndedText(req.messages[i].content, secret))
    && forall i :: 0 <= i < |req.context| ==> EndedFields(req.context[i], secret)
  }

  /** What redaction makes of a request is marked exactly if and only if no secret value
      in it goes on. */
  lemma {:induction false} ExactRequestExactlyWhen(req: Request, secret: string -> bool)
    ensures ExactRequest(Redact(req, secret), secret) <==> EndedRequest(req, secret)
  {
    hide Scrubbed, Redacted, AllExactlyMarked, NothingGoesOn, ExactFields, EndedFields, MaskKeys;
    var r := Redact(req, secret);
    ExactlyMarkedExactlyWhen(req.system, secret);
    forall i | 0 <= i < |req.messages|
      ensures AllExactlyMarked(r.messages[i].content, secret, 0) <==> EndedText(req.messages[i].content, secret)
    {
      ExactlyMarkedExactlyWhen(req.messages[i].content, secret);
    }
    forall i | 0 <= i < |req.context|
      ensures ExactFields(r.context[i], secret) <==> EndedFields(req.context[i], secret)
    {
      ScrubsFields(req.context[i], secret);
      FieldsExactlyWhen(req.context[i], r.context[i], secret);
    }
  }

  ghost predicate AlikeMessages(m: Message, m': Message, secret: string -> bool) {
    m.role == m'.role && LikeTexts(m.content, m'.content, secret)
  }

  /** Do two requests differ at most in secrets: what secret names hold in the
      grounding values, and what is hidden in prose that is otherwise the same? */
  ghost predicate AlikeRequests(req: Request, req': Request, secret: string -> bool) {
    && LikeTexts(req.system, req'.system, secret)
    && |req.messages| == |req'.messages|
    && (forall i :: 0 <= i < |req.messages| ==> AlikeMessages(req.messages[i], req'.messages[i], secret))
    && |req.context| == |req'.context|
    && (forall i :: 0 <= i < |req.context| ==> AlikeFields(req.context[i], req'.context[i], secret))
    && req.(system := "", messages := [], context := [], sanitized := true)
       == req'.(system := "", messages := [], context := [], sanitized := true)
  }

  /** Then the provider sees the same request. */
  lemma {:induction false} SecretsStayBehind(req: Request, req': Request, secret: string -> bool)
    requires AlikeRequests(req, req', secret)
    ensures Redact(req, secret) == Redact(req', secret)
  {
    hide Scrubbed, Redacted, LikeTexts, AlikeFields;
    var r, r' := Redact(req, secret), Redact(req', secret);
    LikeTextsRedactAlike(req.system, req'.system, secret);
    forall i | 0 <= i < |req.messages| ensures r.messages[i] == r'.messages[i] {
      assert AlikeMessages(req.messages[i], req'.messages[i], secret);
      LikeTextsRedactAlike(req.messages[i].content, req'.messages[i].content, secret);
    }
    forall i | 0 <= i < |req.context| ensures r.context[i] == r'.context[i] {
      ScrubsFields(req.context[i], secret);
      ScrubsFields(req'.context[i], secret);
      SecretsDoNotShowInFields(req.context[i], req'.context[i], r.context[i], r'.context[i], secret);
    }
    assert r.context == r'.context && r.messages == r'.messages;
  }

  // ---------- the prompt as the audit trail may keep it ----------

  const MAX_PROMPT := 4096

  /** Ends in an ellipsis of three bytes and a word. */
  const TRUNCATED := "\n\U{00E2}\U{0080}\U{00A6}" + "[truncated]"

  /** Does a byte begin a character in UTF-8? */
  predicate RuneStart(c: char) { !('\U{0080}' <= c < '\U{00C0}') }

  function Turn(m: Message): string { m.role + ": " + m.content }

  function Transcript(ms: seq<Message>): string {
    if ms == [] then ""
    else
      var n := |ms| - 1;
      Transcript(ms[..n]) + (if n > 0 then "\n" else "") + Turn(ms[n])
  }

  /** The last place to cut at or before k. */
  function CutAt(s: string, k: nat): (cut: nat)
    requires k < |s|
    ensures cut <= k && (cut == 0 || RuneStart(s[cut]))
    ensures forall j :: cut < j <= k ==> !RuneStart(s[j])
  {
    if k == 0 || RuneStart(s[k]) then k else CutAt(s, k - 1)
  }

  function Bounded(s: string): string {
    if |s| <= MAX_PROMPT then s else s[..CutAt(s, MAX_PROMPT)] + TRUNCATED
  }

  lemma {:induction false} CutIsLocal(s: string, t: string, k: nat)
    requires k < |s| && s <= t
    ensures CutAt(s, k) == CutAt(t, k)
  {
    assert s[k] == t[k];
    if k > 0 && !RuneStart(s[k]) { CutIsLocal(s, t, k - 1); }
  }

  /** Stopping early makes no difference: nothing past the bound is shown. */
  lemma {:induction false} BoundedIsLocal(s: string, t: string)
    requires |s| > MAX_PROMPT && s <= t
    ensures Bounded(s) == Bounded(t)
  {
    CutIsLocal(s, t, MAX_PROMPT);
    var cut := CutAt(s, MAX_PROMPT);
    assert s[..cut] == t[..cut];
  }

  lemma {:induction false} TranscriptGrows(ms: seq<Message>, i: nat)
    requires i <= |ms|
    ensures Transcript(ms[..i]) <= Transcript(ms)
    decreases |ms| - i
  {
    if i < |ms| {
      TranscriptGrows(ms, i + 1);
      assert ms[..i + 1][..i] == ms[..i];
    } else {
      assert ms[..i] == ms;
    }
  }

  method AuditedPrompt(ms: seq<Message>) returns (out: string)
    ensures out == Bounded(Transcript(ms))
  {
    hide CutAt;
    var b := "";
    var i := 0;
    while i < |ms| && |b| <= MAX_PROMPT
      invariant i <= |ms| && b == Transcript(ms[..i])
    {
      assert ms[..i + 1][..i] == ms[..i];
      if i > 0 {
        b := b + "\n";
      }
      b := b + (ms[i].role + ": " + ms[i].content);
      i := i + 1;
    }
    TranscriptGrows(ms, i);
    assert i == |ms| ==> ms[..i] == ms;
    if |b| <= MAX_PROMPT {
      return b;
    }
    BoundedIsLocal(b, Transcript(ms));
    var cut := MAX_PROMPT;
    while cut > 0 && !RuneStart(b[cut])
      invariant 0 <= cut <= MAX_PROMPT && CutAt(b, cut) == CutAt(b, MAX_PROMPT)
    {
      CutStep(b, cut);
      cut := cut - 1;
    }
    CutStep(b, cut);
    return b[..cut] + TRUNCATED;
  }

  lemma CutStep(s: string, k: nat)
    requires k < |s|
    ensures CutAt(s, k) == if k == 0 || RuneStart(s[k]) then k else CutAt(s, k - 1)
  {
  }

  // ---------- audit ----------

  const SEAMS := ["matcher", "classifier", "drift_detector", "enricher", "narrator", "query", "author", "remediator"]

  datatype Controls = Controls(assistantDisabled: bool, recordQuestions: bool)

  datatype Response = Response(modelID: string, inputTokens: int, outputTokens: int, text: string)

  const NO_RESPONSE := Response("", 0, 0, "")

  datatype Failure = NotSanitized | Unattributed | TenantDisabled | ByProvider(text: string)

  /** What the provider says to a call, and whether that is a failure. */
  datatype Answer = Answer(response: Response, failure: Option<Failure>)

  datatype Record = Record(seam: string, provider: string, modelID: string, digest: Option<string>,
                           inputTokens: int, outputTokens: int, invoker: string, refused: bool,
                           failure: Option<Failure>, prompt: Option<string>)

  function Refusal(req: Request, c: Controls): Option<Failure> {
    if !req.sanitized then Some(NotSanitized)
    else if req.seam !in SEAMS || Trim(req.invoker) == "" then Some(Unattributed)
    else if c.assistantDisabled then Some(TenantDisabled)
    else None
  }

  function SeenFields(f: Fields, show: seq<string> -> string): PromptHash.Obj
    decreases f, 1
  {
    PromptHash.Obj(map k | k in f.at :: SeenTree(f.at[k], show))
  }

  /** A grounding value as the digest sees it. */
  function SeenTree(v: Tree, show: seq<string> -> string): PromptHash.Json
    decreases v, 0
  {
    match v
    case Map(f) => PromptHash.Map(SeenFields(f, show))
    case List(items) => PromptHash.List(seq(|items|, i requires 0 <= i < |items| => SeenTree(items[i], show)))
    case Maps(maps) => PromptHash.Maps(seq(|maps|, i requires 0 <= i < |maps| => SeenFields(maps[i], show)))
    case Lines(lines) => PromptHash.Scalar(show(lines))
    case Text(s) => PromptHash.Text(s)
    case Scalar(s) => PromptHash.Scalar(s)
  }

  function Seen(req: Request, show: seq<string> -> string): PromptHash.Request {
    PromptHash.Request(req.seam, req.model, req.system, req.messages,
      seq(|req.context|, i requires 0 <= i < |req.context| => SeenFields(req.context[i], show)))
  }

  ghost function Digest(req: Request, show: seq<string> -> string): string { PromptHash.Preimage(Seen(req, show)) }

  function Prompt(req: Request, c: Controls): Option<string> {
    if c.recordQuestions then Some(Bounded(Transcript(req.messages))) else None
  }

  /** The one record a call leaves. */
  ghost function RecordOf(name: string, req: Request, c: Controls, a: Answer, show: seq<string> -> string): Record {
    var r := Refusal(req, c);
    if r.Some? then
      Record(req.seam, name, req.model, if req.sanitized then Some(Digest(req, show)) else None, 0, 0, req.invoker,
        true, r, if req.sanitized then Prompt(req, c) else None)
    else
      Record(req.seam, name, if a.response.modelID == "" then req.model else a.response.modelID,
        Some(Digest(req, show)), a.response.inputTokens, a.response.outputTokens, req.invoker,
        false, a.failure, Prompt(req, c))
  }

  /** `sent` is what the provider was called with, `records` what the sink was given. */
  class Boundary {
    const name: string
    const secret: string -> bool
    const show: seq<string> -> string
    var sent: seq<Request>
    var records: seq<Record>

    constructor (name: string, secret: string -> bool, show: seq<string> -> string)
      ensures this.name == name && this.secret == secret && this.show == show && sent == [] && records == []
    {
      this.name, this.secret, this.show := name, secret, show;
      sent, records := [], [];
    }

    method PromptAttribute(req: Request, c: Controls) returns (prompt: Option<string>)
      ensures prompt == Prompt(req, c)
    {
      if !c.recordQuestions {
        return None;
      }
      var p := AuditedPrompt(req.messages);
      return Some(p);
    }

    method Refuse(req: Request, c: Controls, cause: Failure)
      requires Refusal(req, c) == Some(cause)
      modifies this
      ensures sent == old(sent)
      ensures forall a :: records == old(records) + [RecordOf(name, req, c, a, show)]
    {
      hide Bounded, Transcript;
      var rec := Record(req.seam, name, req.model, None, 0, 0, req.invoker, true, Some(cause), None);
      if req.sanitized {
        var digest := PromptHash.PromptPreimage(Seen(req, show));
        var prompt := PromptAttribute(req, c);
        rec := rec.(digest := Some(digest), prompt := prompt);
      }
      records := records + [rec];
    }

    /** The audited call, as a request reaches it; `answer` is what the provider says
        if it is called. */
    method Audited(req: Request, c: Controls, answer: Answer) returns (result: Answer)
      modifies this
      ensures records == old(records) + [RecordOf(name, req, c, answer, show)]
      ensures sent == old(sent) + if Refusal(req, c).None? then [req] else []
      ensures result == if Refusal(req, c).None? then answer else Answer(NO_RESPONSE, Refusal(req, c))
    {
      hide Bounded, Transcript;
      if !req.sanitized {
        Refuse(req, c, NotSanitized);
        return Answer(NO_RESPONSE, Some(NotSanitized));
      }
      if req.seam !in SEAMS || Trim(req.invoker) == "" {
        Refuse(req, c, Unattributed);
        return Answer(NO_RESPONSE, Some(Unattributed));
      }
      if c.assistantDisabled {
        Refuse(req, c, TenantDisabled);
        return Answer(NO_RESPONSE, Some(TenantDisabled));
      }
      sent := sent + [req];
      var digest := PromptHash.PromptPreimage(Seen(req, show));
      var rec := Record(req.seam, name, answer.response.modelID, Some(digest), answer.response.inputTokens,
        answer.response.outputTokens, req.invoker, false, None, None);
      if rec.modelID == "" {
        rec := rec.(modelID := req.model);
      }
      if answer.failure.Some? {
        rec := rec.(failure := answer.failure);
      }
      var prompt := PromptAttribute(req, c);
      records := records + [rec.(prompt := prompt)];
      return answer;
    }

    /** The whole boundary: redaction outermost. */
    method Complete(req: Request, c: Controls, answer: Answer) returns (result: Answer)
      modifies this
      ensures Current() == Next(name, secret, show, old(Current()), Call(req, c, answer))
      ensures var r := Refusal(Redact(req, secret), c);
              result == if r.None? then answer else Answer(NO_RESPONSE, r)
    {
      hide RecordOf, Refusal;
      var redacted := RedactRequest(req, secret);
      result := Audited(redacted, c, answer);
    }

    function Current(): Log
      reads this
    {
      Log(sent, records)
    }
  }

  // ---------- every run ----------

  datatype Log = Log(sent: seq<Request>, records: seq<Record>)

  datatype Call = Call(req: Request, controls: Controls, answer: Answer)

  ghost function Next(name: string, secret: string -> bool, show: seq<string> -> string, log: Log, call: Call): Log {
    var req := Redact(call.req, secret);
    Log(log.sent + (if Refusal(req, call.controls).None? then [req] else []),
      log.records + [RecordOf(name, req, call.controls, call.answer, show)])
  }

  ghost function After(name: string, secret: string -> bool, show: seq<string> -> string, calls: seq<Call>): Log {
    if calls == [] then Log([], [])
    else Next(name, secret, show, After(name, secret, show, calls[..|calls| - 1]), calls[|calls| - 1])
  }

  /** The digests of the records of calls that were not refused, in order. */
  ghost function Digests(records: seq<Record>): seq<Option<string>> {
    if records == [] then []
    else
      var rec := records[|records| - 1];
      Digests(records[..|records| - 1]) + if rec.refused then [] else [rec.digest]
  }

  /** What the provider was sent is clean, no record lacks its digest, and the records
      that are not refusals say, in order and byte for byte, what was sent. */
  ghost predicate Faithful(log: Log, secret: string -> bool, show: seq<string> -> string) {
    && (forall i :: 0 <= i < |log.sent| ==> CleanRequest(log.sent[i], secret))
    && (forall i :: 0 <= i < |log.records| ==> log.records[i].digest.Some?)
    && Digests(log.records) == seq(|log.sent|, i requires 0 <= i < |log.sent| => Some(Digest(log.sent[i], show)))
  }

  lemma RecordSays(name: string, req: Request, c: Controls, a: Answer, show: seq<string> -> string)
    requires req.sanitized
    ensures var rec := RecordOf(name, req, c, a, show);
            rec.digest == Some(Digest(req, show)) && (rec.refused <==> Refusal(req, c).Some?)
  {
  }

  lemma StepIsFaithful(name: string, secret: string -> bool, show: seq<string> -> string, log: Log, call: Call)
    requires Faithful(log, secret, show)
    ensures Faithful(Next(name, secret, show, log, call), secret, show)
  {
    hide CleanRequest, Digest, RecordOf, Refusal, Redact;
    var req := Redact(call.req, secret);
    RedactIsExact(call.req, secret);
    Sanitized(req, secret);
    RecordSays(name, req, call.controls, call.answer, show);
    assert Next(name, secret, show, log, call).records[..|log.records|] == log.records;
  }

  lemma Sanitized(req: Request, secret: string -> bool)
    requires CleanRequest(req, secret)
    ensures req.sanitized
  {
  }

  /** In every run there is one record for each call, and the trail is faithful. */
  lemma {:induction false} TrailIsFaithful(name: string, secret: string -> bool, show: seq<string> -> string,
                                           calls: seq<Call>)
    ensures var log := After(name, secret, show, calls);
            |log.records| == |calls| && Faithful(log, secret, show)
  {
    if calls != [] {
      hide Faithful;
      TrailIsFaithful(name, secret, show, calls[..|calls| - 1]);
      StepIsFaithful(name, secret, show, After(name, secret, show, calls[..|calls| - 1]), calls[|calls| - 1]);
    }
  }

  lemma {:induction false} RecordAt(name: string, secret: string -> bool, show: seq<string> -> string,
                                    calls: seq<Call>, i: nat)
    requires i < |calls|
    ensures var records := After(name, secret, show, calls).records;
            |records| == |calls|
            && records[i] == RecordOf(name, Redact(calls[i].req, secret), calls[i].controls, calls[i].answer, show)
  {
    hide RecordOf, Redact, Refusal;
    var n := |calls| - 1;
    if i < n {
      RecordAt(name, secret, show, calls[..n], i);
    } else if n > 0 {
      RecordAt(name, secret, show, calls[..n], 0);
    }
  }

  /** The call was refused, or no secret value in its request goes on. */
  ghost predicate IsEnded(call: Call, secret: string -> bool) {
    Refusal(Redact(call.req, secret), call.controls).Some? || EndedRequest(call.req, secret)
  }

  ghost predicate AllExact(sent: seq<Request>, secret: string -> bool) {
    forall i :: 0 <= i < |sent| ==> ExactRequest(sent[i], secret)
  }

  ghost predicate AllEnded(calls: seq<Call>, secret: string -> bool) {
    forall i :: 0 <= i < |calls| ==> IsEnded(calls[i], secret)
  }

  lemma OneMoreSent(sent: seq<Request>, req: Request, secret: string -> bool)
    ensures AllExact(sent + [req], secret) <==> AllExact(sent, secret) && ExactRequest(req, secret)
  {
    hide ExactRequest;
    var all := sent + [req];
    assert all[|sent|] == req && forall i :: 0 <= i < |sent| ==> all[i] == sent[i];
  }

  lemma OneMoreCall(calls: seq<Call>, secret: string -> bool)
    requires calls != []
    ensures AllEnded(calls, secret) <==> AllEnded(calls[..|calls| - 1], secret) && IsEnded(calls[|calls| - 1], secret)
  {
    hide IsEnded;
    assert forall i :: 0 <= i < |calls| - 1 ==> calls[..|calls| - 1][i] == calls[i];
  }

  /** Over every run what the provider was sent is marked exactly, if and only if no
      request that was not refused held a secret value that goes on. */
  lemma {:induction false} SentExactlyWhen(name: string, secret: string -> bool, show: seq<string> -> string,
                                           calls: seq<Call>)
    ensures AllExact(After(name, secret, show, calls).sent, secret) <==> AllEnded(calls, secret)
  {
    hide ExactRequest, EndedRequest, Redact, Refusal, RecordOf;
    if calls != [] {
      var n := |calls| - 1;
      var was := After(name, secret, show, calls[..n]).sent;
      SentExactlyWhen(name, secret, show, calls[..n]);
      ExactRequestExactlyWhen(calls[n].req, secret);
      OneMoreCall(calls, secret);
      OneMoreSent(was, Redact(calls[n].req, secret), secret);
      assert was + [] == was;
      hide AllExact, AllEnded;
    }
  }

  // ---------- what a digest tells apart ----------

  function Printed(v: Tree, show: seq<string> -> string): string
    requires v.Lines? || v.Scalar?
  {
    if v.Lines? then show(v.lines) else v.rendered
  }

  ghost predicate SameFields(f: Fields, g: Fields, show: seq<string> -> string)
    decreases f, 1
  {
    f.at.Keys == g.at.Keys && forall k :: k in f.at ==> SameTree(f.at[k], g.at[k], show)
  }

  /** Equal structure and equal texts; a list of maps is the list of these maps, and
      whatever is neither is known by how it prints. */
  ghost predicate SameTree(v: Tree, w: Tree, show: seq<string> -> string)
    decreases v, 0
  {
    match v
    case Map(f) => w.Map? && SameFields(f, w.fields, show)
    case List(items) =>
      || (w.List? && |w.items| == |items| && forall i :: 0 <= i < |items| ==> SameTree(items[i], w.items[i], show))
      || (w.Maps? && |w.maps| == |items|
          && forall i :: 0 <= i < |items| ==> items[i].Map? && SameFields(items[i].fields, w.maps[i], show))
    case Maps(maps) =>
      || (w.Maps? && |w.maps| == |maps| && forall i :: 0 <= i < |maps| ==> SameFields(maps[i], w.maps[i], show))
      || (w.List? && |w.items| == |maps|
          && forall i :: 0 <= i < |maps| ==> w.items[i].Map? && SameFields(maps[i], w.items[i].fields, show))
    case Text(s) => w == Text(s)
    case _ => (w.Lines? || w.Scalar?) && Printed(v, show) == Printed(w, show)
  }

  ghost predicate SamePrompt(r: Request, q: Request, show: seq<string> -> string) {
    && r.seam == q.seam && r.model == q.model && r.system == q.system && r.messages == q.messages
    && |r.context| == |q.context|
    && forall i :: 0 <= i < |r.context| ==> SameFields(r.context[i], q.context[i], show)
  }

  lemma {:induction false} CanonItemAt(items: seq<PromptHash.Json>, i: nat)
    requires i < |items|
    ensures PromptHash.CanonItems(items)[i] == PromptHash.Canon(items[i])
  {
    if i > 0 { CanonItemAt(items[1..], i - 1); }
  }

  lemma {:induction false} CanonMapAt(objs: seq<PromptHash.Obj>, i: nat)
    requires i < |objs|
    ensures PromptHash.CanonMaps(objs)[i] == PromptHash.Map(PromptHash.CanonObj(objs[i]))
  {
    if i > 0 { CanonMapAt(objs[1..], i - 1); }
  }

  lemma {:induction false} CanonContextAt(objs: seq<PromptHash.Obj>, i: nat)
    requires i < |objs|
    ensures PromptHash.CanonContext(objs)[i] == PromptHash.CanonObj(objs[i])
  {
    if i > 0 { CanonContextAt(objs[1..], i - 1); }
  }

  /** A grounding value as the digest knows it: its canonical form. */
  function Known(v: Tree, show: seq<string> -> string): PromptHash.Json { PromptHash.Canon(SeenTree(v, show)) }

  function KnownFields(f: Fields, show: seq<string> -> string): PromptHash.Obj { PromptHash.CanonObj(SeenFields(f, show)) }

  lemma KnownMap(f: Fields, show: seq<string> -> string)
    ensures KnownFields(f, show) == PromptHash.Obj(map k | k in f.at :: Known(f.at[k], show))
  {
  }

  lemma KnownList(items: seq<Tree>, show: seq<string> -> string)
    ensures Known(List(items), show) ==
              PromptHash.List(seq(|items|, i requires 0 <= i < |items| => Known(items[i], show)))
  {
    var seen := SeenTree(List(items), show);
    forall i | 0 <= i < |items| ensures PromptHash.CanonItems(seen.items)[i] == Known(items[i], show) {
      CanonItemAt(seen.items, i);
    }
    assert PromptHash.CanonItems(seen.items) == seq(|items|, i requires 0 <= i < |items| => Known(items[i], show));
  }

  lemma KnownMaps(maps: seq<Fields>, show: seq<string> -> string)
    ensures Known(Maps(maps), show) ==
              PromptHash.List(seq(|maps|, i requires 0 <= i < |maps| => PromptHash.Map(KnownFields(maps[i], show))))
  {
    var seen := SeenTree(Maps(maps), show);
    forall i | 0 <= i < |maps|
      ensures PromptHash.CanonMaps(seen.objs)[i] == PromptHash.Map(KnownFields(maps[i], show))
    {
      CanonMapAt(seen.objs, i);
    }
    assert PromptHash.CanonMaps(seen.objs)
        == seq(|maps|, i requires 0 <= i < |maps| => PromptHash.Map(KnownFields(maps[i], show)));
  }

  lemma {:induction false} FieldsKnown(f: Fields, g: Fields, show: seq<string> -> string)
    ensures KnownFields(f, show) == KnownFields(g, show) <==> SameFields(f, g, show)
    decreases f, 1
  {
    hide Known, KnownFields, SameTree;
    KnownMap(f, show);
    KnownMap(g, show);
    var a, b := KnownFields(f, show).fields, KnownFields(g, show).fields;
    assert a.Keys == f.at.Keys && b.Keys == g.at.Keys;
    forall k | k in f.at && k in g.at ensures a[k] == b[k] <==> SameTree(f.at[k], g.at[k], show) {
      TreesKnown(f.at[k], g.at[k], show);
    }
    if SameFields(f, g, show) { assert a == b; }
  }

  /** The digest's knowledge of a value is exactly what `SameTree` compares. */
  lemma {:induction false} TreesKnown(v: Tree, w: Tree, show: seq<string> -> string)
    ensures Known(v, show) == Known(w, show) <==> SameTree(v, w, show)
    decreases v, 0
  {
    hide KnownFields, SameFields;
    if w.List? { KnownList(w.items, show); }
    if w.Maps? { KnownMaps(w.maps, show); }
    match v
    case Map(f) =>
      MapKnown(f, show);
      if w.Map? { MapKnown(w.fields, show); FieldsKnown(f, w.fields, show); }
    case List(items) =>
      KnownList(items, show);
      if w.List? {
        var a, b := Known(v, show).items, Known(w, show).items;
        forall i | 0 <= i < |a| && i < |b| ensures a[i] == b[i] <==> SameTree(items[i], w.items[i], show) {
          TreesKnown(items[i], w.items[i], show);
        }
        hide Known, SeenTree;
        assert a == b <==> |a| == |b| && forall i :: 0 <= i < |a| ==> a[i] == b[i];
      } else if w.Maps? {
        var a, b := Known(v, show).items, Known(w, show).items;
        forall i | 0 <= i < |a| && i < |b|
          ensures a[i] == b[i] <==> items[i].Map? && SameFields(items[i].fields, w.maps[i], show)
        {
          if items[i].Map? { MapKnown(items[i].fields, show); FieldsKnown(items[i].fields, w.maps[i], show); }
        }
        hide Known, SeenTree;
        assert a == b <==> |a| == |b| && forall i :: 0 <= i < |a| ==> a[i] == b[i];
      }
    case Maps(maps) =>
      KnownMaps(maps, show);
      if w.Maps? {
        var a, b := Known(v, show).items, Known(w, show).items;
        forall i | 0 <= i < |a| && i < |b| ensures a[i] == b[i] <==> SameFields(maps[i], w.maps[i], show) {
          FieldsKnown(maps[i], w.maps[i], show);
        }
        hide Known, SeenTree;
        assert a == b <==> |a| == |b| && forall i :: 0 <= i < |a| ==> a[i] == b[i];
      } else if w.List? {
        var a, b := Known(v, show).items, Known(w, show).items;
        forall i | 0 <= i < |a| && i < |b|
          ensures a[i] == b[i] <==> w.items[i].Map? && SameFields(maps[i], w.items[i].fields, show)
        {
          if w.items[i].Map? { MapKnown(w.items[i].fields, show); FieldsKnown(maps[i], w.items[i].fields, show); }
        }
        hide Known, SeenTree;
        assert a == b <==> |a| == |b| && forall i :: 0 <= i < |a| ==> a[i] == b[i];
      }
    case Lines(_) =>
    case Text(_) =>
    case Scalar(_) =>
  }

  lemma MapKnown(f: Fields, show: seq<string> -> string)
    ensures Known(Map(f), show) == PromptHash.Map(KnownFields(f, show))
  {
  }

  /** Two requests have one digest if and only if seam, model, system prompt and
      messages agree and the grounding values do, string lists up to how they print. */
  lemma {:induction false} DigestIsExact(r: Request, q: Request, show: seq<string> -> string)
    ensures Digest(r, show) == Digest(q, show) <==> SamePrompt(r, q, show)
  {
    hide SeenFields, SameFields;
    var a, b := Seen(r, show), Seen(q, show);
    PromptHash.PreimageIsExact(a, b);
    forall i | 0 <= i < |r.context| && i < |q.context|
      ensures PromptHash.CanonContext(a.context)[i] == PromptHash.CanonContext(b.context)[i] <==>
                SameFields(r.context[i], q.context[i], show)
    {
      CanonContextAt(a.context, i);
      CanonContextAt(b.context, i);
      FieldsKnown(r.context[i], q.context[i], show);
    }
    if SamePrompt(r, q, show) {
      assert PromptHash.CanonContext(a.context) == PromptHash.CanonContext(b.context);
    }
  }

  /** How a list of strings prints: with a space between them. */
  function Spaced(lines: seq<string>): string { "[]string:[" + Words(lines) + "]" }

  function Words(lines: seq<string>): string {
    if lines == [] then ""
    else if |lines| == 1 then lines[0]
    else lines[0] + " " + Words(lines[1..])
  }

  lemma OnePrintsAsTwo(k: string, a: string, b: string)
    ensures SameFields(Fields(map[k := Lines([a + " " + b])]), Fields(map[k := Lines([a, b])]), Spaced)
  {
    assert [a, b][1..] == [b];
    assert Words([a, b]) == a + " " + b == Words([a + " " + b]);
    hide Words;
    assert SameTree(Lines([a + " " + b]), Lines([a, b]), Spaced);
  }

  /** So a boundary between two adjacent strings of such a list can move without
      changing the digest, in any request and for any two strings. */
  lemma {:induction false} ListsCanCollide(req: Request, k: string, a: string, b: string)
    ensures var one := req.(context := [Fields(map[k := Lines([a + " " + b])])]);
            var two := req.(context := [Fields(map[k := Lines([a, b])])]);
            one != two && Digest(one, Spaced) == Digest(two, Spaced)
  {
    hide Digest, SameFields, Words;
    var f, g := Fields(map[k := Lines([a + " " + b])]), Fields(map[k := Lines([a, b])]);
    assert f.at[k] != g.at[k];
    OnePrintsAsTwo(k, a, b);
    DigestIsExact(req.(context := [f]), req.(context := [g]), Spaced);
  }

  /** Of lists without a blank in any string, only an empty one and one of the empty
      string print alike. */
  lemma {:induction false} SpacedIsExact(a: seq<string>, b: seq<string>)
    requires NoBlanks(a) && NoBlanks(b)
    ensures Spaced(a) == Spaced(b) <==> a == b || (a in {[], [""]} && b in {[], [""]})
  {
    if Spaced(a) == Spaced(b) {
      var head := "[]string:[";
      assert Spaced(a)[|head|..|Spaced(a)| - 1] == Words(a) && Spaced(b)[|head|..|Spaced(b)| - 1] == Words(b);
      if a != [] && b != [] { WordsAreExact(a, b); }
      if a == [] { NothingPrinted(b); }
      if b == [] { NothingPrinted(a); }
    }
  }

  lemma NothingPrinted(a: seq<string>)
    requires Words(a) == ""
    ensures a == [] || a == [""]
  {
  }

  predicate NoBlanks(lines: seq<string>) { forall i :: 0 <= i < |lines| ==> ' ' !in lines[i] }

  lemma {:induction false} WordsAreExact(a: seq<string>, b: seq<string>)
    requires a != [] && b != [] && NoBlanks(a) && NoBlanks(b) && Words(a) == Words(b)
    ensures a == b
  {
    assert |a| > 1 ==> Words(a)[|a[0]|] == ' ';
    assert |b| > 1 ==> Words(b)[|b[0]|] == ' ';
    if |a| > 1 && |b| > 1 {
      Delimiters.SplitAt(' ', a[0], b[0], Words(a[1..]), Words(b[1..]));
      WordsAreExact(a[1..], b[1..]);
      assert a == [a[0]] + a[1..] && b == [b[0]] + b[1..];
    }
  }

  ghost predicate PlainFields(f: Fields)
    decreases f, 1
  {
    forall k :: k in f.at ==> PlainTree(f.at[k])
  }

  /** String lists are not empty and hold no blanks, and no scalar prints as one. */
  ghost predicate PlainTree(v: Tree)
    decreases v, 0
  {
    match v
    case Map(f) => PlainFields(f)
    case List(items) => forall i :: 0 <= i < |items| ==> PlainTree(items[i])
    case Maps(maps) => forall i :: 0 <= i < |maps| ==> PlainFields(maps[i])
    case Lines(lines) => lines != [] && NoBlanks(lines)
    case Text(_) => true
    case Scalar(s) => !("[]string:" <= s)
  }

  lemma {:induction false} PlainFieldsAreTold(f: Fields, g: Fields, show: seq<string> -> string)
    requires PlainFields(f) && PlainFields(g) && SameFields(f, g, Spaced)
    ensures SameFields(f, g, show)
    decreases f, 1
  {
    hide PlainTree, SameTree;
    forall k | k in f.at ensures SameTree(f.at[k], g.at[k], show) { PlainTreesAreTold(f.at[k], g.at[k], show); }
  }

  /** Such values are told apart wherever any printing of lists would tell them apart. */
  lemma {:induction false} PlainTreesAreTold(v: Tree, w: Tree, show: seq<string> -> string)
    requires PlainTree(v) && PlainTree(w) && SameTree(v, w, Spaced)
    ensures SameTree(v, w, show)
    decreases v, 0
  {
    hide PlainFields, SameFields;
    match v
    case Map(f) => PlainFieldsAreTold(f, w.fields, show);
    case List(items) =>
      forall i | 0 <= i < |items| && w.List? ensures SameTree(items[i], w.items[i], show) {
        PlainTreesAreTold(items[i], w.items[i], show);
      }
      forall i | 0 <= i < |items| && w.Maps? ensures SameFields(items[i].fields, w.maps[i], show) {
        PlainFieldsAreTold(items[i].fields, w.maps[i], show);
      }
    case Maps(maps) =>
      forall i | 0 <= i < |maps| && w.Maps? ensures SameFields(maps[i], w.maps[i], show) {
        PlainFieldsAreTold(maps[i], w.maps[i], show);
      }
      forall i | 0 <= i < |maps| && w.List? ensures SameFields(maps[i], w.items[i].fields, show) {
        PlainFieldsAreTold(maps[i], w.items[i].fields, show);
      }
    case Lines(lines) =>
      PrintsAsList(lines);
      if w.Lines? { SpacedIsExact(lines, w.lines); }
    case Text(_) =>
    case Scalar(_) =>
      forall lines ensures "[]string:" <= Spaced(lines) { PrintsAsList(lines); }
  }

  lemma PrintsAsList(lines: seq<string>)
    ensures "[]string:" <= Spaced(lines)
  {
    assert "[]string:[" == "[]string:" + "[";
  }

  ghost predicate PlainRequest(r: Request) { forall i :: 0 <= i < |r.context| ==> PlainFields(r.context[i]) }

  /** So for requests of such values the digest is as telling as any printing of lists
      could make it. */
  lemma {:induction false} PlainDigestsTell(r: Request, q: Request, show: seq<string> -> string)
    requires PlainRequest(r) && PlainRequest(q)
    ensures Digest(r, Spaced) == Digest(q, Spaced) ==> Digest(r, show) == Digest(q, show)
  {
    hide Digest, PlainFields, SameFields;
    DigestIsExact(r, q, Spaced);
    DigestIsExact(r, q, show);
    if SamePrompt(r, q, Spaced) {
      forall i | 0 <= i < |r.context| ensures SameFields(r.context[i], q.context[i], show) {
        PlainFieldsAreTold(r.context[i], q.context[i], show);
      }
    }
  }

  /** Over every run, two calls leave the same digest exactly if their redacted requests
      are one prompt; so calls that differ only in secrets do. */
  lemma {:induction false} DigestsTellPromptsApart(name: string, secret: string -> bool,
                                                   show: seq<string> -> string, calls: seq<Call>, i: nat, j: nat)
    requires i < |calls| && j < |calls|
    ensures var records := After(name, secret, show, calls).records;
            && |records| == |calls|
            && (records[i].digest == records[j].digest <==>
                  SamePrompt(Redact(calls[i].req, secret), Redact(calls[j].req, secret), show))
            && (AlikeRequests(calls[i].req, calls[j].req, secret) ==> records[i].digest == records[j].digest)
  {
    hide AlikeRequests, Seen, SamePrompt, Digest;
    RecordAt(name, secret, show, calls, i);
    RecordAt(name, secret, show, calls, j);
    DigestIsExact(Redact(calls[i].req, secret), Redact(calls[j].req, secret), show);
    if AlikeRequests(calls[i].req, calls[j].req, secret) { SecretsStayBehind(calls[i].req, calls[j].req, secret); }
  }
}
