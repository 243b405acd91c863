/**
 Which calls reach a provider and what each leaves in the audit trail, from the fields
 of the calls alone.
 */
module AuditedCalls {
  import opened AiBoundary
  import opened Decimal
  import opened Options
  import opened Redaction
  import opened WhiteSpace
  import PromptHash

  /** A seam the platform knows. */
  predicate KnownSeam(seam: string) {
    || seam == "matcher" || seam == "classifier" || seam == "drift_detector" || seam == "enricher"
    || seam == "narrator" || seam == "query" || seam == "author" || seam == "remediator"
  }

  /** Somebody asked, and on behalf of a seam. */
  ghost predicate Attributed(req: Request) { KnownSeam(req.seam) && !AllSpace(req.invoker) }

  ghost predicate MayGo(call: Call) { Attributed(call.req) && !call.controls.assistantDisabled }

  /** Why a request is refused: of several reasons the first. */
  lemma RefusalIs(req: Request, c: Controls)
    ensures !req.sanitized ==> Refusal(req, c) == Some(NotSanitized)
    ensures req.sanitized && !Attributed(req) ==> Refusal(req, c) == Some(Unattributed)
    ensures req.sanitized && Attributed(req) && c.assistantDisabled ==> Refusal(req, c) == Some(TenantDisabled)
    ensures req.sanitized && Attributed(req) && !c.assistantDisabled ==> Refusal(req, c) == None
  {
    hide AllSpace, Trim;
    TrimsToNothing(req.invoker);
  }

  // ---------- over every run ----------

  /** The redacted requests of the calls that may go, in order. */
  ghost function Forwarded(calls: seq<Call>, secret: string -> bool): seq<Request> {
    if calls == [] then []
    else
      var last := calls[|calls| - 1];
      Forwarded(calls[..|calls| - 1], secret) + if MayGo(last) then [Redact(last.req, secret)] else []
  }

  lemma RedactedKeeps(req: Request, secret: string -> bool)
    ensures var r := Redact(req, secret);
            r.sanitized && r.seam == req.seam && r.model == req.model && r.invoker == req.invoker
            && r.maxTokens == req.maxTokens
  {
  }

  lemma GoesExactlyWhen(call: Call, secret: string -> bool)
    ensures Refusal(Redact(call.req, secret), call.controls).None? <==> MayGo(call)
  {
    hide Refusal, Redact, AllSpace, KnownSeam;
    RedactedKeeps(call.req, secret);
    RefusalIs(Redact(call.req, secret), call.controls);
  }

  /** The provider is sent exactly the redacted requests of the calls that name a seam
      and an invoker and whose tenant has not turned the assistant off. */
  lemma {:induction false} SentExactly(name: string, secret: string -> bool, show: seq<string> -> string, calls: seq<Call>)
    ensures After(name, secret, show, calls).sent == Forwarded(calls, secret)
  {
    hide Refusal, Redact, RecordOf, MayGo;
    if calls != [] {
      SentExactly(name, secret, show, calls[..|calls| - 1]);
      GoesExactlyWhen(calls[|calls| - 1], secret);
    }
  }

  /** What the record of a call says that reached the provider. */
  ghost predicate SaysSent(rec: Record, call: Call) {
    && !rec.refused && rec.failure == call.answer.failure
    && rec.inputTokens == call.answer.response.inputTokens && rec.outputTokens == call.answer.response.outputTokens
    && rec.modelID == (if call.answer.response.modelID == "" then call.req.model else call.answer.response.modelID)
  }

  /** What the record of a call says that did not. */
  ghost predicate SaysRefused(rec: Record, call: Call) {
    && rec.refused && rec.failure == Some(if Attributed(call.req) then TenantDisabled else Unattributed)
    && rec.inputTokens == 0 && rec.outputTokens == 0 && rec.modelID == call.req.model
  }

  /** What every record says: who asked, through what, and, only for a tenant that
      records questions, what was asked, redacted. */
  ghost predicate SaysWho(rec: Record, call: Call, name: string, secret: string -> bool, show: seq<string> -> string) {
    && rec.seam == call.req.seam && rec.invoker == call.req.invoker && rec.provider == name
    && rec.digest == Some(Digest(Redact(call.req, secret), show))
    && (rec.prompt.Some? <==> call.controls.recordQuestions)
    && (rec.prompt.Some? ==> rec.prompt.value == Bounded(Transcript(Redact(call.req, secret).messages)))
  }

  /** Every call leaves one record, which says whether it was sent and, if not, why. */
  lemma {:induction false} RecordsSay(name: string, secret: string -> bool, show: seq<string> -> string,
                                      calls: seq<Call>, i: nat)
    requires i < |calls|
    ensures var records := After(name, secret, show, calls).records;
            && |records| == |calls| && SaysWho(records[i], calls[i], name, secret, show)
            && (if MayGo(calls[i]) then SaysSent(records[i], calls[i]) else SaysRefused(records[i], calls[i]))
  {
    hide Refusal, Redact, AllSpace, KnownSeam, Bounded, Transcript, Digest, After;
    var req := Redact(calls[i].req, secret);
    RecordAt(name, secret, show, calls, i);
    RedactedKeeps(calls[i].req, secret);
    RefusalIs(req, calls[i].controls);
  }

  /** A request that was never redacted leaves a record without digest or prompt. */
  lemma UnsanitizedLeavesNothing(name: string, req: Request, c: Controls, a: Answer, show: seq<string> -> string)
    requires !req.sanitized
    ensures var rec := RecordOf(name, req, c, a, show);
            rec.refused && rec.failure == Some(NotSanitized) && rec.digest.None? && rec.prompt.None?
            && rec.inputTokens == 0 == rec.outputTokens && rec.modelID == req.model
  {
  }

  /** What a digest is taken of: the seam, the model and the system prompt, then the
      messages and the grounding values, each list behind its length. */
  lemma DigestBytes(req: Request, show: seq<string> -> string)
    ensures Digest(req, show) ==
              PromptHash.Field(req.seam) + PromptHash.Field(req.model) + PromptHash.Field(req.system)
              + (Itoa(|req.messages|) + "\0") + PromptHash.EncMessages(req.messages)
              + (Itoa(|req.context|) + "\0") + PromptHash.EncObjs(Seen(req, show).context, "")
  {
    hide PromptHash.Field, PromptHash.EncMessages, PromptHash.EncObjs, Itoa;
  }

  // ---------- the recorded prompt ----------

  lemma TurnLast(ms: seq<Message>, m: Message)
    ensures Transcript(ms + [m]) == Transcript(ms) + (if ms != [] then "\n" else "") + (m.role + ": " + m.content)
    ensures Transcript([]) == ""
  {
    assert (ms + [m])[..|ms|] == ms;
  }

  /** The turns, each with its role in front, one behind the other on lines of their own. */
  lemma {:induction false} TranscriptJoins(ms: seq<Message>, ns: seq<Message>)
    ensures Transcript(ms + ns) == Transcript(ms) + (if ms != [] && ns != [] then "\n" else "") + Transcript(ns)
    ensures |ms| == 1 ==> Transcript(ms) == ms[0].role + ": " + ms[0].content
  {
    hide Transcript;
    if |ms| == 1 { TurnLast([], ms[0]); assert [] + [ms[0]] == ms; }
    if ns == [] {
      TurnLast([], PromptHash.Message("", ""));
      assert ms + ns == ms;
    } else {
      var init, last := ns[..|ns| - 1], ns[|ns| - 1];
      TranscriptJoins(ms, init);
      TurnLast(ms + init, last);
      TurnLast(init, last);
      assert ms + ns == (ms + init) + [last] && ns == init + [last];
      if init == [] { assert ms + init == ms; }
    }
  }

  /** Up to 4096 bytes are shown as they are; of more, as many of the first 4096 as end
      before a character, marked as cut. */
  lemma BoundIs(s: string)
    ensures |s| <= 4096 ==> Bounded(s) == s
    ensures |s| > 4096 ==>
              exists cut :: (0 <= cut <= 4096 && Bounded(s) == s[..cut] + "\n\U{00E2}\U{0080}\U{00A6}[truncated]"
                             && (cut == 0 || !('\U{0080}' <= s[cut] <= '\U{00BF}'))
                             && forall j :: cut < j <= 4096 ==> '\U{0080}' <= s[j] <= '\U{00BF}')
  {
    if |s| > 4096 {
      var cut := CutAt(s, 4096);
      hide CutAt;
      assert TRUNCATED == "\n\U{00E2}\U{0080}\U{00A6}[truncated]";
      assert Bounded(s) == s[..cut] + TRUNCATED;
    }
  }
}
