# Kernels of the Vista platform, modelled and proved

The platform watches a fleet of sensors and device agents and keeps an inventory
of what they see. Inside its services sit small pieces of logic that everything
else leans on. This project models them one module each, as they are in the code,
and proves what they promise for all inputs and all runs.

| file | what it models |
|---|---|
| `PrivateKeys`, `Redaction` | scrubbing free text: secret-named pairs lose their values, PEM private keys lose everything |
| `HiddenValues` | how far a hidden value or key reaches, in literal bytes |
| `ExactMarkers`, `AlikeTexts` | when a marker is all that is left of a secret, and which texts redact alike |
| `RequestRedaction`, `AiBoundary`, `AuditedCalls` | scrubbing whole requests, the audited boundary each generative call crosses, and what crosses it |
| `PromptHash` | the bytes the prompt digest is taken of |
| `Settings`, `PortList` | the registry of settings: layers, rules, normal form, port lists |
| `Bootstrap`, `Reconciliation`, `DeviceStatus` | desired state: first reports, content revisions, what a device is shown as |
| `Restart` | restarts asked for by age, not by timestamp |
| `Cadence`, `HostInventory` | a changeable interval and the loop that waits on it; turning that loop on and off |
| `AtomicFile` | replacing several files together, with roll-back |
| `Supervisor` | a sensor under a service control manager |
| `PlanJobs` | cancelling jobs that wait or run |
| `DiscoveryBuffer` | discoveries on their way to the platform, with retries and caps |
| `AgentSecrets` | opening credential envelopes across secret rotations |
| `YamlMerge`, `YamlPaths`, `SecurityBlock`, `SecretPath` | editing configuration files a person may have edited |
| `ClassTree` | ancestry in the class hierarchy by dotted paths |
| `ApprovalRules`, `QueryMeaning`, `Wildcards` | auto-approval rules over the query language, and what its terms mean |
| `LikePattern` | LIKE patterns that match literally (section 8.5 of ISO/IEC 9075-2) |
| `Patterns`, `Ordering`, `Decimal`, `Delimiters`, `Numbers`, `Sequences`, `WhiteSpace`, `Options` | what several of the above share |

Code that computes is a function; code that changes things step by step is a method
or a class proved against a function, about which the properties are then proved.
A failing operation is a branch the solver may take; code that runs concurrently is
a machine whose steps are the stretches between lock and channel operations, and a
property of it is shown of every sequence of steps. A byte of text is one `char`.

What the proofs found where the code and its documentation part, or where a property
holds only under a condition:

- A marker somebody typed, or a private key pasted as a value, with more text behind
  it, leaves that text in the clear: `redactText` keeps what starts with a marker. Text
  behind a blank stays too, up to a terminator or the next pair, although a value runs
  over blanks (`PlainIsHidden`); and so does text right behind a closing quote. Where
  none of this occurs, and only there, each secret value is left as exactly a marker
  (`TextBehindStays`, `ExactlyMarkedExactlyWhen`, and for whole runs of calls
  `SentExactlyWhen`).
- The comments at `shared/ai/audit.go:312-316` and `shared/ai/hash.go:10-14` let one
  expect that moving a boundary between strings changes the digest; `hashValue` has no
  case for `[]string`, so in such a list it need not (`DigestIsExact`,
  `ListsCanCollide`); it does in lists that are not empty and hold no blanks
  (`SpacedIsExact`, `PlainDigestsTell`).
- `BootstrapValues`: the comment at `shared/agentconfig/bootstrap.go:46-52` says a
  setting that needs confirming is not left out; the code at lines 62-69 leaves it
  out, and so does the model (`Bootstrap.DecisionsStand`).
- `Revision` tells values apart as long as no text in them holds its separator
  bytes; valid values hold none, and for any two keys there are others that collide
  (`RevisionIsExact`, `ValidIsClean`, `UncleanValuesCollide`).
- `WriteAll` is all-or-nothing after a failure exactly when, for each path already
  replaced, the last step back that worked led to the old file, or to none where there
  was none, or no step worked and the last new content is the old one; an old file that
  could not be read is lost (`NothingExactlyWhen`, `UnreadIsLost`). A single failing
  operation never changes anything (`OneFaultChangesNothing`).
- Removing an unset key from a configuration takes out its first occurrence only
  (`ManagedKeysSaved`, `SecondStays`).
- The last write of the security block wins over a write of the same keys. A secret
  path that has gone leaves its line behind, and one that has come can stand behind
  `useTLS`; when not is stated exactly (`LastWriteWins`, `SecretLeftBehind`,
  `DroppedExactlyWhen`, `AddedExactlyWhen`).
- A wildcard can single out the cloud source without naming it
  (`PatternsAreNotNames`), and a prefix in an `in` list does not scope a rule
  (`ListsAreUnseen`), so such a rule is not kept from cloud listings.
- Prefix rules come first for cloud listings too, where they can approve nothing:
  an account's rule then has no say (`AccountDecidesExactlyWhen`).
- On numbers and timestamps `!=` is negated twice in memory and answers as `=` does
  (`NotEqualIsNegated`).
- The discovery buffer can stay above 1000 after `processDiscoveries`: exactly if a
  flush put it there and there is no sensor id (`ProcessDiscoveries`, `OverfullStays`).
- A service checkpoint counts its ticks modulo 2^32 (`CheckPointCounts`).
- An agent with no host inventory to run refuses to turn it on only once; after
  that it is on with nothing running (`HostInventory.Supervisor.SetEnabled`).

## Model

| member | source | states |
|---|---|---|
| PrivateKeys.MaskedIsKeyFree | shared/redact/redact.go:55-101 | after masking, no suffix of any text begins with a private-key header, whatever the text was |
| PrivateKeys.KeyFreeUnchanged | shared/redact/redact.go:92-101 | a text without a private-key header is left as it is by both passes and by the whole masking |
| PrivateKeys.HeadlessKeyFree | shared/redact/redact.go:72-77 | the second pass alone leaves no header, so nothing a cut-off key leaves behind survives |
| PrivateKeys.KeyFreeAround | shared/redact/redact.go:55-101 | no header can form across a marker put between two header-free texts |
| PrivateKeys.HeaderIsLocal | shared/redact/redact.go:61-77 | whether a header stands at the head of a text, and how long it is, depends on its own bytes only |
| PrivateKeys.KeysKeepTheRest | shared/redact/redact.go:55-101 | a text splits, in order, into bytes that are kept and whole keys, from header to trailer or to the end; masking shows a marker for each key and every other byte as it is |
| PrivateKeys.KeysDoNotShow | shared/redact/redact.go:55-101 | texts with the same bytes around keys in the same places mask alike, whatever the keys |
| HiddenValues.ArmourIsExact | shared/redact/redact.go:55-77 | a line opens or closes a key if and only if it is the opening, a label of capitals, digits and blanks, `PRIVATE KEY` and five dashes; it is that long |
| HiddenValues.TrailerIsFirst | shared/redact/redact.go:61-77 | the closing line that counts is the first one, wherever one stands |
| HiddenValues.KeysAreWhole | shared/redact/redact.go:55-101 | every stretch hidden as a key reaches from its header to the first trailer behind it, or, only as the last stretch, to the end of the text |
| Redaction.MatchesThePattern | shared/ai/redaction.go:142-162 | the hand-written matcher finds a pair at the head of a text exactly when the text can be split as the regular expression says |
| Redaction.ClosesAtFirstUnescaped | shared/ai/redaction.go:278-289 | the closing quote is the first quote before which an even number of backslashes stands; if there is none every quote is escaped |
| Redaction.MeasureQuoted | shared/ai/redaction.go:278-296 | the byte-by-byte loop computes the extent of a quoted value as specified |
| Redaction.ScrubMatches | shared/ai/redaction.go:173-232 | the loop over matches found once, with its cursor, yields what judging leftmost pairs one at a time yields, although a replaced value may hide later matches |
| Redaction.RedactText | shared/ai/redaction.go:173-232 | the whole of `redactText`, early returns included, equals masking keys and then scrubbing pairs; what that hides is said byte by byte by `HiddenIsWhole` and `KeysAreWhole` |
| Redaction.Resume | shared/ai/redaction.go:173-232 | restarting the search in the middle of the text changes nothing but matches that start before the cursor, and those add nothing after it |
| Redaction.ScrubTwice | shared/ai/redaction.go:162-232 | the key/value pass is idempotent for any secret-name predicate |
| Redaction.RedactTwice | shared/ai/redaction.go:173-232 | all of `redactText` is idempotent and leaves no private-key header: scrubbing never assembles one |
| Redaction.ScrubKeyFree | shared/ai/redaction.go:173-232 | replacing values in a header-free text leaves it header-free |
| Redaction.CleanExactlyWhenHarmless | shared/ai/redaction.go:173-252 | a text is left alone if and only if every secret-named pair the search finds is followed by a marker or by an empty value |
| Redaction.OutputIsHarmless | shared/ai/redaction.go:162-232 | in the output every secret-named pair is followed by an empty value or by something that starts with a marker |
| Redaction.KeepsTheRest | shared/ai/redaction.go:173-232 | the text splits into kept and hidden stretches in order; the output is the same with each hidden stretch replaced by its marker; and a stretch is hidden only if it is the whole value after a secret name |
| HiddenValues.ByteClasses | shared/ai/redaction.go:142-162 | the bytes of names and labels, letter by letter |
| HiddenValues.EndBytes | shared/ai/redaction.go:142-169 | the bytes that separate, quote and end values, as literals |
| HiddenValues.NamesAreShort | shared/ai/redaction.go:162 | a run of name bytes before a colon begins a pair exactly if it has 1 to 64 bytes |
| HiddenValues.ExtentIsExact | shared/ai/redaction.go:252-296 | the extent of a value is n if and only if the text says so: unquoted, n is the first place where the text ends, a comma, a closing brace or bracket, a line feed or a carriage return stands, or white space, and at most a quote, with a pair behind it; quoted, n is right behind the first equal quote that no odd number of backslashes escapes, or, with none, at the first line end or the end of the text |
| HiddenValues.HiddenIsWhole | shared/ai/redaction.go:173-296 | every hidden stretch of every text is such a value, whole, not empty, and does not start with a marker |
| HiddenValues.NothingElseIsLeft | shared/ai/redaction.go:194-252 | in the output the value of every secret-named pair starts with a marker or is, in the same literal sense, empty |
| HiddenValues.MarkersAre | shared/ai/redaction.go:234-310 | the marker that is written is the bare one, or the one in the quotes that opened the value; these three are what is left alone |
| ExactMarkers.ExactlyMarkedExactlyWhen | shared/ai/redaction.go:192-252 | in the output every secret-named pair is followed by an empty value or by a marker and no more, if and only if no secret value the scanner judges goes on: behind a bare marker it starts with, up to a terminator or the next pair and blanks included, or right behind a quoted marker or its closing quote |
| ExactMarkers.TextBehindStays | shared/ai/redaction.go:192-213 | the condition is needed: `password: [redacted]` with a word right behind it or behind a blank goes out as it came, and so does what a private key pasted in front of that word is masked to |
| ExactMarkers.PlainIsHidden | shared/ai/redaction.go:252-274 | where no marker was typed, a value without quote, terminator and separator is hidden whole, blanks and all |
| AlikeTexts.LikeTextsRedactAlike | shared/ai/redaction.go:173-232 | two texts that split, keys masked, into the same kept stretches with values hidden in the same places behind the same opening quotes redact to one text, whatever the hidden values |
| AlikeTexts.ExchangeIsLocal | shared/ai/redaction.go:173-296 | exchanging one hidden value for any other that opens alike, is no marker and ends in the same place, and that closes no earlier value left open, changes the text there only: every piece before and after starts, ends and is judged as before |
| AlikeTexts.ExchangeIsLike | shared/ai/redaction.go:173-296 | so the text with the exchanged value is alike and redacts to the same |
| AlikeTexts.LikeAroundKeys | shared/redact/redact.go:55-101 | texts that differ in the private keys that stand in the same places only are alike |
| RequestRedaction.Scrubs | shared/ai/redaction.go:106-140 | the walk by field name followed by the prose walk leaves the marker under every secret name, redacted text in every other string, and everything else as it was |
| RequestRedaction.ScrubbedIsClean | shared/redact/redact.go:303-357 | what comes out of the two walks has nothing left to redact at any depth, and exactly such values come out unchanged |
| RequestRedaction.ExactExactlyWhen | shared/ai/redaction.go:106-140 | what comes out is marked exactly at every depth if and only if no secret value in any string that is not under a secret name goes on behind its end |
| RequestRedaction.SecretsDoNotShow | shared/redact/redact.go:344-357 | two values that differ only in what secret map keys hold and in the hidden values of otherwise like strings come out equal |
| RequestRedaction.CleanTextIsFixed | shared/ai/redaction.go:173-232 | for one string: redaction leaves exactly the texts without a key whose secret-named pairs are each followed by an empty value or something that starts with a marker; its output is such a text; and masking keys beforehand makes no difference |
| AiBoundary.RedactRequest | shared/ai/redaction.go:76-101 | the loops over messages and grounding values build the redacted copy, marked sanitized |
| AiBoundary.RedactIsExact | shared/ai/redaction.go:70-101 | a redacted request has nothing left to redact in any part, and a request is left as it is exactly when it was sanitized and had nothing to redact already |
| AiBoundary.ExactRequestExactlyWhen | shared/ai/redaction.go:70-101 | a redacted request holds exact markers only, in every part, if and only if no secret value in the request goes on behind its end |
| AiBoundary.SentExactlyWhen | shared/ai/audit.go:159-222 | over every run all the provider was sent is marked exactly, if and only if no request that was not refused held a secret value that goes on |
| AiBoundary.SecretsStayBehind | shared/ai/redaction.go:76-101 | requests that differ only in what secret map keys hold and in hidden values of prose that is otherwise alike reach the provider as the same request |
| AiBoundary.AuditedPrompt | shared/ai/audit.go:244-268 | the loop that stops early and the search back for a rune boundary compute the bounded form of the whole transcript |
| AiBoundary.BoundedIsLocal | shared/ai/audit.go:244-268 | once more than the bound is written, nothing that would follow changes what is kept |
| AuditedCalls.TranscriptJoins | shared/ai/audit.go:244-257 | a transcript is its turns, each with its role in front, joined by single line feeds |
| AuditedCalls.BoundIs | shared/ai/audit.go:257-268 | up to 4096 bytes are kept as they are; of more, as many of the first 4096 as end before the first byte of a character, and no fewer, and the mark of the cut |
| AiBoundary.Boundary.Audited | shared/ai/audit.go:179-310 | each call adds exactly one record, refused or not; the provider is called, with this very request, only if nothing refuses it; why it is refused and what the record says is said from the fields of the call by `RefusalIs` and `RecordsSay` |
| AiBoundary.Boundary.Complete | shared/ai/audit.go:166-222 | the composed boundary takes one step of the run model on the redacted request; which calls that sends on is said by `SentExactly` |
| AuditedCalls.RefusalIs | shared/ai/audit.go:179-197 | a request is refused for the first of these that holds: it is not sanitized; its seam is none of the eight literal names or its invoker is nothing but white space; its tenant has turned the assistant off |
| AuditedCalls.SentExactly | shared/ai/audit.go:166-222 | over every run the provider is sent, in order, exactly the redacted requests of the calls that name one of the eight seams and an invoker and whose tenant has not turned the assistant off |
| AuditedCalls.RecordsSay | shared/ai/audit.go:179-310 | over every run the record of each call says the seam, the invoker and the provider; if it was sent, the tokens, the failure and the model of the answer, or else of the request; if not, why, no tokens and the model of the request; and what was asked exactly if the tenant records questions |
| AuditedCalls.UnsanitizedLeavesNothing | shared/ai/audit.go:285-310 | a request that was not redacted is refused and leaves neither digest nor prompt |
| WhiteSpace.TrimsToNothing | shared/ai/audit.go:278 | a text is trimmed to nothing exactly if it is made of white-space characters only |
| WhiteSpace.TrimIs | sensor/cmd/main.go:979 | trimming takes white-space characters off both ends, all of them and nothing else |
| WhiteSpace.SpaceCharsAre | sensor/cmd/main.go:979 | the byte sequences taken for white space are the UTF-8 forms of the characters with that property, and no others |
| AiBoundary.TrailIsFaithful | shared/ai/audit.go:159-222 | over every run: as many records as calls, only requests with nothing left to redact at the provider, and the digests of the records that are not refusals are, in order, those of the bytes that were sent |
| AiBoundary.DigestsTellPromptsApart | shared/ai/audit.go:312-342 | over every run two calls leave one digest exactly if their redacted requests are one prompt in the sense of `DigestIsExact`; requests that differ only in secrets are |
| AiBoundary.DigestIsExact | shared/ai/audit.go:312-342 | two requests have one digest if and only if seam, model, system prompt and messages agree and the grounding values do at every depth: the two list types of the same maps as one, and string lists and scalars told apart exactly where their printing tells them apart |
| AiBoundary.ListsCanCollide | shared/ai/hash.go:45-74 | with lists printed as `%v` prints them, a grounding value `[a b]` of one string and one of the two strings a and b have one digest in any request, for any a and b |
| AiBoundary.SpacedIsExact | shared/ai/hash.go:68-74 | of string lists without blanks only an empty one and one of the empty string print alike, so the others collide with none |
| AiBoundary.PlainDigestsTell | shared/ai/audit.go:312-342 | for requests whose string lists are not empty and hold no blanks, equal digests are equal whatever way of printing lists one might use instead |
| PromptHash.PreimageIsExact | shared/ai/audit.go:323-342 | two requests, as the hash sees them, feed it the same bytes if and only if seam, model, system prompt, messages and grounding values agree, the two list types taken as one and whatever has no case of its own, string lists included, known by how it prints |
| PromptHash.ObjSplits | shared/ai/hash.go:30-43 | the encoding of a map says where it ends: equal streams that begin with a map have equal maps and equal remainders |
| PromptHash.ValueSplits | shared/ai/hash.go:45-74 | the same for any value: tagged, length-prefixed and prefix-free at every depth |
| PromptHash.CanonEncodes | shared/ai/hash.go:45-62 | a list of maps and the plain list of the same maps are written alike |
| PromptHash.Hasher.HashMap | shared/ai/hash.go:30-43 | writes the encoding of a map, whatever order its keys are visited in |
| PromptHash.Hasher.HashValue | shared/ai/hash.go:45-74 | writes the encoding of a value, loop by loop |
| PromptHash.PromptPreimage | shared/ai/audit.go:323-342 | the writer, field by field, writes exactly the pre-image |
| AuditedCalls.DigestBytes | shared/ai/audit.go:323-342 | the digest of a request is taken of its seam, model, system prompt, messages and grounding values in this order, each list behind its length |
| Ordering.SortedListing | shared/ai/hash.go:31-36 | whatever order a set of strings is visited in, sorting lists it the one ascending way |
| Ordering.BeforeIsByBytes | shared/ai/hash.go:31-36 | the order is the one of bytes: the first that differs decides, and a text comes before what goes on from it |
| LikePattern.EscapeLike | shared/database/like.go:21-32 | the loop puts a backslash before each backslash, percent sign and underscore |
| LikePattern.ContainsPattern | shared/database/like.go:34-38 | builds the escaped text between two percent signs |
| LikePattern.EscapedMatchesItself | shared/database/like.go:6-32 | under LIKE with backslash as escape, the escaped pattern of s matches t if and only if t is s |
| LikePattern.ContainsMatchesParts | shared/database/like.go:34-38 | the contains pattern of s matches t if and only if s occurs in t |
| LikePattern.EscapesAre | shared/database/like.go:21-32 | the three metacharacters, as literals, are written with one backslash in front and every other byte as it is |
| LikePattern.PercentMeans | shared/database/like.go:6-20 | in the meaning of LIKE the theorems rest on, an unescaped percent sign stands for any run of characters |
| Wildcards.GlobMatch | shared/query/eval/eval.go:611-636 | the greedy matcher, leftmost part after leftmost part, decides exactly what the pattern means, with and without folding case, whatever the folding |
| Wildcards.FirstIsEnough | shared/query/eval/eval.go:626-635 | taking the first occurrence of a part never loses a match |
| Wildcards.GlobIsAnchored | shared/query/eval/eval.go:619-636 | splitting at the stars loses nothing: the first part at the start, the last at the end, the rest in order between them |
| Wildcards.StarIsAnyRun | shared/query/eval/eval.go:611-636 | a star after star-free text matches what begins with that text and from some place on matches the rest of the pattern |
| Wildcards.PlainMatchesItself | shared/query/eval/eval.go:619-622 | a pattern without a star matches itself only |
| ApprovalRules.NotEqualIsNegated | shared/query/eval/eval.go:204-234 | `!=` is the negation of `=` on a measured value for columns compared as text; on numbers and timestamps it answers as `=` does |
| QueryMeaning.AndIsLeast | shared/query/eval/eval.go:142-154 | with no below unknown below yes, a conjunction is the least of its children |
| QueryMeaning.OrIsGreatest | shared/query/eval/eval.go:155-166 | a disjunction is the greatest of its children |
| QueryMeaning.DeMorgan | shared/query/eval/eval.go:142-170 | negation turns either into the other over the negated children, with unknown as well |
| QueryMeaning.UnmeasuredIsUnknown | shared/query/eval/eval.go:170-226 | every term on a column that was not measured is unknown, except the two that ask whether it was |
| QueryMeaning.NumbersCompare | shared/query/eval/eval.go:278-288 | on a number each comparison holds exactly if the measured number is so related to the one asked for |
| QueryMeaning.NumbersRange | shared/query/eval/eval.go:478-488 | a range on a number holds exactly if the measured number lies in it, both ends included |
| QueryMeaning.InstantsCompare | shared/query/eval/eval.go:307-318 | on an instant each comparison holds exactly if the measured instant is so related to the one asked for |
| QueryMeaning.InstantsRange | shared/query/eval/eval.go:478-488 | a range on instants holds exactly if the measured one lies in it, both ends included |
| QueryMeaning.TextsCompare | shared/query/eval/eval.go:251-276 | on text `=` asks for the text itself and `:` for the text up to the case of its letters |
| QueryMeaning.PatternsCompare | shared/query/eval/eval.go:251-276 | an unquoted literal with a star is a pattern, for `:` up to case |
| QueryMeaning.ListsAreOr | shared/query/eval/eval.go:453-476 | an `in` list is the disjunction of its `:` comparisons, and negated the negation of it |
| ApprovalRules.RuleScope.Walk | shared/approval/cloud_account.go:101-149 | the walk with its two flags finds whether the rule reads the prefix in a comparison or `exists`, and whether it names cloud under the polarity of that place |
| QueryMeaning.ComparisonNames | shared/approval/cloud_account.go:117-132 | a comparison names cloud if it compares the source with that word, up to case and white space around it, by equality, or under an odd number of negations by inequality |
| QueryMeaning.ListNames | shared/approval/cloud_account.go:133-141 | a list names cloud if that word is in it and it is negated as often as its place |
| ApprovalRules.CloudIsNoHelp | shared/approval/cloud_account.go:97-149 | a rule that does not name cloud has no favour for it: what it approves from a cloud it approves from any source it does not name and whose patterns treat both alike; three-valued, through any nesting of `not` |
| ApprovalRules.PatternsAreNotNames | shared/approval/cloud_account.go:121-132 | the condition on patterns is needed: `source:c*` approves cloud only and does not name it |
| ApprovalRules.ReadingsAreSeen | shared/approval/cloud_account.go:117-145 | of a valid rule, the scope sees every reading of the prefix except those in an `in` list |
| ApprovalRules.PrefixIsNoHelp | shared/approval/cloud_account.go:159-165 | for a cloud listing, a rule without such a list, or one the scope sees reading the prefix besides, decides the same in any prefix and in none |
| ApprovalRules.ListsAreUnseen | shared/approval/cloud_account.go:133-141 | with one it need not: `prefix_id in (x)` approves a cloud listing in x and not elsewhere |
| ApprovalRules.PrefixFirst | shared/approval/service.go:147-163 | narrows the rules to those of the prefix, in order, if there are any |
| ApprovalRules.EvaluateAutoApproval | shared/approval/service.go:108-145 | the loop returns the first approving rule of the narrowed list, and nothing for a third party; what a rule approves is said by `RulesApprove` and the laws of `QueryMeaning` |
| QueryMeaning.AlternativesApprove | shared/approval/service.go:108-145 | a rule of two alternatives without prefix approves exactly what one of them says yes to |
| QueryMeaning.ConditionsApprove | shared/approval/service.go:108-145 | and one of two conditions exactly what both say yes to |
| QueryMeaning.RulesApprove | shared/approval/rule_evaluator.go:89-139 | a rule that is inactive, invalid or reads a prefix where cloud is named or listed approves nothing; any other approves what it says yes to, unknown not being yes |
| QueryMeaning.FirstDecides | shared/approval/service.go:118-145 | of several rules that approve, the first decides |
| QueryMeaning.OwnInOrder | shared/approval/service.go:147-163 | the rules of a prefix keep the order they have among all |
| QueryMeaning.FirstTermNames | shared/approval/rule_evaluator.go:153-181 | the prefix of a rule is that of its first term that names one |
| ApprovalRules.ApprovedExactlyWhen | shared/approval/service.go:108-163 | a discovery is approved exactly if it is not a third party and some rule approves it that is its prefix's own, or anyone's where the prefix has none |
| ApprovalRules.AccountDecidesExactlyWhen | shared/approval/service.go:118-163 | a cloud listing in an account that is to be approved is approved exactly unless its prefix has rules of its own: those shut the account's rule out and approve no listing themselves |
| ApprovalRules.UnreadIsUnused | shared/query/eval/eval.go:138-200 | a query that does not read the prefix has one verdict whatever the prefix |
| PortList.ParsePortList | shared/agentconfig/ports.go:37-59 | the loop with its `seen` map returns the named ports ascending and each once, and the problems in the order of the entries |
| PortList.FormatPortList | shared/agentconfig/ports.go:94-119 | prints the usable ports ascending, each once, with commas |
| PortList.ParseOfFormat | shared/agentconfig/ports.go:37-119 | parsing what was printed returns exactly the ports in range, ascending and each once, with no problem but the number of them when it passes the limit |
| PortList.CanonicalForm | shared/agentconfig/ports.go:94-119 | two lists print alike if and only if they hold the same set of ports |
| PortList.TypedListsAgree | shared/agentconfig/ports.go:37-119 | two typed texts are stored alike if and only if they name the same ports, and the stored text is a fixed point |
| PortList.AcceptedIsShort | shared/agentconfig/ports.go:53-58 | an accepted text names no more ports than the limit; a text within it is accepted once stored |
| PortList.EntriesAre | shared/agentconfig/ports.go:37-63 | commas, blanks, tabs and line ends part entries; a stretch without one is one entry |
| PortList.EntriesSpeak | shared/agentconfig/ports.go:41-53 | each entry adds its port or its problem, in the order of the text |
| PortList.OthersAre | shared/agentconfig/ports.go:65-80 | an entry that is no numeral is a range exactly if it is two numerals with a dash between them, and else no number |
| PortList.FormattedNames | shared/agentconfig/ports.go:94-119 | the stored text is the decimal numerals of exactly the ports in range, ascending, joined by commas |
| Settings.EqualMeansSameContent | shared/agentconfig/settings.go:311-333 | `Equal` compares what values say; being zero is saying nothing |
| Settings.FieldsFor | shared/agentconfig/settings.go:272-286 | the registry is ranged over in any order and the fields come out by key |
| Settings.Resolve | shared/agentconfig/resolve.go:43-57 | each applicable field resolves to the device's value, else the fleet's, else its default |
| Settings.LayersDecide | shared/agentconfig/resolve.go:13-57 | a device value stands whatever the fleet says; without one the fleet decides; a key nobody set has its default |
| Settings.OriginIsTold | shared/agentconfig/resolve.go:43-57 | the device's own value, else the fleet's, else the default, each with the name of where it is from |
| Settings.ComputeEffective | shared/agentconfig/resolve.go:61-67 | collecting the resolved fields gives one value for every applicable key and no other |
| Settings.Validate | shared/agentconfig/resolve.go:74-136 | one message for each issue of each key, however worded, sorted by text, and none if and only if the values are valid |
| Settings.NumbersPass | shared/agentconfig/resolve.go:98-111 | a number passes exactly between its bounds, and below the lower one where it will be raised to a floor; else the one issue it has is named |
| Settings.WordsPass | shared/agentconfig/resolve.go:93-129 | a flag, a word or a port list passes exactly if it is one and allowed |
| Settings.Normalize | shared/agentconfig/resolve.go:158-192 | each value is put in normal form, key by key, and the notes come in the order of the keys; which value that is, is said by `NumberIsRaised`, `PortsAreKept` and `OthersAreStored` |
| Settings.NormalValueIsSettled | shared/agentconfig/resolve.go:158-192 | normal form is a fixed point with nothing more to note, keeps valid values valid, puts a valid number within its bounds, and neither sets nor clears a value |
| Settings.NormalizeSettles | shared/agentconfig/resolve.go:148-192 | for whole sets of values: normalising twice is normalising once, with no notes the second time, and validity is kept |
| Settings.NumberIsRaised | shared/agentconfig/resolve.go:185-189 | the stored number is the least that is neither below the one given nor below its floor; it is noted, with both numbers, exactly if it was raised |
| Settings.PortsAreKept | shared/agentconfig/resolve.go:167-180 | the text stored for an accepted port list names the same ports, one entry each, and the note counts exactly the entries that went |
| Settings.OthersAreStored | shared/agentconfig/resolve.go:161-187 | every other value is stored as it was given, without a note |
| Bootstrap.BootstrapValues | shared/agentconfig/bootstrap.go:53-100 | collecting, normalising and validating one by one yields exactly the values worth recording |
| Bootstrap.RecordedExactly | shared/agentconfig/bootstrap.go:53-100 | a reported value is recorded if and only if its setting is for this runtime, needs no confirming and is set by nobody, and the value, as it would be enforced, is accepted and says something else than the default |
| Bootstrap.DecisionsStand | shared/agentconfig/bootstrap.go:66-80 | recording them leaves the effective value of every key somebody set, and of every key that needs confirming, as it was |
| Bootstrap.ReportIsAdopted | shared/agentconfig/bootstrap.go:20-52 | every other applicable reported value the rules accept becomes the effective value, as it would be enforced |
| Bootstrap.RefusedChangesNothing | shared/agentconfig/bootstrap.go:81-99 | a value that was not reported or that the rules refuse changes nothing |
| Bootstrap.SecondReportRecordsNothing | shared/agentconfig/bootstrap.go:20-52 | the same report again records nothing, also when the fleet layer has decided more since |
| Reconciliation.ComputeRevision | shared/agentconfig/reconcile.go:24-51 | the loop feeds the hasher the specified stream |
| Reconciliation.EntryBytes | shared/agentconfig/reconcile.go:33-49 | what is hashed for a flag, a number and a text, byte by byte |
| Reconciliation.RevisionIsExact | shared/agentconfig/reconcile.go:10-51 | for values without separator bytes, revisions are equal if and only if the runtimes are and every key says the same, unset keys counting as missing |
| Reconciliation.UncleanValuesCollide | shared/agentconfig/reconcile.go:33-49 | the condition is needed: for any two keys in order there are two different sets of values with one revision |
| Reconciliation.ValidIsClean | shared/agentconfig/reconcile.go:24-51 | values that pass validation hold no separator byte |
| Reconciliation.EffectiveIsClean | shared/agentconfig/resolve.go:61-67 | so the effective values of two valid layers hold none |
| Reconciliation.Diff | shared/agentconfig/reconcile.go:150-176 | the loop lists, by key, the keys whose two values differ |
| Reconciliation.ChangesAre | shared/agentconfig/reconcile.go:150-176 | a change is listed if and only if its two values are those before and after and say different things |
| Reconciliation.ChangesInOrder | shared/agentconfig/reconcile.go:150-176 | changes are listed by key, each key once |
| Reconciliation.DiffMatchesRevision | shared/agentconfig/reconcile.go:150-176 | `Diff` is empty if and only if the two revisions agree |
| DeviceStatus.UnsupportedIsExact | shared/agentconfig/reconcile.go:219-239 | recognising an unsupported-setting failure is exactly undoing its wording |
| DeviceStatus.ComputeVisibleFailures | shared/agentconfig/reconcile.go:252-276 | the loop over the reported failures, in any order, keeps the visible ones |
| DeviceStatus.HiddenExactlyWhen | shared/agentconfig/reconcile.go:241-276 | a failure is hidden if and only if it names the setting as unsupported by some version, the setting says older devices run its default, and nothing but the default is asked for |
| DeviceStatus.ComputeStatus | shared/agentconfig/reconcile.go:123-148 | the case analysis on a report yields the specified state |
| DeviceStatus.StatesAre | shared/agentconfig/reconcile.go:115-148 | each of the six states if and only if what it stands for: nothing ever reported; nothing reported lately; some visible failure; another revision; the right one with restarts due; the right one with none |
| DeviceStatus.ShownAre | shared/agentconfig/reconcile.go:226-276 | a failure that is shown names the version to upgrade from exactly if it has that wording, and else the reason reported |
| DeviceStatus.AppliedMeansHeld | shared/agentconfig/reconcile.go:115-148 | a device shown as applied or awaiting restart holds the desired values; one that holds them is never pending |
| DeviceStatus.FleetChangeReachesExactly | shared/agentconfig/reconcile.go:115-176 | a changed fleet default turns pending exactly the cleanly reporting devices whose effective values differ, which are those `Diff` shows something for |
| AtomicFile.Disk.WriteAll | shared/atomicfile/atomicfile.go:36-91 | success replaces every file and leaves no temporary file; failure comes only from operations that failed: before the first rename it changes nothing, afterwards every predecessor not read and every step back not taken is a failure of its own; and at every moment each named file is whole |
| AtomicFile.Disk.StoreTemp | shared/atomicfile/atomicfile.go:105-132 | a temporary file is left with exactly the content and mode, or none is left unless it would not go |
| AtomicFile.Disk.RollBack | shared/atomicfile/atomicfile.go:71-83 | restores what was read, removes what was not there, as far as each step works |
| AtomicFile.Disk.Restore | shared/atomicfile/atomicfile.go:93-103 | puts one file back whole, or changes no file |
| AtomicFile.WrittenExactly | shared/atomicfile/atomicfile.go:60-91 | on success, path by path: the last content for a path is there and every other path is as it was |
| AtomicFile.NothingExactlyWhen | shared/atomicfile/atomicfile.go:20-91 | after a failure all is as before if and only if, for each path replaced, once or more often, the last step back that worked had a readable predecessor or there was no file, or none worked and the last new content is the old |
| AtomicFile.UnreadIsLost | shared/atomicfile/atomicfile.go:60-83 | the condition is needed: a file that could not be read is gone after a step back that worked |
| AtomicFile.NothingWhenAllWorks | shared/atomicfile/atomicfile.go:20-91 | in particular, if all predecessors were readable and every step back worked, nothing changed |
| AtomicFile.OneFaultChangesNothing | shared/atomicfile/atomicfile.go:20-91 | where no operation of the disk fails all is written, and where a single one does, whichever it is, all is written or nothing is changed |
| AtomicFile.StaysWhole | shared/atomicfile/atomicfile.go:60-83 | no rename or step back ever leaves a named file partly written or lost, save one that could not be read |
| Cadence.EveryRunKeeps | device-agent/cmd/managed_config.go:60-129 | in every interleaving a waiter holding an outdated interval has a wake-up waiting or about to be posted, and whoever is past waiting has waited long enough |
| Cadence.NoLostWakeUp | device-agent/cmd/managed_config.go:60-129 | once no setter is between its store and its post, a waiter no wake-up is waiting for sleeps on the stored interval |
| Cadence.BlockedWaiterCanGoOn | device-agent/cmd/managed_config.go:68-129 | a waiter blocked on an outdated interval can be woken at once or after one post |
| Cadence.NeverUnderTheFloor | device-agent/cmd/managed_config.go:83-129 | a cycle that fires has lasted at least the floor of its shape, however often the interval changed |
| Cadence.JitterStaysOverTheFloor | device-agent/cmd/main.go:606-664 | the jittered host-inventory shape never asks for less than its floor |
| Cadence.JitterIsATenth | device-agent/cmd/main.go:640-660 | the jittered wait is at least the interval and the floor, and less than a tenth longer than one of them |
| Cadence.PlainWait | device-agent/cmd/managed_config.go:96-129 | in every run, a waiter without jitter that no wake-up is waiting for sleeps for the stored interval, or for a minute if that is not positive |
| Cadence.ElapsedCounts | device-agent/cmd/managed_config.go:93-122 | no step moves the beginning of a cycle: what has passed counts, and a waiter woken by a change looks at the interval again |
| Cadence.NeverPutOff | device-agent/cmd/managed_config.go:83-129 | if due steps are taken before time passes, a cycle never lasts longer than the longest wait asked for in it |
| Cadence.Interval.StoreValue | device-agent/cmd/managed_config.go:68-74 | storing under the lock is one step of the model, and asks for a wake-up exactly if the value changed |
| Cadence.Interval.PostWake | device-agent/cmd/managed_config.go:75-80 | posting never blocks and leaves one wake-up |
| Cadence.Interval.Get | device-agent/cmd/managed_config.go:54-58 | reads the stored interval of the model |
| Cadence.Interval.TakeWake | device-agent/cmd/managed_config.go:115-118 | taking a wake-up is the step of the model, possible exactly when one is there |
| HostInventory.Supervisor.SetEnabled | device-agent/cmd/managed_config.go:161-188 | starts one loop exactly when going on with something to run, stops it exactly when going off, and otherwise does nothing; it fails only on going on with nothing to run |
| HostInventory.Supervisor.SetInterval | device-agent/cmd/managed_config.go:198-214 | refuses exactly what is below an hour; otherwise the running loop and the next one get the value |
| HostInventory.Supervisor.Live | device-agent/cmd/managed_config.go:139-214 | the loops not told to stop are one, on the interval last set, while it is on and can run, and none otherwise |
| Supervisor.Supervise | sensor/cmd/service.go:87-148 | the event loop takes the steps of the model, report by report |
| Supervisor.ReportsAreOrderly | sensor/cmd/service.go:60-148 | every run reports pending starts, then running, then pending stops; stop is accepted only while running; at most one stop is sent |
| Supervisor.EachEventReports | sensor/cmd/service.go:87-148 | in every run each event adds what it should: a tick while pending the last report with a checkpoint one higher, an interrogation the last report once more, the start and the first stop their phase, anything else nothing |
| Supervisor.CheckPointCounts | sensor/cmd/service.go:87-118 | in every run the last report has the phase the events brought about and, while that is pending, the checkpoint 1 and one more for each tick since the phase began, modulo 2^32 |
| Supervisor.CheckPointsRise | sensor/cmd/service.go:87-118 | as long as 32 bits hold it, that is 1 and one more for each tick, and no checkpoint of a pending phase is below the one before it |
| Supervisor.StopIsRemembered | sensor/cmd/service.go:119-140 | a stop request is remembered exactly if a stop or shutdown was handled |
| Supervisor.RestartOnlyUnstopped | sensor/cmd/service.go:128-148 | the exit code asks for a restart if and only if the sensor did and no stop was handled |
| Supervisor.FirstStopIsSent | sensor/cmd/service.go:119-135 | what is sent to the sensor is the first stop or shutdown handled, by its own reason |
| DiscoveryBuffer.Sensor.HandleDiscovery | sensor/cmd/main.go:1170-1186 | an accepted discovery goes last in the buffer and the ledger of everything ever accepted still balances, with at most 1000 in the buffer |
| DiscoveryBuffer.Sensor.AppendFlushed | sensor/cmd/main.go:1892 | the uncapped append keeps the ledger balanced and drops nothing |
| DiscoveryBuffer.Sensor.ProcessDiscoveries | sensor/cmd/main.go:1196-1256 | hands over retries before new ones; what fails goes behind the retries and only the oldest beyond 1000 are dropped; without a sensor id nothing moves; the buffer then holds at most 1000 exactly if it did or there is a sensor id or test mode |
| DiscoveryBuffer.OverfullStays | sensor/cmd/main.go:1196-1226 | a flush of more than 1000 is all still in the buffer after `processDiscoveries` without a sensor id |
| DiscoveryBuffer.CutBalances | sensor/cmd/main.go:1176-1181 | dropping a stretch of the queues keeps the account: accepted is delivered, dropped and held, each once, in acceptance order |
| DiscoveryBuffer.RequeuedBalances | sensor/cmd/main.go:1238-1241 | moving the buffer behind the retries loses and reorders nothing |
| DiscoveryBuffer.RetryCappedBalances | sensor/cmd/main.go:1242-1247 | capping the retries drops the oldest only and keeps the account |
| YamlMerge.MergeMapping | device-agent/cmd/main.go:1159-1183 | the two nested loops edit the content into the specified merge; what that does to every key at every depth is said by `MergesAtEveryDepth` |
| YamlMerge.MergeGets | device-agent/cmd/main.go:1159-1183 | at the top, every key the settings do not have is as it was, and every other one as the merge of its two values; of what that is, see `MergesAtEveryDepth` |
| YamlPaths.MergesAtEveryDepth | device-agent/cmd/main.go:1159-1183 | at the end of any path of keys along which both sides hold mappings, a key the settings do not have keeps its node; of two mappings the old node stays, comments and all, and is merged into; otherwise kind, value and content are those of the settings and the comments those of the document; key nodes keep their places and new ones follow in order |
| YamlPaths.MergedUnder | device-agent/cmd/main.go:1159-1183 | along such a path the document ends up holding the merge of what both sides hold there |
| YamlPaths.OthersStay | device-agent/cmd/main.go:1159-1183 | pair by pair, whatever the document repeats: only the first pair with a key of the settings is touched |
| YamlMerge.MergeKeepsPlaces | device-agent/cmd/main.go:1159-1183 | key nodes keep their places and comments; new keys follow in the order of the source |
| YamlMerge.MergeTwice | device-agent/cmd/main.go:1159-1183 | merging the same settings again changes nothing, whatever the document |
| YamlMerge.SelfMerge | device-agent/cmd/main.go:1159-1183 | well-formed content merged into itself is itself |
| YamlMerge.RemoveFirst | device-agent/cmd/main.go:1130-1137 | the removal loop takes out the first pair with the key |
| YamlMerge.RemoveTakesOne | device-agent/cmd/main.go:1130-1137 | of the keys of any document it takes out one occurrence of this one and nothing else |
| YamlMerge.SaveConfig | device-agent/cmd/main.go:1094-1101 | merges and then removes every managed key that is not desired |
| YamlMerge.ManagedKeysSaved | device-agent/cmd/main.go:1094-1101 | a managed key is in the saved file if and only if it is desired or the document held it twice |
| YamlMerge.SecondStays | device-agent/cmd/main.go:1130-1137 | a document that holds a key twice, none of it desired, is saved with the second of the two |
| YamlPaths.SavedKeys | device-agent/cmd/main.go:1094-1137 | in the saved file every key that is desired or not managed has become what the merge makes of it; removals touch no other key |
| SecurityBlock.UpsertSecurityConfigBlock | sensor/cmd/main.go:975-1044 | the editor on the array of lines computes the specified file |
| SecurityBlock.RewriteLines | sensor/cmd/main.go:1017-1028 | rewrites in place the lines of managed keys and notes which were met |
| SecurityBlock.LastWriteWins | sensor/cmd/main.go:975-1044 | for one set of keys writing p1 and then p2 is writing p2; a second write of the same changes nothing |
| SecurityBlock.OutsideIsKept | sensor/cmd/main.go:975-1044 | no line outside the block moves or changes, nor one in it that is for no managed key; a block is added only where there was none |
| SecurityBlock.BlockSaysEntries | sensor/cmd/main.go:1017-1044 | each managed key has a line in the written block and every line for it says the new value |
| SecurityBlock.EntriesAreProper | sensor/cmd/main.go:992-1003 | the entries the sensor writes can be told apart, and two writes share their keys exactly if both or neither have a secret path |
| SecurityBlock.SensorSays | sensor/cmd/main.go:992-1043 | in the written block each of the five paths and flags stands behind its own literal key, on every line for it |
| SecurityBlock.BlocksAre | sensor/cmd/main.go:976-990 | a block begins at an unindented `security:` and ends before the next line that is neither indented nor blank |
| SecurityBlock.NewBlockHasHeading | sensor/cmd/main.go:1005-1015 | a file without a block gets a blank line, a comment, `security:` and the entries at its end |
| SecurityBlock.UnmanagedStay | sensor/cmd/main.go:1017-1028 | a line that, trimmed, begins with no managed key and a colon stays; any other is rewritten for the first key it begins with |
| WhiteSpace.LettersStay | sensor/cmd/main.go:979 | trimming a line leaves an accented letter at its end whole, though its last byte alone would read as a space |
| SecretPath.DroppedExactlyWhen | sensor/cmd/main.go:992-1044 | writing with a secret path and then without one is writing the last exactly if the block had an `agentSecretPath` line and every such line already read what the first write says |
| SecretPath.AddedExactlyWhen | sensor/cmd/main.go:992-1044 | writing without a secret path and then with one is writing the last exactly if the block had a line for `agentSecretPath` or for `useTLS`; else these two stand the other way round |
| SecretPath.SecretLeftBehind | sensor/cmd/main.go:992-1044 | in any file without a block, a secret path that has gone leaves its line, before the last one, and nothing else |
| SecretPath.SensorEntries | sensor/cmd/main.go:992-1003 | the entries the sensor writes with and without a secret path are such a pair, whatever the paths |
| AgentSecrets.OpenAny | shared/agentcreds/secret.go:132-152 | opens exactly if some candidate, or with none the key of the job alone, opens it; an unsealed payload is reported as such |
| AgentSecrets.EveryRunKeeps | shared/agentcreds/secret.go:71-93 | over every run the state holds the latest secret and, while it counts, the one before it with the end of its window |
| AgentSecrets.RotationInstalls | shared/agentcreds/secret.go:71-82 | a rotation installs secret and version and keeps what was used before, if that was something else, for 24 hours |
| AgentSecrets.EnvelopesOpen | shared/agentcreds/secret.go:71-152 | in every run of rotations and prunings, what was sealed since the latest rotation opens, and what was sealed since the one before it opens until the window ends |
| AgentSecrets.OpensExactlyWhen | shared/agentcreds/secret.go:71-152 | if no secret is issued twice, nothing else opens |
| AgentSecrets.PruningIsInvisible | shared/agentcreds/secret.go:86-115 | over all runs: two runs that differ only in where they prune hold the same candidates from their end on; in particular deleting every pruning changes none |
| AgentSecrets.PruningIsTold | shared/agentcreds/secret.go:84-93 | the flag says exactly whether pruning changed the state |
| AgentSecrets.CandidatesAreFew | shared/agentcreds/secret.go:103-115 | in every run at most two candidates are tried, the latest secret first, never one twice and never an empty one |
| AgentSecrets.KeysAreExact | shared/agentcreds/agentcreds.go:76-93 | for one job equal keys mean equal secrets, the empty one included |
| AgentSecrets.JobsAreApart | shared/agentcreds/agentcreds.go:76-93 | jobs whose keys hold no NUL byte never share a derived key |
| PlanJobs.PlanJobState.Start | sensor/cmd/plan_job.go:65-74 | takes the step of the model: a remembered cancel is used up and nothing starts, else the job is registered |
| PlanJobs.PlanJobState.Finish | sensor/cmd/plan_job.go:76-82 | clears the running job exactly if it is this one |
| PlanJobs.PlanJobState.Cancel | sensor/cmd/plan_job.go:86-104 | ends the context of exactly the running job named, or remembers the job, forgetting some other only when 64 are remembered |
| PlanJobs.EveryRunKeeps | sensor/cmd/plan_job.go:48-104 | in every interleaving the running job is not also remembered as cancelled, and at most 64 are remembered |
| PlanJobs.RememberedExactly | sensor/cmd/plan_job.go:84-104 | the remembered set is exactly the jobs a cancel came for while they did not run, since when they had no turn and were not pushed out |
| PlanJobs.DroppedExactlyWhen | sensor/cmd/plan_job.go:63-74 | when its turn comes a job is dropped if and only if such a cancel is pending, and else it runs with a context nobody has ended |
| PlanJobs.CancelRemembers | sensor/cmd/plan_job.go:93-104 | a cancel for a job that does not run is remembered beside all others, and from 64 on in place of exactly one of them; for one that runs nothing is remembered |
| PlanJobs.StoppedExactlyWhen | sensor/cmd/plan_job.go:84-92 | the context of a run is ended by a cancel if and only if one named the job while it ran |
| ClassTree.BuildIndex | shared/assetclass/classes_gen.go:707-713 | the loop builds the lookup table |
| ClassTree.IndexIsExact | shared/assetclass/classes_gen.go:707-721 | with unique keys the lookup finds exactly the classes of the table |
| ClassTree.AncestryIsExact | shared/assetclass/classes_gen.go:723-743 | for any two strings the dotted-prefix test holds if and only if following parents from the one comes to the other |
| ClassTree.OneRootEach | shared/assetclass/classes_gen.go:757-766 | every class lies below exactly one root |
| ClassTree.Children | shared/assetclass/classes_gen.go:745-755 | the loop lists the children in registry order |
| ClassTree.Roots | shared/assetclass/classes_gen.go:757-766 | the loop lists the roots in registry order |
| ClassTree.ListedInOrder | shared/assetclass/classes_gen.go:745-766 | children and roots come in the order of the table |
| ClassTree.ChildrenAreExact | shared/assetclass/classes_gen.go:745-755 | the children of a key are exactly the classes with that parent, and of the empty key none |
| ClassTree.DescendantsAreBelowChildren | shared/assetclass/classes_gen.go:723-755 | a class lies strictly below another exactly if it is, or lies below, one of its children |
| Restart.RoundedUp | shared/agentconfig/restart.go:47-90 | the seconds on the wire are never fewer than the age nor a whole second more, and zero exactly if nobody asked or the request lies ahead of the clock |
| Restart.RestartCoordinator.OnRequest | device-agent/cmd/restart.go:42-56 | the process is told to stop on the first request older than it, once |
| Restart.EveryRunKeeps | shared/agentconfig/restart.go:14-40 | in every run, with any clock offsets, there are no more restarts than requests |
| Restart.AskedInBetween | shared/agentconfig/restart.go:14-40 | between two restarts somebody asked: one request never restarts a device twice |
| Restart.StopsExactlyWhen | shared/agentconfig/restart.go:70-108 | a later heartbeat stops the process if and only if it had run, when the request was made, longer than what rounding up adds to the age |
| Restart.OldEnoughAlwaysStops | shared/agentconfig/restart.go:92-108 | so never a process started at or after the request, and always one started a second or more before it |
| Restart.ClocksCancel | shared/agentconfig/restart.go:16-40 | constant clock offsets make no difference to which step stops which process |

## Left out

- SHA-256 and AES-GCM are ideal: a digest or key is the text it is derived from, and an envelope opens under exactly the key it was sealed with. JSON, YAML and X.509 libraries are not modelled.
- Text is a sequence of bytes, one `char` each; in comparisons of rules case folding is that of ASCII letters. White space is that of ASCII and, where lines and names are trimmed, the longer white-space characters in their UTF-8 bytes.
- `redact.IsSecretName` is a parameter everywhere, so what is shown holds for any list of secret names; the list itself is not modelled.
- A nil map inside a grounding value is taken as an empty one. How a `[]string` prints is a parameter, and how a scalar prints is part of the value.
- `AiBoundary`: a boundary without a sink or provider, and what the tenant controls are read from, are not modelled; time stamps are left out of records.
- `PortList` gives problems as values, and how `Settings.Validate` words an issue is a parameter.
- `Settings` holds over any well-formed registry; the registry's contents, the JSON forms of values and `NeedsConfirmation` are not modelled.
- `AtomicFile` keeps temporary files in a name space of their own, and a rename or removal is one atomic step; directories and `Write` for a single file are not modelled. A process that dies midway is covered by what holds at every step.
- `Cadence`: the lock and the wake channel are atomic steps with one waiter; integer overflow of durations is not modelled.
- `HostInventory`: a loop is told to stop and taken as stopped; that it ends in time is up to the loop.
- `Supervisor`: the two goroutines and the ticker are a sequence of events in any order; the sensor's own life cycle is not modelled.
- `Restart`: clock offsets are constant and a heartbeat is answered at once; what a device makes of the seconds on the wire is taken as their product with one second. A platform clock that steps is covered by `Restart.RoundedUp` only.
- `PlanJobs`: running a plan, reporting and acknowledging are not modelled; that there is one worker and job ids are never empty is taken from `sensor/cmd/discovery_job.go:98-104` and `shared/sensordispatch/dispatch.go:107-111`.
- `DiscoveryBuffer`: whether the platform kept part of a batch whose submission failed is not known to the sensor and not modelled; nor are the counters in the metrics.
- `AgentSecrets`: the secret file and the registration of a collector are not modelled; the collector and the platform share a clock.
- `YamlMerge` works on values: two places that share one node, styles, tags, anchors and quoting are not modelled.
- `SecurityBlock` and `SecretPath`: how a path is quoted is a parameter; reading the file and splitting it into lines are not modelled.
- `ApprovalRules`: terms over a column's remaining types, regular expressions and the reading of numbers, dates and prefix ids are parameters; queries that fail to evaluate, free text, sub-queries and traversals, which validation refuses for a discovery, are not modelled. Which prefix an address lies in, and how a discovery's source is named, are inputs.
- ApprovalRules.PrefixOf: a rule's own prefix is found by the spelling of the field (`shared/approval/rule_evaluator.go:168`) and its scope by the column the field stands for; the model has one column for both, so a rule that spells the column another way counts as the prefix's own here and does not there.
- `ClassTree` holds over any table whose paths are spelled from parents and dot-free unique keys; the generated table is not checked against that.
- Certificate rotation and its retries, probe consent across restarts, host reports, identity look-ups, log rotation, the log ring, autoscan policies, CA bundles and catalogue look-ups would add members of the kinds above without harder properties.
- User interfaces, database access, HTTP handlers and packet capture are not modelled.
