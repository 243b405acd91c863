/**
 The secrets a collector opens credential envelopes with, across rotations. The
 cipher is ideal: an envelope opens under exactly the key it was sealed with, and
 a derived key is the text it is derived from.
 */
module AgentSecrets {
  const WINDOW := 86_400_000_000_000

  /** `previousUntil` is 0 for the zero time. */
  datatype SecretState = SecretState(secret: string, version: int, previous: string, previousUntil: int)

  const NO_SECRET := SecretState("", 0, "", 0)

  function Rotate(s: SecretState, newSecret: string, newVersion: int, registrationKey: string, now: int): SecretState {
    var prev := if s.secret == "" then registrationKey else s.secret;
    if prev != "" && prev != newSecret then SecretState(newSecret, newVersion, prev, now + WINDOW)
    else SecretState(newSecret, newVersion, "", 0)
  }

  function Prune(s: SecretState, now: int): (SecretState, bool) {
    if s.previous == "" || now < s.previousUntil then (s, false)
    else (s.(previous := "", previousUntil := 0), true)
  }

  function Candidates(s: SecretState, registrationKey: string, now: int): seq<string> {
    if s.secret == "" then if registrationKey == "" then [] else [registrationKey]
    else [s.secret] + (if s.previous != "" && now < s.previousUntil then [s.previous] else [])
  }

  // ---------- envelopes ----------

  /** What SHA-256 is taken of to get the key. */
  function DeriveKey(jobKey: string, secret: string): string {
    if secret == "" then jobKey else jobKey + "\0" + secret
  }

  /** An unsealed payload, or one sealed under a key. */
  datatype Payload = Unsealed | Sealed(key: string, credentials: string)

  datatype Opened = NotSealed | WrongKey | Credentials(credentials: string)

  function Seal(credentials: string, jobKey: string, secret: string): Payload {
    Sealed(DeriveKey(jobKey, secret), credentials)
  }

  function Open(p: Payload, jobKey: string, secret: string): Opened {
    match p
    case Unsealed => NotSealed
    case Sealed(key, credentials) => if key == DeriveKey(jobKey, secret) then Credentials(credentials) else WrongKey
  }

  /** For one job the key says which secret it was derived from. */
  lemma KeysAreExact(jobKey: string, secret: string, secret': string)
    ensures DeriveKey(jobKey, secret) == DeriveKey(jobKey, secret') <==> secret == secret'
  {
    assert secret != "" ==> DeriveKey(jobKey, secret)[|jobKey| + 1..] == secret;
    assert secret' != "" ==> DeriveKey(jobKey, secret')[|jobKey| + 1..] == secret';
  }

  /** Keys of different jobs differ, job keys holding no NUL. */
  lemma JobsAreApart(jobKey: string, jobKey': string, secret: string, secret': string)
    requires '\0' !in jobKey && '\0' !in jobKey' && jobKey != jobKey'
    ensures DeriveKey(jobKey, secret) != DeriveKey(jobKey', secret')
  {
    var k, k' := DeriveKey(jobKey, secret), DeriveKey(jobKey', secret');
    assert k[..|jobKey|] == jobKey && k'[..|jobKey'|] == jobKey';
    assert |jobKey| < |jobKey'| ==> k'[|jobKey|] != '\0';
    assert |jobKey'| < |jobKey| ==> k[|jobKey'|] != '\0';
  }

  /** Does any of these secrets open the payload? With none at all, the key made of
      the job key alone is tried. */
  ghost predicate CanOpen(p: Payload, jobKey: string, secrets: seq<string>) {
    if secrets == [] then Open(p, jobKey, "").Credentials?
    else exists i :: 0 <= i < |secrets| && Open(p, jobKey, secrets[i]).Credentials?
  }

  method OpenAny(p: Payload, jobKey: string, secrets: seq<string>) returns (result: Opened)
    ensures result.Credentials? <==> CanOpen(p, jobKey, secrets)
    ensures result.Credentials? ==> p.Sealed? && result.credentials == p.credentials
    ensures result.NotSealed? <==> p.Unsealed?
  {
    if p.Unsealed? {
      return NotSealed;
    }
    if |secrets| == 0 {
      return Open(p, jobKey, "");
    }
    result := WrongKey;
    for i := 0 to |secrets|
      invariant result == WrongKey && forall j :: 0 <= j < i ==> Open(p, jobKey, secrets[j]) == WrongKey
    {
      var attempt := Open(p, jobKey, secrets[i]);
      if attempt.Credentials? {
        return attempt;
      }
      result := attempt;
    }
  }

  /** Does a collector open, at some moment, what was sealed for one of its jobs? */
  ghost predicate Opens(s: SecretState, registrationKey: string, now: int, jobKey: string, sealed: Payload) {
    CanOpen(sealed, jobKey, Candidates(s, registrationKey, now))
  }

  lemma CanOpenExactly(jobKey: string, secrets: seq<string>, sealedUnder: string, credentials: string)
    ensures CanOpen(Seal(credentials, jobKey, sealedUnder), jobKey, secrets) <==>
              if secrets == [] then sealedUnder == "" else sealedUnder in secrets
  {
    hide DeriveKey;
    KeysAreExact(jobKey, sealedUnder, "");
    forall i | 0 <= i < |secrets|
      ensures Open(Seal(credentials, jobKey, sealedUnder), jobKey, secrets[i]).Credentials? <==> sealedUnder == secrets[i]
    {
      KeysAreExact(jobKey, sealedUnder, secrets[i]);
    }
  }

  // ---------- every run of rotations and prunings ----------

  datatype Rotation = Rotation(secret: string, at: int)

  /** The collector and what the platform has issued to it so far. */
  datatype System = System(now: int, registrationKey: string, issued: seq<Rotation>, state: SecretState)

  datatype Step = Tick(elapsed: nat) | Rotated(secret: string, version: int) | Pruned

  predicate Enabled(step: Step) { step.Rotated? ==> step.secret != "" }

  function Next(sys: System, step: Step): System {
    match step
    case Tick(dt) => sys.(now := sys.now + dt)
    case Rotated(secret, version) =>
      sys.(issued := sys.issued + [Rotation(secret, sys.now)],
           state := Rotate(sys.state, secret, version, sys.registrationKey, sys.now))
    case Pruned => sys.(state := Prune(sys.state, sys.now).0)
  }

  function After(now: int, registrationKey: string, steps: seq<Step>): System {
    if steps == [] then System(now, registrationKey, [], NO_SECRET)
    else Next(After(now, registrationKey, steps[..|steps| - 1]), steps[|steps| - 1])
  }

  ghost predicate IsRun(steps: seq<Step>) { forall i :: 0 <= i < |steps| ==> Enabled(steps[i]) }

  /** What the platform seals under after some number of rotations. */
  function SealedUnder(sys: System, epoch: nat): string
    requires epoch <= |sys.issued|
  {
    if epoch == 0 then sys.registrationKey else sys.issued[epoch - 1].secret
  }

  /** Is the previous secret's window still open? */
  predicate InWindow(sys: System)
    requires sys.issued != []
  {
    sys.now < sys.issued[|sys.issued| - 1].at + WINDOW
  }

  ghost predicate Invariant(sys: System) {
    var n := |sys.issued|;
    && (forall i :: 0 <= i < n ==> sys.issued[i].secret != "" && sys.issued[i].at <= sys.now)
    && if n == 0 then sys.state == NO_SECRET
       else
         var prev := SealedUnder(sys, n - 1);
         && sys.state.secret == SealedUnder(sys, n)
         && (sys.state.previous != "" ==>
               sys.state.previous == prev && prev != sys.state.secret
               && sys.state.previousUntil == sys.issued[n - 1].at + WINDOW)
         && (sys.state.previous == "" ==> prev == "" || prev == sys.state.secret || !InWindow(sys))
  }

  lemma {:induction false} EveryRunKeeps(now: int, registrationKey: string, steps: seq<Step>)
    requires IsRun(steps)
    ensures Invariant(After(now, registrationKey, steps))
  {
    hide Invariant, Next;
    if steps == [] {
      StartKeeps(now, registrationKey);
    } else {
      EveryRunKeeps(now, registrationKey, steps[..|steps| - 1]);
      StepKeeps(After(now, registrationKey, steps[..|steps| - 1]), steps[|steps| - 1]);
    }
  }

  lemma StartKeeps(now: int, registrationKey: string)
    ensures Invariant(System(now, registrationKey, [], NO_SECRET))
  {
  }

  lemma StepKeeps(sys: System, step: Step)
    requires Invariant(sys) && Enabled(step)
    ensures Invariant(Next(sys, step))
  {
    var next := Next(sys, step);
    assert forall i :: 0 <= i < |sys.issued| ==> next.issued[i] == sys.issued[i];
  }

  /** In every run, what was sealed since the latest rotation opens, and what was
      sealed since the one before it opens until the window ends. */
  lemma EnvelopesOpen(now: int, registrationKey: string, steps: seq<Step>, jobKey: string, epoch: nat,
                      credentials: string)
    requires IsRun(steps)
    requires var sys := After(now, registrationKey, steps);
             epoch <= |sys.issued| <= epoch + 1
             && (epoch < |sys.issued| ==> InWindow(sys) && SealedUnder(sys, epoch) != "")
    ensures var sys := After(now, registrationKey, steps);
            Opens(sys.state, registrationKey, sys.now, jobKey, Seal(credentials, jobKey, SealedUnder(sys, epoch)))
  {
    EveryRunKeeps(now, registrationKey, steps);
    KeyStays(now, registrationKey, steps);
    hide After, CanOpen, Seal, Invariant;
    var sys := After(now, registrationKey, steps);
    LastTwoAreTried(sys, epoch);
    hide Candidates, SealedUnder, InWindow;
    CanOpenExactly(jobKey, Candidates(sys.state, registrationKey, sys.now), SealedUnder(sys, epoch), credentials);
  }

  lemma LastTwoAreTried(sys: System, epoch: nat)
    requires Invariant(sys) && epoch <= |sys.issued| <= epoch + 1
    requires epoch < |sys.issued| ==> InWindow(sys) && SealedUnder(sys, epoch) != ""
    ensures var c := Candidates(sys.state, sys.registrationKey, sys.now);
            if c == [] then SealedUnder(sys, epoch) == "" else SealedUnder(sys, epoch) in c
  {
    var c := Candidates(sys.state, sys.registrationKey, sys.now);
    assert c != [] ==> c[0] == SealedUnder(sys, |sys.issued|);
    assert |c| == 2 ==> c[1] == SealedUnder(sys, |sys.issued| - 1);
  }

  lemma {:induction false} KeyStays(now: int, registrationKey: string, steps: seq<Step>)
    ensures After(now, registrationKey, steps).registrationKey == registrationKey
  {
    if steps != [] { KeyStays(now, registrationKey, steps[..|steps| - 1]); }
  }

  /** No secret is issued twice, nor the registration key. */
  ghost predicate Distinct(sys: System) {
    forall i, j :: 0 <= i < j <= |sys.issued| ==> SealedUnder(sys, i) != SealedUnder(sys, j)
  }

  /** With secrets that never repeat, nothing else opens: exactly the envelopes of
      the latest two epochs, the older of them within its window and only if there
      was a secret then at all. */
  lemma OpensExactlyWhen(now: int, registrationKey: string, steps: seq<Step>, jobKey: string, epoch: nat,
                         credentials: string)
    requires IsRun(steps) && Distinct(After(now, registrationKey, steps))
    requires epoch <= |After(now, registrationKey, steps).issued|
    ensures var sys := After(now, registrationKey, steps);
            var n := |sys.issued|;
            Opens(sys.state, registrationKey, sys.now, jobKey, Seal(credentials, jobKey, SealedUnder(sys, epoch))) <==>
              || epoch == n
              || (epoch == n - 1 && sys.now - sys.issued[n - 1].at < 24 * 3600 * 1_000_000_000
                  && SealedUnder(sys, epoch) != "")
  {
    EveryRunKeeps(now, registrationKey, steps);
    KeyStays(now, registrationKey, steps);
    hide After, CanOpen, Seal;
    var sys := After(now, registrationKey, steps);
    CanOpenExactly(jobKey, Candidates(sys.state, registrationKey, sys.now), SealedUnder(sys, epoch), credentials);
    var n := |sys.issued|;
    if epoch < n {
      assert SealedUnder(sys, epoch) != SealedUnder(sys, n);
      if epoch < n - 1 { assert SealedUnder(sys, epoch) != SealedUnder(sys, n - 1); }
    }
  }

  // ---------- pruning ----------

  /** A run without its prunings. */
  function Unpruned(steps: seq<Step>): seq<Step> {
    if steps == [] then []
    else
      var last := steps[|steps| - 1];
      Unpruned(steps[..|steps| - 1]) + if last.Pruned? then [] else [last]
  }

  predicate Lapsed(s: SecretState, now: int) { s.previous == "" || s.previousUntil <= now }

  /** Alike but for a previous secret that counts no more. */
  predicate SameFrom(s: SecretState, t: SecretState, now: int) {
    && s.secret == t.secret && s.version == t.version
    && ((s.previous == t.previous && s.previousUntil == t.previousUntil) || (Lapsed(s, now) && Lapsed(t, now)))
  }

  ghost predicate SameSystem(sys: System, other: System) {
    && sys.now == other.now && sys.registrationKey == other.registrationKey && sys.issued == other.issued
    && SameFrom(sys.state, other.state, sys.now)
  }

  lemma SameAsItself(sys: System)
    ensures SameSystem(sys, sys)
  {
  }

  lemma StepKeepsSame(sys: System, other: System, step: Step)
    requires SameSystem(sys, other)
    ensures SameSystem(Next(sys, step), if step.Pruned? then other else Next(other, step))
  {
  }

  lemma AfterOneMore(now: int, registrationKey: string, steps: seq<Step>, step: Step)
    ensures After(now, registrationKey, steps + [step]) == Next(After(now, registrationKey, steps), step)
  {
    assert (steps + [step])[..|steps|] == steps;
  }

  lemma {:induction false} PrunedIsSame(now: int, registrationKey: string, steps: seq<Step>)
    ensures SameSystem(After(now, registrationKey, steps), After(now, registrationKey, Unpruned(steps)))
  {
    hide SameSystem, Next;
    if steps == [] {
      SameAsItself(After(now, registrationKey, []));
    } else {
      var before, last := steps[..|steps| - 1], steps[|steps| - 1];
      PrunedIsSame(now, registrationKey, before);
      StepKeepsSame(After(now, registrationKey, before), After(now, registrationKey, Unpruned(before)), last);
      if last.Pruned? {
        assert Unpruned(steps) == Unpruned(before);
      } else {
        AfterOneMore(now, registrationKey, Unpruned(before), last);
      }
    }
  }

  /** Pruning is never seen: two runs that differ only in where they prune hold, from
      their end on, the same candidates at every moment. */
  lemma PruningIsInvisible(now: int, registrationKey: string, steps: seq<Step>, steps': seq<Step>, at: int)
    requires Unpruned(steps) == Unpruned(steps') && After(now, registrationKey, steps).now <= at
    ensures After(now, registrationKey, steps').now == After(now, registrationKey, steps).now
    ensures Candidates(After(now, registrationKey, steps).state, registrationKey, at) ==
              Candidates(After(now, registrationKey, steps').state, registrationKey, at)
  {
    hide After, Unpruned;
    PrunedIsSame(now, registrationKey, steps);
    PrunedIsSame(now, registrationKey, steps');
  }

  /** The flag says exactly whether something was forgotten. */
  lemma PruningIsTold(s: SecretState, now: int)
    ensures Prune(s, now).1 <==> Prune(s, now).0 != s
  {
  }

  /** At most two secrets are tried, the latest first, and never the same one twice. */
  lemma {:induction false} CandidatesAreFew(now: int, registrationKey: string, steps: seq<Step>, at: int)
    requires IsRun(steps)
    ensures var c := Candidates(After(now, registrationKey, steps).state, registrationKey, at);
            |c| <= 2 && (|c| == 2 ==> c[0] != c[1]) && forall i :: 0 <= i < |c| ==> c[i] != ""
    ensures var sys := After(now, registrationKey, steps);
            var c := Candidates(sys.state, registrationKey, at);
            c != [] ==> c[0] == SealedUnder(sys, |sys.issued|)
  {
    EveryRunKeeps(now, registrationKey, steps);
    KeyStays(now, registrationKey, steps);
  }

  /** A rotation installs the secret with its version; what was used before, if anything
      other was, stays good for a day. */
  lemma RotationInstalls(s: SecretState, newSecret: string, newVersion: int, registrationKey: string, now: int)
    ensures var r := Rotate(s, newSecret, newVersion, registrationKey, now);
            var used := if s.secret != "" then s.secret else registrationKey;
            && r.secret == newSecret && r.version == newVersion
            && (used != "" && used != newSecret ==> r.previous == used && r.previousUntil == now + 24 * 3600 * 1_000_000_000)
            && (used == "" || used == newSecret ==> r.previous == "" && r.previousUntil == 0)
  {
  }
}
