/** Where the expiry and the key of a stored session come from, under any interleaving. */
module InterleavingHistory {
  import opened Wrappers
  import opened Sessions
  import opened StoreSpec
  import opened Jwt
  import opened Protocol
  import opened Effects
  import opened Interleaving
  import InterleavingLaws
  import RunLaws
  import Runs

  // ---------------------------------------------------------------- expiry

  /** The session expires the configured time after a clock reading, or never. */
  predicate ExpiresAfter(cfg: Config, s: Session, end: int) {
    if cfg.sessionTtl > 0 then s.hasExpires && s.expiresAt == end + cfg.sessionTtl else !s.hasExpires
  }

  lemma TtlSets(cfg: Config, s: Session, end: nat)
    ensures ExpiresAfter(cfg, WithTtl(s, cfg.sessionTtl, end), end)
  {
  }

  lemma PlanExpires(cfg: Config, m: Store, step: Step)
    requires Plan(cfg, m, step).Some? && Plan(cfg, m, step).value.Updates?
    ensures ExpiresAfter(cfg, Plan(cfg, m, step).value.next, step.env.end)
    ensures Plan(cfg, m, step).value.step == step
  {
    hide RegisterDecision, RefreshDecision, CopySucceeds, Fetched;
  }

  /** The clock reading of the last login, register or refresh of a session that finished. */
  function LastFinished(cfg: Config, ms: Moves, id: string): Option<int> {
    if |ms| == 0 then None
    else
      var s, mv := ServerOf(cfg, Before(ms)), Last(ms);
      FinishedNow(cfg, s, mv, id, LastFinished(cfg, Before(ms), id))
  }

  function FinishedNow(cfg: Config, s: Server, mv: Move, id: string, before: Option<int>): Option<int> {
    var now := KindNow(cfg, s, mv, id);
    if now != [] && now[0] != Closed && StepOf(s, mv).Some? then Some(StepOf(s, mv).value.env.end) else before
  }

  ghost predicate ExpiryInv(cfg: Config, s: Server, last: string -> Option<int>) {
    && (forall k :: k in s.store ==> last(k).Some? && ExpiresAfter(cfg, s.store[k], last(k).value))
    && (forall h :: h in s.pending && s.pending[h].Updates? ==> ExpiresAfter(cfg, s.pending[h].next, s.pending[h].step.env.end))
  }

  lemma StoredExpiry(cfg: Config, s: Server, mv: Move, last: string -> Option<int>, k: string)
    requires Proper(cfg, s) && ExpiryInv(cfg, s, last) && k in Next(cfg, s, mv).0.store
    ensures var l := FinishedNow(cfg, s, mv, k, last(k)); l.Some? && ExpiresAfter(cfg, Next(cfg, s, mv).0.store[k], l.value)
  {
    hide Next, LoginHeader, Runs.Jti, Keyed;
    NextEffect(cfg, s, mv, k);
    if mv.Begin? && mv.step.DoInitiate? {
      TtlSets(cfg, NewSession(cfg, mv.step.user, mv.step.env), mv.step.env.end);
    }
  }

  lemma PendingExpiry(cfg: Config, s: Server, mv: Move, last: string -> Option<int>, h: nat)
    requires Proper(cfg, s) && ExpiryInv(cfg, s, last)
    requires h in Next(cfg, s, mv).0.pending && Next(cfg, s, mv).0.pending[h].Updates?
    ensures var t := Next(cfg, s, mv).0.pending[h]; ExpiresAfter(cfg, t.next, t.step.env.end)
  {
    hide Plan, Apply, Resume, ExpiresAfter;
    if mv.Begin? && mv.h == h && h !in s.pending {
      PlanExpires(cfg, s.store, mv.step);
    }
  }

  lemma {:induction false} ExpiryAlways(cfg: Config, ms: Moves)
    ensures Proper(cfg, ServerOf(cfg, ms)) && ExpiryInv(cfg, ServerOf(cfg, ms), k => LastFinished(cfg, ms, k))
  {
    if |ms| > 0 {
      var s, mv := ServerOf(cfg, Before(ms)), Last(ms);
      var s' := Next(cfg, s, mv).0;
      ExpiryAlways(cfg, Before(ms));
      hide Next, Proper, FinishedNow, ExpiresAfter;
      NextEffect(cfg, s, mv, "");
      forall k | k in s'.store
        ensures var l := FinishedNow(cfg, s, mv, k, LastFinished(cfg, Before(ms), k)); l.Some? && ExpiresAfter(cfg, s'.store[k], l.value) {
        StoredExpiry(cfg, s, mv, k => LastFinished(cfg, Before(ms), k), k);
      }
      forall h | h in s'.pending && s'.pending[h].Updates? ensures ExpiresAfter(cfg, s'.pending[h].next, s'.pending[h].step.env.end) {
        PendingExpiry(cfg, s, mv, k => LastFinished(cfg, Before(ms), k), h);
      }
    }
  }

  /**
   Under any interleaving a stored session expires the configured time after the clock
   reading of the last handler that finished on it, however long before it had been read.
   */
  lemma InterleavedExpiry(cfg: Config, ms: Moves, id: string)
    requires id in ServerOf(cfg, ms).store
    ensures LastFinished(cfg, ms, id).Some?
    ensures ExpiresAfter(cfg, ServerOf(cfg, ms).store[id], LastFinished(cfg, ms, id).value)
  {
    ExpiryAlways(cfg, ms);
  }

  // ---------------------------------------------------------------- provenance

  /** A login that succeeded: the session and its first challenge. */
  datatype Issue = Issue(id: string, challenge: string)

  /** A register that finished: the session, the token, its proof, and what could be duplicated. */
  datatype Binding = Binding(id: string, token: string, proof: Proof, dup: StringAlloc)

  function IssueNow(cfg: Config, s: Server, mv: Move): set<Issue> {
    if mv.Begin? && mv.step.DoInitiate? && mv.step.env.newId.Some? && mv.step.env.challenge.Some?
       && KindNow(cfg, s, mv, mv.step.env.newId.value) == [Login]
    then {Issue(mv.step.env.newId.value, mv.step.env.challenge.value)} else {}
  }

  function BindingNow(cfg: Config, s: Server, mv: Move): set<Binding> {
    var w := InterleavingLaws.Writer(s, mv);
    if w.Some? && w.value.step.DoRegister? && w.value.copy.id.Some? && w.value.step.header.Some?
       && RegistrationProof(cfg.foreign, w.value.step.header.value).Some?
       && KindNow(cfg, s, mv, w.value.copy.id.value) == [Registered]
    then {Binding(w.value.copy.id.value, w.value.step.header.value,
                  RegistrationProof(cfg.foreign, w.value.step.header.value).value, w.value.step.env.dup)}
    else {}
  }

  function Issues(cfg: Config, ms: Moves): set<Issue> {
    if |ms| == 0 then {} else Issues(cfg, Before(ms)) + IssueNow(cfg, ServerOf(cfg, Before(ms)), Last(ms))
  }

  function Bindings(cfg: Config, ms: Moves): set<Binding> {
    if |ms| == 0 then {} else Bindings(cfg, Before(ms)) + BindingNow(cfg, ServerOf(cfg, Before(ms)), Last(ms))
  }

  /** The token's proof verified, carried a challenge issued for the session, and any configured authorization. */
  predicate Rightful(cfg: Config, b: Binding, issues: set<Issue>) {
    && RegistrationProof(cfg.foreign, b.token) == Some(b.proof)
    && (cfg.authorization.Some? ==> b.proof.authorization == cfg.authorization)
    && Issue(b.id, b.proof.challenge) in issues
  }

  ghost predicate Origin(k: string, s: Session, issues: set<Issue>, bindings: set<Binding>) {
    match s.state
    case Active =>
      s.publicKey.None? && s.algorithm.None? && (s.challenge.Some? ==> Issue(k, s.challenge.value) in issues)
    case Bound =>
      exists b :: b in bindings && b.id == k && RunLaws.Recorded(b.proof, b.dup, s)
  }

  /** What a waiting handler is going to write, from what it had read. */
  predicate Prepared(cfg: Config, t: Thread) {
    t.Updates? ==>
      if t.kind == Registered then
        && t.copy.state == Active && t.next.state == Bound && t.step.DoRegister? && t.step.header.Some?
        && RegistrationProof(cfg.foreign, t.step.header.value).Some?
        && var p := RegistrationProof(cfg.foreign, t.step.header.value).value;
           && t.copy.challenge == Some(p.challenge)
           && (cfg.authorization.Some? ==> p.authorization == cfg.authorization)
           && t.next.publicKey == Overwritten(t.copy.publicKey, p.jwk, t.step.env.dup.publicKey)
           && t.next.algorithm == Overwritten(t.copy.algorithm, Some(p.algorithm), t.step.env.dup.algorithm)
      else
        && t.copy.state == Bound && t.next.state == Bound
        && t.next.publicKey == t.copy.publicKey && t.next.algorithm == t.copy.algorithm
  }

  lemma PlanPrepares(cfg: Config, m: Store, step: Step)
    requires Plan(cfg, m, step).Some?
    ensures Prepared(cfg, Plan(cfg, m, step).value)
  {
    hide RegistrationProof, RefreshProof, CopySucceeds, Fetched;
  }

  ghost predicate OriginInv(cfg: Config, s: Server, issues: set<Issue>, bindings: set<Binding>) {
    && (forall k :: k in s.store ==> Origin(k, s.store[k], issues, bindings))
    && (forall h :: h in s.pending ==>
          Prepared(cfg, s.pending[h])
          && (s.pending[h].copy.id.Some? ==> Origin(s.pending[h].copy.id.value, s.pending[h].copy, issues, bindings)))
    && (forall b :: b in bindings ==> Rightful(cfg, b, issues))
  }

  lemma OriginLater(k: string, s: Session, issues: set<Issue>, bindings: set<Binding>, issues': set<Issue>, bindings': set<Binding>)
    requires Origin(k, s, issues, bindings) && issues <= issues' && bindings <= bindings'
    ensures Origin(k, s, issues', bindings')
  {
  }

  lemma SameOrigin(k: string, s: Session, t: Session, issues: set<Issue>, bindings: set<Binding>)
    requires Origin(k, s, issues, bindings) && s.state == Bound == t.state
    requires t.publicKey == s.publicKey && t.algorithm == s.algorithm
    ensures Origin(k, t, issues, bindings)
  {
  }

  /** What the finish of an update writes is accounted for, and so is the binding it records. */
  lemma WrittenOrigin(cfg: Config, s: Server, mv: Move, issues: set<Issue>, bindings: set<Binding>, k: string)
    requires Proper(cfg, s) && OriginInv(cfg, s, issues, bindings)
    requires Written(s, Next(cfg, s, mv).0, mv, Next(cfg, s, mv).1, k)
    ensures Origin(k, Next(cfg, s, mv).0.store[k], issues, bindings + BindingNow(cfg, s, mv))
    ensures forall b :: b in BindingNow(cfg, s, mv) ==> Rightful(cfg, b, issues)
  {
    hide Next, RegistrationProof, Runs.Jti;
    var t := s.pending[mv.h];
    if t.kind == Registered {
      var b := Binding(k, t.step.header.value, RegistrationProof(cfg.foreign, t.step.header.value).value, t.step.env.dup);
      assert b in BindingNow(cfg, s, mv);
      assert RunLaws.Recorded(b.proof, b.dup, t.next);
    } else {
      SameOrigin(k, t.copy, t.next, issues, bindings);
      OriginLater(k, t.next, issues, bindings, issues, bindings + BindingNow(cfg, s, mv));
    }
  }

  lemma CreatedOrigin(cfg: Config, s: Server, mv: Move, issues: set<Issue>, bindings: set<Binding>, k: string)
    requires Created(cfg, s, Next(cfg, s, mv).0, mv, Next(cfg, s, mv).1, k)
    ensures Origin(k, Next(cfg, s, mv).0.store[k], issues + IssueNow(cfg, s, mv), bindings)
  {
    hide Next, LoginHeader;
    assert Issue(k, mv.step.env.challenge.value) in IssueNow(cfg, s, mv);
  }

  lemma NoBinding(cfg: Config, s: Server, mv: Move, k: string)
    requires Proper(cfg, s)
    ensures mv.Begin? ==> BindingNow(cfg, s, mv) == {}
    ensures forall b :: b in BindingNow(cfg, s, mv) ==> Written(s, Next(cfg, s, mv).0, mv, Next(cfg, s, mv).1, b.id)
  {
    hide Next, RegistrationProof, Runs.Jti;
    forall b | b in BindingNow(cfg, s, mv) ensures Written(s, Next(cfg, s, mv).0, mv, Next(cfg, s, mv).1, b.id) {
      InterleavingLaws.EventWriter(cfg, s, mv, b.id);
    }
  }

  lemma StoredOrigin(cfg: Config, s: Server, mv: Move, issues: set<Issue>, bindings: set<Binding>, k: string)
    requires Proper(cfg, s) && OriginInv(cfg, s, issues, bindings) && k in Next(cfg, s, mv).0.store
    ensures Origin(k, Next(cfg, s, mv).0.store[k], issues + IssueNow(cfg, s, mv), bindings + BindingNow(cfg, s, mv))
  {
    var s', issues', bindings' := Next(cfg, s, mv).0, issues + IssueNow(cfg, s, mv), bindings + BindingNow(cfg, s, mv);
    NextEffect(cfg, s, mv, k);
    hide Next, Origin, Created, Written, IssueNow, BindingNow, Sound, Prepared;
    if Created(cfg, s, s', mv, Next(cfg, s, mv).1, k) {
      CreatedOrigin(cfg, s, mv, issues, bindings, k);
      OriginLater(k, s'.store[k], issues', bindings, issues', bindings');
    } else if Written(s, s', mv, Next(cfg, s, mv).1, k) {
      WrittenOrigin(cfg, s, mv, issues, bindings, k);
      OriginLater(k, s'.store[k], issues, bindings', issues', bindings');
    } else {
      OriginLater(k, s.store[k], issues, bindings, issues', bindings');
    }
  }

  lemma PendingOrigin(cfg: Config, s: Server, mv: Move, issues: set<Issue>, bindings: set<Binding>, h: nat)
    requires Proper(cfg, s) && OriginInv(cfg, s, issues, bindings) && h in Next(cfg, s, mv).0.pending
    ensures var t := Next(cfg, s, mv).0.pending[h];
            && Prepared(cfg, t)
            && (t.copy.id.Some? ==>
                  Origin(t.copy.id.value, t.copy, issues + IssueNow(cfg, s, mv), bindings + BindingNow(cfg, s, mv)))
  {
    var t := Next(cfg, s, mv).0.pending[h];
    PendingAfter(cfg, s, mv, h);
    if !(h in s.pending && t == s.pending[h]) {
      PreparedNow(cfg, s, mv, h);
    }
    hide Next, Origin, IssueNow, BindingNow, Sound, Prepared;
    if t.copy.id.Some? {
      OriginLater(t.copy.id.value, t.copy, issues, bindings, issues + IssueNow(cfg, s, mv), bindings + BindingNow(cfg, s, mv));
    }
  }

  lemma PreparedNow(cfg: Config, s: Server, mv: Move, h: nat)
    requires h in Next(cfg, s, mv).0.pending && !(h in s.pending && Next(cfg, s, mv).0.pending[h] == s.pending[h])
    ensures Prepared(cfg, Next(cfg, s, mv).0.pending[h])
  {
    hide Plan, Apply, Resume, Prepared;
    PlanPrepares(cfg, s.store, mv.step);
  }

  lemma OriginStep(cfg: Config, s: Server, mv: Move, issues: set<Issue>, bindings: set<Binding>)
    requires Proper(cfg, s) && OriginInv(cfg, s, issues, bindings)
    ensures OriginInv(cfg, Next(cfg, s, mv).0, issues + IssueNow(cfg, s, mv), bindings + BindingNow(cfg, s, mv))
  {
    var s', issues', bindings' := Next(cfg, s, mv).0, issues + IssueNow(cfg, s, mv), bindings + BindingNow(cfg, s, mv);
    NoBinding(cfg, s, mv, "");
    forall b | b in bindings' ensures Rightful(cfg, b, issues') {
      if b in BindingNow(cfg, s, mv) {
        WrittenOrigin(cfg, s, mv, issues, bindings, b.id);
      }
    }
    hide Next, Proper, Origin, IssueNow, BindingNow, Prepared, Rightful;
    forall k | k in s'.store ensures Origin(k, s'.store[k], issues', bindings') {
      StoredOrigin(cfg, s, mv, issues, bindings, k);
    }
    forall h | h in s'.pending ensures Prepared(cfg, s'.pending[h])
        && (s'.pending[h].copy.id.Some? ==> Origin(s'.pending[h].copy.id.value, s'.pending[h].copy, issues', bindings')) {
      PendingOrigin(cfg, s, mv, issues, bindings, h);
    }
  }

  lemma {:induction false} OriginAlways(cfg: Config, ms: Moves)
    ensures Proper(cfg, ServerOf(cfg, ms)) && OriginInv(cfg, ServerOf(cfg, ms), Issues(cfg, ms), Bindings(cfg, ms))
  {
    if |ms| > 0 {
      var s, mv := ServerOf(cfg, Before(ms)), Last(ms);
      OriginAlways(cfg, Before(ms));
      hide Next, Proper, OriginInv, IssueNow, BindingNow;
      NextEffect(cfg, s, mv, "");
      OriginStep(cfg, s, mv, Issues(cfg, Before(ms)), Bindings(cfg, Before(ms)));
    }
  }

  /**
   Under any interleaving a bound session has, as far as they could be duplicated, the key
   and algorithm of one register that finished on it, whose proof verified, carried a
   challenge issued for it at login and any configured authorization, and was unsigned and
   keyless or signed by the key it carried.
   */
  lemma InterleavedProvenance(cfg: Config, ms: Moves, id: string)
    requires id in ServerOf(cfg, ms).store && ServerOf(cfg, ms).store[id].state == Bound
    ensures exists b: Binding :: b in Bindings(cfg, ms) && b.id == id && Rightful(cfg, b, Issues(cfg, ms))
              && RunLaws.Recorded(b.proof, b.dup, ServerOf(cfg, ms).store[id])
              && b.proof.typ == Some("dbsc+jwt") && RunLaws.Vouched(cfg.foreign, b.token, b.proof)
  {
    OriginAlways(cfg, ms);
    hide ServerOf, Bindings, Issues, RunLaws.Recorded, RegistrationProof;
    var s := ServerOf(cfg, ms).store[id];
    var b :| b in Bindings(cfg, ms) && b.id == id && RunLaws.Recorded(b.proof, b.dup, s);
    assert Rightful(cfg, b, Issues(cfg, ms));
    RegistrationProofIff(cfg.foreign, b.token, b.proof);
  }
}
