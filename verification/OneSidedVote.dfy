/** The one-sided vote (one_sided_vote/mod.rs): the listener of one party, and the
    protocol of n parties of which at most t are Byzantine. */
module OneSidedVote {

  /** What the listener receives: the two network messages and the two local
      requests. */
  datatype Message = OkMessage | VoteMessage | VoteRequest | OkRequest

  datatype Party = Party(okCount: nat, voteCount: nat, hasVoted: bool, done: bool, isOk: bool)

  /** What handling a message sends out. */
  datatype Effects = Effects(ok: bool, vote: bool, output: bool)

  const NOTHING := Effects(false, false, false)
  const START := Party(0, 0, false, false, false)

  /** One turn of the listening loop. */
  function Step(t: nat, p: Party, m: Message): (Party, Effects) {
    if p.done then (p, NOTHING)
    else match m
      case OkMessage =>
        if p.hasVoted then (p, NOTHING)
        else if p.okCount + 1 == 2 * t + 1 then
          (p.(okCount := p.okCount + 1, hasVoted := true), NOTHING.(vote := true))
        else (p.(okCount := p.okCount + 1), NOTHING)
      case VoteMessage =>
        var votes := p.voteCount + 1;
        var votesNow := !p.hasVoted && votes > t;
        var ends := votes >= 2 * t + 1;
        (p.(voteCount := votes, hasVoted := p.hasVoted || votesNow, done := ends), Effects(false, votesNow, ends))
      case VoteRequest =>
        if !p.hasVoted && p.voteCount > t then (p.(hasVoted := true), NOTHING.(vote := true)) else (p, NOTHING)
      case OkRequest =>
        if p.isOk then (p, NOTHING) else (p.(isOk := true), NOTHING.(ok := true))
  }

  /** The variables of `one_sided_vote_listen`. */
  class Listener {
    const t: nat
    const enough: nat
    var okCount: nat
    var voteCount: nat
    var hasVoted: bool
    var done: bool
    var isOk: bool

    ghost predicate Valid() {
      enough == 2 * t + 1
    }

    ghost function State(): Party
      reads this
    {
      Party(okCount, voteCount, hasVoted, done, isOk)
    }

    constructor (t: nat)
      ensures Valid() && this.t == t && State() == START
    {
      this.t, this.enough := t, 2 * t + 1;
      okCount, voteCount, hasVoted, done, isOk := 0, 0, false, false, false;
    }

    /** The body of the loop for one message. */
    method Handle(m: Message) returns (e: Effects)
      requires Valid()
      modifies this
      ensures (State(), e) == Step(t, old(State()), m)
    {
      e := NOTHING;
      if done {
        return;
      }
      match m
      case OkMessage =>
        if hasVoted {
          return;
        }
        okCount := okCount + 1;
        if okCount == enough {
          e := e.(vote := true);
          hasVoted := true;
        }
      case VoteMessage =>
        voteCount := voteCount + 1;
        if !hasVoted && voteCount > t {
          e := e.(vote := true);
          hasVoted := true;
        }
        if voteCount >= enough {
          e := e.(output := true);
          done := true;
        }
      case VoteRequest =>
        if !hasVoted && voteCount > t {
          e := e.(vote := true);
          hasVoted := true;
        }
      case OkRequest =>
        if !isOk {
          e := e.(ok := true);
          isOk := true;
        }
    }
  }

  // ---- the protocol ----

  /** n parties; the lists say whose messages each party has handled and how often
      it has broadcast or output. */
  datatype System = System(n: nat, t: nat, byz: set<nat>, parties: seq<Party>, okFrom: seq<set<nat>>,
                           voteFrom: seq<set<nat>>, oksSent: seq<nat>, votesSent: seq<nat>, outputs: seq<nat>)

  datatype Event = DeliverOk(sender: nat, to: nat) | DeliverVote(sender: nat, to: nat) | AskOk(at: nat) | AskVote(at: nat)

  ghost predicate WellFormed(s: System) {
    && s.n >= 3 * s.t + 1 && |s.byz| <= s.t
    && |s.parties| == |s.okFrom| == |s.voteFrom| == |s.oksSent| == |s.votesSent| == |s.outputs| == s.n
  }

  ghost predicate Honest(s: System, i: nat) {
    i < s.n && i !in s.byz
  }

  ghost predicate Initial(s: System) {
    && WellFormed(s)
    && forall i :: 0 <= i < s.n ==>
      && s.parties[i] == START && s.okFrom[i] == {} && s.voteFrom[i] == {}
      && s.oksSent[i] == 0 && s.votesSent[i] == 0 && s.outputs[i] == 0
  }

  function Target(e: Event): nat {
    match e
    case DeliverOk(_, to) => to
    case DeliverVote(_, to) => to
    case AskOk(at) => at
    case AskVote(at) => at
  }

  function MessageOf(e: Event): Message {
    match e
    case DeliverOk(_, _) => OkMessage
    case DeliverVote(_, _) => VoteMessage
    case AskOk(_) => OkRequest
    case AskVote(_) => VoteRequest
  }

  /** The recipient is honest, no sender delivers the same kind twice to it, and an
      honest sender delivers only what it has broadcast. */
  ghost predicate Enabled(s: System, e: Event)
    requires WellFormed(s)
  {
    && Honest(s, Target(e))
    && match e
       case DeliverOk(p, to) => p < s.n && p !in s.okFrom[to] && (Honest(s, p) ==> s.oksSent[p] > 0)
       case DeliverVote(p, to) => p < s.n && p !in s.voteFrom[to] && (Honest(s, p) ==> s.votesSent[p] > 0)
       case _ => true
  }

  function Count(b: bool): nat {
    if b then 1 else 0
  }

  ghost function Apply(s: System, e: Event): System
    requires WellFormed(s) && Target(e) < s.n
  {
    var i := Target(e);
    var (p, effects) := Step(s.t, s.parties[i], MessageOf(e));
    s.(parties := s.parties[i := p],
       okFrom := if e.DeliverOk? then s.okFrom[i := s.okFrom[i] + {e.sender}] else s.okFrom,
       voteFrom := if e.DeliverVote? then s.voteFrom[i := s.voteFrom[i] + {e.sender}] else s.voteFrom,
       oksSent := s.oksSent[i := s.oksSent[i] + Count(effects.ok)],
       votesSent := s.votesSent[i := s.votesSent[i] + Count(effects.vote)],
       outputs := s.outputs[i := s.outputs[i] + Count(effects.output)])
  }

  /** A run: consecutive states are linked by enabled events. */
  ghost predicate Run(states: seq<System>, events: seq<Event>) {
    && |states| == |events| + 1 && Initial(states[0])
    && forall k :: 0 <= k < |events| ==>
      WellFormed(states[k]) && Enabled(states[k], events[k]) && states[k + 1] == Apply(states[k], events[k])
  }

  // ---- sets of parties ----

  lemma {:induction false} SubsetSize<T>(a: set<T>, b: set<T>)
    requires a <= b
    ensures |a| <= |b|
  {
    assert b == a + (b - a);
  }

  ghost function Below(n: nat): (r: set<nat>)
    ensures |r| == n && forall i: nat :: i in r <==> i < n
  {
    if n == 0 then {} else Below(n - 1) + {n - 1}
  }

  ghost function HonestParties(s: System): set<nat> {
    set i: nat | i < s.n && i !in s.byz :: i
  }

  /** The honest parties that have broadcast Ok. */
  ghost function OkParties(s: System): set<nat>
    requires WellFormed(s)
  {
    set i: nat | i < s.n && i !in s.byz && s.oksSent[i] > 0 :: i
  }

  /** All but t of the senders are honest. */
  lemma HonestPart(s: System, senders: set<nat>)
    requires WellFormed(s) && forall p :: p in senders ==> p < s.n
    ensures |senders * HonestParties(s)| >= |senders| - s.t
  {
    var h, b := senders * HonestParties(s), senders - HonestParties(s);
    assert senders == h + b;
    SubsetSize(b, s.byz);
  }

  lemma ManyHonest(s: System)
    requires WellFormed(s)
    ensures |HonestParties(s)| >= 2 * s.t + 1
  {
    HonestPart(s, Below(s.n));
    assert Below(s.n) * HonestParties(s) == HonestParties(s);
  }

  // ---- what every step keeps ----

  /** The counters of a party against the messages it has handled. */
  ghost predicate PartyInvariant(s: System, i: nat)
    requires WellFormed(s) && i < s.n
  {
    var p := s.parties[i];
    && p.okCount <= |s.okFrom[i]| && (!p.hasVoted && !p.done ==> p.okCount == |s.okFrom[i]|)
    && p.voteCount <= |s.voteFrom[i]| && (!p.done ==> p.voteCount == |s.voteFrom[i]|)
    && (!p.hasVoted ==> p.okCount <= 2 * s.t && p.voteCount <= s.t)
    && (p.done <==> p.voteCount >= 2 * s.t + 1)
    && s.oksSent[i] == Count(p.isOk) && s.votesSent[i] == Count(p.hasVoted) && s.outputs[i] == Count(p.done)
  }

  /** The handled messages come from parties, and those of honest parties were sent. */
  ghost predicate SenderInvariant(s: System, i: nat)
    requires WellFormed(s) && i < s.n
  {
    && (forall p :: p in s.okFrom[i] ==> p < s.n && (Honest(s, p) ==> s.oksSent[p] > 0))
    && forall p :: p in s.voteFrom[i] ==> p < s.n && (Honest(s, p) ==> s.votesSent[p] > 0)
  }

  /** A vote is backed by t+1 honest Oks. */
  ghost predicate VoteInvariant(s: System, i: nat)
    requires WellFormed(s) && i < s.n
  {
    s.votesSent[i] > 0 ==> |OkParties(s)| >= s.t + 1
  }

  ghost predicate Invariant(s: System) {
    && WellFormed(s)
    && forall i: nat :: Honest(s, i) ==> PartyInvariant(s, i) && SenderInvariant(s, i) && VoteInvariant(s, i)
  }

  lemma InitialInvariant(s: System)
    requires Initial(s)
    ensures Invariant(s)
  {}

  lemma OksGrow(s: System, e: Event)
    requires WellFormed(s) && Enabled(s, e)
    ensures |OkParties(s)| <= |OkParties(Apply(s, e))|
  {
    SubsetSize(OkParties(s), OkParties(Apply(s, e)));
  }

  lemma CountersStep(s: System, e: Event)
    requires WellFormed(s) && Enabled(s, e) && PartyInvariant(s, Target(e))
    ensures PartyInvariant(Apply(s, e), Target(e))
  {}

  lemma SendersStep(s: System, e: Event, i: nat)
    requires WellFormed(s) && Enabled(s, e) && Honest(s, i) && SenderInvariant(s, i)
    ensures SenderInvariant(Apply(s, e), i)
  {
    hide Step;
  }

  lemma PartyStep(s: System, e: Event, i: nat)
    requires Invariant(s) && Enabled(s, e) && Honest(s, i)
    ensures PartyInvariant(Apply(s, e), i) && SenderInvariant(Apply(s, e), i)
  {
    assert PartyInvariant(s, i) && SenderInvariant(s, i);
    SendersStep(s, e, i);
    if i == Target(e) {
      CountersStep(s, e);
    }
    hide Step, SenderInvariant;
  }

  lemma VoteStep(s: System, e: Event, i: nat)
    requires Invariant(s) && Enabled(s, e) && Honest(s, i)
    ensures VoteInvariant(Apply(s, e), i)
  {
    var s' := Apply(s, e);
    OksGrow(s, e);
    assert VoteInvariant(s, i) && PartyInvariant(s, i) && SenderInvariant(s, i);
    if s.votesSent[i] == 0 && s'.votesSent[i] > 0 {
      PartyStep(s, e, i);
      FirstVote(s, e, i);
    }
  }

  /** The step in which a party first votes. */
  lemma FirstVote(s: System, e: Event, i: nat)
    requires Invariant(s) && Enabled(s, e) && Honest(s, i) && s.votesSent[i] == 0 && Apply(s, e).votesSent[i] > 0
    ensures |OkParties(Apply(s, e))| >= s.t + 1
  {
    var s' := Apply(s, e);
    assert PartyInvariant(s, i) && Target(e) == i;
    PartyStep(s, e, i);
    OksGrow(s, e);
    forall j: nat | Honest(s, j) ensures SenderInvariant(s', j) { PartyStep(s, e, j); }
    if e.DeliverOk? {
      HonestPart(s', s'.okFrom[i]);
      SubsetSize(s'.okFrom[i] * HonestParties(s'), OkParties(s'));
    } else {
      HonestPart(s, s'.voteFrom[i]);
      var p :| p in s'.voteFrom[i] * HonestParties(s);
      assert Honest(s, p) && VoteInvariant(s, p) && SenderInvariant(s, i);
    }
  }

  lemma InvariantStep(s: System, e: Event)
    requires Invariant(s) && Enabled(s, e)
    ensures Invariant(Apply(s, e))
  {
    var s' := Apply(s, e);
    forall i: nat | Honest(s', i) ensures PartyInvariant(s', i) && SenderInvariant(s', i) && VoteInvariant(s', i) {
      assert Honest(s, i);
      PartyStep(s, e, i);
      VoteStep(s, e, i);
    }
  }

  lemma {:induction false} RunInvariant(states: seq<System>, events: seq<Event>, k: nat)
    requires Run(states, events) && k < |states|
    ensures Invariant(states[k])
  {
    if k == 0 {
      InitialInvariant(states[0]);
    } else {
      RunInvariant(states, events, k - 1);
      InvariantStep(states[k - 1], events[k - 1]);
    }
  }

  /** Safety, in every state of every run: whoever has voted or output is preceded by
      t+1 honest Oks; each honest party votes and outputs at most once; more than t
      handled votes imply a vote. */
  lemma Safety(states: seq<System>, events: seq<Event>, k: nat, i: nat)
    requires Run(states, events) && k < |states| && |states[k].parties| == states[k].n && Honest(states[k], i)
    ensures WellFormed(states[k])
    ensures states[k].votesSent[i] > 0 || states[k].outputs[i] > 0 ==> |OkParties(states[k])| >= states[k].t + 1
    ensures states[k].votesSent[i] <= 1 && states[k].outputs[i] <= 1 && states[k].oksSent[i] <= 1
    ensures states[k].parties[i].voteCount > states[k].t ==> states[k].parties[i].hasVoted
  {
    RunInvariant(states, events, k);
    assert PartyInvariant(states[k], i) && VoteInvariant(states[k], i);
  }

  // ---- totality ----

  /** Every broadcast vote of an honest party has been handled by every honest party. */
  ghost predicate VotesDelivered(s: System)
    requires WellFormed(s)
  {
    forall p: nat, q: nat :: Honest(s, p) && Honest(s, q) && s.votesSent[p] > 0 ==> p in s.voteFrom[q]
  }

  ghost predicate OksDelivered(s: System)
    requires WellFormed(s)
  {
    forall p: nat, q: nat :: Honest(s, p) && Honest(s, q) && s.oksSent[p] > 0 ==> p in s.okFrom[q]
  }

  lemma OutputMeansVoted(s: System, i: nat)
    requires Invariant(s) && Honest(s, i) && s.outputs[i] > 0
    ensures s.votesSent[i] == 1 && |s.voteFrom[i]| >= 2 * s.t + 1
  {
    assert PartyInvariant(s, i);
  }

  /** When t+1 honest votes are out and delivered, every honest party has voted. */
  lemma AllVote(s: System, voters: set<nat>, q: nat)
    requires Invariant(s) && VotesDelivered(s) && Honest(s, q) && |voters| >= s.t + 1
    requires forall p :: p in voters ==> Honest(s, p) && s.votesSent[p] > 0
    ensures s.votesSent[q] == 1
  {
    assert PartyInvariant(s, q);
    SubsetSize(voters, s.voteFrom[q]);
  }

  /** When all honest parties have voted and the votes are delivered, all output. */
  lemma AllOutput(s: System, q: nat)
    requires Invariant(s) && VotesDelivered(s) && Honest(s, q)
    requires forall p: nat :: Honest(s, p) ==> s.votesSent[p] > 0
    ensures s.outputs[q] == 1
  {
    assert PartyInvariant(s, q);
    ManyHonest(s);
    forall p | p in HonestParties(s) ensures p in s.voteFrom[q] { assert Honest(s, p); }
    SubsetSize(HonestParties(s), s.voteFrom[q]);
  }

  /** Totality: in every reachable state in which the honest votes are delivered, one
      honest output means that every honest party has output, exactly once. */
  lemma Totality(states: seq<System>, events: seq<Event>, k: nat, i: nat, q: nat)
    requires Run(states, events) && k < |states| && WellFormed(states[k]) && VotesDelivered(states[k])
    requires Honest(states[k], i) && states[k].outputs[i] > 0 && Honest(states[k], q)
    ensures states[k].outputs[q] == 1
  {
    var s := states[k];
    RunInvariant(states, events, k);
    OutputMeansVoted(s, i);
    HonestPart(s, s.voteFrom[i]);
    var voters := s.voteFrom[i] * HonestParties(s);
    assert SenderInvariant(s, i);
    forall p: nat | Honest(s, p) ensures s.votesSent[p] > 0 { AllVote(s, voters, p); }
    AllOutput(s, q);
  }

  /** Termination: when 2t+1 honest parties have broadcast Ok and all honest messages
      are delivered, every honest party has output. */
  lemma Termination(states: seq<System>, events: seq<Event>, k: nat, q: nat)
    requires Run(states, events) && k < |states| && WellFormed(states[k])
    requires VotesDelivered(states[k]) && OksDelivered(states[k])
    requires |OkParties(states[k])| >= 2 * states[k].t + 1 && Honest(states[k], q)
    ensures states[k].outputs[q] == 1
  {
    var s := states[k];
    RunInvariant(states, events, k);
    forall p: nat | Honest(s, p) ensures s.votesSent[p] > 0 {
      assert PartyInvariant(s, p);
      forall o | o in OkParties(s) ensures o in s.okFrom[p] { assert Honest(s, o); }
      SubsetSize(OkParties(s), s.okFrom[p]);
    }
    AllOutput(s, q);
  }

  // ---- requests ----

  /** Every party that is asked to broadcast Ok while it is listening does so, once and
      for good. */
  lemma {:induction false} AskedBroadcasts(states: seq<System>, events: seq<Event>, j: nat, i: nat, k: nat)
    requires Run(states, events) && j < k < |states| && events[j] == AskOk(i)
    requires WellFormed(states[j]) && i < states[j].n && !states[j].parties[i].done
    ensures WellFormed(states[k]) && i < states[k].n && states[k].oksSent[i] == 1
  {
    RunInvariant(states, events, k);
    RunInvariant(states, events, j);
    assert Honest(states[j], i) && PartyInvariant(states[j], i);
    if j + 1 == k {
      OkAnswered(states[j], i);
    } else {
      AskedBroadcasts(states, events, j, i, k - 1);
      RunInvariant(states, events, k - 1);
      OkStays(states[k - 1], events[k - 1], i);
    }
    hide Apply, Step, PartyInvariant;
  }

  lemma OkAnswered(s: System, i: nat)
    requires Invariant(s) && Enabled(s, AskOk(i)) && !s.parties[i].done
    ensures i < s.n && Apply(s, AskOk(i)).oksSent[i] == 1
  {
    assert PartyInvariant(s, i);
  }

  lemma OkStays(s: System, e: Event, i: nat)
    requires Invariant(s) && Enabled(s, e) && i < s.n && s.oksSent[i] == 1
    ensures Apply(s, e).oksSent[i] == 1
  {
    if i == Target(e) {
      assert PartyInvariant(s, i);
      CountersStep(s, e);
    }
  }

  /** A party broadcasts Ok only when it has been asked to. */
  lemma {:induction false} BroadcastWasAsked(states: seq<System>, events: seq<Event>, i: nat, k: nat)
    requires Run(states, events) && k < |states| && WellFormed(states[k]) && i < states[k].n && states[k].oksSent[i] > 0
    ensures exists j :: 0 <= j < k && events[j] == AskOk(i)
  {
    if k > 0 {
      var s := states[k - 1];
      RunInvariant(states, events, k - 1);
      if s.oksSent[i] > 0 {
        BroadcastWasAsked(states, events, i, k - 1);
      } else {
        assert events[k - 1] == AskOk(i);
      }
    }
  }

  /** Party i was asked to broadcast Ok before state k, while it was listening. */
  ghost predicate Asked(states: seq<System>, events: seq<Event>, k: nat, i: nat)
    requires |states| == |events| + 1 && k < |states|
  {
    exists j :: 0 <= j < k && events[j] == AskOk(i) && i < |states[j].parties| && !states[j].parties[i].done
  }

  /** Liveness from the requests: when 2t+1 honest parties were asked to broadcast Ok
      while they were listening and all honest messages are delivered, every honest
      party has output. */
  lemma RequestsTerminate(states: seq<System>, events: seq<Event>, k: nat, asked: set<nat>, q: nat)
    requires Run(states, events) && k < |states| && WellFormed(states[k])
    requires VotesDelivered(states[k]) && OksDelivered(states[k]) && Honest(states[k], q)
    requires |asked| >= 2 * states[k].t + 1
    requires forall i :: i in asked ==> Honest(states[k], i) && Asked(states, events, k, i)
    ensures states[k].outputs[q] == 1
  {
    forall i | i in asked ensures i in OkParties(states[k]) {
      var j :| 0 <= j < k && events[j] == AskOk(i) && i < |states[j].parties| && !states[j].parties[i].done;
      RunInvariant(states, events, j);
      AskedBroadcasts(states, events, j, i, k);
    }
    SubsetSize(asked, OkParties(states[k]));
    Termination(states, events, k, q);
  }

  /** A request to vote never has work left: whoever has handled more than t votes has
      voted already. */
  lemma VoteRequestIsIdle(states: seq<System>, events: seq<Event>, k: nat)
    requires Run(states, events) && k < |events| && events[k].AskVote?
    ensures states[k + 1] == states[k]
  {
    var s, i := states[k], Target(events[k]);
    RunInvariant(states, events, k);
    assert PartyInvariant(s, i);
    assert s.parties[i := s.parties[i]] == s.parties;
  }
}
