/** The client side of a write: issuing its version and counting the replies. Each operation is
proved to have the effect of its step of the protocol (`Issue`, `DeliverReply`, `Return`,
`Abandon`) on this client's part of the state.
*/
module ClientWrites {
  import opened Common
  import opened Versions
  import opened Store
  import opened Handlers
  import opened Protocol
  import opened Freshness
  import opened Durability

  // ----- one client's part of the protocol state

  /** The writes of client `c` that wait for replies. */
  function Own(s: State, c: ClientId): map<StoreKey, set<PeerId>> {
    OwnOf(s.pending, c)
  }

  function OwnOf(pending: map<StoreKey, set<PeerId>>, c: ClientId): map<StoreKey, set<PeerId>> {
    map k | k in pending && k.version.clientId == c :: pending[k]
  }

  lemma OwnElsewhere(pending: map<StoreKey, set<PeerId>>, c: ClientId, k: StoreKey, repliers: set<PeerId>)
    requires k.version.clientId != c
    ensures OwnOf(pending[k := repliers], c) == OwnOf(pending, c) == OwnOf(pending - {k}, c)
  {
  }

  /** The client that takes the step or receives its message. */
  function ActorOf(step: Step): Option<ClientId> {
    match step
    case Issue(c, _, _, _, _) => Some(c)
    case DeliverReply(reply) => Some(reply.id.version.clientId)
    case Return(id, _) => Some(id.version.clientId)
    case Abandon(id) => Some(id.version.clientId)
    case _ => None
  }

  lemma QuietSteps(cfg: Config, s: State, step: Step)
    requires cfg.garbageAt > 0 && ActorOf(step).None?
    ensures After(cfg, s, step).clocks == s.clocks && After(cfg, s, step).pending == s.pending
  {
  }

  /** All other steps leave a client's clock and reply table alone. */
  lemma OthersLeaveAlone(cfg: Config, s: State, step: Step, c: ClientId)
    requires cfg.garbageAt > 0 && ActorOf(step) != Some(c)
    ensures ClockOf(After(cfg, s, step), c) == ClockOf(s, c) && Own(After(cfg, s, step), c) == Own(s, c)
  {
    if ActorOf(step).None? {
      QuietSteps(cfg, s, step);
    } else if Enabled(cfg, s, step) {
      match step
      case Issue(d, key, base, body, _) => OwnElsewhere(s.pending, c, NewRequest(s, d, key, base, body).Id(), {});
      case DeliverReply(r) => OwnElsewhere(s.pending, c, r.id, s.pending[r.id] + {r.from});
      case Return(id, _) => OwnElsewhere(s.pending, c, id, {});
      case Abandon(id) => OwnElsewhere(s.pending, c, id, {});
    }
  }

  lemma IssueRegisters(cfg: Config, s: State, c: ClientId, key: string, base: Version, body: Body, targets: set<PeerId>)
    requires cfg.garbageAt > 0 && Enabled(cfg, s, Issue(c, key, base, body, targets))
    ensures var s', req := After(cfg, s, Issue(c, key, base, body, targets)), NewRequest(s, c, key, base, body);
            ClockOf(s', c) == ClockOf(s, c) + 1 && Own(s', c) == Own(s, c)[req.Id() := {}] && req in s'.issued
  {
  }

  lemma ReplyIsCounted(cfg: Config, s: State, r: Reply)
    requires cfg.garbageAt > 0 && r in s.replies
    ensures var own := Own(s, r.id.version.clientId);
            Own(After(cfg, s, DeliverReply(r)), r.id.version.clientId) ==
            if r.id in own then own[r.id := own[r.id] + {r.from}] else own
  {
  }

  lemma ReturnForgets(cfg: Config, s: State, id: StoreKey, waitFor: nat)
    requires cfg.garbageAt > 0
    ensures var c := id.version.clientId;
            var s' := After(cfg, s, Return(id, waitFor));
            if id in Own(s, c) && |Own(s, c)[id]| >= waitFor
            then Own(s', c) == Own(s, c) - {id} && id in s'.acked && s'.acked[id] == Ack(waitFor, Own(s, c)[id])
            else s' == s
  {
  }

  lemma AbandonForgets(cfg: Config, s: State, id: StoreKey)
    requires cfg.garbageAt > 0
    ensures Own(After(cfg, s, Abandon(id)), id.version.clientId) == Own(s, id.version.clientId) - {id}
    ensures After(cfg, s, Abandon(id)).clocks == s.clocks
  {
  }

  /** The state after giving up several writes. */
  ghost function Abandoned(cfg: Config, s: State, ids: seq<StoreKey>): State
    requires cfg.garbageAt > 0
  {
    if ids == [] then s else After(cfg, Abandoned(cfg, s, ids[..|ids| - 1]), Abandon(ids[|ids| - 1]))
  }

  lemma AwaitedAreVouched(cfg: Config, s: State, k: StoreKey)
    requires Safe(cfg, s) && k in Own(s, k.version.clientId)
    ensures forall p :: p in Own(s, k.version.clientId)[k] ==>
              cfg.mine(p, k.key) && (Covered(s, p, k) || Refused(s, p, k))
  {
    forall p | p in Own(s, k.version.clientId)[k] ensures Vouched(cfg, s, p, k) {
    }
  }

  lemma OneMoreStep(cfg: Config, run: seq<Step>, step: Step)
    requires cfg.garbageAt > 0
    ensures Reached(cfg, run + [step]) == After(cfg, Reached(cfg, run), step)
  {
    assert (run + [step])[..|run|] == run;
  }

  lemma KnownRespectsClock(cfg: Config, run: seq<Step>, c: ClientId, base: Version)
    requires cfg.garbageAt > 0 && (base.vv == map[] || base in Reached(cfg, run).known)
    ensures c in base.vv ==> base.vv[c] <= ClockOf(Reached(cfg, run), c)
  {
    FreshnessOverRuns(cfg, run);
    assert base.vv == map[] || Bounded(base.vv, Reached(cfg, run).clocks);
  }

  /** The request writes the body under the key. */
  predicate Carries(req: Request, key: string, body: Body) {
    && req.key == key
    && match (body, req)
       case (WholeValue(payload), PutRequest(_, _, p)) => p == payload
       case (OneChild(child, isCreate, isDir), ChildRequest(_, _, c, create, dir)) =>
         c == child && create == isCreate && dir == isDir
       case _ => false
  }

  // ----- the client

  class Client {
    const id: ClientId
    const clock: Clock
    var putReplies: map<StoreKey, set<PeerId>>

    constructor (id: ClientId)
      ensures this.id == id && fresh(clock) && clock.clock == 0 && putReplies == map[]
    {
      this.id := id;
      this.putReplies := map[];
      var c := new Clock();
      this.clock := c;
    }

    /** The clock and the reply table are this client's part of the protocol state. */
    ghost predicate Matches(s: State)
      reads this, clock
    {
      clock.clock == ClockOf(s, id) && putReplies == Own(s, id)
    }

    /** The version of the next write: strictly above its base whenever the base respects this
        client's clock, and stamped with this client's id. */
    method NewVersion(base: Version) returns (v: Version)
      modifies clock
      ensures clock.clock == old(clock.clock) + 1
      ensures v == Issued(id, clock.clock, base)
      ensures (id in base.vv ==> base.vv[id] <= old(clock.clock)) ==> Compare(v, base) == Bigger
    {
      var now := clock.IncrementAndGet();
      v := AddVv(id, now, base);
      v := v.(clientId := id);
      if id in base.vv ==> base.vv[id] < now { IssuedIsFresh(id, now, base, base.vv); }
    }

    /** `register_put`; false stands for the exception. */
    method RegisterPut(k: StoreKey) returns (ok: bool)
      modifies this`putReplies
      ensures ok <==> k !in old(putReplies)
      ensures putReplies == if ok then old(putReplies)[k := {}] else old(putReplies)
    {
      if k in putReplies { return false; }
      putReplies := putReplies[k := {}];
      ok := true;
    }

    /** The start of `put` and `put_child`, in any run and from any base this client may have read:
        the `Issue` step. The registration never fails. */
    method StartPut(key: string, base: Version, body: Body, ghost cfg: Config, ghost run: seq<Step>,
                    ghost targets: set<PeerId>) returns (req: Request)
      requires cfg.garbageAt > 0 && Matches(Reached(cfg, run))
      requires base.vv == map[] || base in Reached(cfg, run).known
      modifies this`putReplies, clock
      ensures req == NewRequest(Reached(cfg, run), id, key, base, body) && Compare(req.version, base) == Bigger
      ensures Carries(req, key, body) && req.version.clientId == id
      ensures req in Reached(cfg, run + [Issue(id, key, base, body, targets)]).issued
      ensures Matches(Reached(cfg, run + [Issue(id, key, base, body, targets)]))
    {
      RegistrationNeverCollides(cfg, run, id, key, base, body);
      KnownRespectsClock(cfg, run, id, base);
      OneMoreStep(cfg, run, Issue(id, key, base, body, targets));
      req := IssueAndRegister(key, base, body, cfg, Reached(cfg, run), targets);
    }

    method IssueAndRegister(key: string, base: Version, body: Body, ghost cfg: Config, ghost s: State,
                            ghost targets: set<PeerId>) returns (req: Request)
      requires cfg.garbageAt > 0 && Matches(s) && Enabled(cfg, s, Issue(id, key, base, body, targets))
      requires id in base.vv ==> base.vv[id] <= ClockOf(s, id)
      modifies this`putReplies, clock
      ensures req == NewRequest(s, id, key, base, body) && Compare(req.version, base) == Bigger
      ensures req in After(cfg, s, Issue(id, key, base, body, targets)).issued
      ensures Matches(After(cfg, s, Issue(id, key, base, body, targets)))
    {
      IssueRegisters(cfg, s, id, key, base, body, targets);
      var v := NewVersion(base);
      req := MakeRequest(key, v, body);
      var ok := RegisterPut(req.Id());
      assert ok;
    }

    /** `process_put_reply_msg`, for a reply in the network: the `DeliverReply` step. Replies to
        writes that are no longer waited for change nothing, and a peer counts once. */
    method ProcessPutReply(k: StoreKey, from: PeerId, ghost cfg: Config, ghost s: State)
      requires cfg.garbageAt > 0 && Matches(s) && Reply(k, from) in s.replies && k.version.clientId == id
      modifies this`putReplies
      ensures Matches(After(cfg, s, DeliverReply(Reply(k, from))))
      ensures k in old(putReplies) ==> k in putReplies && from in putReplies[k]
    {
      ReplyIsCounted(cfg, s, Reply(k, from));
      if k in putReplies {
        putReplies := putReplies[k := putReplies[k] + {from}];
      }
    }

    /** `wait_for_put` once it wakes up: the `Return` step if enough distinct peers have replied,
        and otherwise nothing. On success every counted peer has the write, or refused it and was
        asked again. */
    method CompletePut(k: StoreKey, waitFor: nat, ghost cfg: Config, ghost run: seq<Step>) returns (succeed: bool)
      requires cfg.garbageAt > 0 && Matches(Reached(cfg, run)) && k.version.clientId == id
      modifies this`putReplies
      ensures succeed <==> Enabled(cfg, Reached(cfg, run), Return(k, waitFor))
      ensures Matches(Reached(cfg, run + [Return(k, waitFor)]))
      ensures succeed ==> var s' := Reached(cfg, run + [Return(k, waitFor)]);
                          k in s'.acked && s'.acked[k].waitFor == waitFor <= |s'.acked[k].repliers|
      ensures succeed ==> forall p :: p in old(putReplies)[k] ==>
                cfg.mine(p, k.key) && (Covered(Reached(cfg, run), p, k) || Refused(Reached(cfg, run), p, k))
      ensures succeed && NeverResent(run, k) ==> forall p :: p in old(putReplies)[k] ==> Covered(Reached(cfg, run), p, k)
    {
      ghost var s := Reached(cfg, run);
      SafetyOverRuns(cfg, run);
      ReturnForgets(cfg, s, k, waitFor);
      OneMoreStep(cfg, run, Return(k, waitFor));
      if k in putReplies { AwaitedAreVouched(cfg, s, k); }
      if NeverResent(run, k) { FirstTryOverRuns(cfg, run, k); }
      succeed := k in putReplies && |putReplies[k]| >= waitFor;
      if succeed {
        putReplies := putReplies - {k};
      }
    }

    /** Forget one write: the `Abandon` step. */
    method ClearPutEntry(k: StoreKey, ghost cfg: Config, ghost s: State)
      requires cfg.garbageAt > 0 && Matches(s) && k.version.clientId == id
      modifies this`putReplies
      ensures Matches(After(cfg, s, Abandon(k))) && putReplies == old(putReplies) - {k}
    {
      AbandonForgets(cfg, s, k);
      putReplies := putReplies - {k};
    }

    /** `clear_put_keys_entries`: the `Abandon` steps of the given writes. */
    method ClearPutEntries(keys: seq<StoreKey>, ghost cfg: Config, ghost s: State)
      requires cfg.garbageAt > 0 && Matches(s) && forall k :: k in keys ==> k.version.clientId == id
      modifies this`putReplies
      ensures Matches(Abandoned(cfg, s, keys))
      ensures putReplies == old(putReplies) - set k | k in keys
    {
      for i := 0 to |keys|
        invariant Matches(Abandoned(cfg, s, keys[..i]))
        invariant putReplies == old(putReplies) - set k | k in keys[..i]
      {
        assert keys[..i + 1] == keys[..i] + [keys[i]] && keys[i] in keys;
        assert Abandoned(cfg, s, keys[..i + 1]) == After(cfg, Abandoned(cfg, s, keys[..i]), Abandon(keys[i]));
        ClearPutEntry(keys[i], cfg, Abandoned(cfg, s, keys[..i]));
      }
      assert keys[..|keys|] == keys;
    }
  }
}
