/**
  MULTI, EXEC and DISCARD on one connection. The handler keeps a flag and a queue; the
  reference reads the whole history and says which commands took effect, in which atomic
  groups. `C` stands for commands, `S` for the database, `R` for replies.
 */
module Multi {
  import opened Codec

  /** How a command runs: on its own, from the queue, or as a script. EXEC knows fewer commands, and some differ. */
  datatype Mode = Alone | InExec | AsScript

  /** A command's effect, its reply, and whether the reply is an error. */
  type Runner<!C, !S, !R> = (Mode, C, S) -> (S, R, bool)

  // ----- running commands together -----

  /** Commands one after the other, up to the first error reply. */
  function RunAll<C, S, R>(run: Runner<C, S, R>, mode: Mode, cmds: seq<C>, db: S): (S, seq<R>, bool)
    decreases |cmds|
  {
    if cmds == [] then (db, [], true)
    else
      var (d, rs, fine) := RunAll(run, mode, cmds[..|cmds| - 1], db);
      if !fine then (d, rs, false)
      else
        var (e, r, error) := run(mode, cmds[|cmds| - 1], d);
        if error then (e, rs, false) else (e, rs + [r], true)
  }

  /** A transaction: all effects and one reply per command, or no effect at all. */
  function Atomically<C, S, R>(run: Runner<C, S, R>, mode: Mode, cmds: seq<C>, db: S): (S, Option<seq<R>>) {
    var (d, rs, fine) := RunAll(run, mode, cmds, db);
    if fine then (d, Some(rs)) else (db, None)
  }

  lemma RunOne<C, S, R>(run: Runner<C, S, R>, mode: Mode, c: C, db: S)
    ensures var (d, r, error) := run(mode, c, db);
            Atomically(run, mode, [c], db) == if error then (db, None) else (d, Some([r]))
  {
    assert [c][..0] == [];
    assert RunAll(run, mode, [], db) == (db, [], true);
    assert [] + [run(mode, c, db).1] == [run(mode, c, db).1];
  }

  lemma {:induction false} OneReplyEach<C, S, R>(run: Runner<C, S, R>, mode: Mode, cmds: seq<C>, db: S)
    ensures RunAll(run, mode, cmds, db).2 ==> |RunAll(run, mode, cmds, db).1| == |cmds|
    decreases |cmds|
  {
    if cmds != [] {
      OneReplyEach(run, mode, cmds[..|cmds| - 1], db);
    }
  }

  /** EXEC: begin, run the queue, commit; on the first error reply stop and roll back. */
  method RunQueue<C, S, R>(run: Runner<C, S, R>, mode: Mode, cmds: seq<C>, db: S)
    returns (after: S, reply: Option<seq<R>>)
    ensures (after, reply) == Atomically(run, mode, cmds, db)
    ensures reply.Some? ==> |reply.value| == |cmds|
    ensures reply.None? ==> after == db
  {
    OneReplyEach(run, mode, cmds, db);
    var txn, replies, abort := db, [], false;
    var i := 0;
    while i < |cmds|
      invariant 0 <= i <= |cmds| && !abort
      invariant RunAll(run, mode, cmds[..i], db) == (txn, replies, true)
    {
      assert cmds[..i + 1][..i] == cmds[..i];
      var (next, r, error) := run(mode, cmds[i], txn);
      txn := next;
      if error {
        abort := true;
        FailsForGood(run, mode, cmds, i + 1, db);
        break;
      }
      replies := replies + [r];
      i := i + 1;
    }
    assert cmds[..|cmds|] == cmds;
    if !abort {
      return txn, Some(replies);
    } else {
      return db, None;
    }
  }

  /** Once a prefix has failed, the whole has failed. */
  lemma {:induction false} FailsForGood<C, S, R>(run: Runner<C, S, R>, mode: Mode, cmds: seq<C>, i: nat, db: S)
    requires i <= |cmds| && !RunAll(run, mode, cmds[..i], db).2
    ensures !RunAll(run, mode, cmds, db).2
    decreases |cmds|
  {
    if i == |cmds| {
      assert cmds[..i] == cmds;
    } else {
      var init := cmds[..|cmds| - 1];
      assert init[..i] == cmds[..i];
      FailsForGood(run, mode, init, i, db);
    }
  }

  /** EXEC in Redis: every command runs, whatever the others answer. */
  function Everything<C, S, R>(run: Runner<C, S, R>, mode: Mode, cmds: seq<C>, db: S): (S, seq<R>)
    decreases |cmds|
  {
    if cmds == [] then (db, [])
    else
      var (d, rs) := Everything(run, mode, cmds[..|cmds| - 1], db);
      var (e, r, _) := run(mode, cmds[|cmds| - 1], d);
      (e, rs + [r])
  }

  /** No command, run after the ones before it, answers with an error. */
  predicate NoErrors<C, S, R>(run: Runner<C, S, R>, mode: Mode, cmds: seq<C>, db: S) {
    forall i :: 0 <= i < |cmds| ==> !run(mode, cmds[i], Everything(run, mode, cmds[..i], db).0).2
  }

  lemma NoErrorsSnoc<C, S, R>(run: Runner<C, S, R>, mode: Mode, cmds: seq<C>, db: S)
    requires cmds != []
    ensures var init, last := cmds[..|cmds| - 1], cmds[|cmds| - 1];
            NoErrors(run, mode, cmds, db)
            <==> NoErrors(run, mode, init, db) && !run(mode, last, Everything(run, mode, init, db).0).2
  {
    hide Everything;
    var init := cmds[..|cmds| - 1];
    forall i | 0 <= i < |init|
      ensures run(mode, cmds[i], Everything(run, mode, cmds[..i], db).0).2
              == run(mode, init[i], Everything(run, mode, init[..i], db).0).2
    {
      assert init[..i] == cmds[..i];
    }
  }

  lemma {:induction false} NoErrorsRuns<C, S, R>(run: Runner<C, S, R>, mode: Mode, cmds: seq<C>, db: S)
    ensures RunAll(run, mode, cmds, db).2 <==> NoErrors(run, mode, cmds, db)
    ensures RunAll(run, mode, cmds, db).2 ==>
              var (d, rs) := Everything(run, mode, cmds, db); RunAll(run, mode, cmds, db) == (d, rs, true)
    decreases |cmds|
  {
    if cmds == [] {
      assert NoErrors(run, mode, cmds, db);
    } else {
      NoErrorsRuns(run, mode, cmds[..|cmds| - 1], db);
      NoErrorsStep(run, mode, cmds, db);
    }
  }

  lemma NoErrorsStep<C, S, R>(run: Runner<C, S, R>, mode: Mode, cmds: seq<C>, db: S)
    requires cmds != []
    requires var init := cmds[..|cmds| - 1]; var (d, rs) := Everything(run, mode, init, db);
             && (RunAll(run, mode, init, db).2 <==> NoErrors(run, mode, init, db))
             && (RunAll(run, mode, init, db).2 ==> RunAll(run, mode, init, db) == (d, rs, true))
    ensures RunAll(run, mode, cmds, db).2 <==> NoErrors(run, mode, cmds, db)
    ensures RunAll(run, mode, cmds, db).2 ==>
              var (d, rs) := Everything(run, mode, cmds, db); RunAll(run, mode, cmds, db) == (d, rs, true)
  {
    hide NoErrors;
    NoErrorsSnoc(run, mode, cmds, db);
  }

  /** The two agree if and only if there is none. */
  lemma ExecMeetsRedisIff<C, S, R>(run: Runner<C, S, R>, mode: Mode, cmds: seq<C>, db: S)
    ensures var (d, rs) := Everything(run, mode, cmds, db);
            Atomically(run, mode, cmds, db) == (d, Some(rs)) <==> NoErrors(run, mode, cmds, db)
  {
    NoErrorsRuns(run, mode, cmds, db);
  }

  // ----- the handler -----

  datatype Event<C> = Auth(correct: bool) | Multi | Exec | Discard | Script(script: C) | Cmd(cmd: C)

  datatype Session<C, S> = Session(authorized: bool, inTxn: bool, queued: seq<C>, db: S)

  /** The session after one request. A script runs at once, even inside a transaction. */
  function Handle<C, S, R>(run: Runner<C, S, R>, s: Session<C, S>, e: Event<C>): Session<C, S> {
    if e.Auth? then (if e.correct then s.(authorized := true) else s)
    else if !s.authorized then s
    else
      match e
      case Multi => if s.inTxn then s else s.(inTxn := true, queued := [])
      case Exec => if !s.inTxn then s else s.(inTxn := false, db := Atomically(run, InExec, s.queued, s.db).0)
      case Discard => if s.inTxn then s.(inTxn := false, queued := []) else s
      case Script(c) => s.(db := run(AsScript, c, s.db).0)
      case Cmd(c) => if s.inTxn then s.(queued := s.queued + [c]) else s.(db := Atomically(run, Alone, [c], s.db).0)
  }

  datatype Answer<R> = Done | Refused | Queued | Single(reply: R) | Many(replies: seq<R>) | Aborted

  class Handler<C, S, R> {
    var authorized: bool
    var inTxn: bool
    var queued: seq<C>
    var db: S

    constructor (authorized: bool, db: S)
      ensures State() == Session(authorized, false, [], db)
    {
      this.authorized, inTxn, queued, this.db := authorized, false, [], db;
    }

    function State(): Session<C, S>
      reads this
    {
      Session(authorized, inTxn, queued, db)
    }

    /** One request. */
    method Request(run: Runner<C, S, R>, e: Event<C>) returns (answer: Answer<R>)
      modifies this
      ensures State() == Handle(run, old(State()), e)
      ensures !e.Auth? && !old(authorized) ==> answer == Refused
      ensures old(authorized) && e.Cmd? && old(inTxn) ==> answer == Queued
      ensures old(authorized) && e.Exec? && old(inTxn) ==>
                var (after, replies) := Atomically(run, InExec, old(queued), old(db));
                answer == if replies.Some? then Many(replies.value) else Aborted
      ensures old(authorized) && e.Exec? && !old(inTxn) ==> answer == Refused
      ensures e.Auth? ==> answer == if e.correct then Done else Refused
      ensures old(authorized) && e.Multi? ==> answer == if old(inTxn) then Refused else Done
      ensures old(authorized) && e.Discard? ==> answer == if old(inTxn) then Done else Refused
      ensures old(authorized) && e.Script? ==>
                var (after, reply, _) := run(AsScript, e.script, old(db));
                db == after && answer == Single(reply)
      ensures old(authorized) && e.Cmd? && !old(inTxn) ==>
                var (after, reply, error) := run(Alone, e.cmd, old(db));
                if error then db == old(db) && answer == Refused else db == after && answer == Single(reply)
    {
      match e {
        case Auth(correct) =>
          if !correct {
            return Refused;
          }
          authorized := true;
          return Done;
        case _ =>
      }
      if !authorized {
        return Refused;
      }
      match e {
        case Auth(_) => return Refused;
        case Multi =>
          if inTxn {
            return Refused;
          }
          inTxn := true;
          queued := [];
          return Done;
        case Exec =>
          if !inTxn {
            return Refused;
          }
          inTxn := false;
          var after, replies := RunQueue(run, InExec, queued, db);
          db := after;
          return if replies.Some? then Many(replies.value) else Aborted;
        case Discard =>
          if !inTxn {
            return Refused;
          }
          inTxn := false;
          queued := [];
          return Done;
        case Script(c) =>
          var (after, reply, _) := run(AsScript, c, db);
          db := after;
          return Single(reply);
        case Cmd(c) =>
          if inTxn {
            queued := queued + [c];
            return Queued;
          }
          RunOne(run, Alone, c, db);
          var after, replies := RunQueue(run, Alone, [c], db);
          db := after;
          return if replies.Some? then Single(replies.value[0]) else Refused;
      }
    }
  }

  function HandleAll<C, S, R>(run: Runner<C, S, R>, s: Session<C, S>, h: seq<Event<C>>): Session<C, S>
    decreases |h|
  {
    if h == [] then s else HandleAll(run, Handle(run, s, h[0]), h[1..])
  }

  // ----- the reference -----

  /** What takes effect: a script, a command on its own, or queued commands as one transaction. */
  datatype Action<C> = Scripted(script: C) | Lone(cmd: C) | Group(cmds: seq<C>)

  function Act<C, S, R>(run: Runner<C, S, R>, a: Action<C>, db: S): S {
    match a
    case Scripted(c) => run(AsScript, c, db).0
    case Lone(c) => Atomically(run, Alone, [c], db).0
    case Group(cmds) => Atomically(run, InExec, cmds, db).0
  }

  function ActAll<C, S, R>(run: Runner<C, S, R>, actions: seq<Action<C>>, db: S): S
    decreases |actions|
  {
    if actions == [] then db else ActAll(run, actions[1..], Act(run, actions[0], db))
  }

  /** The requests that are heard: those after the first correct password, without the authentication itself. */
  function Heard<C>(authorized: bool, h: seq<Event<C>>): (r: seq<Event<C>>)
    ensures forall i :: 0 <= i < |r| ==> !r[i].Auth?
    decreases |h|
  {
    if h == [] then []
    else if h[0].Auth? then Heard(authorized || h[0].correct, h[1..])
    else if authorized then [h[0]] + Heard(authorized, h[1..])
    else Heard(authorized, h[1..])
  }

  /** Where the transaction begun before `h` is closed. */
  function Closing<C>(h: seq<Event<C>>): (n: nat)
    ensures n <= |h|
    ensures n < |h| ==> h[n].Exec? || h[n].Discard?
    ensures forall i :: 0 <= i < n ==> !h[i].Exec? && !h[i].Discard?
  {
    if h == [] || h[0].Exec? || h[0].Discard? then 0 else 1 + Closing(h[1..])
  }

  function Commands<C>(h: seq<Event<C>>): seq<C> {
    if h == [] then [] else (if h[0].Cmd? then [h[0].cmd] else []) + Commands(h[1..])
  }

  function Scripts<C>(h: seq<Event<C>>): seq<Action<C>> {
    if h == [] then [] else (if h[0].Script? then [Scripted(h[0].script)] else []) + Scripts(h[1..])
  }

  /** The effects of a history: single commands, scripts, and one group per MULTI that is closed by EXEC. */
  function Effects<C>(h: seq<Event<C>>): seq<Action<C>>
    decreases |h|
  {
    if h == [] then []
    else
      match h[0]
      case Multi =>
        var body := h[1..];
        var n := Closing(body);
        Scripts(body[..n])
        + (if n == |body| then []
           else (if body[n].Exec? then [Group(Commands(body[..n]))] else []) + Effects(body[n + 1..]))
      case Script(c) => [Scripted(c)] + Effects(h[1..])
      case Cmd(c) => [Lone(c)] + Effects(h[1..])
      case _ => Effects(h[1..])
  }

  // ----- the handler meets the reference -----

  lemma {:induction false} ActConcat<C, S, R>(run: Runner<C, S, R>, a: seq<Action<C>>, b: seq<Action<C>>, db: S)
    ensures ActAll(run, a + b, db) == ActAll(run, b, ActAll(run, a, db))
    decreases |a|
  {
    if a == [] {
      assert a + b == b;
    } else {
      assert (a + b)[1..] == a[1..] + b;
      ActConcat(run, a[1..], b, Act(run, a[0], db));
    }
  }

  lemma {:induction false} HandleConcat<C, S, R>(run: Runner<C, S, R>, s: Session<C, S>, g: seq<Event<C>>,
                                                 h: seq<Event<C>>)
    ensures HandleAll(run, s, g + h) == HandleAll(run, HandleAll(run, s, g), h)
    decreases |g|
  {
    hide Handle;
    if g == [] {
      assert g + h == h;
    } else {
      assert (g + h)[1..] == g[1..] + h;
      HandleConcat(run, Handle(run, s, g[0]), g[1..], h);
    }
  }

  /** Inside a transaction, commands only queue up and scripts only change the database. */
  lemma {:induction false} BodyOnlyQueues<C, S, R>(run: Runner<C, S, R>, s: Session<C, S>, body: seq<Event<C>>)
    requires s.authorized && s.inTxn
    requires forall i :: 0 <= i < |body| ==> !body[i].Exec? && !body[i].Discard? && !body[i].Auth?
    ensures HandleAll(run, s, body)
            == Session(true, true, s.queued + Commands(body), ActAll(run, Scripts(body), s.db))
    decreases |body|
  {
    hide Atomically, Commands, Scripts, ActAll;
    BodyStep(run, body, s.queued, s.db);
    if body != [] {
      BodyOnlyQueues(run, Handle(run, s, body[0]), body[1..]);
    }
  }

  /** What one request adds to the queue and to the scripts. */
  lemma BodyStep<C, S, R>(run: Runner<C, S, R>, body: seq<Event<C>>, queued: seq<C>, db: S)
    ensures body == [] ==> queued + Commands(body) == queued && ActAll(run, Scripts(body), db) == db
    ensures body != [] && body[0].Cmd? ==>
              && queued + Commands(body) == (queued + [body[0].cmd]) + Commands(body[1..])
              && Scripts(body) == Scripts(body[1..])
    ensures body != [] && body[0].Script? ==>
              && Commands(body) == Commands(body[1..])
              && ActAll(run, Scripts(body), db) == ActAll(run, Scripts(body[1..]), run(AsScript, body[0].script, db).0)
    ensures body != [] && !body[0].Cmd? && !body[0].Script? ==>
              Commands(body) == Commands(body[1..]) && Scripts(body) == Scripts(body[1..])
  {
    hide Atomically;
    if body != [] && body[0].Script? {
      var scripts := Scripts(body);
      assert scripts[0] == Scripted(body[0].script) && scripts[1..] == Scripts(body[1..]);
    }
  }

  /** The database after any history is what the reference's effects make of it. */
  lemma {:induction false} HeardEffects<C, S, R>(run: Runner<C, S, R>, s: Session<C, S>, h: seq<Event<C>>)
    requires s.authorized && !s.inTxn && forall i :: 0 <= i < |h| ==> !h[i].Auth?
    ensures HandleAll(run, s, h).db == ActAll(run, Effects(h), s.db)
    decreases |h|
  {
    hide Atomically;
    if h == [] {
    } else if h[0].Multi? {
      TransactionEffects(run, s, h);
    } else {
      var t := Handle(run, s, h[0]);
      HeardEffects(run, t, h[1..]);
      if h[0].Script? || h[0].Cmd? {
        var a := if h[0].Script? then Scripted(h[0].script) else Lone(h[0].cmd);
        ActConcat(run, [a], Effects(h[1..]), s.db);
        ActOne(run, a, s.db);
      }
    }
  }

  lemma ActOne<C, S, R>(run: Runner<C, S, R>, a: Action<C>, db: S)
    ensures ActAll(run, [a], db) == Act(run, a, db)
  {
    var one := [a];
    assert one[1..] == [];
    assert ActAll(run, one[1..], Act(run, a, db)) == Act(run, a, db);
  }

  lemma {:induction false} TransactionEffects<C, S, R>(run: Runner<C, S, R>, s: Session<C, S>, h: seq<Event<C>>)
    requires s.authorized && !s.inTxn && (forall i :: 0 <= i < |h| ==> !h[i].Auth?) && h != [] && h[0].Multi?
    ensures HandleAll(run, s, h).db == ActAll(run, Effects(h), s.db)
    decreases |h|, 0
  {
    hide Atomically, HandleAll, Effects, ActAll, Commands, Scripts, Handle, Closing;
    var body := h[1..];
    var n := Closing(body);
    var inside := body[..n];
    var begun := s.(inTxn := true, queued := []);
    HandleStep(run, s, h);
    EffectsOfMulti(h);
    BodyOnlyQueues(run, begun, inside);
    var t := HandleAll(run, begun, inside);
    assert [] + Commands(inside) == Commands(inside);
    if n == |body| {
      assert inside == body && Scripts(inside) + [] == Scripts(inside);
    } else {
      var rest, group := body[n + 1..], GroupOf(body, n);
      assert body == inside + body[n..] && body[n..][1..] == rest;
      HandleConcat(run, begun, inside, body[n..]);
      HandleStep(run, t, body[n..]);
      var closed := Handle(run, t, body[n]);
      ActGroup(run, t, body, n);
      HeardEffects(run, closed, rest);
      ActConcat(run, Scripts(inside), group + Effects(rest), s.db);
      ActConcat(run, group, Effects(rest), t.db);
    }
  }

  lemma HandleStep<C, S, R>(run: Runner<C, S, R>, s: Session<C, S>, h: seq<Event<C>>)
    requires h != [] && s.authorized
    ensures HandleAll(run, s, h) == HandleAll(run, Handle(run, s, h[0]), h[1..])
    ensures h[0].Multi? && !s.inTxn ==> Handle(run, s, h[0]) == s.(inTxn := true, queued := [])
  {
  }

  function GroupOf<C>(body: seq<Event<C>>, n: nat): seq<Action<C>>
    requires n < |body|
  {
    if body[n].Exec? then [Group(Commands(body[..n]))] else []
  }

  lemma EffectsOfMulti<C>(h: seq<Event<C>>)
    requires h != [] && h[0].Multi?
    ensures var body := h[1..]; var n := Closing(body);
            Effects(h) == Scripts(body[..n]) + if n < |body| then GroupOf(body, n) + Effects(body[n + 1..]) else []
  {
    hide Closing, Commands, Scripts;
  }

  /** Closing a transaction has the effect of its group. */
  lemma ActGroup<C, S, R>(run: Runner<C, S, R>, t: Session<C, S>, body: seq<Event<C>>, n: nat)
    requires n < |body| && (body[n].Exec? || body[n].Discard?)
    requires t.authorized && t.inTxn && t.queued == Commands(body[..n])
    ensures var closed := Handle(run, t, body[n]);
            closed.authorized && !closed.inTxn && closed.db == ActAll(run, GroupOf(body, n), t.db)
  {
    hide Atomically, Commands;
    if body[n].Exec? {
      ActOne(run, Group(Commands(body[..n])), t.db);
    }
  }

  /** Requests before the first correct password, and authentication itself, change nothing else. */
  lemma {:induction false} OnlyHeard<C, S, R>(run: Runner<C, S, R>, s: Session<C, S>, h: seq<Event<C>>)
    ensures var heard := Heard(s.authorized, h);
            HandleAll(run, s, h).db == HandleAll(run, s.(authorized := true), heard).db
    decreases |h|
  {
    if h != [] {
      OnlyHeard(run, Handle(run, s, h[0]), h[1..]);
      var heard := Heard(s.authorized, h);
      if !h[0].Auth? && s.authorized {
        assert heard[1..] == Heard(true, h[1..]);
        HandledAuthorized(run, s, h[0]);
      }
    }
  }

  lemma HandledAuthorized<C, S, R>(run: Runner<C, S, R>, s: Session<C, S>, e: Event<C>)
    requires s.authorized && !e.Auth?
    ensures Handle(run, s, e).authorized
  {
  }

  /** For every history on a new connection: exactly the reference's effects, in order, each group all or nothing. */
  lemma HistoryMeetsReference<C, S, R>(run: Runner<C, S, R>, authorized: bool, db: S, h: seq<Event<C>>)
    ensures HandleAll(run, Session(authorized, false, [], db), h).db == ActAll(run, Effects(Heard(authorized, h)), db)
  {
    var s := Session(authorized, false, [], db);
    OnlyHeard(run, s, h);
    HeardEffects(run, s.(authorized := true), Heard(authorized, h));
  }
}
