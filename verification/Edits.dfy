/**
 Nested edit contexts of a resource and of its service (edit, _edit_trusted,
 _edit_untrusted, Service.__enter__ and __exit__), for any program that uses them.
 */
module Edits {
  import opened Obsels

  /** A program. The actions of `ack` are what ack_edit does; `valid` tells whether the
      edited graph passes its checks. */
  datatype Action =
    | Edit(trusted: bool, params: Option<int>, body: seq<Action>, valid: bool, ack: seq<Action>)
    | Service(body: seq<Action>)
    | Try(body: seq<Action>)  // catches any exception of its body
    | Raise

  datatype Event = Prepare | Ack | Open | Commit | Rollback

  datatype Context = Context(trusted: bool, params: Option<int>)

  datatype State = State(level: nat, ctx: Option<Context>, log: seq<Event>)

  const INITIAL := State(0, None, [])

  function Log(s: State, e: Event): State {
    s.(log := s.log + [e])
  }

  /* ---------- what each construct does ---------- */

  function EnterService(s: State): State {
    var s1 := if s.level == 0 then Log(s, Open) else s;
    s1.(level := s.level + 1)
  }

  function ExitService(s: State, ok: bool): State
    requires s.level > 0
  {
    var s1 := s.(level := s.level - 1);
    if s1.level == 0 then Log(s1, if ok then Commit else Rollback) else s1
  }

  /** A context is refused inside an untrusted one, an untrusted one inside any, and one
      with other parameters than those of the outermost. */
  predicate Refused(s: State, trusted: bool, params: Option<int>) {
    s.ctx.Some? && (!trusted || !s.ctx.value.trusted || (params.Some? && params != s.ctx.value.params))
  }

  function Exec(s: State, a: Action): (r: (State, bool))
    ensures r.0.level == s.level
    decreases a
  {
    match a
    case Raise => (s, false)
    case Try(body) => (ExecAll(s, body).0, true)
    case Service(body) =>
      var (s1, ok) := ExecAll(EnterService(s), body);
      (ExitService(s1, ok), ok)
    case Edit(trusted, params, body, valid, ack) =>
      if Refused(s, trusted, params) then (s, false)
      else if s.ctx.Some? then
        var (s1, ok) := ExecAll(EnterService(s), body);
        (ExitService(s1, ok), ok)
      else
        var s0 := Log(s, Prepare).(ctx := Some(Context(trusted, params)));
        var (s1, ok1) := ExecAll(EnterService(s0), body);
        if !ok1 || (!trusted && !valid) then
          (ExitService(s1.(ctx := None), false), false)
        else
          // ack_edit may open trusted contexts, even when the edit was untrusted
          var (s2, ok2) := ExecAll(Log(s1, Ack).(ctx := Some(Context(true, params))), ack);
          (ExitService(s2.(ctx := None), ok2), ok2)
  }

  function ExecAll(s: State, body: seq<Action>): (r: (State, bool))
    ensures r.0.level == s.level
    decreases body
  {
    if body == [] then (s, true) else
      var (s1, ok) := Exec(s, body[0]);
      if ok then ExecAll(s1, body[1..]) else (s1, false)
  }

  /* ---------- inside a context ---------- */

  ghost predicate Inside(s: State) {
    s.ctx.Some? && s.level > 0
  }

  /** Inside an edit context, whatever happens, normally or exceptionally: no second
      prepare or ack, no commit or rollback, and the context is left as it was. */
  lemma {:induction false} InsideIsSilent(s: State, a: Action)
    requires Inside(s)
    ensures Exec(s, a).0 == s
    decreases a
  {
    match a
    case Raise =>
    case Try(body) => InsideIsSilentAll(s, body);
    case Service(body) => InsideIsSilentAll(EnterService(s), body);
    case Edit(trusted, params, body, valid, ack) =>
      if !Refused(s, trusted, params) { InsideIsSilentAll(EnterService(s), body); }
  }

  lemma {:induction false} InsideIsSilentAll(s: State, body: seq<Action>)
    requires Inside(s)
    ensures ExecAll(s, body).0 == s
    decreases body
  {
    if body != [] {
      InsideIsSilent(s, body[0]);
      InsideIsSilentAll(s, body[1..]);
    }
  }

  /** An outermost edit context prepares once; ack_edit runs once on success, at most
      once otherwise. Outside any service context, the store sees one commit or rollback. */
  lemma OutermostEdit(s: State, a: Action)
    requires s.ctx == None && a.Edit?
    ensures var (s', ok) := Exec(s, a);
            var p := Log(s, Prepare);
            && (s.level == 0 && ok ==> s' == Log(Log(Log(p, Open), Ack), Commit))
            && (s.level == 0 && !ok ==>
                  || s' == Log(Log(p, Open), Rollback)
                  || s' == Log(Log(Log(p, Open), Ack), Rollback))
            && (s.level > 0 && ok ==> s' == Log(p, Ack))
            && (s.level > 0 && !ok ==> s' == p || s' == Log(p, Ack))
  {
    hide Refused;
    NotRefused(s, a.trusted, a.params);
    var s0 := EnterService(Log(s, Prepare).(ctx := Some(Context(a.trusted, a.params))));
    InsideIsSilentAll(s0, a.body);
    InsideIsSilentAll(Log(s0, Ack).(ctx := Some(Context(true, a.params))), a.ack);
  }

  /** When an outermost edit succeeds, and all that it does: its body must end normally, an
      untrusted graph must pass its checks, and then ack_edit must end normally. Only after
      the first two is there an ack, and only after all three a commit. */
  lemma OutermostOutcome(s: State, a: Action)
    requires s.ctx == None && a.Edit?
    ensures var log := s.log + if s.level == 0 then [Prepare, Open] else [Prepare];
            var checked := && ExecAll(State(s.level + 1, Some(Context(a.trusted, a.params)), log), a.body).1
                           && (a.trusted || a.valid);
            var done := && checked
                        && ExecAll(State(s.level + 1, Some(Context(true, a.params)), log + [Ack]), a.ack).1;
            && Exec(s, a).1 == done
            && Exec(s, a).0 == State(s.level, None,
                                     log + (if checked then [Ack] else [])
                                     + if s.level > 0 then [] else if done then [Commit] else [Rollback])
  {
    hide Refused;
    NotRefused(s, a.trusted, a.params);
    var s0 := EnterService(Log(s, Prepare).(ctx := Some(Context(a.trusted, a.params))));
    InsideIsSilentAll(s0, a.body);
    InsideIsSilentAll(Log(s0, Ack).(ctx := Some(Context(true, a.params))), a.ack);
    assert s.level == 0 ==> s.log + [Prepare] + [Open] == s.log + [Prepare, Open];
  }

  /** A program goes on after its first part exactly if that ended normally. */
  lemma {:induction false} InSequence(s: State, first: seq<Action>, rest: seq<Action>)
    ensures var (s1, ok) := ExecAll(s, first);
            ExecAll(s, first + rest) == if ok then ExecAll(s1, rest) else (s1, false)
    decreases |first|
  {
    if first == [] {
      assert first + rest == rest;
    } else {
      assert (first + rest)[0] == first[0] && (first + rest)[1..] == first[1..] + rest;
      InSequence(Exec(s, first[0]).0, first[1..], rest);
    }
  }

  /** Whatever comes before an exception, a program that gets to it does not end normally,
      and what comes after it does not happen. */
  lemma RaiseEnds(s: State, pre: seq<Action>, post: seq<Action>)
    ensures ExecAll(s, pre + [Raise] + post) == (ExecAll(s, pre).0, false)
  {
    InSequence(s, pre, [Raise]);
    InSequence(s, pre + [Raise], post);
    var s1 := ExecAll(s, pre).0;
    assert Exec(s1, Raise) == (s1, false);
  }

  /** An edit whose body raises an exception, or whose graph is untrusted and fails its
      checks, is neither acked nor committed; on its own it is rolled back. */
  lemma FailedEditIsRolledBack(s: State, a: Action, pre: seq<Action>, post: seq<Action>)
    requires s.ctx == None && a.Edit?
    requires a.body == pre + [Raise] + post || (!a.trusted && !a.valid)
    ensures Exec(s, a) == (s.(log := s.log + if s.level == 0 then [Prepare, Open, Rollback] else [Prepare]), false)
  {
    hide Exec, ExecAll;
    OutermostOutcome(s, a);
    var log := s.log + if s.level == 0 then [Prepare, Open] else [Prepare];
    RaiseEnds(State(s.level + 1, Some(Context(a.trusted, a.params)), log), pre, post);
    assert log + [] + [] == log;
    assert s.level == 0 ==> log + [] + [Rollback] == s.log + [Prepare, Open, Rollback];
  }

  /** An outermost service context commits exactly when its body ended normally, and rolls
      back otherwise; an inner one does neither. */
  lemma ServiceOutcome(s: State, body: seq<Action>)
    ensures var (s1, ok) := ExecAll(State(s.level + 1, s.ctx, if s.level == 0 then s.log + [Open] else s.log), body);
            Exec(s, Service(body)) ==
              (State(s.level, s1.ctx,
                     s1.log + if s.level > 0 then [] else if ok then [Commit] else [Rollback]), ok)
  {
    hide ExecAll;
    assert EnterService(s) == State(s.level + 1, s.ctx, if s.level == 0 then s.log + [Open] else s.log);
    var s1 := ExecAll(EnterService(s), body).0;
    assert s1.log + [] == s1.log;
  }

  lemma FailedServiceIsRolledBack(s: State, pre: seq<Action>, post: seq<Action>)
    requires s.level == 0
    ensures var (s', ok) := Exec(s, Service(pre + [Raise] + post));
            !ok && s'.log == ExecAll(State(1, s.ctx, s.log + [Open]), pre).0.log + [Rollback]
  {
    hide Exec, ExecAll;
    ServiceOutcome(s, pre + [Raise] + post);
    RaiseEnds(State(1, s.ctx, s.log + [Open]), pre, post);
  }

  /** An edit inside another one happens only if both are trusted, and if it names no
      parameters or those of the other one; then it ends as its body does. */
  lemma InnerEdit(s: State, a: Action)
    requires Inside(s) && a.Edit?
    ensures Exec(s, a) ==
              (s, && s.ctx.value.trusted && a.trusted && (a.params == None || a.params == s.ctx.value.params)
                  && ExecAll(s.(level := s.level + 1), a.body).1)
  {
    InsideIsSilent(s, a);
  }

  /** Only what runs inside a Try is protected from an exception. */
  lemma TryCatches(s: State, body: seq<Action>)
    ensures Exec(s, Try(body)) == (ExecAll(s, body).0, true)
  {
  }

  lemma NotRefused(s: State, trusted: bool, params: Option<int>)
    requires s.ctx == None
    ensures !Refused(s, trusted, params)
  {
  }

  /* ---------- any program ---------- */

  /** The events a store and a resource may see: outside (Out); in an edit context of its
      own, before (Prepared) and after (Opened) the service context is entered, and after
      ack_edit began (Acked); in a service context (InService), between a prepare and an
      ack in it (Editing). */
  datatype Protocol = Out | Prepared | Opened | Acked | InService | Editing | Broken

  function Move(q: Protocol, e: Event): Protocol {
    match (q, e)
    case (Out, Prepare) => Prepared
    case (Out, Open) => InService
    case (Prepared, Open) => Opened
    case (Opened, Ack) => Acked
    case (Opened, Rollback) => Out
    case (Acked, Commit) => Out
    case (Acked, Rollback) => Out
    case (InService, Prepare) => Editing
    case (InService, Commit) => Out
    case (InService, Rollback) => Out
    case (Editing, Ack) => InService
    case (Editing, Prepare) => Editing
    case (Editing, Commit) => Out
    case (Editing, Rollback) => Out
    case _ => Broken
  }

  function Scan(q: Protocol, log: seq<Event>): Protocol {
    if log == [] then q else Move(Scan(q, log[..|log| - 1]), log[|log| - 1])
  }

  lemma ScanLog(s: State, e: Event)
    ensures Scan(Out, Log(s, e).log) == Move(Scan(Out, s.log), e)
  {
  }

  /** The state of the protocol agrees with the contexts: no edit context at all, and
      either no service context or one in which any number of edits were made. */
  ghost predicate Outside(s: State) {
    && s.ctx == None
    && (s.level == 0 ==> Scan(Out, s.log) == Out)
    && (s.level > 0 ==> Scan(Out, s.log) in {InService, Editing})
  }

  lemma {:induction false} OutsideKept(s: State, a: Action)
    requires Outside(s)
    ensures Outside(Exec(s, a).0)
    decreases a
  {
    match a
    case Raise =>
    case Try(body) => OutsideKeptAll(s, body);
    case Service(body) => ServiceKeepsOutside(s, body);
    case Edit(_, _, _, _, _) => EditKeepsOutside(s, a);
  }

  lemma {:induction false} ServiceKeepsOutside(s: State, body: seq<Action>)
    requires Outside(s)
    ensures Outside(Exec(s, Service(body)).0)
    decreases body, 1
  {
    hide Scan;
    ScanLog(s, Open);
    OutsideKeptAll(EnterService(s), body);
    var (s1, ok) := ExecAll(EnterService(s), body);
    ScanLog(s1.(level := s1.level - 1), if ok then Commit else Rollback);
  }

  lemma EditKeepsOutside(s: State, a: Action)
    requires Outside(s) && a.Edit?
    ensures Outside(Exec(s, a).0)
  {
    hide Exec, Scan;
    OutermostEdit(s, a);
    var p := Log(s, Prepare);
    ScanLog(s, Prepare);
    ScanLog(p, Open);
    ScanLog(p, Ack);
    ScanLog(Log(p, Open), Ack);
    ScanLog(Log(p, Open), Rollback);
    ScanLog(Log(Log(p, Open), Ack), Commit);
    ScanLog(Log(Log(p, Open), Ack), Rollback);
  }

  lemma {:induction false} OutsideKeptAll(s: State, body: seq<Action>)
    requires Outside(s)
    ensures Outside(ExecAll(s, body).0)
    decreases body, 0
  {
    if body != [] {
      OutsideKept(s, body[0]);
      var (s1, ok) := Exec(s, body[0]);
      if ok { OutsideKeptAll(s1, body[1..]); }
    }
  }

  /** For every program: afterwards no edit context is open, every service context is
      closed, and the log is a sequence of complete exchanges, each with one prepare, at
      most one ack and one commit or rollback for an edit context on its own, and with one
      commit or rollback for a service context, however many edits it holds. */
  lemma EveryProgramFollowsTheProtocol(body: seq<Action>)
    ensures var s := ExecAll(INITIAL, body).0;
            s.level == 0 && s.ctx == None && Scan(Out, s.log) == Out
  {
    OutsideKeptAll(INITIAL, body);
  }

  /* ---------- the objects ---------- */

  class Resource {
    var level: nat            // _context_level of the service
    var ctx: Option<Context>  // _edit_context
    ghost var log: seq<Event>

    ghost function Now(): State
      reads this
    {
      State(level, ctx, log)
    }

    constructor ()
      ensures Now() == INITIAL
    {
      level, ctx, log := 0, None, [];
    }

    /** Service.__enter__ */
    method ServiceEnter()
      modifies this
      ensures Now() == EnterService(old(Now()))
    {
      if level == 0 { log := log + [Open]; }
      level := level + 1;
    }

    /** Service.__exit__ */
    method ServiceExit(ok: bool)
      requires level > 0
      modifies this
      ensures Now() == ExitService(old(Now()), ok)
    {
      level := level - 1;
      if level == 0 {
        if ok { log := log + [Commit]; } else { log := log + [Rollback]; }
      }
    }

    method Run(a: Action) returns (ok: bool)
      modifies this
      ensures (Now(), ok) == Exec(old(Now()), a)
      decreases a, 1
    {
      match a {
        case Raise => ok := false;
        case Try(body) =>
          var _ := RunAll(body);
          ok := true;
        case Service(body) =>
          ServiceEnter();
          ok := RunAll(body);
          ServiceExit(ok);
        case Edit(trusted, params, body, valid, ack) =>
          if trusted {
            ok := EditTrusted(a);
          } else {
            ok := EditUntrusted(a);
          }
      }
    }

    method RunAll(body: seq<Action>) returns (ok: bool)
      modifies this
      ensures (Now(), ok) == ExecAll(old(Now()), body)
      decreases body
    {
      if body == [] { return true; }
      ok := Run(body[0]);
      if ok { ok := RunAll(body[1..]); }
    }

    /** _edit_trusted */
    method EditTrusted(a: Action) returns (ok: bool)
      requires a.Edit? && a.trusted
      modifies this
      ensures (Now(), ok) == Exec(old(Now()), a)
      decreases a, 0
    {
      var outermost := ctx.None?;
      if !outermost {
        if !ctx.value.trusted { return false; }
        if a.params.Some? && a.params != ctx.value.params { return false; }
      } else {
        log := log + [Prepare];
        ctx := Some(Context(true, a.params));
      }
      ServiceEnter();
      InsideIsSilentAll(Now(), a.body);
      ok := RunAll(a.body);
      if ok && outermost {
        log := log + [Ack];
        ok := RunAll(a.ack);
      }
      if outermost { ctx := None; }
      ServiceExit(ok);
    }

    /** _edit_untrusted */
    method EditUntrusted(a: Action) returns (ok: bool)
      requires a.Edit? && !a.trusted
      modifies this
      ensures (Now(), ok) == Exec(old(Now()), a)
      decreases a, 0
    {
      if ctx.Some? { return false; }
      log := log + [Prepare];
      ctx := Some(Context(false, a.params));
      ServiceEnter();
      ok := RunAll(a.body);
      ok := ok && a.valid;
      if ok {
        ctx := Some(Context(true, a.params));
        log := log + [Ack];
        ok := RunAll(a.ack);
      }
      ctx := None;
      ServiceExit(ok);
    }
  }
}
