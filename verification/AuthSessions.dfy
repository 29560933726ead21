/**
 * Authentication sessions over time (`begin_auth.rs`, `next_step.rs`,
 * `step_back.rs`): a map from session ids to step stacks. The source reads the
 * top of a stack without checking that there is one; here that read has no
 * result on an empty stack, and no run ever gets there.
 */
module AuthSessions {
  import opened Wrappers
  import opened AuthFlow

  type Id = string

  type Stack = seq<AuthStep>

  datatype Auth = Auth(
    steps: map<Id, Stack>,
    streams: set<Id>,                  // sessions with an open step stream
    queued: map<Id, seq<AuthStep>>)    // steps waiting for a stream

  datatype Op =
    | Begin(id: Id)                                          // id is the drawn token
    | Next(id: Id, reply: Option<Reply>, verdict: Verdict)
    | Back(id: Id)
    | OpenStream(id: Id)
    | CloseStream(id: Id)

  // ---- the handlers on a state ----

  function Top(stack: Stack): AuthStep
    requires stack != []
  {
    stack[|stack| - 1]
  }

  /** Hand a step to the session's stream, or queue it. */
  function Sent(auth: Auth, id: Id, step: AuthStep): Auth {
    if id in auth.streams then auth
    else auth.(queued := auth.queued[id := (if id in auth.queued then auth.queued[id] else []) + [step]])
  }

  function Ended(auth: Auth, id: Id): Auth {
    auth.(steps := auth.steps - {id}, queued := auth.queued - {id})
  }

  type Response = Result<AuthStep, Error>

  /** `None` is an unchecked read of an empty stack. */
  function Advance(auth: Auth, config: Config, id: Id, reply: Option<Reply>, verdict: Verdict): Option<(Auth, Response)> {
    if id !in auth.steps then Some((auth, Err(InvalidAuthId)))
    else if auth.steps[id] == [] then None
    else
      var stack := auth.steps[id];
      match reply
      case None => Some((Sent(auth, id, Top(stack)), Ok(Top(stack))))
      case Some(r) =>
        match Answer(config, Top(stack), r, verdict)
        case Err(e) => Some((auth, Err(e)))
        case Ok(next) =>
          var pushed := Sent(auth.(steps := auth.steps[id := stack + [next]]), id, next);
          Some((if next.dialog.Session? then Ended(pushed, id) else pushed, Ok(next)))
  }

  function StepBack(auth: Auth, id: Id): Option<(Auth, Response)> {
    if id !in auth.steps then Some((auth, Err(InvalidAuthId)))
    else if auth.steps[id] == [] then None
    else
      var stack := auth.steps[id];
      var left := if Top(stack).canGoBack then stack[..|stack| - 1] else stack;
      if left == [] then None
      else Some((Sent(auth.(steps := auth.steps[id := left]), id, Top(left)), Ok(Top(left))))
  }

  function Begun(auth: Auth, id: Id): Auth {
    auth.(steps := auth.steps[id := [InitialStep()]])
  }

  function Step(auth: Auth, config: Config, op: Op): Option<Auth> {
    match op
    case Begin(id) => Some(Begun(auth, id))
    case Next(id, reply, verdict) =>
      (match Advance(auth, config, id, reply, verdict) case None => None case Some(r) => Some(r.0))
    case Back(id) =>
      (match StepBack(auth, id) case None => None case Some(r) => Some(r.0))
    case OpenStream(id) =>
      if id !in auth.steps then Some(auth)
      else Some(auth.(streams := auth.streams + {id},
                      queued := if id in auth.queued then auth.queued[id := []] else auth.queued))
    case CloseStream(id) => Some(auth.(streams := auth.streams - {id}))
  }

  // ---- what every stack looks like ----

  /** A walk in the graph of stages from the initial one, not finished yet. */
  ghost predicate IsWalk(config: Config, stages: seq<Stage>) {
    && |stages| > 0
    && stages[0] == Initial
    && (forall i | 0 <= i < |stages| - 1 :: Edge(config, stages[i], stages[i + 1]))
    && Done !in stages
  }

  ghost predicate Renders(config: Config, stages: seq<Stage>, stack: Stack) {
    && |stages| == |stack|
    && forall i | 0 <= i < |stages| :: stack[i] == StepOf(config, stages[i])
  }

  /** The stack is the record of such a walk. */
  ghost predicate Live(config: Config, stack: Stack) {
    exists stages :: IsWalk(config, stages) && Renders(config, stages, stack)
  }

  ghost predicate Healthy(auth: Auth, config: Config) {
    forall id | id in auth.steps :: Live(config, auth.steps[id])
  }

  /** What a live stack guarantees to the unchecked reads. */
  lemma LiveStack(config: Config, stack: Stack)
    requires Live(config, stack)
    ensures stack != []
    ensures !stack[0].canGoBack
    ensures Top(stack).canGoBack ==> |stack| > 1
    ensures forall i | 0 <= i < |stack| :: !stack[i].dialog.Session?
  {
    var stages :| IsWalk(config, stages) && Renders(config, stages, stack);
    assert stack[0] == StepOf(config, stages[0]);
    forall i | 0 <= i < |stack|
      ensures !stack[i].dialog.Session?
    {
      assert stages[i] in stages;
    }
  }

  lemma InitialIsLive(config: Config)
    ensures Live(config, [InitialStep()])
  {
    var stages := [Initial];
    assert IsWalk(config, stages) && Renders(config, stages, [InitialStep()]);
  }

  lemma PoppedIsLive(config: Config, stack: Stack)
    requires Live(config, stack) && |stack| > 1
    ensures Live(config, stack[..|stack| - 1])
  {
    var stages :| IsWalk(config, stages) && Renders(config, stages, stack);
    var shorter := stages[..|stages| - 1];
    assert IsWalk(config, shorter) && Renders(config, shorter, stack[..|stack| - 1]);
  }

  lemma ExtendedWalk(config: Config, stages: seq<Stage>, stack: Stack, t: Stage)
    requires IsWalk(config, stages) && Renders(config, stages, stack)
    requires Edge(config, stages[|stages| - 1], t) && t != Done
    ensures Live(config, stack + [StepOf(config, t)])
  {
    var longer := stages + [t];
    assert IsWalk(config, longer) && Renders(config, longer, stack + [StepOf(config, t)]);
  }

  lemma SessionIsDone(config: Config, stage: Stage)
    ensures StepOf(config, stage).dialog.Session? <==> stage == Done
  {
  }

  lemma LastStage(config: Config, stack: Stack) returns (stages: seq<Stage>, last: Stage)
    requires Live(config, stack)
    ensures IsWalk(config, stages) && Renders(config, stages, stack) && last == stages[|stages| - 1]
    ensures stack != [] && Top(stack) == StepOf(config, last)
  {
    stages :| IsWalk(config, stages) && Renders(config, stages, stack);
    last := stages[|stages| - 1];
  }

  lemma ExtendedIsLive(config: Config, stages: seq<Stage>, stack: Stack, t: Stage, next: AuthStep)
    requires IsWalk(config, stages) && Renders(config, stages, stack)
    requires Edge(config, stages[|stages| - 1], t) && next == StepOf(config, t)
    ensures !next.dialog.Session? ==> Live(config, stack + [next])
    ensures next.canGoBack ==> !next.dialog.Session?
  {
    SessionIsDone(config, t);
    if t != Done {
      ExtendedWalk(config, stages, stack, t);
    }
  }

  /** Any accepted answer extends the walk by one legal edge, and is never a bug of the dialogue itself. */
  lemma AnsweredIsLive(config: Config, stack: Stack, reply: Reply, verdict: Verdict)
    requires Live(config, stack) && stack != []
    ensures var answer := Answer(config, Top(stack), reply, verdict);
            && (answer.Ok? && !answer.value.dialog.Session? ==> Live(config, stack + [answer.value]))
            && (answer.Ok? && answer.value.canGoBack ==> !answer.value.dialog.Session?)
            && (answer.Err? ==> !OwnBug(answer.error))
  {
    var stages, last := LastStage(config, stack);
    var t := AnswerFollowsGraph(config, last, reply, verdict);
    var answer := Answer(config, Top(stack), reply, verdict);
    if answer.Ok? {
      ExtendedIsLive(config, stages, stack, t, answer.value);
    }
  }

  lemma AdvanceKeepsHealthy(auth: Auth, config: Config, id: Id, reply: Option<Reply>, verdict: Verdict)
    requires Healthy(auth, config)
    ensures var r := Advance(auth, config, id, reply, verdict);
            && r.Some?
            && Healthy(r.value.0, config)
            && (r.value.1.Err? ==> !OwnBug(r.value.1.error))
  {
    if id in auth.steps {
      LiveStack(config, auth.steps[id]);
      if reply.Some? {
        AnsweredIsLive(config, auth.steps[id], reply.value, verdict);
      }
    }
  }

  lemma StepBackKeepsHealthy(auth: Auth, config: Config, id: Id)
    requires Healthy(auth, config)
    ensures StepBack(auth, id).Some? && Healthy(StepBack(auth, id).value.0, config)
  {
    if id in auth.steps {
      LiveStack(config, auth.steps[id]);
      if Top(auth.steps[id]).canGoBack {
        PoppedIsLive(config, auth.steps[id]);
      }
    }
  }

  lemma StepKeepsHealthy(auth: Auth, config: Config, op: Op)
    requires Healthy(auth, config)
    ensures Step(auth, config, op).Some? && Healthy(Step(auth, config, op).value, config)
  {
    match op
    case Begin(_) => InitialIsLive(config);
    case Next(id, reply, verdict) => AdvanceKeepsHealthy(auth, config, id, reply, verdict);
    case Back(id) => StepBackKeepsHealthy(auth, config, id);
    case _ =>
  }

  // ---- runs ----

  const NoSessions := Auth(map[], {}, map[])

  /** The state after a run; `None` if some handler read an empty stack. */
  function Run(auth: Auth, config: Config, ops: seq<Op>): Option<Auth>
    decreases |ops|
  {
    if |ops| == 0 then Some(auth)
    else
      match Step(auth, config, ops[0])
      case None => None
      case Some(next) => Run(next, config, ops[1..])
  }

  lemma {:induction false} RunKeepsHealthy(auth: Auth, config: Config, ops: seq<Op>)
    requires Healthy(auth, config)
    ensures Run(auth, config, ops).Some? && Healthy(Run(auth, config, ops).value, config)
    decreases |ops|
  {
    if |ops| > 0 {
      StepKeepsHealthy(auth, config, ops[0]);
      RunKeepsHealthy(Step(auth, config, ops[0]).value, config, ops[1..]);
    }
  }

  /**
   * In every run: no unchecked read fails, every live stack is the record of a
   * legal walk, and no reply ever hits a choice, form or field type without a
   * handler.
   */
  lemma SessionsOverRuns(config: Config, ops: seq<Op>, id: Id, reply: Option<Reply>, verdict: Verdict)
    ensures var run := Run(NoSessions, config, ops);
            && run.Some?
            && (id in run.value.steps ==>
                  && Live(config, run.value.steps[id])
                  && run.value.steps[id] != []
                  && !run.value.steps[id][0].canGoBack)
            && Advance(run.value, config, id, reply, verdict).Some?
            && (var response := Advance(run.value, config, id, reply, verdict).value.1;
                response.Err? ==> !OwnBug(response.error))
            && StepBack(run.value, id).Some?
  {
    RunKeepsHealthy(NoSessions, config, ops);
    var auth := Run(NoSessions, config, ops).value;
    if id in auth.steps {
      LiveStack(config, auth.steps[id]);
    }
    AdvanceKeepsHealthy(auth, config, id, reply, verdict);
    StepBackKeepsHealthy(auth, config, id);
  }

  lemma PushThenPop(auth: Auth, id: Id, next: AuthStep)
    requires id in auth.steps && auth.steps[id] != [] && next.canGoBack
    ensures var pushed := Sent(auth.(steps := auth.steps[id := auth.steps[id] + [next]]), id, next);
            var back := StepBack(pushed, id);
            back.Some? && back.value.0.steps == auth.steps && back.value.1 == Ok(Top(auth.steps[id]))
  {
    var stack := auth.steps[id];
    assert (stack + [next])[..|stack|] == stack;
    assert auth.steps[id := stack + [next]][id := stack] == auth.steps;
  }

  /** Going back right after a step that allows it restores the stack and shows the step before. */
  lemma BackUndoesNext(auth: Auth, config: Config, id: Id, reply: Reply, verdict: Verdict)
    requires Healthy(auth, config) && id in auth.steps
    requires auth.steps[id] != []
    requires Answer(config, Top(auth.steps[id]), reply, verdict).Ok?
    requires Answer(config, Top(auth.steps[id]), reply, verdict).value.canGoBack
    ensures Advance(auth, config, id, Some(reply), verdict).Some?
    ensures var after := Advance(auth, config, id, Some(reply), verdict).value.0;
            var back := StepBack(after, id);
            && back.Some?
            && back.value.0.steps == auth.steps
            && back.value.1 == Ok(Top(auth.steps[id]))
  {
    var next := Answer(config, Top(auth.steps[id]), reply, verdict).value;
    AnsweredIsLive(config, auth.steps[id], reply, verdict);
    PushThenPop(auth, id, next);
  }

  /** An accepted reply adds its answer on top of the session's stack, or ends the session; a refused one changes nothing. */
  lemma AdvanceEffect(auth: Auth, config: Config, id: Id, reply: Reply, verdict: Verdict)
    requires Healthy(auth, config) && id in auth.steps && auth.steps[id] != []
    ensures Advance(auth, config, id, Some(reply), verdict).Some?
    ensures var (after, response) := Advance(auth, config, id, Some(reply), verdict).value;
            && response == Answer(config, Top(auth.steps[id]), reply, verdict)
            && (response.Err? ==> after == auth)
            && (response.Ok? && !response.value.dialog.Session? ==>
                  id in after.steps && after.steps[id] == auth.steps[id] + [response.value])
  {
  }

  ghost predicate OtherSessionKept(auth: Auth, after: Auth, id: Id) {
    && (id in after.steps <==> id in auth.steps)
    && (id in auth.steps ==> after.steps[id] == auth.steps[id])
    && (id in after.queued <==> id in auth.queued)
    && (id in auth.queued ==> after.queued[id] == auth.queued[id])
  }

  /** No request touches another session. */
  lemma OtherSessionsKept(auth: Auth, config: Config, op: Op, other: Id)
    requires Step(auth, config, op).Some? && op.id != other
    ensures OtherSessionKept(auth, Step(auth, config, op).value, other)
    ensures other in Step(auth, config, op).value.streams <==> other in auth.streams
  {
  }

  /** Beginning, even under an id that is in use, leaves just the first step, and that is what is shown. */
  lemma BeginShowsInitial(auth: Auth, config: Config, id: Id, verdict: Verdict)
    ensures var begun := Begun(auth, id);
            && id in begun.steps && begun.steps[id] == [StepOf(config, Initial)]
            && begun.streams == auth.streams && begun.queued == auth.queued
            && var r := Advance(begun, config, id, None, verdict);
               r.Some? && r.value.0.steps == begun.steps && r.value.1 == Ok(StepOf(config, Initial))
  {
  }

  function Waiting(auth: Auth, id: Id): seq<AuthStep> {
    if id in auth.queued then auth.queued[id] else []
  }

  /** A client without an open stream finds every answer of its session queued, in order, until the session is handed out. */
  lemma AnswersAreQueued(auth: Auth, config: Config, id: Id, reply: Option<Reply>, verdict: Verdict)
    requires Healthy(auth, config) && id in auth.steps
    ensures Advance(auth, config, id, reply, verdict).Some? && StepBack(auth, id).Some?
    ensures var (after, response) := Advance(auth, config, id, reply, verdict).value;
            && after.streams == auth.streams
            && (response.Ok? && !response.value.dialog.Session? ==>
                  Waiting(after, id) == Waiting(auth, id) + if id in auth.streams then [] else [response.value])
            && (response.Ok? && response.value.dialog.Session? ==> Waiting(after, id) == [])
    ensures var (after, response) := StepBack(auth, id).value;
            && response.Ok?
            && Waiting(after, id) == Waiting(auth, id) + if id in auth.streams then [] else [response.value]
  {
    AdvanceKeepsHealthy(auth, config, id, reply, verdict);
    StepBackKeepsHealthy(auth, config, id);
    if reply.None? {
      LiveStack(config, auth.steps[id]);
    }
  }

  /** Without a reply the current step is shown again; going back from a step that does not allow it does the same. */
  lemma ShownAgain(auth: Auth, config: Config, id: Id, verdict: Verdict)
    requires Healthy(auth, config) && id in auth.steps && auth.steps[id] != []
    ensures var r := Advance(auth, config, id, None, verdict);
            r.Some? && r.value.0.steps == auth.steps && r.value.1 == Ok(Top(auth.steps[id]))
    ensures !Top(auth.steps[id]).canGoBack ==>
              var r := StepBack(auth, id);
              r.Some? && r.value.0.steps == auth.steps && r.value.1 == Ok(Top(auth.steps[id]))
    ensures Top(auth.steps[id]).canGoBack ==>
              var r := StepBack(auth, id);
              && r.Some?
              && |auth.steps[id]| > 1
              && r.value.0.steps == auth.steps[id := auth.steps[id][..|auth.steps[id]| - 1]]
              && r.value.1 == Ok(auth.steps[id][|auth.steps[id]| - 2])
  {
    LiveStack(config, auth.steps[id]);
    assert auth.steps[id := auth.steps[id]] == auth.steps;
    AdvanceKeepsHealthy(auth, config, id, None, verdict);
  }

  /** A session is handed out only to a complete login or registration form that the store has agreed to. */
  lemma SessionNeedsConsent(auth: Auth, config: Config, id: Id, reply: Reply, verdict: Verdict) returns (stage: Stage)
    requires Healthy(auth, config) && id in auth.steps
    ensures auth.steps[id] != [] && Top(auth.steps[id]) == StepOf(config, stage)
    ensures Advance(auth, config, id, Some(reply), verdict).Some?
    ensures var response := Advance(auth, config, id, Some(reply), verdict).value.1;
            response.Ok? && response.value.dialog.Session? <==>
              && (stage == Login || stage == RegisterToken || (stage == Register && Edge(config, Register, Done)))
              && reply.FormReply? && Filled(reply.fields, StepOf(config, stage).dialog.fields)
              && verdict.rest
              && (TokenStage(config, stage) ==> verdict.token)
  {
    var stages, last := LastStage(config, auth.steps[id]);
    stage := last;
    hide Answer, Filled, Live;
    AdvanceKeepsHealthy(auth, config, id, Some(reply), verdict);
    var t := AnswerFollowsGraph(config, stage, reply, verdict);
    SessionIsDone(config, t);
    ChoiceAcceptedIff(config, stage, reply, verdict);
    if reply.FormReply? && StepOf(config, stage).dialog.Form? {
      FormAcceptedIff(config, stage, reply.fields, verdict);
    }
  }

  // ---- what a client gets to see ----

  ghost predicate NeverBegun(ops: seq<Op>, id: Id) {
    forall i | 0 <= i < |ops| :: ops[i] != Begin(id)
  }

  /** The step a request answers `id` with, if it answers it at all. */
  function AnswerTo(auth: Auth, config: Config, op: Op, id: Id): seq<AuthStep> {
    var r := if op.Next? && op.id == id then Advance(auth, config, id, op.reply, op.verdict)
             else if op.Back? && op.id == id then StepBack(auth, id)
             else None;
    if r.Some? && r.value.1.Ok? then [r.value.1.value] else []
  }

  /** The steps a request hands to the stream of `id`: all that wait when it opens, and each answer while it is open. */
  function HandedBy(auth: Auth, config: Config, op: Op, id: Id): seq<AuthStep> {
    if op == OpenStream(id) then (if id in auth.steps then Waiting(auth, id) else [])
    else if id in auth.streams then AnswerTo(auth, config, op, id)
    else []
  }

  function Answers(auth: Auth, config: Config, ops: seq<Op>, id: Id): seq<AuthStep>
    decreases |ops|
  {
    if |ops| == 0 || Step(auth, config, ops[0]).None? then []
    else AnswerTo(auth, config, ops[0], id) + Answers(Step(auth, config, ops[0]).value, config, ops[1..], id)
  }

  function Handed(auth: Auth, config: Config, ops: seq<Op>, id: Id): seq<AuthStep>
    decreases |ops|
  {
    if |ops| == 0 || Step(auth, config, ops[0]).None? then []
    else HandedBy(auth, config, ops[0], id) + Handed(Step(auth, config, ops[0]).value, config, ops[1..], id)
  }

  /** Nothing waits for a client that listens. */
  ghost predicate Drained(auth: Auth) {
    forall id | id in auth.streams :: Waiting(auth, id) == []
  }

  lemma StepHandsOn(auth: Auth, config: Config, op: Op, id: Id)
    requires Drained(auth) && Step(auth, config, op).Some?
    ensures var after := Step(auth, config, op).value;
            && Drained(after)
            && (id in after.steps && id in auth.steps ==>
                  HandedBy(auth, config, op, id) + Waiting(after, id)
                  == Waiting(auth, id) + AnswerTo(auth, config, op, id))
  {
    hide Answer;
    var after := Step(auth, config, op).value;
    forall other | other in after.streams
      ensures Waiting(after, other) == []
    {
      assert other in auth.streams ==> Waiting(auth, other) == [];
    }
  }

  lemma {:induction false} GoneStaysGone(auth: Auth, config: Config, ops: seq<Op>, id: Id)
    requires Run(auth, config, ops).Some? && id !in auth.steps && NeverBegun(ops, id)
    ensures id !in Run(auth, config, ops).value.steps
    decreases |ops|
  {
    if |ops| > 0 {
      assert ops[0] != Begin(id);
      assert forall i | 0 <= i < |ops[1..]| :: ops[1..][i] == ops[i + 1];
      GoneStaysGone(Step(auth, config, ops[0]).value, config, ops[1..], id);
    }
  }

  lemma Regroup(h: seq<AuthStep>, h': seq<AuthStep>, end: seq<AuthStep>, mid: seq<AuthStep>, start: seq<AuthStep>,
                a: seq<AuthStep>, a': seq<AuthStep>)
    ensures h + mid == start + a && h' + end == mid + a' ==> (h + h') + end == start + (a + a')
  {
    assert (h + h') + end == h + (h' + end);
    assert h + (mid + a') == (h + mid) + a';
    assert (start + a) + a' == start + (a + a');
  }

  /**
   * As long as a session lasts, every answer is handed to its stream or waits
   * for one, once and in order, however often streams are opened and closed.
   */
  lemma {:induction false} NoAnswerIsLost(auth: Auth, config: Config, ops: seq<Op>, id: Id)
    requires Drained(auth) && Healthy(auth, config) && id in auth.steps && NeverBegun(ops, id)
    ensures var end := Run(auth, config, ops);
            && end.Some?
            && (id in end.value.steps ==>
                  Handed(auth, config, ops, id) + Waiting(end.value, id)
                  == Waiting(auth, id) + Answers(auth, config, ops, id))
    decreases |ops|
  {
    hide Step, Healthy, Drained, HandedBy, AnswerTo, Waiting;
    RunKeepsHealthy(auth, config, ops);
    if |ops| > 0 {
      StepKeepsHealthy(auth, config, ops[0]);
      StepHandsOn(auth, config, ops[0], id);
      assert ops[0] != Begin(id);
      assert forall i | 0 <= i < |ops[1..]| :: ops[1..][i] == ops[i + 1];
      var next, rest := Step(auth, config, ops[0]).value, ops[1..];
      if id in next.steps {
        NoAnswerIsLost(next, config, rest, id);
      } else {
        GoneStaysGone(next, config, rest, id);
      }
      Regroup(HandedBy(auth, config, ops[0], id), Handed(next, config, rest, id),
              Waiting(Run(auth, config, ops).value, id), Waiting(next, id), Waiting(auth, id),
              AnswerTo(auth, config, ops[0], id), Answers(next, config, rest, id));
    }
  }

  /** Once a session was handed out, its id stays dead until the same id is drawn again. */
  lemma {:induction false} SessionEndsDialogue(auth: Auth, config: Config, ops: seq<Op>, id: Id)
    requires Healthy(auth, config) && id !in auth.steps && NeverBegun(ops, id)
    ensures var end := Run(auth, config, ops);
            && end.Some?
            && id !in end.value.steps
            && (forall reply, verdict :: Advance(end.value, config, id, reply, verdict) == Some((end.value, Err(InvalidAuthId))))
            && StepBack(end.value, id) == Some((end.value, Err(InvalidAuthId)))
    decreases |ops|
  {
    if |ops| > 0 {
      StepKeepsHealthy(auth, config, ops[0]);
      assert ops[0] != Begin(id);
      var next := Step(auth, config, ops[0]).value;
      assert id !in next.steps;
      assert forall i | 0 <= i < |ops[1..]| :: ops[1..][i] == ops[i + 1];
      SessionEndsDialogue(next, config, ops[1..], id);
    }
  }

  /** Handing out a session is what ends it. */
  lemma SessionIsRemoved(auth: Auth, config: Config, id: Id, reply: Reply, verdict: Verdict)
    requires Healthy(auth, config) && id in auth.steps
    ensures var r := Advance(auth, config, id, Some(reply), verdict);
            && r.Some?
            && (r.value.1.Ok? && r.value.1.value.dialog.Session? <==> id !in r.value.0.steps)
  {
    AdvanceKeepsHealthy(auth, config, id, Some(reply), verdict);
  }

  // ---- the service ----

  class AuthServer {
    const config: Config
    var stepMap: map<Id, Stack>
    var sendStep: set<Id>
    var queuedSteps: map<Id, seq<AuthStep>>

    ghost function View(): Auth
      reads this
    {
      Auth(stepMap, sendStep, queuedSteps)
    }

    constructor (config: Config)
      ensures View() == NoSessions
      ensures this.config == config
    {
      this.config := config;
      stepMap, sendStep, queuedSteps := map[], {}, map[];
    }

    method BeginAuth(id: Id)
      modifies this`stepMap
      ensures View() == Begun(old(View()), id)
    {
      stepMap := stepMap[id := [InitialStep()]];
    }

    method SendStep(id: Id, step: AuthStep)
      modifies this`queuedSteps
      ensures View() == Sent(old(View()), id, step)
    {
      if id !in sendStep {
        queuedSteps := queuedSteps[id := (if id in queuedSteps then queuedSteps[id] else []) + [step]];
      }
    }

    /** `next_step.rs`; the requirement is what its unchecked reads rely on. */
    method NextStep(id: Id, reply: Option<Reply>, verdict: Verdict) returns (r: Response)
      requires Healthy(View(), config)
      modifies this
      ensures Some((View(), r)) == Advance(old(View()), config, id, reply, verdict)
      ensures Healthy(View(), config)
    {
      AdvanceKeepsHealthy(View(), config, id, reply, verdict);
      if id !in stepMap {
        return Err(InvalidAuthId);
      }
      var stack := stepMap[id];
      var next;
      match reply {
        case None =>
          next := stack[|stack| - 1];
        case Some(step) =>
          var current := stack[|stack| - 1].dialog;
          match step {
            case ChoiceReply(choice) =>
              if !current.Choice? {
                return Err(WrongStep);
              }
              if choice !in current.options {
                return Err(NoSuchChoice);
              }
              var handled := HandleChoice(config, choice);
              if handled.Err? {
                return Err(handled.error);
              }
              next := handled.value;
            case FormReply(replies) =>
              if !current.Form? {
                return Err(WrongStep);
              }
              var values := HandleFieldsLoop(replies, current.fields);
              if values.Err? {
                return Err(values.error);
              }
              var outcome := FormHandler(config, current.title, values.value);
              if outcome.UnknownForm? {
                return Err(InvalidForm);
              }
              if TokenReady(config, current.title, values.value) && !verdict.token {
                return Err(Refused);
              }
              if outcome.extracted.None? {
                return Err(WrongTypeForField);
              }
              if !verdict.rest {
                return Err(Refused);
              }
              next := outcome.next;
          }
          stepMap := stepMap[id := stack + [next]];
      }
      SendStep(id, next);
      if next.dialog.Session? {
        stepMap := stepMap - {id};
        queuedSteps := queuedSteps - {id};
      }
      r := Ok(next);
    }

    /** `step_back.rs`. */
    method HandleStepBack(id: Id) returns (r: Response)
      requires Healthy(View(), config)
      modifies this
      ensures Some((View(), r)) == StepBack(old(View()), id)
      ensures Healthy(View(), config)
    {
      StepBackKeepsHealthy(View(), config, id);
      if id !in stepMap {
        return Err(InvalidAuthId);
      }
      LiveStack(config, stepMap[id]);
      var stack := stepMap[id];
      if stack[|stack| - 1].canGoBack {
        stack := stack[..|stack| - 1];
      }
      stepMap := stepMap[id := stack];
      var prev := stack[|stack| - 1];
      SendStep(id, prev);
      r := Ok(prev);
    }
  }
}
