/**
 * The reasoning loop (`run_agent` in api.py).  The loop asks the language
 * model for a reply, classifies it, runs the tool it names, reports the
 * result back as an observation, and stops on an answer or after twelve
 * replies.  The model, the search backend, the evaluator and the renderings
 * of results into text are the parameters bundled in `Env`.
 */
module Agent {
  import opened Options
  import opened Text
  import Calculator
  import WebSearch
  import opened Directives

  datatype Role = System | User | Assistant

  /** One entry of the transcript handed to the model. */
  datatype Message = Message(role: Role, content: string)

  const MaxSteps := 12
  /** From this many calculations on, each calculation adds a stop notice. */
  const CalcLimit := 4

  const SystemPrompt :=
    "You are a reasoning agent.\n"
    + "You have 2 tools: SEARCH and CALCULATE.\n\n"
    + "FORMAT:\n"
    + "Thought: ...\n"
    + "ACTION: SEARCH: <query>\n"
    + "OR\n"
    + "ACTION: CALCULATE: <expression>\n"
    + "OR\n"
    + "ANSWER: <final answer>\n\n"
    + "Rules:\n"
    + "- After you receive a successful calculation result, you MUST give ANSWER.\n"
    + "- Do not repeat calculations unnecessarily.\n"

  const ObservationPrefix := "OBSERVATION: "
  const FallbackPrefix := "Approx final value: "

  /**
   * The collaborators of a run: the model (`ollama.chat`, the reply text to
   * a transcript), the search backend, the evaluator behind `calculate`, and
   * the Python renderings f"{result}", f"{value}" and f"{value:.2f}".
   */
  datatype Env = Env(
    chat: seq<Message> -> string,
    searchBackend: (string, nat) -> WebSearch.Backend,
    eval: string -> Calculator.CalcResult,
    showResult: Calculator.CalcResult -> string,
    showValue: Calculator.Float -> string,
    showFixed2: Calculator.Float -> string)

  function Observation(text: string): Message {
    Message(User, ObservationPrefix + text)
  }

  /** The notice that follows a successful calculation. */
  function Succeeded(value: Calculator.Float, env: Env): Message {
    Observation("Calculation succeeded with value " + env.showValue(value)
                + ". Now you MUST provide ANSWER using this value.")
  }

  /** The notice that follows the fourth and every later calculation. */
  const EnoughCalculations := Observation("You have made enough calculations. Provide ANSWER now.")

  /** An injected observation: a user message starting "OBSERVATION: ". */
  predicate IsObservation(m: Message) {
    m.role == User && ObservationPrefix <= m.content
  }

  /** The loop's variables: `history`, `calc_count`, `search_count`, `last_calc_value`. */
  datatype RunState = RunState(
    history: seq<Message>,
    calcCount: nat,
    searchCount: nat,
    lastCalcValue: Option<Calculator.Float>)

  /** The transcript a run starts from: the system prompt, then the question. */
  function Opening(question: string): seq<Message> {
    [Message(System, SystemPrompt), Message(User, question)]
  }

  function Start(question: string): RunState {
    RunState(Opening(question), 0, 0, None)
  }

  /**
   * The observations the loop appends for a reply classified `d`, `calcs`
   * calculations having come before: for a search the search text; for a
   * calculation the result, the forced-answer notice when it succeeded, and
   * the stop notice from the fourth calculation on; nothing otherwise.
   */
  function ObservationsOf(d: Directive, calcs: nat, env: Env): seq<Message> {
    match d
    case Search(query) => [Observation(WebSearch.SearchWeb(query, env.searchBackend))]
    case Calculate(expression) =>
      var result := Calculator.Calculate(expression, env.eval);
      [Observation(env.showResult(result))]
      + (if result.Success? then [Succeeded(result.value, env)] else [])
      + (if calcs + 1 >= CalcLimit then [EnoughCalculations] else [])
    case _ => []
  }

  /**
   * The state after a reply classified `d` has been handled, the reply itself
   * being already in the transcript: its observations appended, its kind
   * counted, a successful value remembered.  Answers end the run and are not
   * handled.
   */
  function Handle(s: RunState, d: Directive, env: Env): RunState
    requires !d.Answer?
  {
    var history := s.history + ObservationsOf(d, s.calcCount, env);
    match d
    case Search(_) => s.(history := history, searchCount := s.searchCount + 1)
    case Calculate(expression) =>
      var result := Calculator.Calculate(expression, env.eval);
      RunState(history, s.calcCount + 1, s.searchCount, if result.Success? then Some(result.value) else s.lastCalcValue)
    case Think => s
  }

  /** How a run ends: its result, whether an answer reply ended it, its last state, and how often it asked the model. */
  datatype Outcome = Outcome(answer: Option<string>, answered: bool, final: RunState, chatCalls: nat)

  /** The result when no reply answered: the last successful value, rounded, or nothing. */
  function Fallback(last: Option<Calculator.Float>, env: Env): (r: Option<string>)
    ensures r.Some? <==> last.Some?
    ensures r.Some? ==> FallbackPrefix <= r.value
  {
    match last
    case Some(v) => Some(FallbackPrefix + env.showFixed2(v))
    case None => None
  }

  /** How a run reads the model: the reply to a transcript, its classification, and the run's collaborators. */
  datatype Reader = Reader(
    ask: seq<Message> -> string,
    classify: string -> Directive,
    env: Env)

  /** The reading `run_agent` does: the stripped reply, classified by `Parse`. */
  function ReaderOf(env: Env): Reader {
    Reader(h => Strip(env.chat(h)), Parse, env)
  }

  /**
   * The rest of a run from state `s` before step `step`, reading the model
   * with `rd`; the run itself reads with `ReaderOf(env)`.
   */
  function Continue(s: RunState, step: nat, rd: Reader, env: Env): Outcome
    requires step <= MaxSteps
    decreases MaxSteps - step
  {
    if step == MaxSteps then Outcome(Fallback(s.lastCalcValue, env), false, s, step)
    else
      var content := rd.ask(s.history);
      var replied := s.(history := s.history + [Message(Assistant, content)]);
      var d := rd.classify(content);
      if d.Answer? then Outcome(Some(d.text), true, replied, step + 1)
      else Continue(Handle(replied, d, env), step + 1, rd, env)
  }

  /** A step that handles a non-answer reply hands the rest of the run to the handled state. */
  lemma ContinueStep(s: RunState, step: nat, rd: Reader, env: Env, reply: string, d: Directive, t: RunState)
    requires step < MaxSteps && reply == rd.ask(s.history) && d == rd.classify(reply) && !d.Answer?
    requires t == Handle(s.(history := s.history + [Message(Assistant, reply)]), d, env)
    ensures Continue(t, step + 1, rd, env) == Continue(s, step, rd, env)
  {
  }

  /** The run for `question`. */
  function Run(question: string, env: Env): Outcome {
    Continue(Start(question), 0, ReaderOf(env), env)
  }

  /**
   * The tool branches of the loop body: run the tool a search or calculation
   * reply names, count it, and append its observations; a reasoning reply
   * changes nothing.
   */
  method Act(d: Directive, env: Env, history: seq<Message>, calcCount: nat, searchCount: nat, lastCalcValue: Option<Calculator.Float>)
    returns (history': seq<Message>, calcCount': nat, searchCount': nat, lastCalcValue': Option<Calculator.Float>)
    requires !d.Answer?
    ensures RunState(history', calcCount', searchCount', lastCalcValue')
      == Handle(RunState(history, calcCount, searchCount, lastCalcValue), d, env)
  {
    history', calcCount', searchCount', lastCalcValue' := history, calcCount, searchCount, lastCalcValue;
    if d.Search? {
      searchCount' := searchCount' + 1;
      var result := WebSearch.SearchWeb(d.query, env.searchBackend);
      history' := history' + [Observation(result)];
    } else if d.Calculate? {
      calcCount' := calcCount' + 1;
      var result := Calculator.Calculate(d.expression, env.eval);
      history' := history' + [Observation(env.showResult(result))];
      if result.Success? {
        lastCalcValue' := Some(result.value);
        history' := history' + [Succeeded(result.value, env)];
      }
      if calcCount' >= CalcLimit {
        history' := history' + [EnoughCalculations];
      }
    }
  }

  /** One model call of the loop body: the stripped reply to the transcript, and its classification. */
  method Ask(env: Env, history: seq<Message>) returns (content: string, d: Directive)
    ensures content == ReaderOf(env).ask(history) && d == ReaderOf(env).classify(content)
  {
    content := Strip(env.chat(history));
    d := Parse(content);
  }

  /** `run_agent(question)`; the transcript and the number of model calls are ghost results. */
  method RunAgent(question: string, env: Env) returns (answer: Option<string>, ghost transcript: seq<Message>, ghost chatCalls: nat)
    ensures answer == Run(question, env).answer
    ensures transcript == Run(question, env).final.history
    ensures chatCalls == Run(question, env).chatCalls
  {
    var history := Opening(question);
    var calcCount, searchCount := 0, 0;
    var lastCalcValue: Option<Calculator.Float> := None;
    var i := 0;
    while i < MaxSteps
      invariant 0 <= i <= MaxSteps
      invariant Continue(RunState(history, calcCount, searchCount, lastCalcValue), i, ReaderOf(env), env) == Run(question, env)
    {
      ghost var before := RunState(history, calcCount, searchCount, lastCalcValue);
      var content, d := Ask(env, history);
      history := history + [Message(Assistant, content)];
      if d.Answer? {
        answer, transcript, chatCalls := Some(d.text), history, i + 1;
        return;
      }
      history, calcCount, searchCount, lastCalcValue := Act(d, env, history, calcCount, searchCount, lastCalcValue);
      ContinueStep(before, i, ReaderOf(env), env, content, d, RunState(history, calcCount, searchCount, lastCalcValue));
      i := i + 1;
    }
    answer, transcript, chatCalls := Fallback(lastCalcValue, env), history, MaxSteps;
  }

  // ---------------------------------------------------------------------
  // The transcript, read back: replies, counters and the shape of each step.
  // ---------------------------------------------------------------------

  /** The assistant replies of a transcript, in order. */
  function Replies(h: seq<Message>): seq<string>
  {
    if h == [] then []
    else Replies(h[..|h| - 1]) + (if h[|h| - 1].role == Assistant then [h[|h| - 1].content] else [])
  }

  /** The number of replies classified as a calculation. */
  function Calcs(rs: seq<string>, rd: Reader): nat {
    if rs == [] then 0 else Calcs(rs[..|rs| - 1], rd) + (if rd.classify(rs[|rs| - 1]).Calculate? then 1 else 0)
  }

  /** The number of replies classified as a search. */
  function Searches(rs: seq<string>, rd: Reader): nat {
    if rs == [] then 0 else Searches(rs[..|rs| - 1], rd) + (if rd.classify(rs[|rs| - 1]).Search? then 1 else 0)
  }

  predicate NoAnswer(rs: seq<string>, rd: Reader) {
    forall j :: 0 <= j < |rs| ==> !rd.classify(rs[j]).Answer?
  }

  /** The value of the most recent reply whose calculation succeeded, if any. */
  function LastSuccess(rs: seq<string>, rd: Reader): Option<Calculator.Float> {
    if rs == [] then None
    else
      var d := rd.classify(rs[|rs| - 1]);
      if d.Calculate? && Calculator.Calculate(d.expression, rd.env.eval).Success? then
        Some(Calculator.Calculate(d.expression, rd.env.eval).value)
      else LastSuccess(rs[..|rs| - 1], rd)
  }

  /**
   * `block` is the step after `prefix`, `calcs` calculations having come
   * before: the reply to `prefix`, then exactly the observations that reply
   * calls for.
   */
  predicate IsStep(prefix: seq<Message>, reply: string, block: seq<Message>, calcs: nat, rd: Reader) {
    && reply == rd.ask(prefix)
    && block == [Message(Assistant, reply)] + ObservationsOf(rd.classify(reply), calcs, rd.env)
  }

  /** The transcript `h` is `opening` followed by one step per reply of `rs`, in order. */
  predicate Steps(opening: seq<Message>, h: seq<Message>, rs: seq<string>, rd: Reader)
    decreases |rs|
  {
    if rs == [] then h == opening
    else
      var init := rs[..|rs| - 1];
      var n := 1 + |ObservationsOf(rd.classify(rs[|rs| - 1]), Calcs(init, rd), rd.env)|;
      && n <= |h|
      && IsStep(h[..|h| - n], rs[|rs| - 1], h[|h| - n..], Calcs(init, rd), rd)
      && Steps(opening, h[..|h| - n], init, rd)
  }

  /** A transcript made of steps begins with the opening it was made from. */
  lemma {:induction false} StepsStartWithOpening(opening: seq<Message>, h: seq<Message>, rs: seq<string>, rd: Reader)
    requires Steps(opening, h, rs, rd)
    ensures opening <= h
    decreases |rs|
  {
    if rs != [] {
      var n := 1 + |ObservationsOf(rd.classify(rs[|rs| - 1]), Calcs(rs[..|rs| - 1], rd), rd.env)|;
      StepsStartWithOpening(opening, h[..|h| - n], rs[..|rs| - 1], rd);
    }
  }

  /** Appending one more step keeps the transcript made of whole steps, one per reply. */
  lemma StepsGrow(opening: seq<Message>, h: seq<Message>, rs: seq<string>, r: string, block: seq<Message>, rd: Reader)
    requires Steps(opening, h, rs, rd)
    requires IsStep(h, r, block, Calcs(rs, rd), rd)
    ensures Steps(opening, h + block, rs + [r], rd)
  {
    var t := h + block;
    var rs' := rs + [r];
    assert rs'[..|rs|] == rs;
    assert rs'[|rs|] == r;
    assert t[..|t| - |block|] == h;
    assert t[|t| - |block|..] == block;
  }

  lemma RepliesAppendObservations(h: seq<Message>, obs: seq<Message>)
    requires forall j :: 0 <= j < |obs| ==> obs[j].role != Assistant
    ensures Replies(h + obs) == Replies(h)
    decreases |obs|
  {
    if obs != [] {
      var init := obs[..|obs| - 1];
      assert (h + obs)[..|h + obs| - 1] == h + init;
      RepliesAppendObservations(h, init);
    } else {
      assert h + obs == h;
    }
  }

  lemma RepliesAppendReply(h: seq<Message>, reply: string)
    ensures Replies(h + [Message(Assistant, reply)]) == Replies(h) + [reply]
  {
    assert (h + [Message(Assistant, reply)])[..|h|] == h;
  }

  lemma CountsAppend(rs: seq<string>, r: string, rd: Reader)
    ensures Calcs(rs + [r], rd) == Calcs(rs, rd) + (if rd.classify(r).Calculate? then 1 else 0)
    ensures Searches(rs + [r], rd) == Searches(rs, rd) + (if rd.classify(r).Search? then 1 else 0)
    ensures LastSuccess(rs + [r], rd) ==
      if rd.classify(r).Calculate? && Calculator.Calculate(rd.classify(r).expression, rd.env.eval).Success?
      then Some(Calculator.Calculate(rd.classify(r).expression, rd.env.eval).value)
      else LastSuccess(rs, rd)
  {
    assert (rs + [r])[..|rs|] == rs;
  }

  /**
   * Handling a non-answer reply appends exactly the observations its kind
   * calls for: the search text for a search; for a calculation the result, then the
   * forced-answer notice when it succeeded, then the stop notice from the
   * fourth calculation on; none for reasoning.
   */
  lemma HandleObservations(s: RunState, d: Directive, env: Env)
    requires !d.Answer?
    ensures var h := Handle(s, d, env).history;
      && |s.history| <= |h| && h[..|s.history|] == s.history
      && |h| - |s.history| == (match d
           case Search(_) => 1
           case Calculate(e) =>
             1 + (if Calculator.Calculate(e, env.eval).Success? then 1 else 0)
             + (if s.calcCount + 1 >= CalcLimit then 1 else 0)
           case _ => 0)
      && (forall j :: |s.history| <= j < |h| ==> IsObservation(h[j]))
      && (d.Search? ==> h[|s.history|] == Observation(WebSearch.SearchWeb(d.query, env.searchBackend)))
      && (d.Calculate? ==>
            var result := Calculator.Calculate(d.expression, env.eval);
            && h[|s.history|] == Observation(env.showResult(result))
            && (result.Success? ==> h[|s.history| + 1] == Succeeded(result.value, env))
            && (s.calcCount + 1 >= CalcLimit ==> h[|h| - 1] == EnoughCalculations))
  {
    assert ObservationPrefix <= ObservationPrefix + "You have made enough calculations. Provide ANSWER now.";
  }

  /** Handling a reply counts it under its kind and remembers a successful value. */
  lemma HandleCounters(s: RunState, d: Directive, env: Env)
    requires !d.Answer?
    ensures var t := Handle(s, d, env);
      && t.calcCount == s.calcCount + (if d.Calculate? then 1 else 0)
      && t.searchCount == s.searchCount + (if d.Search? then 1 else 0)
      && t.lastCalcValue ==
           if d.Calculate? && Calculator.Calculate(d.expression, env.eval).Success?
           then Some(Calculator.Calculate(d.expression, env.eval).value)
           else s.lastCalcValue
  {
  }

  /** What holds of the state before step `step` of a run that started from `opening`. */
  ghost predicate Reached(opening: seq<Message>, s: RunState, step: nat, rd: Reader) {
    var rs := Replies(s.history);
    && Steps(opening, s.history, rs, rd)
    && |rs| == step
    && s.calcCount == Calcs(rs, rd) && s.searchCount == Searches(rs, rd)
    && s.lastCalcValue == LastSuccess(rs, rd)
    && NoAnswer(rs, rd)
  }

  lemma StartReached(question: string, rd: Reader)
    ensures Reached(Opening(question), Start(question), 0, rd)
  {
    var h := Opening(question);
    assert h[..1] == [Message(System, SystemPrompt)];
    assert Replies(h[..1]) == Replies([]) == [];
    assert Replies(h) == [];
  }

  /** Observations are user messages, never replies. */
  lemma ObservationsAreNotReplies(d: Directive, calcs: nat, env: Env)
    ensures var obs := ObservationsOf(d, calcs, env);
      forall j :: 0 <= j < |obs| ==> obs[j].role != Assistant
  {
  }

  /** A reply and its observations, appended, form one more step of the transcript. */
  lemma NextSteps(opening: seq<Message>, h: seq<Message>, reply: string, obs: seq<Message>, rd: Reader)
    requires Steps(opening, h, Replies(h), rd)
    requires reply == rd.ask(h)
    requires obs == ObservationsOf(rd.classify(reply), Calcs(Replies(h), rd), rd.env)
    ensures Replies(h + [Message(Assistant, reply)] + obs) == Replies(h) + [reply]
    ensures Steps(opening, h + [Message(Assistant, reply)] + obs, Replies(h) + [reply], rd)
  {
    var block := [Message(Assistant, reply)] + obs;
    assert h + [Message(Assistant, reply)] + obs == h + block;
    assert IsStep(h, reply, block, Calcs(Replies(h), rd), rd);
    StepsGrow(opening, h, Replies(h), reply, block, rd);
    RepliesAppendReply(h, reply);
    ObservationsAreNotReplies(rd.classify(reply), Calcs(Replies(h), rd), rd.env);
    RepliesAppendObservations(h + [Message(Assistant, reply)], obs);
  }

  /** A state whose transcript grew by one reply and its observations, its counters by that reply, is reached one step later. */
  lemma NextReached(opening: seq<Message>, s: RunState, step: nat, reply: string, obs: seq<Message>, t: RunState, rd: Reader)
    requires Reached(opening, s, step, rd)
    requires reply == rd.ask(s.history) && !rd.classify(reply).Answer?
    requires obs == ObservationsOf(rd.classify(reply), s.calcCount, rd.env)
    requires t.history == s.history + [Message(Assistant, reply)] + obs
    requires t.calcCount == s.calcCount + (if rd.classify(reply).Calculate? then 1 else 0)
    requires t.searchCount == s.searchCount + (if rd.classify(reply).Search? then 1 else 0)
    requires t.lastCalcValue ==
      if rd.classify(reply).Calculate? && Calculator.Calculate(rd.classify(reply).expression, rd.env.eval).Success?
      then Some(Calculator.Calculate(rd.classify(reply).expression, rd.env.eval).value)
      else s.lastCalcValue
    ensures Reached(opening, t, step + 1, rd)
  {
    var rs := Replies(s.history);
    NextSteps(opening, s.history, reply, obs, rd);
    CountsAppend(rs, reply, rd);
  }

  /** A handled step leads from one reached state to the next. */
  lemma HandleReached(opening: seq<Message>, s: RunState, step: nat, reply: string, d: Directive, env: Env, rd: Reader)
    requires Reached(opening, s, step, rd) && rd.env == env
    requires reply == rd.ask(s.history) && d == rd.classify(reply) && !d.Answer?
    ensures Reached(opening, Handle(s.(history := s.history + [Message(Assistant, reply)]), d, env), step + 1, rd)
  {
    var replied := s.(history := s.history + [Message(Assistant, reply)]);
    var next := Handle(replied, d, env);
    HandleCounters(replied, d, env);
    var obs := ObservationsOf(d, s.calcCount, env);
    assert next.history == replied.history + obs;
    NextReached(opening, s, step, reply, obs, next, rd);
  }

  /** The answer step also extends the transcript by one whole step: the reply alone. */
  lemma AnswerReached(opening: seq<Message>, s: RunState, step: nat, reply: string, rd: Reader)
    requires Reached(opening, s, step, rd)
    requires reply == rd.ask(s.history) && rd.classify(reply).Answer?
    ensures var h := s.history + [Message(Assistant, reply)];
      && Steps(opening, h, Replies(h), rd)
      && Replies(h) == Replies(s.history) + [reply]
  {
    assert IsStep(s.history, reply, [Message(Assistant, reply)], Calcs(Replies(s.history), rd), rd);
    StepsGrow(opening, s.history, Replies(s.history), reply, [Message(Assistant, reply)], rd);
    RepliesAppendReply(s.history, reply);
  }

  /** Everything the outcome of a run that started from `opening` satisfies. */
  ghost predicate Concluded(opening: seq<Message>, o: Outcome, rd: Reader, env: Env) {
    var h := o.final.history;
    var rs := Replies(h);
    && opening <= h
    && Steps(opening, h, rs, rd)
    && o.chatCalls == |rs| && 1 <= |rs| <= MaxSteps
    && o.final.calcCount == Calcs(rs, rd) && o.final.searchCount == Searches(rs, rd)
    && NoAnswer(rs[..|rs| - 1], rd)
    && (o.answered <==> rd.classify(rs[|rs| - 1]).Answer?)
    && (o.answered ==> o.answer == Some(rd.classify(rs[|rs| - 1]).text) && h[|h| - 1] == Message(Assistant, rs[|rs| - 1]))
    && (!o.answered ==> |rs| == MaxSteps && o.answer == Fallback(LastSuccess(rs, rd), env))
  }

  /** A run that reaches the step limit ends unanswered, with the fallback. */
  lemma LimitConcludes(opening: seq<Message>, s: RunState, rd: Reader, env: Env)
    requires Reached(opening, s, MaxSteps, rd)
    ensures Concluded(opening, Outcome(Fallback(s.lastCalcValue, env), false, s, MaxSteps), rd, env)
  {
    var rs := Replies(s.history);
    assert rs == rs[..|rs| - 1] + [rs[|rs| - 1]];
    StepsStartWithOpening(opening, s.history, rs, rd);
  }

  /** A run whose next reply is an answer ends with that reply's payload. */
  lemma AnswerConcludes(opening: seq<Message>, s: RunState, step: nat, rd: Reader, env: Env)
    requires Reached(opening, s, step, rd) && step < MaxSteps
    requires rd.classify(rd.ask(s.history)).Answer?
    ensures var reply := rd.ask(s.history);
      Concluded(opening, Outcome(Some(rd.classify(reply).text), true, s.(history := s.history + [Message(Assistant, reply)]), step + 1), rd, env)
  {
    var rs := Replies(s.history);
    var reply := rd.ask(s.history);
    var h := s.history + [Message(Assistant, reply)];
    AnswerReached(opening, s, step, reply, rd);
    assert (rs + [reply])[..|rs|] == rs;
    StepsStartWithOpening(opening, h, Replies(h), rd);
  }

  lemma {:induction false} ContinueConcludes(opening: seq<Message>, s: RunState, step: nat, rd: Reader, env: Env)
    requires step <= MaxSteps && Reached(opening, s, step, rd) && rd.env == env
    ensures Concluded(opening, Continue(s, step, rd, env), rd, env)
    decreases MaxSteps - step
  {
    if step == MaxSteps {
      LimitConcludes(opening, s, rd, env);
    } else {
      var reply := rd.ask(s.history);
      var d := rd.classify(reply);
      var h := s.history + [Message(Assistant, reply)];
      if d.Answer? {
        AnswerConcludes(opening, s, step, rd, env);
      } else {
        HandleReached(opening, s, step, reply, d, env, rd);
        ContinueConcludes(opening, Handle(s.(history := h), d, env), step + 1, rd, env);
      }
    }
  }

  lemma RunConcludes(question: string, env: Env)
    ensures Concluded(Opening(question), Run(question, env), ReaderOf(env), env)
  {
    StartReached(question, ReaderOf(env));
    ContinueConcludes(Opening(question), Start(question), 0, ReaderOf(env), env);
  }

  // ---------------------------------------------------------------------
  // What `run_agent` promises, stated on the run for a question
  // ---------------------------------------------------------------------

  /** The reply `r` asked for a calculation and the calculation succeeded. */
  predicate Succeeds(r: string, rd: Reader) {
    rd.classify(r).Calculate? && Calculator.Calculate(rd.classify(r).expression, rd.env.eval).Success?
  }

  /**
   * `last_calc_value` is overwritten on every success: it is empty exactly
   * when no reply succeeded, and otherwise holds the value of the latest
   * reply that did.
   */
  lemma {:induction false} LastSuccessIsLatest(rs: seq<string>, rd: Reader)
    ensures LastSuccess(rs, rd).None? <==> forall j :: 0 <= j < |rs| ==> !Succeeds(rs[j], rd)
    ensures LastSuccess(rs, rd).Some? ==>
      exists j :: 0 <= j < |rs| && Succeeds(rs[j], rd)
        && LastSuccess(rs, rd).value == Calculator.Calculate(rd.classify(rs[j]).expression, rd.env.eval).value
        && forall k :: j < k < |rs| ==> !Succeeds(rs[k], rd)
    decreases |rs|
  {
    if rs != [] {
      var init := rs[..|rs| - 1];
      LastSuccessIsLatest(init, rd);
      assert forall j :: 0 <= j < |init| ==> init[j] == rs[j];
      if !Succeeds(rs[|rs| - 1], rd) && LastSuccess(init, rd).Some? {
        var j :| 0 <= j < |init| && Succeeds(init[j], rd)
          && LastSuccess(init, rd).value == Calculator.Calculate(rd.classify(init[j]).expression, rd.env.eval).value
          && forall k :: j < k < |init| ==> !Succeeds(init[k], rd);
        assert forall k :: j < k < |rs| ==> !Succeeds(rs[k], rd);
      }
    }
  }

  /** No more replies are counted than were received. */
  lemma {:induction false} CountsBounded(rs: seq<string>, rd: Reader)
    ensures Calcs(rs, rd) + Searches(rs, rd) <= |rs|
    ensures Calcs(rs, rd) == 0 <==> forall j :: 0 <= j < |rs| ==> !rd.classify(rs[j]).Calculate?
    ensures Searches(rs, rd) == 0 <==> forall j :: 0 <= j < |rs| ==> !rd.classify(rs[j]).Search?
    decreases |rs|
  {
    if rs != [] {
      var init := rs[..|rs| - 1];
      CountsBounded(init, rd);
      assert forall j :: 0 <= j < |init| ==> init[j] == rs[j];
    }
  }

  /**
   * The transcript of a run starts with the system prompt and the question;
   * after that, each reply of the model to the transcript so far is followed
   * by exactly the observations its kind calls for.
   */
  lemma TranscriptShape(question: string, env: Env)
    ensures var h := Run(question, env).final.history;
      && [Message(System, SystemPrompt), Message(User, question)] <= h
      && Steps(Opening(question), h, Replies(h), ReaderOf(env))
  {
    RunConcludes(question, env);
  }

  /**
   * The model is asked at most twelve times and at least once, once per
   * reply; the counters end equal to the number of replies classified as a
   * calculation and as a search.
   */
  lemma CountersMatchReplies(question: string, env: Env)
    ensures var o := Run(question, env);
      var rs := Replies(o.final.history);
      && 1 <= o.chatCalls == |rs| <= MaxSteps
      && o.final.calcCount == Calcs(rs, ReaderOf(env))
      && o.final.searchCount == Searches(rs, ReaderOf(env))
      && o.final.calcCount + o.final.searchCount <= o.chatCalls
  {
    RunConcludes(question, env);
    CountsBounded(Replies(Run(question, env).final.history), ReaderOf(env));
  }

  /** The payload an answer reply carries. */
  lemma AnswerText(r: string)
    requires Parse(r).Answer?
    ensures Contains(r, AnswerMarker) && Parse(r).text == AnswerPayload(r)
  {
  }

  /** Every earlier reply is a non-answer, and an answered run ends on its answer. */
  lemma ConcludedAnswer(opening: seq<Message>, o: Outcome, rd: Reader, env: Env)
    requires Concluded(opening, o, rd, env)
    ensures var h := o.final.history;
      var rs := Replies(h);
      && |rs| >= 1
      && (forall j :: 0 <= j < |rs| - 1 ==> !rd.classify(rs[j]).Answer?)
      && (o.answered <==> rd.classify(rs[|rs| - 1]).Answer?)
      && (o.answered ==>
            && o.answer == Some(rd.classify(rs[|rs| - 1]).text)
            && h[|h| - 1] == Message(Assistant, rs[|rs| - 1]))
      && (!o.answered ==>
            && |rs| == MaxSteps && o.chatCalls == MaxSteps
            && (forall j :: 0 <= j < |rs| ==> !rd.classify(rs[j]).Answer?)
            && o.answer == Fallback(LastSuccess(rs, rd), env)
            && (o.answer.None? <==> forall j :: 0 <= j < |rs| ==> !Succeeds(rs[j], rd)))
  {
    var rs := Replies(o.final.history);
    assert forall j :: 0 <= j < |rs| - 1 ==> rs[..|rs| - 1][j] == rs[j];
    LastSuccessIsLatest(rs, rd);
  }

  /**
   * A run ends answered exactly when its last reply is an answer, and no
   * earlier reply is one: the first answer ends the run, nothing follows it
   * in the transcript, and the result is that answer's payload.
   */
  lemma AnswerStopsRun(question: string, env: Env)
    ensures var o := Run(question, env);
      var h := o.final.history;
      var rs := Replies(h);
      && |rs| >= 1
      && (forall j :: 0 <= j < |rs| - 1 ==> !Parse(rs[j]).Answer?)
      && (o.answered <==> Parse(rs[|rs| - 1]).Answer?)
      && (o.answered ==>
            && Contains(rs[|rs| - 1], AnswerMarker)
            && o.answer == Some(AnswerPayload(rs[|rs| - 1]))
            && h[|h| - 1] == Message(Assistant, rs[|rs| - 1]))
  {
    RunConcludes(question, env);
    var o := Run(question, env);
    var rs := Replies(o.final.history);
    ConcludedAnswer(Opening(question), o, ReaderOf(env), env);
    if o.answered {
      AnswerText(rs[|rs| - 1]);
    }
  }

  /**
   * A run that never answers asks the model twelve times and returns the
   * fallback: "Approx final value: " and the latest successful value, or
   * nothing when no calculation succeeded.
   */
  lemma ExhaustedFallback(question: string, env: Env)
    ensures var o := Run(question, env);
      var rs := Replies(o.final.history);
      !o.answered ==>
        && |rs| == MaxSteps && o.chatCalls == MaxSteps
        && (forall j :: 0 <= j < |rs| ==> !Parse(rs[j]).Answer?)
        && o.answer == Fallback(LastSuccess(rs, ReaderOf(env)), env)
        && (o.answer.None? <==> forall j :: 0 <= j < |rs| ==> !Succeeds(rs[j], ReaderOf(env)))
  {
    RunConcludes(question, env);
    ConcludedAnswer(Opening(question), Run(question, env), ReaderOf(env), env);
  }
}
