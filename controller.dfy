/** What `main` does once a task is chosen (src/main.rs:172-204) and the
    prompt of `confirm_task` (src/main.rs:219-251). Running the command is a
    parameter: `statuses` lists whether each successive run succeeded. Key
    presses come from `keys`, shared by the menu and the prompt. When either
    list runs out, the session ends there. */
module Controller {
  import opened Entities
  import Navigation

  /** The command-line options (src/main.rs:32-46). */
  datatype Opts = Opts(confirm: bool, clear: bool, loopMode: bool)

  /** `NextAction` (src/main.rs:116-121). */
  datatype NextAction = Continue | Exit | SelectTask | RepeatTask

  /** Whether `main` asks what to do after a run: when it failed, or when
      the task or the options ask for confirmation. */
  predicate ShowPrompt(success: bool, task: Task, opts: Opts) {
    !success || task.confirm || opts.confirm
  }

  /** `format_status_line` without the text of the exit status. */
  datatype Status = Completed(name: string) | Failed(name: string)

  function StatusOf(task: Task, success: bool): (r: Status)
    ensures r.name == task.name
    ensures r.Completed? <==> success
  {
    if success then Completed(task.name) else Failed(task.name)
  }

  // -------------------------------------------------------------- the prompt

  /** The action a key press selects at the prompt, or `None` for the keys
      the prompt ignores. */
  function PromptAction(code: Navigation.KeyCode): (r: Option<NextAction>)
    ensures r == Some(Continue) <==> code == Navigation.Enter
    ensures r == Some(Exit) <==> code == Navigation.Char('q') || code == Navigation.Esc
    ensures r == Some(RepeatTask) <==> code == Navigation.Char('r')
    ensures r == Some(SelectTask) <==> code == Navigation.Char('s')
  {
    match code
    case Enter => Some(Continue)
    case Esc => Some(Exit)
    case Char(c) =>
      if c == 'q' then Some(Exit)
      else if c == 'r' then Some(RepeatTask)
      else if c == 's' then Some(SelectTask)
      else None
    case _ => None
  }

  /** What the prompt answers to `keys`: the action of the first key it acts
      on and the keys after that one, or `None` and no keys left when it
      acts on none of them. */
  function Answer(keys: seq<Navigation.KeyEvent>): (r: (Option<NextAction>, seq<Navigation.KeyEvent>))
    ensures r.0.None? ==> r.1 == [] && forall i :: 0 <= i < |keys| ==> PromptAction(keys[i].code).None?
    ensures r.0.Some? ==> (|r.1| < |keys| && r.1 == keys[|keys| - |r.1|..] &&
              PromptAction(keys[|keys| - |r.1| - 1].code) == r.0 &&
              forall i :: 0 <= i < |keys| - |r.1| - 1 ==> PromptAction(keys[i].code).None?)
    decreases |keys|
  {
    if keys == [] then (None, [])
    else
      match PromptAction(keys[0].code)
      case Some(a) => (Some(a), keys[1..])
      case None =>
        var r := Answer(keys[1..]);
        assert r.0.Some? ==> keys[1..][|keys| - 1 - |r.1|..] == keys[|keys| - |r.1|..];
        r
  }

  /** The key loop of `confirm_task`. */
  method ConfirmTask(keys: seq<Navigation.KeyEvent>) returns (action: Option<NextAction>, rest: seq<Navigation.KeyEvent>)
    ensures (action, rest) == Answer(keys)
  {
    var i := 0;
    while i < |keys|
      invariant 0 <= i <= |keys|
      invariant Answer(keys[i..]) == Answer(keys)
    {
      assert keys[i..][0] == keys[i] && keys[i..][1..] == keys[i + 1..];
      match PromptAction(keys[i].code) {
        case Some(a) =>
          return Some(a), keys[i + 1..];
        case None =>
      }
      i := i + 1;
    }
    return None, [];
  }

  // ------------------------------------------------------------ the decision

  /** How a run ended: no prompt, a prompt answered with an action, or a
      prompt still waiting when the keys ran out. */
  datatype Prompt = NoPrompt | Answered(action: NextAction) | Unanswered

  /** Where the labelled loops of `main` go after a run: back to the menu
      (`continue 'select_loop`), the same task again (`continue 'task_loop`)
      or out of the program (`break 'select_loop`). */
  datatype Decision = Reselect | Repeat | Leave

  /** Outside loop mode only `s` brings the menu back; in loop mode only
      `q`, Esc or a prompt left unanswered end the session; only `r` runs
      the task again. */
  function Decide(p: Prompt, loopMode: bool): (r: Decision)
    ensures !loopMode ==> (r == Reselect <==> p == Answered(SelectTask))
    ensures loopMode ==> (r == Leave <==> p == Answered(Exit) || p == Unanswered)
    ensures r == Repeat <==> p == Answered(RepeatTask)
  {
    match p
    case NoPrompt => if loopMode then Reselect else Leave
    case Answered(Continue) => if loopMode then Reselect else Leave
    case Answered(Exit) => Leave
    case Answered(RepeatTask) => Repeat
    case Answered(SelectTask) => Reselect
    case Unanswered => Leave
  }

  /** Without a prompt the loops go back to the menu in loop mode and leave
      otherwise. The prompt keys, seen from the loops: Enter does the same;
      `q` and Esc leave, in loop mode too; `r` runs the same task again;
      `s` goes back to the menu. */
  lemma KeyDecides(code: Navigation.KeyCode, loopMode: bool)
    requires PromptAction(code).Some?
    ensures Decide(NoPrompt, loopMode) == (if loopMode then Reselect else Leave)
    ensures code == Navigation.Enter ==> Decide(Answered(PromptAction(code).value), loopMode) == (if loopMode then Reselect else Leave)
    ensures code in {Navigation.Char('q'), Navigation.Esc} ==> Decide(Answered(PromptAction(code).value), loopMode) == Leave
    ensures code == Navigation.Char('r') ==> Decide(Answered(PromptAction(code).value), loopMode) == Repeat
    ensures code == Navigation.Char('s') ==> Decide(Answered(PromptAction(code).value), loopMode) == Reselect
  {
  }

  // ----------------------------------------------------------- the session

  /** One run of a task: whether it succeeded and how the prompt went. */
  datatype Run = Run(task: Task, success: bool, prompt: Prompt)

  /** The prompt after a run, and the keys left after it. */
  function AfterRun(task: Task, success: bool, opts: Opts, keys: seq<Navigation.KeyEvent>): (r: (Prompt, seq<Navigation.KeyEvent>))
    ensures r.0.NoPrompt? <==> !ShowPrompt(success, task, opts)
    ensures r.0.NoPrompt? ==> r.1 == keys
    ensures r.0.Answered? ==> Answer(keys).0 == Some(r.0.action)
    ensures r.0.Unanswered? ==> Answer(keys).0.None?
    ensures !r.0.NoPrompt? ==> r.1 == Answer(keys).1
  {
    if !ShowPrompt(success, task, opts) then (NoPrompt, keys)
    else
      var (a, rest) := Answer(keys);
      if a.Some? then (Answered(a.value), rest) else (Unanswered, rest)
  }

  /** The runs of a session: from the menu when `current` is `None`, or
      from a run of `current.value`. */
  function Drive(root: Group, opts: Opts, keys: seq<Navigation.KeyEvent>, statuses: seq<bool>, current: Option<Task>): seq<Run>
    decreases |statuses|, if current.Some? then 0 else 1
  {
    match current
    case None =>
      var s := Navigation.Navigate([root], None, keys);
      if s.selection.Chosen? then Drive(root, opts, s.rest, statuses, Some(s.selection.task)) else []
    case Some(task) =>
      if statuses == [] then []
      else
        var (prompt, rest) := AfterRun(task, statuses[0], opts, keys);
        var run := Run(task, statuses[0], prompt);
        match Decide(prompt, opts.loopMode)
        case Leave => [run]
        case Repeat => [run] + Drive(root, opts, rest, statuses[1..], Some(task))
        case Reselect => [run] + Drive(root, opts, rest, statuses[1..], None)
  }

  /** One run of `task`, then what its decision leads to. */
  lemma DriveRun(root: Group, opts: Opts, keys: seq<Navigation.KeyEvent>, statuses: seq<bool>, task: Task)
    requires statuses != []
    ensures var (prompt, rest) := AfterRun(task, statuses[0], opts, keys);
      Drive(root, opts, keys, statuses, Some(task)) ==
        [Run(task, statuses[0], prompt)] +
        match Decide(prompt, opts.loopMode)
        case Leave => []
        case Repeat => Drive(root, opts, rest, statuses[1..], Some(task))
        case Reselect => Drive(root, opts, rest, statuses[1..], None)
  {
    var (prompt, rest) := AfterRun(task, statuses[0], opts, keys);
    assert [Run(task, statuses[0], prompt)] + [] == [Run(task, statuses[0], prompt)];
  }

  /** The menu, then the runs of the task it returns. */
  lemma DriveMenu(root: Group, opts: Opts, keys: seq<Navigation.KeyEvent>, statuses: seq<bool>)
    ensures var s := Navigation.Navigate([root], None, keys);
      Drive(root, opts, keys, statuses, None) ==
        if s.selection.Chosen? then Drive(root, opts, s.rest, statuses, Some(s.selection.task)) else []
  {
  }

  /** What every session satisfies: the runs take the exit statuses in
      order; every task run is a task of the tree; the prompt is shown
      exactly when `ShowPrompt` says so; only the last run can end the
      session; a run answered with "repeat" is followed by the same task. */
  lemma {:induction false} DriveSound(root: Group, opts: Opts, keys: seq<Navigation.KeyEvent>, statuses: seq<bool>, current: Option<Task>)
    requires current.Some? ==> current.value in TreeTasks(root)
    ensures |Drive(root, opts, keys, statuses, current)| <= |statuses|
    ensures forall i :: 0 <= i < |Drive(root, opts, keys, statuses, current)| ==>
              Drive(root, opts, keys, statuses, current)[i].success == statuses[i]
    ensures forall i :: 0 <= i < |Drive(root, opts, keys, statuses, current)| ==>
              Drive(root, opts, keys, statuses, current)[i].task in TreeTasks(root)
    ensures forall i :: 0 <= i < |Drive(root, opts, keys, statuses, current)| ==>
              (Drive(root, opts, keys, statuses, current)[i].prompt.NoPrompt? <==>
               !ShowPrompt(statuses[i], Drive(root, opts, keys, statuses, current)[i].task, opts))
    ensures forall i :: 0 <= i < |Drive(root, opts, keys, statuses, current)| - 1 ==>
              Decide(Drive(root, opts, keys, statuses, current)[i].prompt, opts.loopMode) != Leave
    ensures forall i :: (0 <= i < |Drive(root, opts, keys, statuses, current)| - 1 &&
              Decide(Drive(root, opts, keys, statuses, current)[i].prompt, opts.loopMode) == Repeat) ==>
              Drive(root, opts, keys, statuses, current)[i + 1].task == Drive(root, opts, keys, statuses, current)[i].task
    ensures current.Some? && statuses != [] ==> Drive(root, opts, keys, statuses, current)[0].task == current.value
    decreases |statuses|, if current.Some? then 0 else 1
  {
    match current
    case None =>
      var s := Navigation.Navigate([root], None, keys);
      Navigation.NavigateSound(root, [root], None, keys);
      if s.selection.Chosen? {
        DriveSound(root, opts, s.rest, statuses, Some(s.selection.task));
      }
    case Some(task) =>
      if statuses != [] {
        var (prompt, rest) := AfterRun(task, statuses[0], opts, keys);
        var run := Run(task, statuses[0], prompt);
        var runs := Drive(root, opts, keys, statuses, current);
        match Decide(prompt, opts.loopMode)
        case Leave =>
        case Repeat =>
          var tail := Drive(root, opts, rest, statuses[1..], Some(task));
          DriveSound(root, opts, rest, statuses[1..], Some(task));
          assert runs == [run] + tail;
          TailProperties(run, tail, runs, statuses, opts, root);
        case Reselect =>
          var tail := Drive(root, opts, rest, statuses[1..], None);
          DriveSound(root, opts, rest, statuses[1..], None);
          assert runs == [run] + tail;
          TailProperties(run, tail, runs, statuses, opts, root);
      }
  }

  /** The properties of `DriveSound` carried from the runs after the first
      one to all of them. */
  lemma TailProperties(run: Run, tail: seq<Run>, runs: seq<Run>, statuses: seq<bool>, opts: Opts, root: Group)
    requires statuses != [] && runs == [run] + tail && run.success == statuses[0]
    requires run.task in TreeTasks(root) && (run.prompt.NoPrompt? <==> !ShowPrompt(statuses[0], run.task, opts))
    requires Decide(run.prompt, opts.loopMode) != Leave
    requires Decide(run.prompt, opts.loopMode) == Repeat && tail != [] ==> tail[0].task == run.task
    requires |tail| <= |statuses| - 1
    requires forall i :: 0 <= i < |tail| ==> tail[i].success == statuses[1..][i]
    requires forall i :: 0 <= i < |tail| ==> tail[i].task in TreeTasks(root)
    requires forall i :: 0 <= i < |tail| ==> (tail[i].prompt.NoPrompt? <==> !ShowPrompt(statuses[1..][i], tail[i].task, opts))
    requires forall i :: 0 <= i < |tail| - 1 ==> Decide(tail[i].prompt, opts.loopMode) != Leave
    requires forall i :: 0 <= i < |tail| - 1 && Decide(tail[i].prompt, opts.loopMode) == Repeat ==> tail[i + 1].task == tail[i].task
    ensures |runs| <= |statuses|
    ensures forall i :: 0 <= i < |runs| ==> runs[i].success == statuses[i]
    ensures forall i :: 0 <= i < |runs| ==> runs[i].task in TreeTasks(root)
    ensures forall i :: 0 <= i < |runs| ==> (runs[i].prompt.NoPrompt? <==> !ShowPrompt(statuses[i], runs[i].task, opts))
    ensures forall i :: 0 <= i < |runs| - 1 ==> Decide(runs[i].prompt, opts.loopMode) != Leave
    ensures forall i :: 0 <= i < |runs| - 1 && Decide(runs[i].prompt, opts.loopMode) == Repeat ==> runs[i + 1].task == runs[i].task
  {
    forall i | 1 <= i < |runs|
      ensures runs[i] == tail[i - 1] && statuses[i] == statuses[1..][i - 1]
    {
    }
  }

  /** The end of one pass of `'task_loop`: the prompt when the run asks for
      it, then where the loops go next. */
  method Outcome(task: Task, success: bool, opts: Opts, keys: seq<Navigation.KeyEvent>)
    returns (prompt: Prompt, rest: seq<Navigation.KeyEvent>, decision: Decision)
    ensures (prompt, rest) == AfterRun(task, success, opts, keys)
    ensures decision == Decide(prompt, opts.loopMode)
  {
    if ShowPrompt(success, task, opts) {
      var action;
      action, rest := ConfirmTask(keys);
      if action.None? {
        return Unanswered, rest, Leave;
      }
      prompt := Answered(action.value);
      match action.value {
        case Continue => decision := if opts.loopMode then Reselect else Leave;
        case Exit => decision := Leave;
        case RepeatTask => decision := Repeat;
        case SelectTask => decision := Reselect;
      }
      return;
    }
    prompt, rest := NoPrompt, keys;
    decision := if opts.loopMode then Reselect else Leave;
  }

  /** The status line after `runs`, when it was `initial` before them. */
  function StatusAfter(runs: seq<Run>, initial: Option<Status>): Option<Status> {
    if runs == [] then initial else Some(StatusOf(runs[|runs| - 1].task, runs[|runs| - 1].success))
  }

  lemma StatusAfterAppend(a: seq<Run>, b: seq<Run>, initial: Option<Status>)
    ensures StatusAfter(a + b, initial) == StatusAfter(b, StatusAfter(a, initial))
  {
    if b == [] {
      assert a + b == a;
    } else {
      assert (a + b)[|a + b| - 1] == b[|b| - 1];
    }
  }

  /** `'task_loop` of `main`: runs `task` once per exit status until the
      decision is to leave the loop. `reselect` says whether the session
      goes back to the menu (`continue 'select_loop`) or ends. The status
      line describes the last run. */
  method TaskLoop(root: Group, opts: Opts, task: Task, keys: seq<Navigation.KeyEvent>, statuses: seq<bool>, statusLine: Option<Status>)
    returns (runs: seq<Run>, rest: seq<Navigation.KeyEvent>, left: seq<bool>, status: Option<Status>, reselect: bool)
    ensures reselect ==> |left| < |statuses| && runs + Drive(root, opts, rest, left, None) == Drive(root, opts, keys, statuses, Some(task))
    ensures !reselect ==> runs == Drive(root, opts, keys, statuses, Some(task))
    ensures status == StatusAfter(runs, statusLine)
  {
    runs, rest, left, status := [], keys, statuses, statusLine;
    ghost var all := Drive(root, opts, keys, statuses, Some(task));
    while true
      invariant runs + Drive(root, opts, rest, left, Some(task)) == all
      invariant |runs| + |left| == |statuses|
      invariant status == StatusAfter(runs, statusLine)
      decreases |left|
    {
      if left == [] {
        assert runs + [] == runs;
        return runs, rest, left, status, false;
      }
      var success := left[0];
      ghost var before, rest0, left0 := runs, rest, left;
      left := left[1..];
      status := Some(StatusOf(task, success));
      var prompt, decision;
      prompt, rest, decision := Outcome(task, success, opts, rest);
      var run := Run(task, success, prompt);
      TaskStep(root, opts, task, rest0, left0, before, all, prompt, rest, decision);
      StatusAfterAppend(before, [run], statusLine);
      runs := runs + [run];
      match decision {
        case Leave =>
          return runs, rest, left, status, false;
        case Repeat =>
        case Reselect =>
          return runs, rest, left, status, true;
      }
    }
  }

  /** Regrouping the runs so far around the next one. */
  lemma Regroup(before: seq<Run>, run: Run, after: seq<Run>)
    ensures before + [run] + after == before + ([run] + after)
  {
  }

  /** One pass of the `'task_loop`, seen from the runs still to come: the
      run is followed by what its decision leads to. */
  lemma TaskStep(root: Group, opts: Opts, task: Task, keys: seq<Navigation.KeyEvent>, statuses: seq<bool>,
                 before: seq<Run>, all: seq<Run>, prompt: Prompt, rest: seq<Navigation.KeyEvent>, decision: Decision)
    requires statuses != [] && before + Drive(root, opts, keys, statuses, Some(task)) == all
    requires (prompt, rest) == AfterRun(task, statuses[0], opts, keys) && decision == Decide(prompt, opts.loopMode)
    ensures decision == Leave ==> before + [Run(task, statuses[0], prompt)] == all
    ensures decision == Repeat ==>
      (before + [Run(task, statuses[0], prompt)]) + Drive(root, opts, rest, statuses[1..], Some(task)) == all
    ensures decision == Reselect ==>
      (before + [Run(task, statuses[0], prompt)]) + Drive(root, opts, rest, statuses[1..], None) == all
  {
    DriveRun(root, opts, keys, statuses, task);
    var run := Run(task, statuses[0], prompt);
    match decision
    case Leave =>
      assert Drive(root, opts, keys, statuses, Some(task)) == [run] + [];
    case Repeat =>
      Regroup(before, run, Drive(root, opts, rest, statuses[1..], Some(task)));
    case Reselect =>
      Regroup(before, run, Drive(root, opts, rest, statuses[1..], None));
  }

  /** The runs of the `'task_loop` spliced in where the menu's choice stood. */
  lemma Splice(before: seq<Run>, menu: seq<Run>, runs: seq<Run>, after: seq<Run>, all: seq<Run>)
    requires before + menu == all && menu == runs + after
    ensures (before + runs) + after == all
  {
  }

  /** `'select_loop` of `main`: the menu, then the `'task_loop` of the task
      it returns, until the menu is left or the task loop ends the session.
      The status line shown by the next menu describes the last run. */
  method RunSession(root: Group, opts: Opts, keys: seq<Navigation.KeyEvent>, statuses: seq<bool>)
    returns (runs: seq<Run>, statusLine: Option<Status>)
    ensures runs == Drive(root, opts, keys, statuses, None)
    ensures statusLine == StatusAfter(runs, None)
  {
    runs, statusLine := [], None;
    var input, exits := keys, statuses;
    ghost var all := Drive(root, opts, keys, statuses, None);
    while true
      invariant runs + Drive(root, opts, input, exits, None) == all
      invariant statusLine == StatusAfter(runs, None)
      decreases |exits|
    {
      var s := Navigation.SelectTask(root, input);
      DriveMenu(root, opts, input, exits);
      if !s.selection.Chosen? {
        assert runs + [] == runs;
        return;
      }
      ghost var before, menu := runs, Drive(root, opts, input, exits, None);
      var more, reselect;
      more, input, exits, statusLine, reselect := TaskLoop(root, opts, s.selection.task, s.rest, exits, statusLine);
      StatusAfterAppend(before, more, None);
      if !reselect {
        runs := runs + more;
        return;
      }
      Splice(before, menu, more, Drive(root, opts, input, exits, None), all);
      runs := runs + more;
    }
  }
}
