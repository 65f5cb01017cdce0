/** Menu navigation of `select_task` (src/main.rs:435-507): a stack of
    groups, the root at the bottom and the displayed group on top, driven by
    key events. Reading a key is a parameter: the keys the user presses, in
    order. Drawing the screen is left out. */
module Navigation {
  import opened Entities

  // ------------------------------------------------------------ key events

  /** The key codes `select_task` and `confirm_task` tell apart; every other
      code is `Other`. */
  datatype KeyCode = Char(c: char) | Backspace | Esc | Enter | Other

  datatype Modifier = Shift | Control | Alt | Super | Hyper | Meta

  datatype KeyEvent = KeyEvent(code: KeyCode, modifiers: set<Modifier>)

  const WhitespaceMessage := "Whitespace is not allowed"
  const RootMessage := "This is the root"
  const CharKeyMessage := "Please enter character key"

  function NoTaskMessage(c: char): string {
    "No task for key: " + [c]
  }

  // ------------------------------------------------------------ the stack

  function Top(stack: seq<Group>): Group
    requires stack != []
  {
    stack[|stack| - 1]
  }

  /** The root at the bottom, and each group a child of the one below it. */
  predicate ValidStack(root: Group, stack: seq<Group>) {
    && stack != []
    && stack[0] == root
    && forall i :: 0 < i < |stack| ==> stack[i] in stack[i - 1].groups
  }

  /** `tasks.iter().find(|t| t.key == ch)`: the first task with the key. */
  function FindTask(ts: seq<Task>, c: char): (r: Option<Task>)
    ensures r.None? <==> forall i :: 0 <= i < |ts| ==> ts[i].key != c
    ensures r.Some? ==> exists i :: 0 <= i < |ts| && ts[i] == r.value && r.value.key == c &&
                          forall j :: 0 <= j < i ==> ts[j].key != c
    decreases |ts|
  {
    if ts == [] then None
    else if ts[0].key == c then Some(ts[0])
    else
      var r := FindTask(ts[1..], c);
      assert r.Some? ==> exists i :: 0 <= i < |ts[1..]| && ts[1..][i] == r.value && forall j :: 0 <= j < i ==> ts[1..][j].key != c;
      if r.Some? then
        var i :| 0 <= i < |ts[1..]| && ts[1..][i] == r.value && forall j :: 0 <= j < i ==> ts[1..][j].key != c;
        assert ts[i + 1] == r.value && forall j :: 0 <= j < i + 1 ==> ts[j].key != c;
        r
      else
        r
  }

  /** `groups.iter().find(|g| g.key == ch)`: the first group with the key. */
  function FindGroup(gs: seq<Group>, c: char): (r: Option<Group>)
    ensures r.None? <==> forall i :: 0 <= i < |gs| ==> gs[i].key != c
    ensures r.Some? ==> exists i :: 0 <= i < |gs| && gs[i] == r.value && r.value.key == c &&
                          forall j :: 0 <= j < i ==> gs[j].key != c
    decreases |gs|
  {
    if gs == [] then None
    else if gs[0].key == c then Some(gs[0])
    else
      var r := FindGroup(gs[1..], c);
      if r.Some? then
        var i :| 0 <= i < |gs[1..]| && gs[1..][i] == r.value && forall j :: 0 <= j < i ==> gs[1..][j].key != c;
        assert gs[i + 1] == r.value && forall j :: 0 <= j < i + 1 ==> gs[j].key != c;
        r
      else
        r
  }

  // --------------------------------------------------------- one key press

  datatype Outcome = Quit | Selected(task: Task) | Moved(stack: seq<Group>) | Failed(reason: string)

  /** The `match` on the key read by `select_task`. */
  function Step(stack: seq<Group>, ev: KeyEvent): (r: Outcome)
    requires stack != []
    ensures r.Quit? <==> ev.code == Char('q')
    ensures r.Selected? ==> r.task in Top(stack).tasks && ev.code == Char(r.task.key)
    ensures r.Moved? ==> if ev.code.Char?
                         then exists g :: g in Top(stack).groups && g.key == ev.code.c && r.stack == stack + [g]
                         else |stack| > 1 && r.stack == stack[..|stack| - 1]
    ensures r.Selected? ==> FindTask(Top(stack).tasks, r.task.key) == Some(r.task)
    ensures r.Moved? && ev.code.Char? ==> FindGroup(Top(stack).groups, ev.code.c) == Some(Top(r.stack))
  {
    match ev.code
    case Char('q') => Quit
    case Char(' ') => Failed(WhitespaceMessage)
    case Backspace | Esc =>
      if |stack| <= 1 then Failed(RootMessage) else Moved(stack[..|stack| - 1])
    case Char(ch) =>
      if ev.modifiers != {Control} then
        var top := Top(stack);
        match FindTask(top.tasks, ch)
        case Some(t) => Selected(t)
        case None =>
          match FindGroup(top.groups, ch)
          case Some(g) => Moved(stack + [g])
          case None => Failed(NoTaskMessage(ch))
      else Failed(CharKeyMessage)
    case _ => Failed(CharKeyMessage)
  }

  /** How each key is dispatched (src/main.rs:483-505). */
  lemma KeyDispatch(stack: seq<Group>, ev: KeyEvent)
    requires stack != []
    ensures ev.code == Char(' ') ==> Step(stack, ev) == Failed(WhitespaceMessage)
    ensures ev.code in {Backspace, Esc} && |stack| <= 1 ==> Step(stack, ev) == Failed(RootMessage)
    ensures ev.code in {Backspace, Esc} && |stack| > 1 ==> Step(stack, ev) == Moved(stack[..|stack| - 1])
    ensures ev.code.Char? && ev.code.c != 'q' && ev.code.c != ' ' && ev.modifiers == {Control} ==>
              Step(stack, ev) == Failed(CharKeyMessage)
    ensures ev.code in {Enter, Other} ==> Step(stack, ev) == Failed(CharKeyMessage)
  {
  }

  /** A plain character selects the first task with that key, even when a
      group has the same key; failing that it enters the first group with the
      key; failing that it reports the key. */
  lemma CharacterKey(stack: seq<Group>, ev: KeyEvent)
    requires stack != [] && ev.code.Char? && ev.code.c != 'q' && ev.code.c != ' ' && ev.modifiers != {Control}
    ensures (exists i :: 0 <= i < |Top(stack).tasks| && Top(stack).tasks[i].key == ev.code.c) ==>
              Step(stack, ev).Selected? && Step(stack, ev).task.key == ev.code.c &&
              FindTask(Top(stack).tasks, ev.code.c) == Some(Step(stack, ev).task)
    ensures (forall i :: 0 <= i < |Top(stack).tasks| ==> Top(stack).tasks[i].key != ev.code.c) &&
            (exists i :: 0 <= i < |Top(stack).groups| && Top(stack).groups[i].key == ev.code.c) ==>
              Step(stack, ev).Moved? && |Step(stack, ev).stack| == |stack| + 1 &&
              FindGroup(Top(stack).groups, ev.code.c) == Some(Top(Step(stack, ev).stack))
    ensures (forall i :: 0 <= i < |Top(stack).tasks| ==> Top(stack).tasks[i].key != ev.code.c) &&
            (forall i :: 0 <= i < |Top(stack).groups| ==> Top(stack).groups[i].key != ev.code.c) ==>
              Step(stack, ev) == Failed(NoTaskMessage(ev.code.c))
  {
  }

  /** From an empty group no key selects a task or enters a group. */
  lemma EmptyGroupOnlyQuitsOrPops(stack: seq<Group>, ev: KeyEvent)
    requires stack != [] && Top(stack).IsEmpty()
    ensures !Step(stack, ev).Selected?
    ensures Step(stack, ev).Moved? ==> |Step(stack, ev).stack| == |stack| - 1
  {
  }

  /** A move keeps the stack well formed: the root stays at the bottom. */
  lemma StepKeepsStackValid(root: Group, stack: seq<Group>, ev: KeyEvent)
    requires ValidStack(root, stack)
    ensures Step(stack, ev).Moved? ==> ValidStack(root, Step(stack, ev).stack)
  {
    var r := Step(stack, ev);
    if r.Moved? && ev.code.Char? {
      var g :| g in Top(stack).groups && r.stack == stack + [g];
      assert r.stack[..|stack|] == stack;
    }
  }

  /** The displayed group's tasks are tasks of the root's tree. */
  lemma {:induction false} TopTasksInTree(root: Group, stack: seq<Group>)
    requires ValidStack(root, stack)
    ensures TreeTasks(Top(stack)) <= TreeTasks(root)
    decreases |stack|
  {
    if |stack| > 1 {
      var below := stack[..|stack| - 1];
      assert ValidStack(root, below);
      TopTasksInTree(root, below);
      var g := Top(below);
      var j :| 0 <= j < |g.groups| && g.groups[j] == Top(stack);
      ChildTasksInForest(g.groups, j);
    }
  }

  // ------------------------------------------------------- the select loop

  datatype Selection = Quitted | Chosen(task: Task) | Waiting

  /** Where `select_task` stands after reading keys: what it returned (or
      `Waiting` for another key), the keys it did not read, the stack and
      the error the next screen shows. */
  datatype Session = Session(selection: Selection, rest: seq<KeyEvent>, stack: seq<Group>, error: Option<string>)

  function Navigate(stack: seq<Group>, error: Option<string>, keys: seq<KeyEvent>): (s: Session)
    requires stack != []
    ensures s.stack != []
    decreases |keys|
  {
    if keys == [] then Session(Waiting, [], stack, error)
    else
      match Step(stack, keys[0])
      case Quit => Session(Quitted, keys[1..], stack, error)
      case Selected(t) => Session(Chosen(t), keys[1..], stack, error)
      case Moved(s) => Navigate(s, None, keys[1..])
      case Failed(m) => Navigate(stack, Some(m), keys[1..])
  }

  /** Whatever keys are pressed, the stack stays well formed, the keys not
      read are a suffix of those given, and a selected task is a task of the
      root's tree. */
  lemma {:induction false} NavigateSound(root: Group, stack: seq<Group>, error: Option<string>, keys: seq<KeyEvent>)
    requires ValidStack(root, stack)
    ensures ValidStack(root, Navigate(stack, error, keys).stack)
    ensures |Navigate(stack, error, keys).rest| <= |keys| &&
            Navigate(stack, error, keys).rest == keys[|keys| - |Navigate(stack, error, keys).rest|..]
    ensures Navigate(stack, error, keys).selection.Chosen? ==>
              Navigate(stack, error, keys).selection.task in TreeTasks(root)
    decreases |keys|
  {
    if keys != [] {
      var r := Step(stack, keys[0]);
      StepKeepsStackValid(root, stack, keys[0]);
      match r
      case Quit =>
      case Selected(t) =>
        TopTasksInTree(root, stack);
      case Moved(s) =>
        NavigateSound(root, s, None, keys[1..]);
        SuffixOfTail(keys, Navigate(s, None, keys[1..]).rest);
      case Failed(m) =>
        NavigateSound(root, stack, Some(m), keys[1..]);
        SuffixOfTail(keys, Navigate(stack, Some(m), keys[1..]).rest);
    }
  }

  lemma SuffixOfTail(keys: seq<KeyEvent>, rest: seq<KeyEvent>)
    requires keys != [] && |rest| <= |keys| - 1 && rest == keys[1..][|keys| - 1 - |rest|..]
    ensures rest == keys[|keys| - |rest|..]
  {
    assert keys[1..][|keys| - 1 - |rest|..] == keys[|keys| - |rest|..];
  }

  /** `select_task` over a finite sequence of key presses. */
  method SelectTask(root: Group, keys: seq<KeyEvent>) returns (s: Session)
    ensures s == Navigate([root], None, keys)
    ensures ValidStack(root, s.stack)
    ensures s.selection.Chosen? ==> s.selection.task in TreeTasks(root)
  {
    NavigateSound(root, [root], None, keys);
    var stack := [root];
    var error: Option<string> := None;
    var i := 0;
    while i < |keys|
      invariant 0 <= i <= |keys| && stack != []
      invariant Navigate(stack, error, keys[i..]) == Navigate([root], None, keys)
    {
      var ev := keys[i];
      assert keys[i..][0] == ev && keys[i..][1..] == keys[i + 1..];
      var current := Top(stack);
      var reason: string;
      match ev.code {
        case Char('q') =>
          return Session(Quitted, keys[i + 1..], stack, error);
        case Char(' ') =>
          reason := WhitespaceMessage;
        case Backspace | Esc =>
          if |stack| <= 1 {
            reason := RootMessage;
          } else {
            stack := stack[..|stack| - 1];
            error := None;
            i := i + 1;
            continue;
          }
        case Char(ch) =>
          if ev.modifiers != {Control} {
            var task := FindTask(current.tasks, ch);
            if task.Some? {
              return Session(Chosen(task.value), keys[i + 1..], stack, error);
            }
            var next := FindGroup(current.groups, ch);
            if next.Some? {
              stack := stack + [next.value];
              error := None;
              i := i + 1;
              continue;
            }
            reason := NoTaskMessage(ch);
          } else {
            reason := CharKeyMessage;
          }
        case _ =>
          reason := CharKeyMessage;
      }
      error := Some(reason);
      i := i + 1;
    }
    assert keys[i..] == [];
    return Session(Waiting, [], stack, error);
  }
}
