/**
 * Splitting the body of one generated function into steps: every block line goes into a chunk, a
 * chunk becomes a step once it is large enough, and the function is rewritten to call the steps.
 */
module Outline {
  import opened Prelude

  // ---------------------------------------------------------------- lines of text

  function Count(s: string, c: char): nat {
    if s == [] then 0 else (if s[0] == c then 1 else 0) + Count(s[1..], c)
  }

  predicate StartsWith(s: string, prefix: string) {
    prefix <= s
  }

  /** Drops trailing newlines and semicolons. */
  function StripEnd(s: string): string {
    if s != [] && (s[|s| - 1] == '\n' || s[|s| - 1] == ';') then StripEnd(s[..|s| - 1]) else s
  }

  /** The text before and after the first space; None if there is no space. */
  function SplitSpace(s: string): Option<(string, string)> {
    if s == [] then None
    else if s[0] == ' ' then Some(([], s[1..]))
    else match SplitSpace(s[1..])
         case None => None
         case Some((a, b)) => Some(([s[0]] + a, b))
  }

  /** The text up to a separator, or all of it. */
  function UpTo(s: string, c: char): string {
    if s == [] || s[0] == c then [] else [s[0]] + UpTo(s[1..], c)
  }

  function Opens(line: string): nat { Count(line, '{') }

  function Closes(line: string): nat { Count(line, '}') }

  lemma {:induction false} ClosingLineCloses(line: string)
    requires StartsWith(line, "}")
    ensures Closes(line) >= 1
  {
  }

  // ---------------------------------------------------------------- the splitter

  datatype MainItem =
    | Text(line: string)   // the header or the closing line, copied
    | StateDecl(name: string)
    | InitState(decl: string)
    | Call(step: nat)
    | CallAndClose(step: nat)

  datatype GlobalItem =
    | Shared(line: string)
    | OpenStruct(name: string)
    | Field(typ: string, ident: string)
    | StepDecl(step: nat)

  /** The variables of the loop; steps holds the chunks written out so far. */
  datatype State = State(
    nesting: int, globals: seq<GlobalItem>, main: seq<MainItem>, chunk: seq<string>, steps: seq<seq<string>>)

  const START := State(0, [], [], [], [])

  /** A declaration: its type, its name, and the text that would initialise it. */
  function Declaration(line: string): Option<(string, string, string)> {
    match SplitSpace(StripEnd(line))
    case None => None
    case Some((typ, decl)) => Some((typ, UpTo(decl, ' '), decl))
  }

  /** One line of input; None where the program raises an error. */
  function Process(s: State, line: string, threshold: nat): Option<State> {
    var nesting := s.nesting + Opens(line);
    var after := nesting - Closes(line);
    if nesting == 0 then
      Some(s.(nesting := after, globals := s.globals + [Shared(line)]))
    else if nesting == 1 then
      if StartsWith(line, "void ") then
        var name := UpTo(line[5..], '(');
        Some(s.(nesting := after, globals := s.globals + [OpenStruct(name)],
                main := s.main + [Text(line), StateDecl(name)]))
      else if StartsWith(line, "}") then
        Some(s.(nesting := after, main := s.main + [Text(line)]))
      else
        match Declaration(line)
        case None => None
        case Some((typ, ident, decl)) =>
          Some(s.(nesting := after, globals := s.globals + [Field(typ, ident)],
                  main := if '=' in decl then s.main + [InitState(decl)] else s.main))
    else
      var chunk := s.chunk + [line];
      if nesting == 2 && StartsWith(line, "}") && |chunk| >= threshold then
        Some(Flush(s.(chunk := chunk, nesting := after)))
      else
        Some(s.(chunk := chunk, nesting := after))
  }

  /** Writes the chunk out as the next step and calls it. */
  function Flush(s: State): State {
    var step := |s.steps| + 1;
    s.(steps := s.steps + [s.chunk], chunk := [], globals := s.globals + [StepDecl(step)],
       main := s.main + [Call(step)])
  }

  function ProcessAll(lines: seq<string>, threshold: nat): Option<State> {
    if lines == [] then Some(START)
    else match ProcessAll(lines[..|lines| - 1], threshold)
         case None => None
         case Some(s) => Process(s, lines[|lines| - 1], threshold)
  }

  /** The final flush overwrites the last line of the rewritten function. */
  function Finish(s: State): Option<State> {
    if s.chunk == [] then Some(s)
    else if s.main == [] then None
    else
      var step := |s.steps| + 1;
      Some(s.(steps := s.steps + [s.chunk], chunk := [], globals := s.globals + [StepDecl(step)],
              main := s.main[|s.main| - 1 := CallAndClose(step)]))
  }

  function Outlined(lines: seq<string>, threshold: nat): Option<State> {
    match ProcessAll(lines, threshold)
    case None => None
    case Some(s) => Finish(s)
  }

  method OutlineFunction(lines: seq<string>, threshold: nat) returns (result: Option<State>)
    ensures result == Outlined(lines, threshold)
  {
    var nesting := 0;
    var globals: seq<GlobalItem> := [];
    var main: seq<MainItem> := [];
    var chunk: seq<string> := [];
    var steps: seq<seq<string>> := [];
    for n := 0 to |lines|
      invariant ProcessAll(lines[..n], threshold) == Some(State(nesting, globals, main, chunk, steps))
    {
      var line := lines[n];
      ghost var before := State(nesting, globals, main, chunk, steps);
      assert lines[..n + 1][..n] == lines[..n];
      assert ProcessAll(lines[..n + 1], threshold) == Process(before, line, threshold);
      nesting := nesting + Opens(line);
      if nesting == 0 {
        globals := globals + [Shared(line)];
      } else if nesting == 1 {
        if StartsWith(line, "void ") {
          var name := UpTo(line[5..], '(');
          main := main + [Text(line), StateDecl(name)];
          globals := globals + [OpenStruct(name)];
        } else if StartsWith(line, "}") {
          main := main + [Text(line)];
        } else {
          var declaration := Declaration(line);
          if declaration.None? {
            FailureStays(lines, n + 1, threshold);
            return None;
          }
          var (typ, ident, decl) := declaration.value;
          globals := globals + [Field(typ, ident)];
          if '=' in decl {
            main := main + [InitState(decl)];
          }
        }
      } else {
        chunk := chunk + [line];
        if nesting == 2 && StartsWith(line, "}") && |chunk| >= threshold {
          steps := steps + [chunk];
          globals := globals + [StepDecl(|steps|)];
          main := main + [Call(|steps|)];
          chunk := [];
        }
      }
      nesting := nesting - Closes(line);
    }
    assert lines[..|lines|] == lines;
    if chunk != [] {
      if main == [] {
        return None;
      }
      steps := steps + [chunk];
      globals := globals + [StepDecl(|steps|)];
      main := main[|main| - 1 := CallAndClose(|steps|)];
      chunk := [];
    }
    result := Some(State(nesting, globals, main, chunk, steps));
  }

  /** An error on some line is an error of the whole run. */
  lemma {:induction false} FailureStays(lines: seq<string>, n: nat, threshold: nat)
    requires n <= |lines| && ProcessAll(lines[..n], threshold) == None
    ensures ProcessAll(lines, threshold) == None
  {
    if n < |lines| {
      assert lines[..|lines| - 1][..n] == lines[..n];
      FailureStays(lines[..|lines| - 1], n, threshold);
    } else {
      assert lines[..n] == lines;
    }
  }

  // ---------------------------------------------------------------- what the program executes

  datatype Statement = Initialise(decl: string) | Execute(line: string)

  function Executed(lines: seq<string>): (s: seq<Statement>)
    ensures |s| == |lines|
  {
    seq(|lines|, i requires 0 <= i < |lines| => Execute(lines[i]))
  }

  /** What one line of the original function does, when `nesting` blocks are open before it. */
  function StatementsOf(line: string, nesting: int): seq<Statement> {
    var inner := nesting + Opens(line);
    if inner == 0 then []
    else if inner == 1 then
      if StartsWith(line, "void ") || StartsWith(line, "}") then []
      else match Declaration(line)
           case None => []
           case Some((_, _, decl)) => if '=' in decl then [Initialise(decl)] else []
    else [Execute(line)]
  }

  function NestingAfter(lines: seq<string>): int {
    if lines == [] then 0
    else
      var line := lines[|lines| - 1];
      NestingAfter(lines[..|lines| - 1]) + Opens(line) - Closes(line)
  }

  /** The statements of the original function, in order. */
  function Original(lines: seq<string>): seq<Statement> {
    if lines == [] then []
    else
      var before := lines[..|lines| - 1];
      Original(before) + StatementsOf(lines[|lines| - 1], NestingAfter(before))
  }

  /** What one line of the rewritten function does, with its step inlined. */
  function InlinedItem(item: MainItem, steps: seq<seq<string>>): seq<Statement> {
    match item
    case Text(_) => []
    case StateDecl(_) => []
    case InitState(decl) => [Initialise(decl)]
    case Call(k) => if 1 <= k <= |steps| then Executed(steps[k - 1]) else []
    case CallAndClose(k) => if 1 <= k <= |steps| then Executed(steps[k - 1]) else []
  }

  function Inlined(main: seq<MainItem>, steps: seq<seq<string>>): seq<Statement> {
    if main == [] then [] else Inlined(main[..|main| - 1], steps) + InlinedItem(main[|main| - 1], steps)
  }

  /** The lines of all steps, one after the other. */
  function Concat(steps: seq<seq<string>>): seq<string> {
    if steps == [] then [] else Concat(steps[..|steps| - 1]) + steps[|steps| - 1]
  }

  /** The lines inside blocks, in order. */
  function BodyLines(lines: seq<string>): seq<string> {
    if lines == [] then []
    else
      var before, line := lines[..|lines| - 1], lines[|lines| - 1];
      var inner := NestingAfter(before) + Opens(line);
      BodyLines(before) + if inner == 0 || inner == 1 then [] else [line]
  }

  /** Calls refer to steps that exist. */
  predicate CallsExist(main: seq<MainItem>, n: nat) {
    forall i :: 0 <= i < |main| ==>
      && (main[i].Call? ==> 1 <= main[i].step <= n)
      && (main[i].CallAndClose? ==> 1 <= main[i].step <= n)
  }

  lemma {:induction false} InlinedOne(main: seq<MainItem>, item: MainItem, steps: seq<seq<string>>)
    ensures Inlined(main + [item], steps) == Inlined(main, steps) + InlinedItem(item, steps)
  {
    assert (main + [item])[..|main|] == main;
  }

  lemma {:induction false} InlinedLast(main: seq<MainItem>, steps: seq<seq<string>>)
    requires main != []
    ensures Inlined(main, steps) == Inlined(main[..|main| - 1], steps) + InlinedItem(main[|main| - 1], steps)
  {
  }

  lemma {:induction false} InlinedConcat(a: seq<MainItem>, b: seq<MainItem>, steps: seq<seq<string>>)
    ensures Inlined(a + b, steps) == Inlined(a, steps) + Inlined(b, steps)
  {
    if b == [] {
      assert a + b == a;
    } else {
      hide Inlined, InlinedItem;
      var n := |b| - 1;
      InlinedConcat(a, b[..n], steps);
      InlinedLast(b, steps);
      InlinedLast(a + b, steps);
      assert (a + b)[..|a + b| - 1] == a + b[..n];
      Associative(Inlined(a, steps), Inlined(b[..n], steps), InlinedItem(b[n], steps));
    }
  }

  /** Further steps do not change what earlier calls do. */
  lemma {:induction false} InlinedMoreSteps(main: seq<MainItem>, steps: seq<seq<string>>, more: seq<string>)
    requires CallsExist(main, |steps|)
    ensures Inlined(main, steps + [more]) == Inlined(main, steps)
  {
    if main != [] {
      InlinedMoreSteps(main[..|main| - 1], steps, more);
      assert main[|main| - 1].Call? ==> (steps + [more])[main[|main| - 1].step - 1] == steps[main[|main| - 1].step - 1];
    }
  }

  // ---------------------------------------------------------------- no line is lost or duplicated

  /** A line joins the block lines exactly when it is inside a block. */
  lemma {:induction false} StepAddsBodyLine(s: State, line: string, threshold: nat)
    requires Process(s, line, threshold).Some?
    ensures var s', inner := Process(s, line, threshold).value, s.nesting + Opens(line);
            && s'.nesting == inner - Closes(line)
            && Concat(s'.steps) + s'.chunk
               == if inner == 0 || inner == 1 then Concat(s.steps) + s.chunk else (Concat(s.steps) + s.chunk) + [line]
  {
    var chunk := s.chunk + [line];
    assert Concat(s.steps) + chunk == (Concat(s.steps) + s.chunk) + [line];
    assert (s.steps + [chunk])[..|s.steps|] == s.steps;
    assert Concat(s.steps + [chunk]) + [] == Concat(s.steps) + chunk;
  }

  lemma {:induction false} StepKeepsCalls(s: State, line: string, threshold: nat)
    requires Process(s, line, threshold).Some? && CallsExist(s.main, |s.steps|)
    ensures var s' := Process(s, line, threshold).value; CallsExist(s'.main, |s'.steps|)
  {
  }

  /** The steps written so far and the pending chunk are exactly the block lines read so far. */
  lemma {:induction false} StepsAreBodyLines(lines: seq<string>, threshold: nat)
    requires ProcessAll(lines, threshold).Some?
    ensures var s := ProcessAll(lines, threshold).value;
            && s.nesting == NestingAfter(lines)
            && Concat(s.steps) + s.chunk == BodyLines(lines)
            && CallsExist(s.main, |s.steps|)
  {
    if lines != [] {
      hide Process, CallsExist;
      var before, line := lines[..|lines| - 1], lines[|lines| - 1];
      StepsAreBodyLines(before, threshold);
      StepAddsBodyLine(ProcessAll(before, threshold).value, line, threshold);
      StepKeepsCalls(ProcessAll(before, threshold).value, line, threshold);
    }
  }

  /** Every block line ends up in exactly one step, in order, for every input that is not rejected. */
  lemma {:induction false} NothingLost(lines: seq<string>, threshold: nat)
    requires Outlined(lines, threshold).Some?
    ensures Concat(Outlined(lines, threshold).value.steps) == BodyLines(lines)
    ensures CallsExist(Outlined(lines, threshold).value.main, |Outlined(lines, threshold).value.steps|)
  {
    StepsAreBodyLines(lines, threshold);
    var s := ProcessAll(lines, threshold).value;
    assert (s.steps + [s.chunk])[..|s.steps|] == s.steps;
  }

  // ---------------------------------------------------------------- one well-formed function

  datatype Phase = Before | Inside | Done | Wrong

  /** How a line continues a file that holds one function, with every block closed by its own brace. */
  function NextPhase(phase: Phase, nesting: int, line: string): Phase {
    var inner := nesting + Opens(line);
    var after := inner - Closes(line);
    match phase
    case Before =>
      if Opens(line) == 0 && Closes(line) == 0 then Before
      else if StartsWith(line, "void ") && Opens(line) == 1 && Closes(line) == 0 then Inside
      else Wrong
    case Inside =>
      if inner == 1 then
        if StartsWith(line, "void ") then Wrong
        else if StartsWith(line, "}") then (if after == 0 then Done else Wrong)
        else if Closes(line) == 0 && Declaration(line).Some? then Inside
        else Wrong
      else if after >= 1 then Inside
      else Wrong
    case Done => if Opens(line) == 0 && Closes(line) == 0 then Done else Wrong
    case Wrong => Wrong
  }

  function PhaseAfter(lines: seq<string>): Phase {
    if lines == [] then Before
    else NextPhase(PhaseAfter(lines[..|lines| - 1]), NestingAfter(lines[..|lines| - 1]), lines[|lines| - 1])
  }

  predicate OneFunction(lines: seq<string>) {
    PhaseAfter(lines) == Done
  }

  /** Braces opened minus braces closed. */
  function Depth(lines: seq<string>): int {
    if lines == [] then 0 else Depth(lines[..|lines| - 1]) + Opens(lines[|lines| - 1]) - Closes(lines[|lines| - 1])
  }

  /** Blocks are closed after they are opened, and all are closed at the end. */
  ghost predicate Balanced(lines: seq<string>) {
    Depth(lines) == 0 && forall k :: 0 <= k <= |lines| ==> Depth(lines[..k]) >= 0
  }

  ghost predicate AllBalanced(steps: seq<seq<string>>) {
    forall k :: 0 <= k < |steps| ==> Balanced(steps[k])
  }

  /** What holds between two lines of a file with one function. */
  ghost predicate ShapeInvariant(phase: Phase, s: State) {
    match phase
    case Before => s.nesting == 0 && s.chunk == [] && s.steps == [] && s.main == []
    case Inside =>
      && s.nesting >= 1 && Depth(s.chunk) == s.nesting - 1 && s.main != [] && AllBalanced(s.steps)
      && forall k :: 0 <= k <= |s.chunk| ==> Depth(s.chunk[..k]) >= 0
    case Done =>
      s.nesting == 0 && Balanced(s.chunk) && AllBalanced(s.steps) && s.main != [] && s.main[|s.main| - 1].Text?
    case Wrong => true
  }

  lemma {:induction false} DepthSnoc(lines: seq<string>, line: string)
    ensures Depth(lines + [line]) == Depth(lines) + Opens(line) - Closes(line)
  {
    assert (lines + [line])[..|lines|] == lines;
  }

  lemma {:induction false} ChunkGrows(chunk: seq<string>, line: string)
    requires forall k :: 0 <= k <= |chunk| ==> Depth(chunk[..k]) >= 0
    requires Depth(chunk) + Opens(line) - Closes(line) >= 0
    ensures forall k :: 0 <= k <= |chunk| + 1 ==> Depth((chunk + [line])[..k]) >= 0
  {
    DepthSnoc(chunk, line);
    forall k | 0 <= k <= |chunk| + 1 ensures Depth((chunk + [line])[..k]) >= 0 {
      if k <= |chunk| {
        assert (chunk + [line])[..k] == chunk[..k];
      } else {
        assert (chunk + [line])[..k] == chunk + [line];
      }
    }
  }

  lemma {:induction false} BodyLineKeepsShape(s: State, line: string, threshold: nat)
    requires ShapeInvariant(Inside, s) && s.nesting + Opens(line) != 1
    requires NextPhase(Inside, s.nesting, line) == Inside
    ensures ShapeInvariant(Inside, Process(s, line, threshold).value)
  {
    var chunk := s.chunk + [line];
    ChunkGrows(s.chunk, line);
    DepthSnoc(s.chunk, line);
    if s.nesting + Opens(line) == 2 && StartsWith(line, "}") {
      ClosingLineCloses(line);
      assert chunk[..|chunk|] == chunk;
      assert Balanced(chunk);
    }
  }

  lemma {:induction false} OtherLineKeepsShape(s: State, line: string, threshold: nat)
    requires ShapeInvariant(Inside, s) && s.nesting + Opens(line) == 1
    requires NextPhase(Inside, s.nesting, line) != Wrong
    ensures Process(s, line, threshold).Some?
    ensures ShapeInvariant(NextPhase(Inside, s.nesting, line), Process(s, line, threshold).value)
  {
    assert s.nesting == 1 && Balanced(s.chunk);
  }

  lemma {:induction false} StepKeepsShape(phase: Phase, s: State, line: string, threshold: nat)
    requires ShapeInvariant(phase, s) && phase != Wrong && NextPhase(phase, s.nesting, line) != Wrong
    ensures Process(s, line, threshold).Some?
    ensures ShapeInvariant(NextPhase(phase, s.nesting, line), Process(s, line, threshold).value)
  {
    if phase == Inside {
      if s.nesting + Opens(line) == 1 {
        OtherLineKeepsShape(s, line, threshold);
      } else {
        BodyLineKeepsShape(s, line, threshold);
      }
    } else if phase == Before {
      assert Depth([]) == 0;
    }
  }

  lemma {:induction false} RunKeepsShape(lines: seq<string>, threshold: nat)
    requires PhaseAfter(lines) != Wrong
    ensures ProcessAll(lines, threshold).Some?
    ensures ShapeInvariant(PhaseAfter(lines), ProcessAll(lines, threshold).value)
  {
    if lines != [] {
      var before := lines[..|lines| - 1];
      RunKeepsShape(before, threshold);
      StepsAreBodyLines(before, threshold);
      StepKeepsShape(PhaseAfter(before), ProcessAll(before, threshold).value, lines[|lines| - 1], threshold);
    }
  }

  /** A file with one function is accepted, and every step written for it is brace-balanced. */
  lemma {:induction false} StepsAreBalanced(lines: seq<string>, threshold: nat)
    requires OneFunction(lines)
    ensures Outlined(lines, threshold).Some? && AllBalanced(Outlined(lines, threshold).value.steps)
  {
    RunKeepsShape(lines, threshold);
  }

  // ---------------------------------------------------------------- when the order is preserved

  /** The line is a declaration with an initialiser. */
  predicate Initialises(line: string, nesting: int) {
    var s := StatementsOf(line, nesting);
    s != [] && s[0].Initialise?
  }

  /** The line initialises a declaration while block lines wait to be written out. */
  ghost predicate Overtakes(before: seq<string>, line: string, threshold: nat) {
    && Initialises(line, NestingAfter(before))
    && ProcessAll(before, threshold).Some? && ProcessAll(before, threshold).value.chunk != []
  }

  ghost predicate NoOvertaking(lines: seq<string>, threshold: nat) {
    forall i :: 0 <= i < |lines| ==> !Overtakes(lines[..i], lines[i], threshold)
  }

  /** Overtaking is decided line by line. */
  lemma {:induction false} NoOvertakingSnoc(lines: seq<string>, threshold: nat)
    requires lines != []
    ensures var before := lines[..|lines| - 1];
            NoOvertaking(lines, threshold) <==>
            NoOvertaking(before, threshold) && !Overtakes(before, lines[|lines| - 1], threshold)
  {
    hide Overtakes;
    var n := |lines| - 1;
    var before := lines[..n];
    forall i | 0 <= i < n ensures before[..i] == lines[..i] && before[i] == lines[i] {
    }
    if NoOvertaking(lines, threshold) {
      forall i | 0 <= i < n ensures !Overtakes(before[..i], before[i], threshold) {
        assert !Overtakes(lines[..i], lines[i], threshold);
      }
      assert !Overtakes(lines[..n], lines[n], threshold);
    }
    if NoOvertaking(before, threshold) && !Overtakes(before, lines[n], threshold) {
      forall i | 0 <= i < |lines| ensures !Overtakes(lines[..i], lines[i], threshold) {
        if i < n {
          assert !Overtakes(before[..i], before[i], threshold);
        }
      }
    }
  }

  lemma {:induction false} ExecutedSnoc(lines: seq<string>, line: string)
    ensures Executed(lines + [line]) == Executed(lines) + [Execute(line)]
  {
  }

  /** The rewritten function so far, then the pending chunk: what the order is compared with. */
  function SoFar(s: State): seq<Statement> {
    Inlined(s.main, s.steps) + Executed(s.chunk)
  }

  lemma {:induction false} FlushKeepsOrder(s: State)
    requires CallsExist(s.main, |s.steps|)
    ensures SoFar(Flush(s)) == SoFar(s)
  {
    var step := |s.steps| + 1;
    InlinedMoreSteps(s.main, s.steps, s.chunk);
    InlinedOne(s.main, Call(step), s.steps + [s.chunk]);
  }

  lemma {:induction false} BodyLineAdds(s: State, line: string, threshold: nat)
    requires CallsExist(s.main, |s.steps|) && s.nesting + Opens(line) != 0 && s.nesting + Opens(line) != 1
    ensures SoFar(Process(s, line, threshold).value) == SoFar(s) + StatementsOf(line, s.nesting)
  {
    var grown := s.(chunk := s.chunk + [line], nesting := s.nesting + Opens(line) - Closes(line));
    ExecutedSnoc(s.chunk, line);
    FlushKeepsOrder(grown);
    assert SoFar(grown) == SoFar(s) + [Execute(line)];
  }

  lemma {:induction false} HeaderAdds(s: State, line: string, threshold: nat)
    requires s.nesting + Opens(line) == 1 && (StartsWith(line, "void ") || StartsWith(line, "}"))
    ensures SoFar(Process(s, line, threshold).value) == SoFar(s)
  {
    hide Opens, Closes, Declaration, UpTo, Inlined;
    assert forall a: seq<Statement> :: a + [] == a;
    InlinedOne(s.main, Text(line), s.steps);
    if StartsWith(line, "void ") {
      var name := UpTo(line[5..], '(');
      InlinedOne(s.main + [Text(line)], StateDecl(name), s.steps);
      assert s.main + [Text(line), StateDecl(name)] == (s.main + [Text(line)]) + [StateDecl(name)];
    }
  }

  lemma {:induction false} DeclarationAdds(s: State, line: string, threshold: nat)
    requires s.nesting + Opens(line) == 1 && !StartsWith(line, "void ") && !StartsWith(line, "}")
    requires Process(s, line, threshold).Some?
    ensures SoFar(Process(s, line, threshold).value)
         == Inlined(s.main, s.steps) + StatementsOf(line, s.nesting) + Executed(s.chunk)
    ensures StatementsOf(line, s.nesting) == [] || Initialises(line, s.nesting)
  {
    InlinedOne(s.main, InitState(Declaration(line).value.2), s.steps);
    assert Inlined(s.main, s.steps) + [] == Inlined(s.main, s.steps);
  }

  /** A line adds its statements at the end, unless it initialises while a chunk is pending. */
  lemma {:induction false} StepAddsStatements(s: State, line: string, threshold: nat)
    requires Process(s, line, threshold).Some? && CallsExist(s.main, |s.steps|)
    ensures var s' := Process(s, line, threshold).value;
            if Initialises(line, s.nesting)
            then SoFar(s') == Inlined(s.main, s.steps) + StatementsOf(line, s.nesting) + Executed(s.chunk)
            else SoFar(s') == SoFar(s) + StatementsOf(line, s.nesting)
  {
    hide Inlined, Executed;
    var inner := s.nesting + Opens(line);
    if inner != 0 && inner != 1 {
      BodyLineAdds(s, line, threshold);
    } else if inner == 1 && (StartsWith(line, "void ") || StartsWith(line, "}")) {
      HeaderAdds(s, line, threshold);
      assert SoFar(s) + [] == SoFar(s);
    } else if inner == 1 {
      DeclarationAdds(s, line, threshold);
      assert Inlined(s.main, s.steps) + [] == Inlined(s.main, s.steps);
      assert SoFar(s) + [] == SoFar(s);
    } else {
      assert SoFar(s) + [] == SoFar(s);
    }
  }

  /** Without overtaking, the rewritten function and the pending chunk follow the original. */
  lemma {:induction false} RunKeepsOrder(lines: seq<string>, threshold: nat)
    requires ProcessAll(lines, threshold).Some? && NoOvertaking(lines, threshold)
    ensures SoFar(ProcessAll(lines, threshold).value) == Original(lines)
  {
    if lines != [] {
      hide Process, StatementsOf, NoOvertaking, CallsExist, Concat, BodyLines;
      var before, line := lines[..|lines| - 1], lines[|lines| - 1];
      NoOvertakingSnoc(lines, threshold);
      RunKeepsOrder(before, threshold);
      StepsAreBodyLines(before, threshold);
      StepAddsStatements(ProcessAll(before, threshold).value, line, threshold);
      StatementsAfterEmpty(ProcessAll(before, threshold).value, StatementsOf(line, NestingAfter(before)));
    }
  }

  lemma {:induction false} StatementsAfterEmpty(s: State, added: seq<Statement>)
    ensures s.chunk == [] ==> Inlined(s.main, s.steps) + added + Executed(s.chunk) == SoFar(s) + added
  {
  }

  /** The final flush replaces a closing line, which does nothing, by a call. */
  lemma {:induction false} FinishKeepsOrder(s: State)
    requires CallsExist(s.main, |s.steps|) && s.main != [] && s.main[|s.main| - 1].Text?
    ensures Finish(s).Some? && Inlined(Finish(s).value.main, Finish(s).value.steps) == SoFar(s)
  {
    if s.chunk != [] {
      var n, step := |s.main| - 1, |s.steps| + 1;
      var main' := s.main[n := CallAndClose(step)];
      assert main'[..n] == s.main[..n];
      InlinedMoreSteps(s.main[..n], s.steps, s.chunk);
    }
  }

  /** With each step inlined, the rewritten function performs the original statements in order. */
  ghost predicate Preserved(lines: seq<string>, threshold: nat) {
    && Outlined(lines, threshold).Some?
    && var r := Outlined(lines, threshold).value;
       Inlined(r.main, r.steps) == Original(lines)
  }

  lemma {:induction false} NoOvertakingPreserves(lines: seq<string>, threshold: nat)
    requires OneFunction(lines) && NoOvertaking(lines, threshold)
    ensures Preserved(lines, threshold)
  {
    RunKeepsShape(lines, threshold);
    StepsAreBodyLines(lines, threshold);
    RunKeepsOrder(lines, threshold);
    FinishKeepsOrder(ProcessAll(lines, threshold).value);
  }

  /** All initialised declarations come before the first block line. */
  ghost predicate DeclarationsFirst(lines: seq<string>) {
    forall i :: 0 <= i < |lines| && Initialises(lines[i], NestingAfter(lines[..i])) ==> BodyLines(lines[..i]) == []
  }

  /** When the declarations precede the blocks, outlining preserves meaning, whatever the threshold. */
  lemma {:induction false} DeclarationsFirstPreserves(lines: seq<string>, threshold: nat)
    requires OneFunction(lines) && DeclarationsFirst(lines)
    ensures Preserved(lines, threshold)
  {
    RunKeepsShape(lines, threshold);
    forall i | 0 <= i < |lines| ensures !Overtakes(lines[..i], lines[i], threshold) {
      if Overtakes(lines[..i], lines[i], threshold) {
        StepsAreBodyLines(lines[..i], threshold);
        assert false;
      }
    }
    NoOvertakingPreserves(lines, threshold);
  }

  // ---------------------------------------------------------------- and when it is not

  /** What has been rewritten stays at the front. */
  lemma {:induction false} MainGrows(s: State, line: string, threshold: nat)
    requires Process(s, line, threshold).Some? && CallsExist(s.main, |s.steps|)
    ensures var s' := Process(s, line, threshold).value; Inlined(s.main, s.steps) <= Inlined(s'.main, s'.steps)
  {
    var s' := Process(s, line, threshold).value;
    var added := s'.main[|s.main|..];
    assert s'.main == s.main + added;
    InlinedConcat(s.main, added, s'.steps);
    if s'.steps != s.steps {
      InlinedMoreSteps(s.main, s.steps, s.chunk + [line]);
    }
  }

  lemma {:induction false} RunGrows(lines: seq<string>, n: nat, threshold: nat)
    requires n <= |lines| && ProcessAll(lines, threshold).Some?
    ensures ProcessAll(lines[..n], threshold).Some?
    ensures var s, s' := ProcessAll(lines[..n], threshold).value, ProcessAll(lines, threshold).value;
            Inlined(s.main, s.steps) <= Inlined(s'.main, s'.steps)
    ensures Original(lines[..n]) <= Original(lines)
  {
    if n == |lines| {
      assert lines[..n] == lines;
    } else {
      var before := lines[..|lines| - 1];
      assert before[..n] == lines[..n];
      RunGrows(before, n, threshold);
      StepsAreBodyLines(before, threshold);
      MainGrows(ProcessAll(before, threshold).value, lines[|lines| - 1], threshold);
    }
  }

  /** The first declaration that overtakes. */
  lemma {:induction false} FirstOvertaking(lines: seq<string>, threshold: nat) returns (i: nat)
    requires !NoOvertaking(lines, threshold)
    ensures i < |lines| && Overtakes(lines[..i], lines[i], threshold) && NoOvertaking(lines[..i], threshold)
  {
    hide Overtakes;
    var n := |lines| - 1;
    NoOvertakingSnoc(lines, threshold);
    i := n;
    if !NoOvertaking(lines[..n], threshold) {
      i := FirstOvertaking(lines[..n], threshold);
      assert lines[..n][..i] == lines[..i] && lines[..n][i] == lines[i];
    }
  }

  /** An initialised declaration is executed right after what has been rewritten. */
  lemma {:induction false} InitialisedNext(s: State, line: string, threshold: nat)
    requires Initialises(line, s.nesting) && Process(s, line, threshold).Some?
    ensures var s' := Process(s, line, threshold).value;
            && |Inlined(s'.main, s'.steps)| == |Inlined(s.main, s.steps)| + 1
            && Inlined(s'.main, s'.steps)[|Inlined(s.main, s.steps)|].Initialise?
  {
    InlinedOne(s.main, InitState(Declaration(line).value.2), s.steps);
  }

  lemma {:induction false} PrefixIndex<T>(a: seq<T>, b: seq<T>, k: nat)
    requires a <= b && k < |a|
    ensures a[k] == b[k]
  {
  }

  /** An overtaking declaration is executed before the lines that preceded it. */
  lemma {:induction false} OvertakingBreaks(lines: seq<string>, threshold: nat)
    requires OneFunction(lines) && !NoOvertaking(lines, threshold)
    ensures !Preserved(lines, threshold)
  {
    hide Process, CallsExist, Inlined, Original, NoOvertaking, Finish, PhaseAfter;
    RunKeepsShape(lines, threshold);
    StepsAreBodyLines(lines, threshold);
    FinishKeepsOrder(ProcessAll(lines, threshold).value);
    var i := FirstOvertaking(lines, threshold);
    var s := ProcessAll(lines[..i], threshold).value;
    RunGrows(lines, i, threshold);
    RunGrows(lines, i + 1, threshold);
    assert lines[..i + 1][..i] == lines[..i] && lines[..i + 1][i] == lines[i];
    RunKeepsOrder(lines[..i], threshold);
    StepsAreBodyLines(lines[..i], threshold);
    // At this position the original executes a block line, the rewritten function an initialisation.
    var position := |Inlined(s.main, s.steps)|;
    InitialisedNext(s, lines[i], threshold);
    assert SoFar(s)[position] == Execute(s.chunk[0]);
    PrefixIndex(Original(lines[..i]), Original(lines), position);
    var s' := ProcessAll(lines[..i + 1], threshold).value;
    var last := ProcessAll(lines, threshold).value;
    PrefixIndex(Inlined(s'.main, s'.steps), Inlined(last.main, last.steps), position);
    PrefixIndex(Inlined(last.main, last.steps), SoFar(last), position);
  }

  /** Meaning is preserved exactly when no initialised declaration overtakes a pending chunk. */
  lemma {:induction false} PreservedIff(lines: seq<string>, threshold: nat)
    requires OneFunction(lines)
    ensures Preserved(lines, threshold) <==> NoOvertaking(lines, threshold)
  {
    if NoOvertaking(lines, threshold) {
      NoOvertakingPreserves(lines, threshold);
    } else {
      OvertakingBreaks(lines, threshold);
    }
  }

  /** A threshold beyond the length of the file never ends a chunk early. */
  lemma {:induction false} OneChunk(lines: seq<string>, threshold: nat)
    requires threshold > |lines| && ProcessAll(lines, threshold).Some?
    ensures var s := ProcessAll(lines, threshold).value; s.steps == [] && |s.chunk| <= |lines|
  {
    if lines != [] {
      OneChunk(lines[..|lines| - 1], threshold);
    }
  }

  lemma {:induction false} UnflushedOvertaking(lines: seq<string>)
    requires OneFunction(lines) && NoOvertaking(lines, |lines| + 1)
    ensures DeclarationsFirst(lines)
  {
    var threshold := |lines| + 1;
    RunKeepsShape(lines, threshold);
    forall i | 0 <= i < |lines| && Initialises(lines[i], NestingAfter(lines[..i])) ensures BodyLines(lines[..i]) == [] {
      RunGrows(lines, i, threshold);
      OneChunk(lines[..i], threshold);
      StepsAreBodyLines(lines[..i], threshold);
      assert !Overtakes(lines[..i], lines[i], threshold);
    }
  }

  /** Outlining is safe at every chunk size exactly when the initialised declarations come first. */
  lemma {:induction false} AlwaysPreservedIff(lines: seq<string>)
    requires OneFunction(lines)
    ensures (forall threshold: nat :: Preserved(lines, threshold)) <==> DeclarationsFirst(lines)
  {
    hide Preserved, NoOvertaking, DeclarationsFirst, OneFunction;
    if DeclarationsFirst(lines) {
      forall threshold: nat ensures Preserved(lines, threshold) {
        DeclarationsFirstPreserves(lines, threshold);
      }
    }
    PreservedIff(lines, |lines| + 1);
    if Preserved(lines, |lines| + 1) {
      UnflushedOvertaking(lines);
    }
  }

  /** One block, then an initialised declaration. */
  const OVERTAKING: seq<string> := ["void f{", "{", "}", "a b=", "}"]

  lemma OvertakingBraces()
    ensures Opens("void f{") == 1 && Closes("void f{") == 0 && Opens("{") == 1 && Closes("{") == 0
    ensures Opens("}") == 0 && Closes("}") == 1 && Opens("a b=") == 0 && Closes("a b=") == 0
  {
    assert "void f{"[1..] == "oid f{" && "oid f{"[1..] == "id f{" && "id f{"[1..] == "d f{" && "d f{"[1..] == " f{";
    assert " f{"[1..] == "f{" && "f{"[1..] == "{" && "{"[1..] == "" && "}"[1..] == "";
    assert "a b="[1..] == " b=" && " b="[1..] == "b=" && "b="[1..] == "=" && "="[1..] == "";
  }

  lemma OvertakingDeclaration()
    ensures Declaration("a b=") == Some(("a", "b=", "b=")) && '=' in "b="
  {
    assert "a b="[1..] == " b=" && " b="[1..] == "b=" && "b="[1..] == "=" && "="[1..] == "";
    assert SplitSpace(" b=") == Some(("", "b="));
    assert "a b="[0] == 'a' && ['a'] + "" == "a";
    assert SplitSpace("a b=") == Some(("a", "b="));
    assert "="[0] == '=' && "b="[0] == 'b' && UpTo("", ' ') == "";
    assert UpTo("=", ' ') == ['='] + UpTo("="[1..], ' ');
    assert UpTo("b=", ' ') == ['b'] + UpTo("b="[1..], ' ') == "b=";
    assert StripEnd("a b=") == "a b=";
    assert "b="[1] == '=';
  }

  lemma OvertakingLines()
    ensures Opens("void f{") == 1 && Closes("void f{") == 0 && Opens("{") == 1 && Closes("{") == 0
    ensures Opens("}") == 0 && Closes("}") == 1 && Opens("a b=") == 0 && Closes("a b=") == 0
    ensures Declaration("a b=") == Some(("a", "b=", "b=")) && '=' in "b="
    ensures StartsWith("void f{", "void ") && StartsWith("}", "}") && !StartsWith("{", "}")
    ensures !StartsWith("a b=", "void ") && !StartsWith("a b=", "}") && !StartsWith("}", "void ")
  {
    OvertakingBraces();
    OvertakingDeclaration();
    assert "void f{"[..5] == "void " && "a b="[0] == 'a' && "void "[0] == 'v' && "}"[0] == '}' && "{"[0] == '{';
  }

  lemma Prefixes()
    ensures forall k :: 0 <= k < 5 ==>
              OVERTAKING[..k + 1][..k] == OVERTAKING[..k] && OVERTAKING[..k + 1][k] == OVERTAKING[k]
    ensures OVERTAKING[..5] == OVERTAKING && OVERTAKING[..0] == []
  {
  }

  lemma OvertakingNesting()
    ensures NestingAfter(OVERTAKING[..1]) == 1 && NestingAfter(OVERTAKING[..2]) == 2
    ensures NestingAfter(OVERTAKING[..3]) == 1
    ensures NestingAfter(OVERTAKING[..4]) == 1
  {
    hide Count;
    Prefixes();
    OvertakingLines();
    assert NestingAfter(OVERTAKING[..0]) == 0;
  }

  lemma OvertakingIsOneFunction()
    ensures OneFunction(OVERTAKING)
  {
    hide Count, Declaration;
    Prefixes();
    OvertakingLines();
    OvertakingNesting();
    assert PhaseAfter(OVERTAKING[..0]) == Before && NestingAfter(OVERTAKING[..0]) == 0;
    assert PhaseAfter(OVERTAKING[..1]) == Inside;
    assert PhaseAfter(OVERTAKING[..2]) == Inside;
    assert PhaseAfter(OVERTAKING[..3]) == Inside;
    assert PhaseAfter(OVERTAKING[..4]) == Inside;
  }

  /** A well-formed file whose meaning changes for every chunk size above two lines, the program's included. */
  lemma OvertakingFile(threshold: nat)
    requires threshold > 2
    ensures OneFunction(OVERTAKING) && !NoOvertaking(OVERTAKING, threshold) && !Preserved(OVERTAKING, threshold)
  {
    hide Count, Declaration, PhaseAfter;
    Prefixes();
    OvertakingLines();
    OvertakingNesting();
    OvertakingIsOneFunction();
    assert ProcessAll(OVERTAKING[..0], threshold) == Some(START);
    assert ProcessAll(OVERTAKING[..1], threshold).Some? && ProcessAll(OVERTAKING[..1], threshold).value.nesting == 1
      && ProcessAll(OVERTAKING[..1], threshold).value.chunk == [];
    assert ProcessAll(OVERTAKING[..2], threshold).Some? && ProcessAll(OVERTAKING[..2], threshold).value.nesting == 2
      && ProcessAll(OVERTAKING[..2], threshold).value.chunk == ["{"];
    var third := ProcessAll(OVERTAKING[..3], threshold);
    assert third.Some? && third.value.chunk == ["{", "}"];
    assert Overtakes(OVERTAKING[..3], OVERTAKING[3], threshold);
    OvertakingBreaks(OVERTAKING, threshold);
  }
}
