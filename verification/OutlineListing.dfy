/** What the splitter writes besides the steps: the shared header, the head of the function, and when a step ends. */
module OutlineListing {
  import opened Outline
  import opened Prelude

  // ---------------------------------------------------------------- reading a declaration and a header

  /** Every occurrence counts. */
  lemma {:induction false} CountAdds(a: string, b: string, c: char)
    ensures Count(a + b, c) == Count(a, c) + Count(b, c)
    ensures Count([], c) == 0 && Count([c], c) == 1 && (c !in a ==> Count(a, c) == 0)
    ensures Opens("{") == Closes("}") == 1 && Opens("}") == Closes("{") == 0
  {
    assert [c][1..] == [] && "{"[1..] == [] && "}"[1..] == [];
    if a != [] {
      CountAdds(a[1..], b, c);
      assert (a + b)[1..] == a[1..] + b;
    } else {
      assert a + b == b;
    }
  }

  lemma {:induction false} SplitAtSpace(a: string, b: string)
    requires ' ' !in a
    ensures SplitSpace(a + " " + b) == Some((a, b))
  {
    var s := a + " " + b;
    if a != [] {
      SplitAtSpace(a[1..], b);
      assert s[1..] == a[1..] + " " + b && s[0] == a[0] && [a[0]] + a[1..] == a;
    } else {
      assert s[1..] == b;
    }
  }

  lemma {:induction false} NoSpaceToSplit(s: string)
    requires ' ' !in s
    ensures SplitSpace(s) == None
  {
    if s != [] {
      NoSpaceToSplit(s[1..]);
    }
  }

  lemma {:induction false} UpToSeparator(a: string, b: string, c: char)
    requires c !in a && (b == [] || b[0] == c)
    ensures UpTo(a + b, c) == a
  {
    if a != [] {
      UpToSeparator(a[1..], b, c);
      assert (a + b)[1..] == a[1..] + b;
    } else {
      assert a + b == b;
    }
  }

  predicate EndsStatement(c: char) {
    c == '\n' || c == ';'
  }

  lemma {:induction false} StripsEnd(s: string, end: string)
    requires s != [] && !EndsStatement(s[|s| - 1]) && forall i :: 0 <= i < |end| ==> EndsStatement(end[i])
    ensures StripEnd(s + end) == s
  {
    if end != [] {
      var n := |end| - 1;
      StripsEnd(s, end[..n]);
      assert (s + end)[..|s + end| - 1] == s + end[..n];
    } else {
      assert s + end == s;
    }
  }

  /** A declaration: its type up to the first space, then its name up to the next, then anything; ends are dropped. */
  lemma {:induction false} DeclarationReads(typ: string, ident: string, rest: string, end: string)
    requires ' ' !in typ && ' ' !in ident && ident != [] && (rest == [] || rest[0] == ' ')
    requires !EndsStatement((ident + rest)[|ident + rest| - 1])
    requires forall i :: 0 <= i < |end| ==> EndsStatement(end[i])
    ensures Declaration(typ + " " + (ident + rest) + end) == Some((typ, ident, ident + rest))
  {
    hide SplitSpace, UpTo, StripEnd;
    StripsEnd(typ + " " + (ident + rest), end);
    SplitAtSpace(typ, ident + rest);
    UpToSeparator(ident, rest, ' ');
  }

  /** Without a space before the end there is no declaration, and the program fails. */
  lemma {:induction false} DeclarationNeedsSpace(s: string, end: string)
    requires s != [] && ' ' !in s && !EndsStatement(s[|s| - 1])
    requires forall i :: 0 <= i < |end| ==> EndsStatement(end[i])
    ensures Declaration(s + end) == None
  {
    hide SplitSpace, UpTo, StripEnd;
    StripsEnd(s, end);
    NoSpaceToSplit(s);
  }

  /** The name of a function: after "void ", up to the parenthesis. */
  function NameOf(line: string): string
    requires StartsWith(line, "void ")
  {
    UpTo(line[5..], '(')
  }

  lemma {:induction false} HeaderReads(name: string, rest: string)
    requires '(' !in name
    ensures NameOf("void " + (name + ("(" + rest))) == name
  {
    UpToSeparator(name, "(" + rest, '(');
    assert ("void " + (name + ("(" + rest)))[5..] == name + ("(" + rest);
  }

  // ---------------------------------------------------------------- the shared header

  /** What one line puts into the shared header, when `nesting` blocks are open before it. */
  function ItemsOf(line: string, nesting: int): seq<GlobalItem> {
    var inner := nesting + Opens(line);
    if inner == 0 then [Shared(line)]
    else if inner != 1 then []
    else if StartsWith(line, "void ") then [OpenStruct(NameOf(line))]
    else if StartsWith(line, "}") then []
    else match Declaration(line)
         case None => []
         case Some((typ, ident, _)) => [Field(typ, ident)]
  }

  /** The items that the lines call for, in order. */
  function Listed(lines: seq<string>): seq<GlobalItem> {
    if lines == [] then []
    else
      var before := lines[..|lines| - 1];
      Listed(before) + ItemsOf(lines[|lines| - 1], NestingAfter(before))
  }

  function WithoutSteps(items: seq<GlobalItem>): seq<GlobalItem> {
    if items == [] then []
    else
      var last := items[|items| - 1];
      WithoutSteps(items[..|items| - 1]) + if last.StepDecl? then [] else [last]
  }

  /** The numbers of the declared steps, in order. */
  function StepNumbers(items: seq<GlobalItem>): seq<nat> {
    if items == [] then []
    else
      var last := items[|items| - 1];
      StepNumbers(items[..|items| - 1]) + if last.StepDecl? then [last.step] else []
  }

  lemma {:induction false} OneMore(items: seq<GlobalItem>, item: GlobalItem)
    ensures WithoutSteps(items + [item]) == WithoutSteps(items) + if item.StepDecl? then [] else [item]
    ensures StepNumbers(items + [item]) == StepNumbers(items) + if item.StepDecl? then [item.step] else []
  {
    assert (items + [item])[..|items|] == items;
  }

  function OneTo(n: nat): (numbers: seq<nat>)
    ensures |numbers| == n && forall i :: 0 <= i < n ==> numbers[i] == i + 1
  {
    seq(n, i requires 0 <= i < n => i + 1)
  }

  /** A line adds the items it calls for, or declares the step it completes. */
  lemma {:induction false} LineAdds(s: State, line: string, threshold: nat)
    requires Process(s, line, threshold).Some?
    ensures var s' := Process(s, line, threshold).value;
            || (s'.steps == s.steps && s'.globals == s.globals + ItemsOf(line, s.nesting))
            || (|s'.steps| == |s.steps| + 1 && ItemsOf(line, s.nesting) == [] &&
                s'.globals == s.globals + [StepDecl(|s.steps| + 1)])
  {
    hide Declaration, UpTo, Opens, Closes;
    assert s.globals + [] == s.globals;
  }

  lemma {:induction false} LineListed(s: State, line: string, threshold: nat)
    requires Process(s, line, threshold).Some? && StepNumbers(s.globals) == OneTo(|s.steps|)
    ensures var s' := Process(s, line, threshold).value;
            && WithoutSteps(s'.globals) == WithoutSteps(s.globals) + ItemsOf(line, s.nesting)
            && StepNumbers(s'.globals) == OneTo(|s'.steps|)
  {
    LineAdds(s, line, threshold);
    OneItem(line, s.nesting);
    hide Process, ItemsOf;
    var items, g := ItemsOf(line, s.nesting), s.globals;
    if items != [] {
      assert g + items == g + [items[0]];
      OneMore(g, items[0]);
    }
    OneMore(g, StepDecl(|s.steps| + 1));
    assert g + [] == g && WithoutSteps(g) + [] == WithoutSteps(g) && StepNumbers(g) + [] == StepNumbers(g);
    assert OneTo(|s.steps| + 1) == OneTo(|s.steps|) + [|s.steps| + 1];
  }

  lemma {:induction false} OneItem(line: string, nesting: int)
    ensures ItemsOf(line, nesting) == [] || (|ItemsOf(line, nesting)| == 1 && !ItemsOf(line, nesting)[0].StepDecl?)
  {
  }

  lemma {:induction false} RunListed(lines: seq<string>, threshold: nat)
    requires ProcessAll(lines, threshold).Some?
    ensures var s := ProcessAll(lines, threshold).value;
            WithoutSteps(s.globals) == Listed(lines) && StepNumbers(s.globals) == OneTo(|s.steps|)
  {
    if lines != [] {
      hide Process, ItemsOf;
      var before := lines[..|lines| - 1];
      RunListed(before, threshold);
      StepsAreBodyLines(before, threshold);
      LineListed(ProcessAll(before, threshold).value, lines[|lines| - 1], threshold);
    }
  }

  /**
   * In the shared header of every accepted file, what is not a step is what the lines call for, in order, and the
   * steps are numbered from 1 to the last.
   */
  lemma {:induction false} HeaderListed(lines: seq<string>, threshold: nat)
    requires Outlined(lines, threshold).Some?
    ensures var r := Outlined(lines, threshold).value;
            WithoutSteps(r.globals) == Listed(lines) && StepNumbers(r.globals) == OneTo(|r.steps|)
  {
    RunListed(lines, threshold);
    hide ProcessAll;
    var s := ProcessAll(lines, threshold).value;
    OneMore(s.globals, StepDecl(|s.steps| + 1));
    assert OneTo(|s.steps| + 1) == OneTo(|s.steps|) + [|s.steps| + 1];
  }

  // ---------------------------------------------------------------- the rewritten function

  predicate Declares(items: seq<GlobalItem>, ident: string) {
    exists i :: 0 <= i < |items| && items[i].Field? && items[i].ident == ident
  }

  /** Every initialisation assigns a field of the struct. */
  ghost predicate InitsDeclared(s: State) {
    forall i :: 0 <= i < |s.main| && s.main[i].InitState? ==> Declares(s.globals, UpTo(s.main[i].decl, ' '))
  }

  lemma {:induction false} DeclaresMore(items: seq<GlobalItem>, item: GlobalItem, ident: string)
    ensures Declares(items, ident) ==> Declares(items + [item], ident)
    ensures item.Field? && item.ident == ident ==> Declares(items + [item], ident)
  {
    if Declares(items, ident) {
      var i :| 0 <= i < |items| && items[i].Field? && items[i].ident == ident;
      assert (items + [item])[i] == items[i];
    }
    if item.Field? && item.ident == ident {
      assert (items + [item])[|items|] == item;
    }
  }

  lemma {:induction false} LineKeepsInits(s: State, line: string, threshold: nat)
    requires Process(s, line, threshold).Some? && InitsDeclared(s)
    ensures InitsDeclared(Process(s, line, threshold).value)
  {
    hide Declares, UpTo, Opens, Closes, SplitSpace, StripEnd;
    var s' := Process(s, line, threshold).value;
    if s'.globals != s.globals {
      var item := s'.globals[|s.globals|];
      assert s'.globals == s.globals + [item];
      forall ident ensures Declares(s.globals, ident) ==> Declares(s'.globals, ident) {
        DeclaresMore(s.globals, item, ident);
      }
      if item.Field? {
        DeclaresMore(s.globals, item, item.ident);
      }
    }
  }

  lemma {:induction false} RunKeepsInits(lines: seq<string>, threshold: nat)
    requires ProcessAll(lines, threshold).Some?
    ensures InitsDeclared(ProcessAll(lines, threshold).value)
  {
    if lines != [] {
      hide Process, InitsDeclared;
      assert InitsDeclared(START) by {
        hide *;
        NoInits();
      }
      var before := lines[..|lines| - 1];
      RunKeepsInits(before, threshold);
      LineKeepsInits(ProcessAll(before, threshold).value, lines[|lines| - 1], threshold);
    } else {
      NoInits();
    }
  }

  lemma {:induction false} NoInits()
    ensures InitsDeclared(START)
  {
  }

  /** In every accepted file, every initialisation that is left assigns a declared field. */
  lemma {:induction false} InitsAssignFields(lines: seq<string>, threshold: nat)
    requires Outlined(lines, threshold).Some?
    ensures InitsDeclared(Outlined(lines, threshold).value)
  {
    RunKeepsInits(lines, threshold);
    hide ProcessAll, Declares, UpTo;
    var s := ProcessAll(lines, threshold).value;
    forall ident ensures Declares(s.globals, ident) ==> Declares(s.globals + [StepDecl(|s.steps| + 1)], ident) {
      DeclaresMore(s.globals, StepDecl(|s.steps| + 1), ident);
    }
  }

  /** The header of the function and the declaration of its state stand first. */
  ghost predicate Headed(s: State, line: string) {
    StartsWith(line, "void ") && |s.main| >= 2 && s.main[0] == Text(line) && s.main[1] == StateDecl(NameOf(line))
  }

  lemma {:induction false} RunHeaded(lines: seq<string>, threshold: nat) returns (k: nat)
    requires PhaseAfter(lines) == Inside || PhaseAfter(lines) == Done
    ensures ProcessAll(lines, threshold).Some? && k < |lines| && Headed(ProcessAll(lines, threshold).value, lines[k])
    ensures PhaseAfter(lines) == Done ==> |ProcessAll(lines, threshold).value.main| >= 3
  {
    RunKeepsShape(lines, threshold);
    assert lines != [];
    var before, line := lines[..|lines| - 1], lines[|lines| - 1];
    RunKeepsShape(before, threshold);
    StepsAreBodyLines(before, threshold);
    hide ShapeInvariant;
    if PhaseAfter(before) == Before {
      k := |lines| - 1;
      FirstLineHeads(lines, threshold);
    } else {
      k := RunHeaded(before, threshold);
      MainGrowsByOne(ProcessAll(before, threshold).value, line, threshold);
    }
  }

  lemma {:induction false} FirstLineHeads(lines: seq<string>, threshold: nat)
    requires lines != [] && PhaseAfter(lines[..|lines| - 1]) == Before && PhaseAfter(lines) == Inside
    ensures ProcessAll(lines, threshold).Some? && Headed(ProcessAll(lines, threshold).value, lines[|lines| - 1])
  {
    hide Opens, Closes, Declaration;
    RunKeepsShape(lines[..|lines| - 1], threshold);
    StepsAreBodyLines(lines[..|lines| - 1], threshold);
  }

  lemma {:induction false} MainGrowsByOne(s: State, line: string, threshold: nat)
    requires Process(s, line, threshold).Some?
    ensures s.main <= Process(s, line, threshold).value.main
    ensures s.nesting + Opens(line) == 1 && StartsWith(line, "}") ==>
              Process(s, line, threshold).value.main == s.main + [Text(line)]
  {
    hide Opens, Closes, Declaration;
    assert StartsWith(line, "}") ==> line[0] == '}';
    assert StartsWith(line, "void ") ==> line[0] == 'v';
  }

  /** For every file with one function, the rewritten one begins with its header and the declaration of its state. */
  lemma {:induction false} FunctionHeaded(lines: seq<string>, threshold: nat) returns (k: nat)
    requires OneFunction(lines)
    ensures Outlined(lines, threshold).Some? && k < |lines| && Headed(Outlined(lines, threshold).value, lines[k])
  {
    k := RunHeaded(lines, threshold);
    RunKeepsShape(lines, threshold);
    hide ProcessAll;
  }

  /** What one line puts into the rewritten function, besides calls. */
  function LinesOf(line: string, nesting: int): seq<MainItem> {
    var inner := nesting + Opens(line);
    if inner != 1 then []
    else if StartsWith(line, "void ") then [Text(line), StateDecl(NameOf(line))]
    else if StartsWith(line, "}") then [Text(line)]
    else match Declaration(line)
         case None => []
         case Some((_, _, decl)) => if '=' in decl then [InitState(decl)] else []
  }

  function MainListed(lines: seq<string>): seq<MainItem> {
    if lines == [] then []
    else
      var before := lines[..|lines| - 1];
      MainListed(before) + LinesOf(lines[|lines| - 1], NestingAfter(before))
  }

  predicate IsCall(item: MainItem) {
    item.Call? || item.CallAndClose?
  }

  function WithoutCalls(items: seq<MainItem>): seq<MainItem> {
    if items == [] then []
    else
      var last := items[|items| - 1];
      WithoutCalls(items[..|items| - 1]) + if IsCall(last) then [] else [last]
  }

  /** The numbers of the called steps, in order. */
  function CallNumbers(items: seq<MainItem>): seq<nat> {
    if items == [] then []
    else
      var last := items[|items| - 1];
      CallNumbers(items[..|items| - 1]) + if IsCall(last) then [last.step] else []
  }

  lemma {:induction false} OneMoreItem(items: seq<MainItem>, item: MainItem)
    ensures WithoutCalls(items + [item]) == WithoutCalls(items) + if IsCall(item) then [] else [item]
    ensures CallNumbers(items + [item]) == CallNumbers(items) + if IsCall(item) then [item.step] else []
  {
    assert (items + [item])[..|items|] == items;
  }

  lemma {:induction false} NoCallsIn(items: seq<MainItem>, more: seq<MainItem>)
    requires forall i :: 0 <= i < |more| ==> !IsCall(more[i])
    ensures WithoutCalls(items + more) == WithoutCalls(items) + more && CallNumbers(items + more) == CallNumbers(items)
  {
    hide WithoutCalls, CallNumbers;
    if more == [] {
      assert items + more == items && WithoutCalls(items) + more == WithoutCalls(items);
    } else {
      var n := |more| - 1;
      var init, last := more[..n], more[n];
      NoCallsIn(items, init);
      OneMoreItem(items + init, last);
      assert !IsCall(last);
      assert items + more == (items + init) + [last];
      assert CallNumbers(items) + [] == CallNumbers(items);
      assert (WithoutCalls(items) + init) + [last] == WithoutCalls(items) + more;
    }
  }

  /** A line adds the items it calls for, or the call of the step it completes. */
  lemma {:induction false} LineWrites(s: State, line: string, threshold: nat)
    requires Process(s, line, threshold).Some?
    ensures var s' := Process(s, line, threshold).value;
            || (s'.steps == s.steps && s'.main == s.main + LinesOf(line, s.nesting))
            || (|s'.steps| == |s.steps| + 1 && LinesOf(line, s.nesting) == [] &&
                s'.main == s.main + [Call(|s.steps| + 1)])
  {
    hide Declaration, UpTo, Opens, Closes;
    assert s.main + [] == s.main;
    assert StartsWith(line, "}") ==> line[0] == '}';
    assert StartsWith(line, "void ") ==> line[0] == 'v';
  }

  lemma {:induction false} LineWritten(s: State, line: string, threshold: nat)
    requires Process(s, line, threshold).Some? && CallNumbers(s.main) == OneTo(|s.steps|)
    ensures var s' := Process(s, line, threshold).value;
            && WithoutCalls(s'.main) == WithoutCalls(s.main) + LinesOf(line, s.nesting)
            && CallNumbers(s'.main) == OneTo(|s'.steps|)
  {
    LineWrites(s, line, threshold);
    NoCallsIn(s.main, LinesOf(line, s.nesting));
    hide Process, LinesOf;
    OneMoreItem(s.main, Call(|s.steps| + 1));
    assert WithoutCalls(s.main) + [] == WithoutCalls(s.main);
    assert OneTo(|s.steps| + 1) == OneTo(|s.steps|) + [|s.steps| + 1];
  }

  lemma {:induction false} RunWritten(lines: seq<string>, threshold: nat)
    requires ProcessAll(lines, threshold).Some?
    ensures var s := ProcessAll(lines, threshold).value;
            WithoutCalls(s.main) == MainListed(lines) && CallNumbers(s.main) == OneTo(|s.steps|)
  {
    if lines != [] {
      hide Process, LinesOf;
      var before := lines[..|lines| - 1];
      RunWritten(before, threshold);
      StepsAreBodyLines(before, threshold);
      LineWritten(ProcessAll(before, threshold).value, lines[|lines| - 1], threshold);
    }
  }

  /**
   * For a file with one function: the steps are called once each, in order, and what is not a call is what the lines
   * call for. If lines were pending at the end, the closing line is the last of these and is replaced by a call that
   * closes the function; otherwise it is the last item.
   */
  lemma {:induction false} FunctionWritten(lines: seq<string>, threshold: nat)
    requires OneFunction(lines)
    ensures Outlined(lines, threshold).Some? && MainListed(lines) != []
    ensures
      var r, all, n := Outlined(lines, threshold).value, MainListed(lines), |MainListed(lines)| - 1;
      && CallNumbers(r.main) == OneTo(|r.steps|) && all[n].Text? && r.main != []
      && (var last := r.main[|r.main| - 1];
          || (last == all[n] && WithoutCalls(r.main) == all)
          || (last == CallAndClose(|r.steps|) && WithoutCalls(r.main) == all[..n]))
  {
    RunKeepsShape(lines, threshold);
    RunWritten(lines, threshold);
    hide ProcessAll, OneTo, MainListed, CallNumbers, WithoutCalls, ShapeInvariant, Finish;
    LastWritten(ProcessAll(lines, threshold).value, MainListed(lines));
  }

  lemma {:induction false} LastWritten(s: State, all: seq<MainItem>)
    requires ShapeInvariant(Done, s) && WithoutCalls(s.main) == all && CallNumbers(s.main) == OneTo(|s.steps|)
    ensures Finish(s).Some? && all != [] && all[|all| - 1].Text?
    ensures
      var r, n := Finish(s).value, |all| - 1;
      && CallNumbers(r.main) == OneTo(|r.steps|) && r.main != []
      && (var last := r.main[|r.main| - 1];
          || (last == all[n] && WithoutCalls(r.main) == all)
          || (last == CallAndClose(|r.steps|) && WithoutCalls(r.main) == all[..n]))
  {
    hide OneTo, CallNumbers, WithoutCalls, Balanced;
    var n := |s.main| - 1;
    var rest, closing, call := s.main[..n], s.main[n], CallAndClose(|s.steps| + 1);
    assert s.main == rest + [closing] && s.main[n := call] == rest + [call];
    OneMoreItem(rest, closing);
    OneMoreItem(rest, call);
    NextNumber(|s.steps|);
    assert CallNumbers(rest) + [] == CallNumbers(rest) && WithoutCalls(rest) + [] == WithoutCalls(rest);
    assert (WithoutCalls(rest) + [closing])[..|WithoutCalls(rest)|] == WithoutCalls(rest);
  }

  lemma {:induction false} NextNumber(n: nat)
    ensures OneTo(n + 1) == OneTo(n) + [n + 1]
  {
  }

  // ---------------------------------------------------------------- when a step ends

  /** A line that closes a block of the function: it starts with a brace while two blocks are open. */
  predicate EndsBlock(before: seq<string>, line: string) {
    NestingAfter(before) + Opens(line) == 2 && StartsWith(line, "}")
  }

  /** A step has at least the threshold of lines, and its last one starts with a closing brace. */
  predicate LongEnough(step: seq<string>, threshold: nat) {
    step != [] && |step| >= threshold && StartsWith(step[|step| - 1], "}")
  }

  /**
   * Before the end of the file, every step is long enough; and right after a line that ends a block, what is pending
   * is too short for one, so every step ends as early as it can.
   */
  lemma {:induction false} StepsEndEarly(lines: seq<string>, threshold: nat)
    requires ProcessAll(lines, threshold).Some?
    ensures var s := ProcessAll(lines, threshold).value;
            && (forall k :: 0 <= k < |s.steps| ==> LongEnough(s.steps[k], threshold))
            && (lines != [] && EndsBlock(lines[..|lines| - 1], lines[|lines| - 1]) ==>
                  s.chunk == [] || |s.chunk| < threshold)
  {
    if lines != [] {
      hide Process;
      var before, line := lines[..|lines| - 1], lines[|lines| - 1];
      StepsEndEarly(before, threshold);
      StepsAreBodyLines(before, threshold);
      LineEndsStep(ProcessAll(before, threshold).value, line, threshold);
    }
  }

  lemma {:induction false} LineEndsStep(s: State, line: string, threshold: nat)
    requires Process(s, line, threshold).Some? && forall k :: 0 <= k < |s.steps| ==> LongEnough(s.steps[k], threshold)
    ensures var s' := Process(s, line, threshold).value;
            && (forall k :: 0 <= k < |s'.steps| ==> LongEnough(s'.steps[k], threshold))
            && (s.nesting + Opens(line) == 2 && StartsWith(line, "}") ==> s'.chunk == [] || |s'.chunk| < threshold)
  {
    hide Opens, Closes, Declaration;
    var chunk := s.chunk + [line];
    assert chunk[|chunk| - 1] == line;
  }

  /** The end of the file makes the pending lines, if there are any, the last step. */
  lemma {:induction false} LastStep(lines: seq<string>, threshold: nat)
    requires Outlined(lines, threshold).Some?
    ensures var s, r := ProcessAll(lines, threshold), Outlined(lines, threshold).value;
            && s.Some? && r.chunk == []
            && r.steps == s.value.steps + (if s.value.chunk == [] then [] else [s.value.chunk])
  {
  }
}
