/**
 production_lines of scripts/check_panic_budget.py: which lines of a Rust file
 count towards the panic budget. The three regular expressions are arbitrary
 predicates on lines here; module RustPatterns has those of the script.
 */
module PanicBudget {
  import opened Text

  datatype Patterns = Patterns(itemStart: string -> bool, cfgTest: string -> bool, panicUse: string -> bool)

  function Count(line: string, c: char): nat {
    if line == "" then 0 else (if line[0] == c then 1 else 0) + Count(line[1..], c)
  }

  function BraceDelta(line: string): int {
    Count(line, '{') - Count(line, '}')
  }

  lemma {:induction false} CountIsMultiplicity(line: string, c: char)
    ensures Count(line, c) == multiset(line)[c]
    decreases |line|
  {
    if line != "" {
      CountIsMultiplicity(line[1..], c);
      assert line == [line[0]] + line[1..];
    }
  }

  /** The delta of a line is the number of its opening braces less that of its closing ones. */
  lemma BraceDeltaIs(line: string)
    ensures BraceDelta(line) == multiset(line)['{'] as int - multiset(line)['}'] as int
  {
    CountIsMultiplicity(line, '{');
    CountIsMultiplicity(line, '}');
  }

  // The line is neither blank nor an attribute, so it ends the wait for the guarded item.
  predicate EndsWait(line: string) {
    Strip(line) != "" && Strip(line)[0] != '#'
  }

  /** A line ends the wait exactly when it has a character that is no white space, the first of which is no '#'. */
  lemma EndsWaitIff(line: string)
    ensures EndsWait(line) <==>
            exists i :: 0 <= i < |line| && line[i] != '#' && !IsSpace(line[i]) && AllSpace(line[..i])
  {
    hide IsSpace, Strip;
    var front, back := StripCuts(line);
    var k := |front|;
    if Strip(line) != "" {
      assert line[k] == Strip(line)[0] && line[..k] == front;
      forall i | 0 <= i < |line| && i != k
        ensures IsSpace(line[i]) || !AllSpace(line[..i])
      {
        if i > k {
          assert line[..i][k] == line[k];
        } else {
          assert front[i] == line[i];
        }
      }
    } else {
      assert forall i :: 0 <= i < |line| ==> line[i] == (front + back)[i];
    }
  }

  // ---------- the code, with its stack ----------

  function Sum(stack: seq<int>): int {
    if stack == [] then 0 else stack[0] + Sum(stack[1..])
  }

  // The skip stack never nests: it is empty, or holds one positive count.
  predicate OneSkip(stack: seq<int>) {
    |stack| <= 1 && forall i :: 0 <= i < |stack| ==> stack[i] > 0
  }

  function Depth(stack: seq<int>): nat
    requires OneSkip(stack)
  {
    if stack == [] then 0 else stack[0]
  }

  lemma SumIsDepth(stack: seq<int>)
    requires OneSkip(stack)
    ensures Sum(stack) == Depth(stack)
  {
    assert stack != [] ==> stack[1..] == [];
  }

  /** The body of the loop for one line: on the only stacks it meets, it is a step of the one-counter scan. */
  method ClassifyLine(p: Patterns, skipStack: seq<int>, pending: bool, line: string)
    returns (skipStack': seq<int>, pending': bool, kept: seq<string>)
    requires OneSkip(skipStack)
    ensures OneSkip(skipStack')
    ensures Scan(Depth(skipStack'), pending') == Next(p, Scan(Depth(skipStack), pending), line)
    ensures kept == Emitted(p, Scan(Depth(skipStack), pending), line)
  {
    hide BraceDelta, EndsWait;
    skipStack', pending', kept := skipStack, pending, [];
    SumIsDepth(skipStack);
    var currentDepth := Sum(skipStack);
    if currentDepth == 0 {
      if pending && p.itemStart(line) {
        var delta := BraceDelta(line);
        if delta > 0 {
          skipStack' := skipStack + [delta];
        }
        pending' := false;
      } else {
        if pending && EndsWait(line) {
          pending' := false;
        }
        if p.cfgTest(line) {
          pending' := true;
        } else {
          kept := [line];
        }
      }
    } else {
      var last := |skipStack| - 1;
      skipStack' := skipStack[last := skipStack[last] + BraceDelta(line)];
      if skipStack'[last] <= 0 {
        skipStack' := skipStack'[..last];
      }
    }
  }

  /** production_lines: the lines kept, whatever the stack, are those the one-counter scan keeps. */
  method ProductionLines(p: Patterns, lines: seq<string>) returns (output: seq<string>)
    ensures output == Output(p, START, lines)
  {
    hide Next, Emitted;
    output := [];
    var skipStack: seq<int> := [];
    var pendingCfgTest := false;
    assert lines[0..] == lines;
    for n := 0 to |lines|
      invariant OneSkip(skipStack)
      invariant output + Output(p, Scan(Depth(skipStack), pendingCfgTest), lines[n..]) == Output(p, START, lines)
    {
      ghost var scan, before := Scan(Depth(skipStack), pendingCfgTest), output;
      var kept;
      skipStack, pendingCfgTest, kept := ClassifyLine(p, skipStack, pendingCfgTest, lines[n]);
      output := output + kept;
      OutputFirst(p, scan, lines[n..]);
      assert lines[n..][1..] == lines[n + 1..];
      assert before + (kept + Output(p, Next(p, scan, lines[n]), lines[n + 1..])) ==
             output + Output(p, Next(p, scan, lines[n]), lines[n + 1..]);
    }
  }

  // ---------- the same with one counter ----------

  datatype Scan = Scan(depth: nat, pending: bool)

  const START := Scan(0, false)

  function Next(p: Patterns, s: Scan, line: string): Scan {
    if s.depth > 0 then
      Scan(if s.depth + BraceDelta(line) > 0 then s.depth + BraceDelta(line) else 0, s.pending)
    else if s.pending && p.itemStart(line) then
      Scan(if BraceDelta(line) > 0 then BraceDelta(line) else 0, false)
    else Scan(0, p.cfgTest(line) || (s.pending && !EndsWait(line)))
  }

  function Emitted(p: Patterns, s: Scan, line: string): seq<string> {
    if s.depth > 0 || (s.pending && p.itemStart(line)) || p.cfgTest(line) then [] else [line]
  }

  function After(p: Patterns, s: Scan, lines: seq<string>): Scan
    decreases |lines|
  {
    if lines == [] then s else After(p, Next(p, s, lines[0]), lines[1..])
  }

  function Output(p: Patterns, s: Scan, lines: seq<string>): seq<string>
    decreases |lines|
  {
    if lines == [] then [] else Emitted(p, s, lines[0]) + Output(p, Next(p, s, lines[0]), lines[1..])
  }

  lemma OutputFirst(p: Patterns, s: Scan, lines: seq<string>)
    requires lines != []
    ensures Output(p, s, lines) == Emitted(p, s, lines[0]) + Output(p, Next(p, s, lines[0]), lines[1..])
  {
  }

  lemma {:induction false} ScanConcat(p: Patterns, s: Scan, a: seq<string>, b: seq<string>)
    ensures Output(p, s, a + b) == Output(p, s, a) + Output(p, After(p, s, a), b)
    ensures After(p, s, a + b) == After(p, After(p, s, a), b)
    decreases |a|
  {
    hide Next, Emitted;
    if a == [] {
      assert a + b == b;
    } else {
      assert (a + b)[0] == a[0] && (a + b)[1..] == a[1..] + b;
      ScanConcat(p, Next(p, s, a[0]), a[1..], b);
    }
  }

  // ---------- what a guarded item hides ----------

  // The first line at which a running brace count of d has come down to zero or below.
  function FirstClose(d: int, lines: seq<string>): (r: Option<nat>)
    ensures r.Some? ==> r.value < |lines|
    decreases |lines|
  {
    if lines == [] then None
    else if d + BraceDelta(lines[0]) <= 0 then Some(0)
    else match FirstClose(d + BraceDelta(lines[0]), lines[1..])
      case None => None
      case Some(k) => Some(k + 1)
  }

  // The running brace count after the first n lines, from a count of d.
  ghost function RunningCount(d: int, lines: seq<string>, n: nat): int
    requires n <= |lines|
  {
    if n == 0 then d
    else
      var braces := multiset(lines[n - 1]);
      RunningCount(d, lines, n - 1) + braces['{'] as int - braces['}'] as int
  }

  lemma RunningCountNext(d: int, lines: seq<string>, n: nat)
    requires 0 < n <= |lines|
    ensures RunningCount(d, lines, n) == RunningCount(d, lines, n - 1) + BraceDelta(lines[n - 1])
  {
    BraceDeltaIs(lines[n - 1]);
  }

  lemma {:induction false} RunningCountFromSecond(d: int, lines: seq<string>, n: nat)
    requires 0 < n <= |lines|
    ensures RunningCount(d, lines, n) == RunningCount(d + BraceDelta(lines[0]), lines[1..], n - 1)
    decreases n
  {
    hide BraceDelta;
    RunningCountNext(d, lines, n);
    if n > 1 {
      RunningCountNext(d + BraceDelta(lines[0]), lines[1..], n - 1);
      RunningCountFromSecond(d, lines, n - 1);
    } else {
      assert RunningCount(d, lines, 0) == d;
    }
  }

  // The count comes down to zero or below at line k, and at no line before.
  ghost predicate ClosesAt(d: int, lines: seq<string>, k: nat)
    requires k < |lines|
  {
    RunningCount(d, lines, k + 1) <= 0 && forall n :: 0 < n <= k ==> RunningCount(d, lines, n) > 0
  }

  lemma ClosesAtFromSecond(d: int, lines: seq<string>, k: nat)
    requires 0 < k < |lines|
    ensures var d1 := d + BraceDelta(lines[0]);
            ClosesAt(d, lines, k) <==> d1 > 0 && ClosesAt(d1, lines[1..], k - 1)
  {
    hide BraceDelta;
    var d1, rest := d + BraceDelta(lines[0]), lines[1..];
    forall n | 0 < n <= k + 1
      ensures RunningCount(d, lines, n) == RunningCount(d1, rest, n - 1)
    {
      RunningCountFromSecond(d, lines, n);
    }
    assert RunningCount(d, lines, 1) == RunningCount(d1, rest, 0) == d1;
    if d1 > 0 && ClosesAt(d1, rest, k - 1) {
      forall n | 0 < n <= k
        ensures RunningCount(d, lines, n) > 0
      {
        assert n > 1 ==> RunningCount(d1, rest, n - 1) > 0;
      }
    }
    if ClosesAt(d, lines, k) {
      forall m | 0 < m <= k - 1
        ensures RunningCount(d1, rest, m) > 0
      {
        assert RunningCount(d, lines, m + 1) == RunningCount(d1, rest, m);
      }
    }
  }

  /** FirstClose finds the first line after which the running count is no longer positive. */
  lemma {:induction false} FirstCloseIff(d: int, lines: seq<string>, k: nat)
    requires k < |lines|
    ensures FirstClose(d, lines) == Some(k) <==> ClosesAt(d, lines, k)
    decreases |lines|
  {
    hide BraceDelta, ClosesAt;
    if k > 0 {
      ClosesAtFromSecond(d, lines, k);
      FirstCloseIff(d + BraceDelta(lines[0]), lines[1..], k - 1);
    } else {
      ClosesAtOnce(d, lines);
    }
  }

  lemma ClosesAtOnce(d: int, lines: seq<string>)
    requires lines != []
    ensures ClosesAt(d, lines, 0) <==> d + BraceDelta(lines[0]) <= 0
  {
    RunningCountFromSecond(d, lines, 1);
  }

  // Everything after the line that closes a running count of d; nothing if no line does.
  function Behind(d: int, lines: seq<string>): seq<string> {
    if d <= 0 then lines
    else match FirstClose(d, lines)
      case None => []
      case Some(k) => lines[k + 1..]
  }

  lemma {:induction false} SkippingUntilClose(p: Patterns, d: nat, lines: seq<string>)
    ensures Output(p, Scan(d, false), lines) == Output(p, START, Behind(d, lines))
    decreases |lines|
  {
    hide *;
    if d == 0 {
      BehindClosed(0, lines);
      assert Scan(0, false) == START by {
        StartIsNeutral();
      }
    } else if lines == [] {
      SkippedNothing(p, d);
    } else {
      var d1 := d + BraceDelta(lines[0]);
      OutputFirst(p, Scan(d, false), lines);
      SkipStep(p, d, lines[0]);
      SkippingUntilClose(p, if d1 > 0 then d1 else 0, lines[1..]);
      BehindStep(d, lines);
    }
  }

  lemma StartIsNeutral()
    ensures START == Scan(0, false)
  {
  }

  lemma BehindClosed(d: int, lines: seq<string>)
    requires d <= 0
    ensures Behind(d, lines) == lines
  {
  }

  lemma SkippedNothing(p: Patterns, d: nat)
    requires d > 0
    ensures Output(p, Scan(d, false), []) == Output(p, START, Behind(d, []))
  {
  }

  lemma SkipStep(p: Patterns, d: nat, line: string)
    requires d > 0
    ensures Emitted(p, Scan(d, false), line) == []
    ensures Next(p, Scan(d, false), line) == Scan(if d + BraceDelta(line) > 0 then d + BraceDelta(line) else 0, false)
  {
  }

  lemma BehindStep(d: nat, lines: seq<string>)
    requires d > 0 && lines != []
    ensures var d1 := d + BraceDelta(lines[0]); Behind(d, lines) == Behind(if d1 > 0 then d1 else 0, lines[1..])
  {
    hide BraceDelta;
    var d1 := d + BraceDelta(lines[0]);
    if d1 > 0 && FirstClose(d1, lines[1..]).Some? {
      var k := FirstClose(d1, lines[1..]).value;
      assert lines[1..][k + 1..] == lines[k + 2..];
    }
  }

  // A line that may stand between #[cfg(test)] and its item.
  predicate Between(p: Patterns, line: string) {
    !EndsWait(line) && !p.itemStart(line) && !p.cfgTest(line)
  }

  lemma {:induction false} WaitingGoesOn(p: Patterns, mid: seq<string>)
    requires forall i :: 0 <= i < |mid| ==> Between(p, mid[i])
    ensures After(p, Scan(0, true), mid) == Scan(0, true) && Output(p, Scan(0, true), mid) == mid
    decreases |mid|
  {
    if mid != [] {
      assert Between(p, mid[0]);
      WaitingGoesOn(p, mid[1..]);
    }
  }

  // While a block is skipped: it ends where its braces first close, or not at all.
  lemma {:induction false} AfterSkipping(p: Patterns, d: nat, lines: seq<string>)
    requires d > 0
    ensures match FirstClose(d, lines)
            case None => After(p, Scan(d, false), lines).depth > 0
            case Some(k) => After(p, Scan(d, false), lines) == After(p, START, lines[k + 1..])
    decreases |lines|
  {
    hide BraceDelta, Next;
    if lines != [] {
      var d1 := d + BraceDelta(lines[0]);
      SkipStep(p, d, lines[0]);
      if d1 > 0 {
        AfterSkipping(p, d1, lines[1..]);
        if FirstClose(d1, lines[1..]).Some? {
          var k := FirstClose(d1, lines[1..]).value;
          assert lines[1..][k + 1..] == lines[k + 2..];
        }
      }
    }
  }

  // Some line brings the braces of the item down to zero, or its first line does.
  predicate Closes(item: string, body: seq<string>) {
    BraceDelta(item) > 0 ==> FirstClose(BraceDelta(item), body).Some?
  }

  lemma OneLine(p: Patterns, s: Scan, line: string, rest: seq<string>)
    ensures Output(p, s, [line] + rest) == Emitted(p, s, line) + Output(p, Next(p, s, line), rest)
  {
    assert ([line] + rest)[1..] == rest;
  }

  lemma BehindNothing(d: int, d': nat, rest: seq<string>)
    requires d' == if d > 0 then d else 0
    ensures Behind(d, rest) == Behind(d', rest)
  {
  }

  lemma GuardThenAttributes(p: Patterns, cfg: string, mid: seq<string>, tail: seq<string>)
    requires p.cfgTest(cfg) && forall i :: 0 <= i < |mid| ==> Between(p, mid[i])
    ensures Output(p, START, [cfg] + (mid + tail)) == mid + Output(p, Scan(0, true), tail)
    ensures After(p, START, [cfg] + (mid + tail)) == After(p, Scan(0, true), tail)
  {
    hide *;
    var waiting := Scan(0, true);
    GuardStep(p, cfg);
    OneLine(p, START, cfg, mid + tail);
    AfterOneLine(p, START, cfg, mid + tail);
    ScanConcat(p, waiting, mid, tail);
    WaitingGoesOn(p, mid);
  }

  lemma GuardStep(p: Patterns, cfg: string)
    requires p.cfgTest(cfg)
    ensures Next(p, START, cfg) == Scan(0, true) && Emitted(p, START, cfg) == []
  {
  }

  lemma AfterOneLine(p: Patterns, s: Scan, line: string, rest: seq<string>)
    ensures After(p, s, [line] + rest) == After(p, Next(p, s, line), rest)
  {
    assert ([line] + rest)[1..] == rest;
  }

  lemma ItemSteps(p: Patterns, item: string)
    requires p.itemStart(item)
    ensures Next(p, Scan(0, true), item) == Scan(if BraceDelta(item) > 0 then BraceDelta(item) else 0, false)
    ensures Emitted(p, Scan(0, true), item) == []
  {
  }

  // A guarded mod or fn leaves only the text behind it, or a block still open.
  lemma WaitingMeetsItem(p: Patterns, item: string, body: seq<string>)
    requires p.itemStart(item)
    ensures Output(p, Scan(0, true), [item] + body) == Output(p, START, Behind(BraceDelta(item), body))
    ensures if Closes(item, body)
            then After(p, Scan(0, true), [item] + body) == After(p, START, Behind(BraceDelta(item), body))
            else After(p, Scan(0, true), [item] + body) != START
  {
    hide BraceDelta, Output, After, Next, Emitted, FirstClose;
    var d: nat := if BraceDelta(item) > 0 then BraceDelta(item) else 0;
    ItemSteps(p, item);
    OneLine(p, Scan(0, true), item, body);
    AfterOneLine(p, Scan(0, true), item, body);
    SkippingUntilClose(p, d, body);
    BehindNothing(BraceDelta(item), d, body);
    if d > 0 {
      AfterSkipping(p, d, body);
    }
  }

  // Any other line is read as if there had been no guard.
  lemma WaitingMeetsOther(p: Patterns, item: string, body: seq<string>)
    requires !p.itemStart(item) && (EndsWait(item) || p.cfgTest(item))
    ensures Output(p, Scan(0, true), [item] + body) == Output(p, START, [item] + body)
    ensures After(p, Scan(0, true), [item] + body) == After(p, START, [item] + body)
  {
    hide EndsWait, BraceDelta, Output, After;
    OneLine(p, Scan(0, true), item, body);
    OneLine(p, START, item, body);
    AfterOneLine(p, Scan(0, true), item, body);
    AfterOneLine(p, START, item, body);
  }

  /**
   Exactly what a guarded mod or fn takes out, for every text behind it: the guard, the item's first line
   and the lines up to the one at which the item's braces first close. If they never close that is the whole rest
   of the file; if the first line opens none, that is the first line only.
   */
  lemma GuardedItemHides(p: Patterns, pre: seq<string>, cfg: string, mid: seq<string>, item: string, rest: seq<string>)
    requires After(p, START, pre) == START
    requires p.cfgTest(cfg) && p.itemStart(item) && forall i :: 0 <= i < |mid| ==> Between(p, mid[i])
    ensures Output(p, START, pre + [cfg] + mid + [item] + rest) ==
            Output(p, START, pre) + mid + Output(p, START, Behind(BraceDelta(item), rest))
  {
    hide Output, Behind, BraceDelta, After, Between;
    assert pre + [cfg] + mid + [item] + rest == pre + ([cfg] + (mid + ([item] + rest)));
    ScanConcat(p, START, pre, [cfg] + (mid + ([item] + rest)));
    GuardThenAttributes(p, cfg, mid, [item] + rest);
    WaitingMeetsItem(p, item, rest);
  }

  /** A guard before anything but a mod or fn hides its own line only: the item is counted, whatever its braces. */
  lemma GuardBeforeOtherItem(p: Patterns, pre: seq<string>, cfg: string, mid: seq<string>, item: string,
                             rest: seq<string>)
    requires After(p, START, pre) == START
    requires p.cfgTest(cfg) && forall i :: 0 <= i < |mid| ==> Between(p, mid[i])
    requires !p.itemStart(item) && EndsWait(item) && !p.cfgTest(item)
    ensures Output(p, START, pre + [cfg] + mid + [item] + rest) ==
            Output(p, START, pre) + mid + [item] + Output(p, START, rest)
  {
    hide *;
    assert pre + [cfg] + mid + [item] + rest == pre + ([cfg] + (mid + ([item] + rest)));
    ScanConcat(p, START, pre, [cfg] + (mid + ([item] + rest)));
    GuardThenAttributes(p, cfg, mid, [item] + rest);
    WaitingMeetsOther(p, item, rest);
    OneLine(p, START, item, rest);
    UnguardedStep(p, item);
    assert Output(p, START, pre) + (mid + ([item] + Output(p, START, rest))) ==
           Output(p, START, pre) + mid + [item] + Output(p, START, rest);
  }

  lemma UnguardedStep(p: Patterns, line: string)
    requires !p.cfgTest(line)
    ensures Next(p, START, line) == START && Emitted(p, START, line) == [line]
  {
  }

  // ---------- which blocks are not counted ----------

  /**
   The lines are guards, each run of them followed by a mod or fn whose braces close within the lines, and nothing
   else. The flag says that a guard has been read and its item is still to come.
   */
  predicate HiddenItems(p: Patterns, waiting: bool, lines: seq<string>)
    decreases |lines|
  {
    if lines == [] then !waiting
    else if waiting && p.itemStart(lines[0]) then
      var d, rest := BraceDelta(lines[0]), lines[1..];
      if d <= 0 then HiddenItems(p, false, rest)
      else match FirstClose(d, rest)
        case None => false
        case Some(k) => HiddenItems(p, false, rest[k + 1..])
    else p.cfgTest(lines[0]) && HiddenItems(p, true, lines[1..])
  }

  // Scanning the lines keeps none of them and ends where a file starts.
  ghost predicate LeavesNoTrace(p: Patterns, s: Scan, lines: seq<string>) {
    Output(p, s, lines) == [] && After(p, s, lines) == START
  }

  lemma TraceOfFirst(p: Patterns, s: Scan, lines: seq<string>)
    requires lines != []
    ensures LeavesNoTrace(p, s, lines) <==>
            Emitted(p, s, lines[0]) == [] && LeavesNoTrace(p, Next(p, s, lines[0]), lines[1..])
  {
    hide Next, Emitted;
  }

  lemma TraceOfSkipped(p: Patterns, d: nat, lines: seq<string>)
    requires d > 0
    ensures LeavesNoTrace(p, Scan(d, false), lines) <==>
            FirstClose(d, lines).Some? && LeavesNoTrace(p, START, lines[FirstClose(d, lines).value + 1..])
  {
    hide Output, After, FirstClose;
    SkippingUntilClose(p, d, lines);
    AfterSkipping(p, d, lines);
  }

  lemma {:induction false} HiddenItemsIff(p: Patterns, waiting: bool, lines: seq<string>)
    ensures HiddenItems(p, waiting, lines) <==> LeavesNoTrace(p, Scan(0, waiting), lines)
    decreases |lines|
  {
    hide BraceDelta, EndsWait, LeavesNoTrace;
    if lines == [] {
      NoLinesLeaveNoTrace(p, waiting);
    } else {
      TraceOfFirst(p, Scan(0, waiting), lines);
      var rest := lines[1..];
      if waiting && p.itemStart(lines[0]) {
        var d := BraceDelta(lines[0]);
        if d <= 0 {
          HiddenItemsIff(p, false, rest);
        } else {
          TraceOfSkipped(p, d, rest);
          if FirstClose(d, rest).Some? {
            HiddenItemsIff(p, false, rest[FirstClose(d, rest).value + 1..]);
          }
        }
      } else {
        HiddenItemsIff(p, true, rest);
      }
    }
  }

  lemma NoLinesLeaveNoTrace(p: Patterns, waiting: bool)
    ensures LeavesNoTrace(p, Scan(0, waiting), []) <==> !waiting
  {
  }

  // Splicing block in behind pre changes nothing, whatever follows.
  ghost predicate IsFree(p: Patterns, pre: seq<string>, block: seq<string>) {
    forall post :: Output(p, START, pre + block + post) == Output(p, START, pre + post)
  }

  /**
   Exactly the blocks that can be spliced in, where no guard is open or pending, without changing which other lines
   are counted: guarded mods and fns whose braces close. The probe is any line that would start an item.
   */
  lemma BlockIsFreeIff(p: Patterns, pre: seq<string>, block: seq<string>, probe: string)
    requires After(p, START, pre) == START && p.itemStart(probe) && !p.cfgTest(probe)
    ensures IsFree(p, pre, block) <==> HiddenItems(p, false, block)
  {
    hide HiddenItems, Output, After;
    HiddenItemsIff(p, false, block);
    if HiddenItems(p, false, block) {
      forall post
        ensures Output(p, START, pre + block + post) == Output(p, START, pre + post)
      {
        SpliceOutput(p, pre, block, post);
      }
    }
    if IsFree(p, pre, block) {
      assert Output(p, START, pre + block + []) == Output(p, START, pre + []);
      assert Output(p, START, pre + block + [probe]) == Output(p, START, pre + [probe]);
      SpliceOutput(p, pre, block, []);
      SpliceOutput(p, pre, block, [probe]);
      ProbeShows(p, probe);
    }
  }

  lemma SpliceOutput(p: Patterns, pre: seq<string>, block: seq<string>, post: seq<string>)
    requires After(p, START, pre) == START
    ensures Output(p, START, pre + block + post) ==
            Output(p, START, pre) + (Output(p, START, block) + Output(p, After(p, START, block), post))
    ensures Output(p, START, pre + post) == Output(p, START, pre) + Output(p, START, post)
  {
    hide *;
    assert pre + block + post == pre + (block + post);
    ScanConcat(p, START, pre, block + post);
    ScanConcat(p, START, block, post);
    ScanConcat(p, START, pre, post);
  }

  // An item's first line is kept in the starting state only, and no line at all is kept of no lines.
  lemma ProbeShows(p: Patterns, probe: string)
    requires p.itemStart(probe) && !p.cfgTest(probe)
    ensures forall s :: Output(p, s, []) == []
    ensures forall s :: Output(p, s, [probe]) == if s == START then [probe] else []
  {
    forall s
      ensures Output(p, s, [probe]) == Emitted(p, s, probe)
    {
      assert [probe][1..] == [];
    }
  }

  lemma NoGuardHidesNothing(p: Patterns, lines: seq<string>)
    requires forall i :: 0 <= i < |lines| ==> !p.cfgTest(lines[i])
    ensures HiddenItems(p, false, lines) <==> lines == []
  {
  }

  // The item's braces close on its last line; an item whose first line opens none must be that one line.
  predicate ClosesOnLastLine(item: string, body: seq<string>) {
    if BraceDelta(item) > 0 then body != [] && FirstClose(BraceDelta(item), body) == Some(|body| - 1) else body == []
  }

  lemma AttributeIsNotHidden(p: Patterns, mid: seq<string>, tail: seq<string>)
    requires forall i :: 0 <= i < |mid| ==> Between(p, mid[i])
    ensures HiddenItems(p, true, mid + tail) <==> mid == [] && HiddenItems(p, true, tail)
  {
    if mid == [] {
      assert mid + tail == tail;
    } else {
      assert (mid + tail)[0] == mid[0] && Between(p, mid[0]);
    }
  }

  lemma FirstLineHidden(p: Patterns, waiting: bool, line: string, rest: seq<string>)
    requires !(waiting && p.itemStart(line))
    ensures HiddenItems(p, waiting, [line] + rest) <==> p.cfgTest(line) && HiddenItems(p, true, rest)
  {
    assert ([line] + rest)[1..] == rest;
  }

  lemma ItemHidden(p: Patterns, item: string, body: seq<string>)
    requires p.itemStart(item) && forall i :: 0 <= i < |body| ==> !p.cfgTest(body[i])
    ensures HiddenItems(p, true, [item] + body) <==> ClosesOnLastLine(item, body)
  {
    hide BraceDelta;
    NoGuardHidesNothing(p, body);
    if BraceDelta(item) > 0 && FirstClose(BraceDelta(item), body).Some? {
      NoGuardHidesNothing(p, body[FirstClose(BraceDelta(item), body).value + 1..]);
    }
    assert ([item] + body)[1..] == body;
  }

  /**
   The exact condition under which all lines of a guarded item are left out and those behind it are not: the guard is
   directly followed by the first line of a mod or fn whose braces first close on its last line. Attribute lines in
   between are kept. (No line behind the guard is itself one.)
   */
  lemma GuardedItemIsFreeIff(p: Patterns, pre: seq<string>, cfg: string, mid: seq<string>, item: string,
                             body: seq<string>, probe: string)
    requires After(p, START, pre) == START && p.itemStart(probe) && !p.cfgTest(probe)
    requires p.cfgTest(cfg) && forall i :: 0 <= i < |mid| ==> Between(p, mid[i])
    requires !p.cfgTest(item) && forall i :: 0 <= i < |body| ==> !p.cfgTest(body[i])
    ensures IsFree(p, pre, [cfg] + mid + [item] + body) <==>
            mid == [] && p.itemStart(item) && ClosesOnLastLine(item, body)
  {
    hide IsFree, BraceDelta, HiddenItems, ClosesOnLastLine, After, Between;
    var tail := [item] + body;
    assert [cfg] + mid + [item] + body == [cfg] + (mid + tail);
    BlockIsFreeIff(p, pre, [cfg] + (mid + tail), probe);
    FirstLineHidden(p, false, cfg, mid + tail);
    AttributeIsNotHidden(p, mid, tail);
    if p.itemStart(item) {
      ItemHidden(p, item, body);
    } else {
      FirstLineHidden(p, true, item, body);
    }
  }

  // ---------- the count ----------

  /** How many of the lines use a panic-prone call. */
  function PanicCount(p: Patterns, lines: seq<string>): nat {
    if lines == [] then 0 else (if p.panicUse(lines[0]) then 1 else 0) + PanicCount(p, lines[1..])
  }

  lemma {:induction false} PanicCountConcat(p: Patterns, a: seq<string>, b: seq<string>)
    ensures PanicCount(p, a + b) == PanicCount(p, a) + PanicCount(p, b)
    decreases |a|
  {
    if a == [] {
      assert a + b == b;
    } else {
      assert (a + b)[0] == a[0] && (a + b)[1..] == a[1..] + b;
      PanicCountConcat(p, a[1..], b);
    }
  }

  // Splicing block in behind pre changes no file's panic count, whatever follows.
  ghost predicate IsCountFree(p: Patterns, pre: seq<string>, block: seq<string>) {
    forall post :: PanicCount(p, Output(p, START, pre + block + post)) == PanicCount(p, Output(p, START, pre + post))
  }

  /**
   A block leaves the count alone exactly when no line kept of it has a panic use, and it leaves no guard open or
   pending. The probe is any line that starts an item and has a panic use.
   */
  lemma BlockIsCountFreeIff(p: Patterns, pre: seq<string>, block: seq<string>, probe: string)
    requires After(p, START, pre) == START
    requires p.itemStart(probe) && !p.cfgTest(probe) && p.panicUse(probe)
    ensures IsCountFree(p, pre, block) <==>
            PanicCount(p, Output(p, START, block)) == 0 && After(p, START, block) == START
  {
    hide Output, After, PanicCount;
    if IsCountFree(p, pre, block) {
      SpliceCount(p, pre, block, []);
      SpliceCount(p, pre, block, [probe]);
      ProbeShows(p, probe);
      ProbeCounts(p, probe);
    }
    if PanicCount(p, Output(p, START, block)) == 0 && After(p, START, block) == START {
      forall post
        ensures PanicCount(p, Output(p, START, pre + block + post)) == PanicCount(p, Output(p, START, pre + post))
      {
        SpliceCount(p, pre, block, post);
      }
    }
  }

  lemma ProbeCounts(p: Patterns, probe: string)
    requires p.panicUse(probe)
    ensures PanicCount(p, [probe]) == 1 && PanicCount(p, []) == 0
  {
    assert [probe][1..] == [];
  }

  lemma SpliceCount(p: Patterns, pre: seq<string>, block: seq<string>, post: seq<string>)
    requires After(p, START, pre) == START
    ensures PanicCount(p, Output(p, START, pre + block + post)) ==
            PanicCount(p, Output(p, START, pre)) + PanicCount(p, Output(p, START, block)) +
            PanicCount(p, Output(p, After(p, START, block), post))
    ensures PanicCount(p, Output(p, START, pre + post)) ==
            PanicCount(p, Output(p, START, pre)) + PanicCount(p, Output(p, START, post))
  {
    hide *;
    var kept, behind := Output(p, START, block), Output(p, After(p, START, block), post);
    SpliceOutput(p, pre, block, post);
    PanicCountConcat(p, Output(p, START, pre), kept + behind);
    PanicCountConcat(p, kept, behind);
    PanicCountConcat(p, Output(p, START, pre), Output(p, START, post));
  }

  // What the scan goes on with behind a guard and its attributes: the text behind the item if it is a mod or fn.
  function LeftBehind(p: Patterns, item: string, body: seq<string>): seq<string> {
    if p.itemStart(item) then Behind(BraceDelta(item), body) else [item] + body
  }

  /**
   The exact effect of a guard on the count, for every text behind it. The item is the first line behind the guard
   that is neither blank nor an attribute. The whole leaves the count alone exactly when no attribute line before the
   item has a panic use, a mod or fn closes, and what is left (behind a mod or fn, or any other item whole) leaves
   the count alone itself.
   */
  lemma GuardIsCountFreeIff(p: Patterns, pre: seq<string>, cfg: string, mid: seq<string>, item: string,
                            body: seq<string>, probe: string)
    requires After(p, START, pre) == START
    requires p.itemStart(probe) && !p.cfgTest(probe) && p.panicUse(probe)
    requires p.cfgTest(cfg) && (forall i :: 0 <= i < |mid| ==> Between(p, mid[i])) && !Between(p, item)
    ensures IsCountFree(p, pre, [cfg] + mid + [item] + body) <==>
            && PanicCount(p, mid) == 0
            && (p.itemStart(item) ==> Closes(item, body))
            && IsCountFree(p, pre, LeftBehind(p, item, body))
  {
    hide Output, After, PanicCount, IsCountFree, Closes, Behind, BraceDelta, EndsWait;
    var tail := [item] + body;
    assert [cfg] + mid + [item] + body == [cfg] + (mid + tail);
    BlockIsCountFreeIff(p, pre, [cfg] + (mid + tail), probe);
    BlockIsCountFreeIff(p, pre, LeftBehind(p, item, body), probe);
    GuardThenAttributes(p, cfg, mid, tail);
    PanicCountConcat(p, mid, Output(p, Scan(0, true), tail));
    if p.itemStart(item) {
      WaitingMeetsItem(p, item, body);
    } else {
      WaitingMeetsOther(p, item, body);
    }
  }

  lemma {:induction false} NoGuardLeavesStart(p: Patterns, lines: seq<string>)
    requires forall i :: 0 <= i < |lines| ==> !p.cfgTest(lines[i])
    ensures After(p, START, lines) == START
    decreases |lines|
  {
    hide EndsWait, BraceDelta;
    if lines != [] {
      NoGuardLeavesStart(p, lines[1..]);
    }
  }

  lemma UnguardedIsCountFreeIff(p: Patterns, pre: seq<string>, lines: seq<string>, probe: string)
    requires After(p, START, pre) == START
    requires p.itemStart(probe) && !p.cfgTest(probe) && p.panicUse(probe)
    requires forall i :: 0 <= i < |lines| ==> !p.cfgTest(lines[i])
    ensures IsCountFree(p, pre, lines) <==> PanicCount(p, lines) == 0
  {
    hide Output, After, PanicCount, IsCountFree;
    BlockIsCountFreeIff(p, pre, lines, probe);
    CountedWholeIffNoGuard(p, lines);
    NoGuardLeavesStart(p, lines);
  }

  /**
   The same where no line behind the guard is another one: the count stays exactly when there is no panic use in the
   attributes, nor behind the first close of a mod or fn, which must close, nor anywhere in any other item.
   */
  lemma GuardedItemIsCountFreeIff(p: Patterns, pre: seq<string>, cfg: string, mid: seq<string>, item: string,
                                  body: seq<string>, probe: string)
    requires After(p, START, pre) == START
    requires p.itemStart(probe) && !p.cfgTest(probe) && p.panicUse(probe)
    requires p.cfgTest(cfg) && (forall i :: 0 <= i < |mid| ==> Between(p, mid[i])) && !Between(p, item)
    requires !p.cfgTest(item) && forall i :: 0 <= i < |body| ==> !p.cfgTest(body[i])
    ensures IsCountFree(p, pre, [cfg] + mid + [item] + body) <==>
            && PanicCount(p, mid) == 0
            && (p.itemStart(item) ==> Closes(item, body))
            && PanicCount(p, LeftBehind(p, item, body)) == 0
  {
    hide IsCountFree, Closes, PanicCount, After, Between, BraceDelta;
    GuardIsCountFreeIff(p, pre, cfg, mid, item, body, probe);
    var left := LeftBehind(p, item, body);
    assert forall i :: 0 <= i < |left| ==> left[i] == item || left[i] in body;
    UnguardedIsCountFreeIff(p, pre, left, probe);
  }

  /**
   Adding a guarded item whose braces first close on its last line, at a place where no other guard is open or
   pending, changes neither the production lines nor the panic count of the file.
   */
  lemma SplicedTestItemIsFree(p: Patterns, pre: seq<string>, cfg: string, item: string, body: seq<string>,
                              post: seq<string>)
    requires After(p, START, pre) == START && p.cfgTest(cfg) && p.itemStart(item)
    requires ClosesOnLastLine(item, body)
    ensures Output(p, START, pre + [cfg, item] + body + post) == Output(p, START, pre + post)
    ensures PanicCount(p, Output(p, START, pre + [cfg, item] + body + post)) ==
            PanicCount(p, Output(p, START, pre + post))
  {
    hide BraceDelta, Emitted, Next;
    assert pre + [cfg, item] + body + post == pre + [cfg] + [] + [item] + (body + post);
    GuardedItemHides(p, pre, cfg, [], item, body + post);
    BehindBody(BraceDelta(item), body, post);
    ScanConcat(p, START, pre, post);
    assert Output(p, START, pre) + [] == Output(p, START, pre);
  }

  lemma {:induction false} BehindBody(d: int, body: seq<string>, post: seq<string>)
    requires if d > 0 then body != [] && FirstClose(d, body) == Some(|body| - 1) else body == []
    ensures Behind(d, body + post) == post
    decreases |body|
  {
    hide BraceDelta;
    if d <= 0 {
      assert body + post == post;
    } else {
      assert (body + post)[0] == body[0] && (body + post)[1..] == body[1..] + post;
      if d + BraceDelta(body[0]) > 0 {
        BehindBody(d + BraceDelta(body[0]), body[1..], post);
        FirstCloseConcat(d, body, post);
      }
      assert (body + post)[|body|..] == post;
    }
  }

  lemma {:induction false} FirstCloseConcat(d: int, body: seq<string>, post: seq<string>)
    requires FirstClose(d, body).Some?
    ensures FirstClose(d, body + post) == FirstClose(d, body)
    decreases |body|
  {
    hide BraceDelta;
    assert (body + post)[0] == body[0] && (body + post)[1..] == body[1..] + post;
    if d + BraceDelta(body[0]) > 0 {
      FirstCloseConcat(d + BraceDelta(body[0]), body[1..], post);
    }
  }

  lemma {:induction false} OutputIsShorter(p: Patterns, s: Scan, lines: seq<string>)
    ensures |Output(p, s, lines)| <= |lines| && PanicCount(p, Output(p, s, lines)) <= PanicCount(p, lines)
    decreases |lines|
  {
    hide Next;
    if lines != [] {
      OutputIsShorter(p, Next(p, s, lines[0]), lines[1..]);
      PanicCountConcat(p, Emitted(p, s, lines[0]), Output(p, Next(p, s, lines[0]), lines[1..]));
    }
  }

  /** A file is counted whole exactly when none of its lines is a test guard. */
  lemma {:induction false} CountedWholeIffNoGuard(p: Patterns, lines: seq<string>)
    ensures Output(p, START, lines) == lines <==> forall i :: 0 <= i < |lines| ==> !p.cfgTest(lines[i])
    decreases |lines|
  {
    hide EndsWait, BraceDelta;
    if lines != [] {
      if p.cfgTest(lines[0]) {
        OutputIsShorter(p, Next(p, START, lines[0]), lines[1..]);
      } else {
        CountedWholeIffNoGuard(p, lines[1..]);
        assert Next(p, START, lines[0]) == START;
        assert lines == [lines[0]] + lines[1..];
        assert Output(p, START, lines) == [lines[0]] + Output(p, START, lines[1..]);
        assert Output(p, START, lines) == lines ==> Output(p, START, lines)[1..] == lines[1..];
        assert forall i :: 0 < i < |lines| ==> lines[i] == lines[1..][i - 1];
      }
    }
  }
}
