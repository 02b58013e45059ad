/** reply_queries of scripts/bench_memory_cli.py: the answers to a terminal program's start-up queries. */
module TerminalQueries {
  import opened Text

  // One character a byte.
  type Bytes = string

  datatype Reply = Reply(query: Bytes, response: Bytes)

  ghost predicate QueriesNotEmpty(replies: seq<Reply>) {
    forall i :: 0 <= i < |replies| ==> replies[i].query != []
  }

  const ESC := [27 as char]
  const BEL := [7 as char]
  const ST := ESC + "\\"

  /** The table of the code: cursor, device, colour, size and mode queries, each with its canned response. */
  const REPLIES := [
    Reply(ESC + "[6n", ESC + "[1;1R"),
    Reply(ESC + "[c", ESC + "[?62;c"),
    Reply(ESC + "]10;?" + ST, ESC + "]10;rgb:ffff/ffff/ffff" + ST),
    Reply(ESC + "]11;?" + ST, ESC + "]11;rgb:0000/0000/0000" + ST),
    Reply(ESC + "]10;?" + BEL, ESC + "]10;rgb:ffff/ffff/ffff" + BEL),
    Reply(ESC + "]11;?" + BEL, ESC + "]11;rgb:0000/0000/0000" + BEL),
    Reply(ESC + "]4;0;?" + BEL, ESC + "]4;0;rgb:0000/0000/0000" + BEL),
    Reply(ESC + "[14t", ESC + "[4;600;800t"),
    Reply(ESC + "[16t", ESC + "[6;16;8t"),
    Reply(ESC + "[18t", ESC + "[8;24;80t"),
    Reply(ESC + "[?1016$p", ESC + "[?1016;1$y"),
    Reply(ESC + "[?2027$p", ESC + "[?2027;1$y"),
    Reply(ESC + "[?2031$p", ESC + "[?2031;1$y"),
    Reply(ESC + "[?1004$p", ESC + "[?1004;1$y"),
    Reply(ESC + "[?2004$p", ESC + "[?2004;1$y"),
    Reply(ESC + "[?2026$p", ESC + "[?2026;1$y")]

  /** Cursor and device: row 1, column 1, and a terminal of the VT220 kind with colour. */
  lemma CursorAndDeviceReplies()
    ensures |REPLIES| == 16
    ensures REPLIES[0].query == ESC + "[6n" && REPLIES[0].response == ESC + "[" + "1;1" + "R"
    ensures REPLIES[1].query == ESC + "[c" && REPLIES[1].response == ESC + "[?" + "62" + ";c"
  {
    assert "[" + "1;1" + "R" == "[1;1R" && "[?" + "62" + ";c" == "[?62;c";
    assert ESC + "[" + "1;1" + "R" == ESC + ("[" + "1;1" + "R");
    assert ESC + "[?" + "62" + ";c" == ESC + ("[?" + "62" + ";c");
  }

  // What a colour query with this number is answered with, ended as the query was.
  function ColourReply(number: string, colour: string, end: Bytes): Reply {
    Reply(ESC + ("]" + number + ";?") + end, ESC + ("]" + number + ";rgb:" + colour) + end)
  }

  lemma ColourTexts()
    ensures "]" + "10" + ";?" == "]10;?" && "]" + "11" + ";?" == "]11;?" && "]" + "4;0" + ";?" == "]4;0;?"
    ensures "]" + "10" + ";rgb:" + "ffff/ffff/ffff" == "]10;rgb:ffff/ffff/ffff"
    ensures "]" + "11" + ";rgb:" + "0000/0000/0000" == "]11;rgb:0000/0000/0000"
    ensures "]" + "4;0" + ";rgb:" + "0000/0000/0000" == "]4;0;rgb:0000/0000/0000"
  {
  }

  /** White text on black ground. */
  lemma ColourReplies()
    ensures REPLIES[2] == ColourReply("10", "ffff/ffff/ffff", ST)
    ensures REPLIES[3] == ColourReply("11", "0000/0000/0000", ST)
  {
    ColourTexts();
  }

  /** The same, and black for the first colour of the palette, when the query ends in the other way. */
  lemma ColourRepliesWithBel()
    ensures REPLIES[4] == ColourReply("10", "ffff/ffff/ffff", BEL)
    ensures REPLIES[5] == ColourReply("11", "0000/0000/0000", BEL)
    ensures REPLIES[6] == ColourReply("4;0", "0000/0000/0000", BEL)
  {
    ColourTexts();
  }

  /** A window of 600 by 800 pixels, cells of 16 by 8, and 24 lines of 80. */
  lemma SizeReplies()
    ensures REPLIES[7] == Reply(ESC + "[14t", ESC + ("[4;" + "600;800" + "t"))
    ensures REPLIES[8] == Reply(ESC + "[16t", ESC + ("[6;" + "16;8" + "t"))
    ensures REPLIES[9] == Reply(ESC + "[18t", ESC + ("[8;" + "24;80" + "t"))
  {
    assert "[4;" + "600;800" + "t" == "[4;600;800t" && "[6;" + "16;8" + "t" == "[6;16;8t";
    assert "[8;" + "24;80" + "t" == "[8;24;80t";
  }

  // The query for a mode, and the answer that it is set.
  function ModeReply(mode: string): Reply {
    Reply(ESC + ("[?" + mode + "$p"), ESC + ("[?" + mode + ";1$y"))
  }

  /** Every mode asked for is said to be set. */
  lemma ModeReplies()
    ensures REPLIES[10] == ModeReply("1016") && REPLIES[11] == ModeReply("2027") && REPLIES[12] == ModeReply("2031")
    ensures REPLIES[13] == ModeReply("1004") && REPLIES[14] == ModeReply("2004") && REPLIES[15] == ModeReply("2026")
  {
    assert "[?" + "1016" + "$p" == "[?1016$p" && "[?" + "1016" + ";1$y" == "[?1016;1$y";
    assert "[?" + "2027" + "$p" == "[?2027$p" && "[?" + "2027" + ";1$y" == "[?2027;1$y";
    assert "[?" + "2031" + "$p" == "[?2031$p" && "[?" + "2031" + ";1$y" == "[?2031;1$y";
    assert "[?" + "1004" + "$p" == "[?1004$p" && "[?" + "1004" + ";1$y" == "[?1004;1$y";
    assert "[?" + "2004" + "$p" == "[?2004$p" && "[?" + "2004" + ";1$y" == "[?2004;1$y";
    assert "[?" + "2026" + "$p" == "[?2026$p" && "[?" + "2026" + ";1$y" == "[?2026;1$y";
  }

  lemma TableHasNoEmptyQuery()
    ensures QueriesNotEmpty(REPLIES)
  {
    forall i | 0 <= i < |REPLIES|
      ensures REPLIES[i].query != []
    {
      assert REPLIES[i].query[0] == 27 as char;
    }
  }

  /** bytes.replace(q, b""): the leftmost occurrence goes first, and the search goes on behind it. */
  function Remove(s: Bytes, q: Bytes): Bytes
    requires q != []
    decreases |s|
  {
    if |s| < |q| then s
    else if s[..|q|] == q then Remove(s[|q|..], q)
    else [s[0]] + Remove(s[1..], q)
  }

  lemma {:induction false} RemoveShortens(s: Bytes, q: Bytes)
    requires q != []
    ensures Occurs(s, q) ==> |Remove(s, q)| + |q| <= |s|
    ensures |Remove(s, q)| <= |s|
    ensures !Occurs(s, q) ==> Remove(s, q) == s
    decreases |s|
  {
    if |s| >= |q| {
      if s[..|q|] == q {
        RemoveShortens(s[|q|..], q);
        assert OccursAt(s, q, 0);
      } else {
        RemoveShortens(s[1..], q);
        OccursInTail(s, q);
      }
    }
  }

  lemma OccursInTail(s: Bytes, q: Bytes)
    requires q != [] && |s| >= |q| && s[..|q|] != q
    ensures Occurs(s, q) <==> Occurs(s[1..], q)
  {
    if Occurs(s, q) {
      var i :| 0 <= i <= |s| && OccursAt(s, q, i);
      assert i > 0 && s[1..][i - 1..i - 1 + |q|] == q;
      assert OccursAt(s[1..], q, i - 1);
    }
    if Occurs(s[1..], q) {
      var i :| 0 <= i <= |s[1..]| && OccursAt(s[1..], q, i);
      assert s[i + 1..i + 1 + |q|] == q;
      assert OccursAt(s, q, i + 1);
    }
  }

  /** The leftmost occurrence is cut out, what comes before it stays, and the search goes on behind it. */
  lemma {:induction false} RemoveAtFirst(s: Bytes, q: Bytes, i: nat)
    requires q != [] && i + |q| <= |s| && OccursAt(s, q, i)
    requires forall j :: 0 <= j < i ==> !OccursAt(s, q, j)
    ensures Remove(s, q) == s[..i] + Remove(s[i + |q|..], q)
    decreases |s|
  {
    hide OccursAt, Remove;
    OccursAtStart(s, q);
    RemoveStep(s, q);
    if i == 0 {
      assert s[..0] == [];
    } else {
      var t := s[1..];
      forall j | 0 <= j < i
        ensures OccursAt(t, q, j) <==> OccursAt(s, q, j + 1)
      {
        OccursAtNext(s, q, j);
      }
      RemoveAtFirst(t, q, i - 1);
      assert t[i - 1 + |q|..] == s[i + |q|..];
      assert [s[0]] + t[..i - 1] == s[..i];
    }
  }

  lemma RemoveStep(s: Bytes, q: Bytes)
    requires q != [] && |q| <= |s|
    ensures Remove(s, q) == if s[..|q|] == q then Remove(s[|q|..], q) else [s[0]] + Remove(s[1..], q)
  {
  }

  lemma OccursAtStart(s: Bytes, q: Bytes)
    ensures OccursAt(s, q, 0) <==> |q| <= |s| && s[..|q|] == q
  {
  }

  lemma OccursAtNext(s: Bytes, q: Bytes, j: nat)
    requires s != []
    ensures OccursAt(s[1..], q, j) <==> OccursAt(s, q, j + 1)
  {
    if j + 1 + |q| <= |s| {
      assert s[1..][j..j + |q|] == s[j + 1..j + 1 + |q|];
    }
  }

  /** Answering the queries in log, one after the other, leads from s to t. */
  ghost predicate Answers(replies: seq<Reply>, s: Bytes, log: seq<nat>, t: Bytes)
    requires QueriesNotEmpty(replies)
    decreases |log|
  {
    if log == [] then s == t
    else
      && log[0] < |replies|
      && Occurs(s, replies[log[0]].query)
      && Answers(replies, Remove(s, replies[log[0]].query), log[1..], t)
  }

  function Responses(replies: seq<Reply>, log: seq<nat>): Bytes
    requires forall i :: 0 <= i < |log| ==> log[i] < |replies|
  {
    if log == [] then [] else replies[log[0]].response + Responses(replies, log[1..])
  }

  lemma {:induction false} AnswersConcat(replies: seq<Reply>, s: Bytes, now: seq<nat>, t: Bytes,
                                        later: seq<nat>, u: Bytes)
    requires QueriesNotEmpty(replies) && Answers(replies, s, now, t) && Answers(replies, t, later, u)
    ensures Answers(replies, s, now + later, u)
    decreases |now|
  {
    hide Occurs, Remove;
    if now == [] {
      assert now + later == later;
    } else {
      assert (now + later)[0] == now[0] && (now + later)[1..] == now[1..] + later;
      AnswersConcat(replies, Remove(s, replies[now[0]].query), now[1..], t, later, u);
    }
  }

  lemma {:induction false} ResponsesAppend(replies: seq<Reply>, log: seq<nat>, k: nat)
    requires (forall i :: 0 <= i < |log| ==> log[i] < |replies|) && k < |replies|
    ensures Responses(replies, log + [k]) == Responses(replies, log) + replies[k].response
    decreases |log|
  {
    if log == [] {
      assert (log + [k])[1..] == [];
    } else {
      assert (log + [k])[0] == log[0] && (log + [k])[1..] == log[1..] + [k];
      ResponsesAppend(replies, log[1..], k);
    }
  }

  ghost predicate Clean(replies: seq<Reply>, s: Bytes) {
    forall i :: 0 <= i < |replies| ==> !Occurs(s, replies[i].query)
  }

  /** Every answer removes at least one byte, so no more answers are written than bytes were read. */
  lemma {:induction false} AnswersAreBounded(replies: seq<Reply>, s: Bytes, log: seq<nat>, t: Bytes)
    requires QueriesNotEmpty(replies) && Answers(replies, s, log, t)
    ensures |t| + |log| <= |s|
    ensures Clean(replies, s) ==> log == [] && t == s
    decreases |log|
  {
    hide Remove;
    if log != [] {
      RemoveShortens(s, replies[log[0]].query);
      AnswersAreBounded(replies, Remove(s, replies[log[0]].query), log[1..], t);
    }
  }

  // ---------- the passes over the table ----------

  /** One pass from entry k on: each query is looked for once, in table order, in what the answers before it left. */
  ghost function Pass(replies: seq<Reply>, k: nat, s: Bytes): (Bytes, seq<nat>)
    requires QueriesNotEmpty(replies) && k <= |replies|
    decreases |replies| - k
  {
    if k == |replies| then (s, [])
    else if Occurs(s, replies[k].query) then
      var (t, log) := Pass(replies, k + 1, Remove(s, replies[k].query));
      (t, [k] + log)
    else Pass(replies, k + 1, s)
  }

  /** A pass answers in table order, no query twice; it answers nothing only if no query is left to answer. */
  lemma {:induction false} PassInTableOrder(replies: seq<Reply>, k: nat, s: Bytes)
    requires QueriesNotEmpty(replies) && k <= |replies|
    ensures var (t, log) := Pass(replies, k, s);
            && Answers(replies, s, log, t)
            && (forall i :: 0 <= i < |log| ==> k <= log[i] < |replies|)
            && (forall i, j :: 0 <= i < j < |log| ==> log[i] < log[j])
            && (log == [] <==> forall i :: k <= i < |replies| ==> !Occurs(s, replies[i].query))
    decreases |replies| - k
  {
    hide Occurs, Remove;
    if k < |replies| {
      if Occurs(s, replies[k].query) {
        PassInTableOrder(replies, k + 1, Remove(s, replies[k].query));
        var (t, log) := Pass(replies, k + 1, Remove(s, replies[k].query));
        assert ([k] + log)[1..] == log;
      } else {
        PassInTableOrder(replies, k + 1, s);
      }
    }
  }

  /** Passes over the whole table, until one answers nothing. */
  ghost function Passes(replies: seq<Reply>, s: Bytes): (Bytes, seq<nat>)
    requires QueriesNotEmpty(replies)
    decreases |s|
  {
    var (t, now) := Pass(replies, 0, s);
    if now == [] then (s, [])
    else
      PassInTableOrder(replies, 0, s);
      AnswersAreBounded(replies, s, now, t);
      var (u, later) := Passes(replies, t);
      (u, now + later)
  }

  /** What the passes leave is clean, and all of it was answered. */
  lemma {:induction false} PassesClean(replies: seq<Reply>, s: Bytes)
    requires QueriesNotEmpty(replies)
    ensures var (t, log) := Passes(replies, s);
            Clean(replies, t) && Answers(replies, s, log, t) && forall i :: 0 <= i < |log| ==> log[i] < |replies|
    decreases |s|
  {
    hide Occurs, Remove, Answers, Pass;
    PassInTableOrder(replies, 0, s);
    var (t, now) := Pass(replies, 0, s);
    AnswersAreBounded(replies, s, now, t);
    if now == [] {
      AnswersNothing(replies, s);
    } else {
      PassesClean(replies, t);
      var (u, later) := Passes(replies, t);
      AnswersConcat(replies, s, now, t, later, u);
    }
  }

  // log are the answers so far, and further passes over buffer give the rest of them.
  ghost predicate Underway(replies: seq<Reply>, input: Bytes, log: seq<nat>, buffer: Bytes)
    requires QueriesNotEmpty(replies)
  {
    && Passes(replies, input).0 == Passes(replies, buffer).0
    && Passes(replies, input).1 == log + Passes(replies, buffer).1
  }

  lemma UnderwayAtStart(replies: seq<Reply>, input: Bytes)
    requires QueriesNotEmpty(replies)
    ensures Underway(replies, input, [], input)
  {
  }

  lemma UnderwayPass(replies: seq<Reply>, input: Bytes, log: seq<nat>, s: Bytes, now: seq<nat>, t: Bytes)
    requires QueriesNotEmpty(replies) && Underway(replies, input, log, s) && Pass(replies, 0, s) == (t, now)
    ensures Underway(replies, input, log + now, t)
    ensures now == [] ==> (t, log) == Passes(replies, input)
  {
    hide Pass, Occurs, Remove;
    PassInTableOrder(replies, 0, s);
    if now == [] {
      assert log + now == log && Passes(replies, s) == (s, []);
    } else {
      assert log + (now + Passes(replies, t).1) == log + now + Passes(replies, t).1;
    }
  }

  // The pass that led from s to t before entry k goes on from there.
  ghost predicate MidPass(replies: seq<Reply>, s: Bytes, now: seq<nat>, k: nat, t: Bytes)
    requires QueriesNotEmpty(replies) && k <= |replies|
  {
    && Pass(replies, 0, s).0 == Pass(replies, k, t).0
    && Pass(replies, 0, s).1 == now + Pass(replies, k, t).1
  }

  lemma MidPassAtStart(replies: seq<Reply>, s: Bytes)
    requires QueriesNotEmpty(replies)
    ensures MidPass(replies, s, [], 0, s)
  {
  }

  lemma MidPassNext(replies: seq<Reply>, s: Bytes, now: seq<nat>, k: nat, t: Bytes)
    requires QueriesNotEmpty(replies) && k < |replies| && MidPass(replies, s, now, k, t)
    ensures if Occurs(t, replies[k].query)
            then MidPass(replies, s, now + [k], k + 1, Remove(t, replies[k].query))
            else MidPass(replies, s, now, k + 1, t)
  {
    hide Occurs, Remove;
    if Occurs(t, replies[k].query) {
      var rest := Pass(replies, k + 1, Remove(t, replies[k].query)).1;
      assert now + ([k] + rest) == now + [k] + rest;
    }
  }

  lemma MidPassEnds(replies: seq<Reply>, s: Bytes, now: seq<nat>, t: Bytes)
    requires QueriesNotEmpty(replies) && MidPass(replies, s, now, |replies|, t)
    ensures Pass(replies, 0, s) == (t, now)
  {
    assert Pass(replies, |replies|, t) == (t, []);
    assert now + [] == now && Pass(replies, 0, s) == (Pass(replies, 0, s).0, Pass(replies, 0, s).1);
  }

  /**
   reply_queries: passes over the table until no query of it occurs anywhere, also when removing one made another
   appear. What was written to the terminal are the responses to the removed queries, in the order of the passes.
   */
  method ReplyQueries(replies: seq<Reply>, input: Bytes) returns (buffer: Bytes, written: Bytes, ghost log: seq<nat>)
    requires QueriesNotEmpty(replies)
    ensures (buffer, log) == Passes(replies, input)
    ensures Clean(replies, buffer)
    ensures Answers(replies, input, log, buffer)
    ensures (forall i :: 0 <= i < |log| ==> log[i] < |replies|) && written == Responses(replies, log)
  {
    hide Occurs, Remove, Answers, Responses, Pass, Passes, Underway, MidPass;
    buffer, written, log := input, [], [];
    UnderwayAtStart(replies, input);
    AnswersNothing(replies, input);
    var changed := true;
    while changed
      invariant (forall i :: 0 <= i < |log| ==> log[i] < |replies|) && written == Responses(replies, log)
      invariant Underway(replies, input, log, buffer)
      invariant !changed ==> (buffer, log) == Passes(replies, input)
      decreases |buffer|, changed
    {
      changed := false;
      ghost var before, start := buffer, log;
      ghost var now: seq<nat> := [];
      MidPassAtStart(replies, before);
      for k := 0 to |replies|
        invariant (forall i :: 0 <= i < |log| ==> log[i] < |replies|) && written == Responses(replies, log)
        invariant log == start + now && MidPass(replies, before, now, k, buffer)
        invariant if changed then |buffer| < |before| && now != [] else buffer == before && now == []
      {
        var query, response := replies[k].query, replies[k].response;
        MidPassNext(replies, before, now, k, buffer);
        if Occurs(buffer, query) {
          ResponsesAppend(replies, log, k);
          RemoveShortens(buffer, query);
          written, buffer, changed := written + response, Remove(buffer, query), true;
          log, now := log + [k], now + [k];
        }
      }
      MidPassEnds(replies, before, now, buffer);
      UnderwayPass(replies, input, start, before, now, buffer);
    }
    PassesClean(replies, input);
  }

  lemma AnswersNothing(replies: seq<Reply>, s: Bytes)
    requires QueriesNotEmpty(replies)
    ensures Answers(replies, s, [], s) && Responses(replies, []) == []
  {
  }

  lemma RemoveSkips(s: Bytes, q: Bytes)
    requires q != [] && |s| >= |q| && exists i :: 0 <= i < |q| && s[i] != q[i]
    ensures Remove(s, q) == [s[0]] + Remove(s[1..], q)
  {
    var i :| 0 <= i < |q| && s[i] != q[i];
    assert s[..|q|][i] == s[i];
  }

  lemma RemoveTakes(rest: Bytes, q: Bytes)
    requires q != []
    ensures Remove(q + rest, q) == Remove(rest, q)
  {
    assert (q + rest)[..|q|] == q && (q + rest)[|q|..] == rest;
  }

  // A text with q2 inside a broken q1: no q1 yet, and removing q2 joins its two halves.
  lemma NestedQuery(e: char)
    requires e == 27 as char
    ensures !Occurs([e, '[', e, '[', 'c', '6', 'n'], [e, '[', '6', 'n'])
    ensures Remove([e, '[', e, '[', 'c', '6', 'n'], [e, '[', 'c']) == [e, '[', '6', 'n']
  {
    hide Remove;
    var nested, q := [e, '[', e, '[', 'c', '6', 'n'], [e, '[', 'c'];
    forall i | 0 <= i <= |nested|
      ensures !OccursAt(nested, [e, '[', '6', 'n'], i)
    {
      if i + 4 <= |nested| {
        assert nested[i..i + 4][0] == nested[i] && nested[i..i + 4][2] == nested[i + 2];
      }
    }
    assert nested[2] != q[2] && nested[1..][0] != q[0];
    RemoveSkips(nested, q);
    RemoveSkips(nested[1..], q);
    assert nested[1..][1..] == q + "6n";
    RemoveTakes("6n", q);
    RemoveShort("6n", q);
  }

  lemma RemoveShort(s: Bytes, q: Bytes)
    requires |s| < |q|
    ensures Remove(s, q) == s
  {
  }

  /** One pass over the table is not enough: answering the second query can make the first one appear. */
  lemma RemovalCanRevealAQuery()
    ensures var nested := ESC + "[" + ESC + "[c" + "6n";
            !Occurs(nested, REPLIES[0].query) && Remove(nested, REPLIES[1].query) == REPLIES[0].query
  {
    hide Occurs, Remove;
    var e := 27 as char;
    NestedQuery(e);
    assert ESC + "[" + ESC + "[c" + "6n" == [e, '[', e, '[', 'c', '6', 'n'];
    assert ESC + "[6n" == [e, '[', '6', 'n'] && ESC + "[c" == [e, '[', 'c'];
  }
}
