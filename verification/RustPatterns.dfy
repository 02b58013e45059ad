/**
 The three regular expressions of scripts/check_panic_budget.py, written out as
 matchers, and guarded items of each kind that the scan does not leave out.
 */
module RustPatterns {
  import opened Text
  import opened PanicBudget

  function Eat(s: string, word: string): Option<string> {
    if word <= s then Some(s[|word|..]) else None
  }

  // The words one after the other, with any white space before each.
  function EatWords(s: string, words: seq<string>): Option<string> {
    if words == [] then Some(s)
    else match Eat(StripLeft(s), words[0])
      case None => None
      case Some(rest) => EatWords(rest, words[1..])
  }

  // CFG_TEST_RE: a cfg attribute whose condition is test, or all(...) beginning with test.
  predicate CfgTest(line: string) {
    || EatWords(line, ["#", "[", "cfg", "(", "test", ","]).Some?
    || EatWords(line, ["#", "[", "cfg", "(", "test", ")"]).Some?
    || EatWords(line, ["#", "[", "cfg", "(", "all", "(", "test", ","]).Some?
    || EatWords(line, ["#", "[", "cfg", "(", "all", "(", "test", ")"]).Some?
  }

  predicate IsWordChar(c: char) {
    'a' <= c <= 'z' || 'A' <= c <= 'Z' || '0' <= c <= '9' || c == '_'
  }

  predicate StartsWithWord(s: string, word: string) {
    word <= s && (|s| == |word| || !IsWordChar(s[|word|]))
  }

  // The text behind the first ')'.
  function BehindParen(s: string): Option<string> {
    if s == "" then None else if s[0] == ')' then Some(s[1..]) else BehindParen(s[1..])
  }

  // ITEM_START_RE: mod or fn as a whole word, behind at most one pub with its restriction.
  predicate ItemStart(line: string) {
    var s := StripLeft(line);
    if "pub" <= s then
      var behindPub := if |s| > 3 && s[3] == '(' then BehindParen(s[4..]) else Some(s[3..]);
      match behindPub
      case None => false
      case Some(t) =>
        t != "" && IsSpace(t[0]) && (StartsWithWord(StripLeft(t), "mod") || StartsWithWord(StripLeft(t), "fn"))
    else StartsWithWord(s, "mod") || StartsWithWord(s, "fn")
  }

  predicate OccursAtBoundary(s: string, word: string) {
    exists i :: 0 <= i <= |s| && OccursAt(s, word, i) && (i == 0 || !IsWordChar(s[i - 1]))
  }

  // PATTERN
  predicate PanicUse(line: string) {
    || Occurs(line, ".unwrap(") || Occurs(line, ".expect(")
    || OccursAtBoundary(line, "panic!") || OccursAtBoundary(line, "todo!") || OccursAtBoundary(line, "unimplemented!")
  }

  const RUST := Patterns(ItemStart, CfgTest, PanicUse)

  // ---------- what the patterns match ----------

  predicate WordBehindGap(s: string, gap: string, word: string, tail: string) {
    AllSpace(gap) && s == gap + word + tail
  }

  // The text is the words, with any white space before each of them, and then the rest.
  ghost predicate Reads(s: string, words: seq<string>, rest: string)
    decreases |words|
  {
    if words == [] then s == rest
    else exists gap, tail :: WordBehindGap(s, gap, words[0], tail) && Reads(tail, words[1..], rest)
  }

  lemma EatIff(s: string, word: string, tail: string)
    ensures Eat(s, word) == Some(tail) <==> s == word + tail
  {
    assert word <= s ==> s == word + s[|word|..];
    assert (word + tail)[|word|..] == tail;
  }

  lemma GapThenWord(s: string, word: string, gap: string, tail: string)
    requires word != "" && !IsSpace(word[0]) && AllSpace(gap) && s == gap + word + tail
    ensures StripLeft(s) == word + tail
  {
    hide IsSpace;
    assert gap + word + tail == gap + (word + tail);
    StripLeftOf(gap, word + tail);
  }

  lemma StripLeftParts(s: string) returns (gap: string)
    ensures AllSpace(gap) && s == gap + StripLeft(s)
  {
    hide IsSpace;
    StripLeftCuts(s);
    gap := s[..|s| - |StripLeft(s)|];
  }

  lemma {:induction false} EatWordsIff(s: string, words: seq<string>, rest: string)
    requires forall w :: w in words ==> w != "" && !IsSpace(w[0])
    ensures EatWords(s, words) == Some(rest) <==> Reads(s, words, rest)
    decreases |words|
  {
    hide IsSpace, StripLeft, AllSpace, Eat;
    if words != [] {
      var word := words[0];
      assert word in words && forall w :: w in words[1..] ==> w in words;
      if EatWords(s, words) == Some(rest) {
        var tail := Eat(StripLeft(s), word).value;
        var gap := StripLeftParts(s);
        EatIff(StripLeft(s), word, tail);
        EatWordsIff(tail, words[1..], rest);
        assert WordBehindGap(s, gap, word, tail);
      }
      if Reads(s, words, rest) {
        var gap, tail :| WordBehindGap(s, gap, word, tail) && Reads(tail, words[1..], rest);
        GapThenWord(s, word, gap, tail);
        EatIff(StripLeft(s), word, tail);
        EatWordsIff(tail, words[1..], rest);
      }
    }
  }

  ghost predicate Begins(s: string, words: seq<string>) {
    exists rest :: Reads(s, words, rest)
  }

  lemma EatWordsBegins(s: string, words: seq<string>)
    requires forall w :: w in words ==> w != "" && !IsSpace(w[0])
    ensures EatWords(s, words).Some? <==> Begins(s, words)
  {
    hide IsSpace, EatWords, Reads;
    if EatWords(s, words).Some? {
      EatWordsIff(s, words, EatWords(s, words).value);
    }
    if rest :| Reads(s, words, rest) {
      EatWordsIff(s, words, rest);
    }
  }

  /** A guard is a line that begins with one of four sequences of words, with any white space before each word. */
  lemma CfgTestIff(line: string)
    ensures CfgTest(line) <==>
            || Begins(line, ["#", "[", "cfg", "(", "test", ","])
            || Begins(line, ["#", "[", "cfg", "(", "test", ")"])
            || Begins(line, ["#", "[", "cfg", "(", "all", "(", "test", ","])
            || Begins(line, ["#", "[", "cfg", "(", "all", "(", "test", ")"])
  {
    hide EatWords, Begins;
    EatWordsBegins(line, ["#", "[", "cfg", "(", "test", ","]);
    EatWordsBegins(line, ["#", "[", "cfg", "(", "test", ")"]);
    EatWordsBegins(line, ["#", "[", "cfg", "(", "all", "(", "test", ","]);
    EatWordsBegins(line, ["#", "[", "cfg", "(", "all", "(", "test", ")"]);
  }

  // Digits, capitals, underscore, small letters.
  lemma WordCharCodes(c: char)
    ensures IsWordChar(c) <==>
            48 <= c as int <= 57 || 65 <= c as int <= 90 || c as int == 95 || 97 <= c as int <= 122
  {
  }

  // Nothing, or pub, possibly with a restriction in parentheses, and white space behind it.
  ghost predicate Visibility(vis: string) {
    vis == "" || (exists ws :: AllSpace(ws) && ws != "" && vis == "pub" + ws)
    || exists inner, ws :: AllSpace(ws) && ws != "" && ')' !in inner && vis == "pub(" + inner + ")" + ws
  }

  ghost predicate IsItemLine(line: string, gap: string, vis: string, word: string, rest: string) {
    && line == gap + (vis + (word + rest)) && AllSpace(gap) && Visibility(vis)
    && (word == "mod" || word == "fn") && (rest == "" || !IsWordChar(rest[0]))
  }

  lemma {:induction false} BehindParenParts(s: string) returns (inner: string)
    requires BehindParen(s).Some?
    ensures s == inner + ")" + BehindParen(s).value && ')' !in inner
    decreases |s|
  {
    if s[0] == ')' {
      inner := "";
    } else {
      inner := BehindParenParts(s[1..]);
      inner := [s[0]] + inner;
    }
  }

  lemma {:induction false} BehindParenOf(inner: string, t: string)
    requires ')' !in inner
    ensures BehindParen(inner + (")" + t)) == Some(t)
    decreases |inner|
  {
    var s := inner + (")" + t);
    if inner == "" {
      assert s[0] == ')' && s[1..] == t;
    } else {
      assert s[0] == inner[0] && s[1..] == inner[1..] + (")" + t);
      BehindParenOf(inner[1..], t);
    }
  }

  lemma StartsWithWordIff(s: string, word: string)
    ensures StartsWithWord(s, word) <==> exists rest :: s == word + rest && (rest == "" || !IsWordChar(rest[0]))
  {
    hide IsWordChar;
    if StartsWithWord(s, word) {
      assert s == word + s[|word|..];
    }
  }

  predicate StartsItem(s: string) {
    StartsWithWord(s, "mod") || StartsWithWord(s, "fn")
  }

  lemma StartsItemParts(s: string) returns (word: string, rest: string)
    requires StartsItem(s)
    ensures s == word + rest && (word == "mod" || word == "fn") && (rest == "" || !IsWordChar(rest[0]))
  {
    hide IsWordChar, StartsWithWord;
    word := if StartsWithWord(s, "mod") then "mod" else "fn";
    StartsWithWordIff(s, word);
    rest :| s == word + rest && (rest == "" || !IsWordChar(rest[0]));
  }

  lemma StartsItemOf(word: string, rest: string)
    requires (word == "mod" || word == "fn") && (rest == "" || !IsWordChar(rest[0]))
    ensures StartsItem(word + rest) && word + rest != "" && !IsSpace((word + rest)[0])
    ensures !("pub" <= word + rest)
  {
    hide IsWordChar, StartsWithWord;
    StartsWithWordIff(word + rest, word);
    assert (word + rest)[0] == word[0] && "pub"[0] == 'p';
  }

  // What the matcher does, with the text before the item word cut off.
  lemma ItemStartCases(line: string)
    ensures var s := StripLeft(line);
            ItemStart(line) <==>
              if "pub" <= s then
                var t := if |s| > 3 && s[3] == '(' then BehindParen(s[4..]) else Some(s[3..]);
                t.Some? && t.value != "" && IsSpace(t.value[0]) && StartsItem(StripLeft(t.value))
              else StartsItem(s)
  {
    hide StripLeft, StartsWithWord, BehindParen, IsSpace;
  }

  lemma ItemStartParts(line: string) returns (gap: string, vis: string, word: string, rest: string)
    requires ItemStart(line)
    ensures IsItemLine(line, gap, vis, word, rest)
  {
    ItemStartCases(line);
    hide ItemStart, StripLeft, StartsItem, BehindParen, IsSpace, IsWordChar, AllSpace, Visibility;
    var s := StripLeft(line);
    gap := StripLeftParts(line);
    if "pub" <= s {
      if |s| > 3 && s[3] == '(' {
        vis, word, rest := RestrictedPubParts(s);
      } else {
        vis, word, rest := PubParts(s);
      }
    } else {
      vis := "";
      word, rest := StartsItemParts(s);
      NoPubParts(s, word, rest);
    }
  }

  lemma NoPubParts(s: string, word: string, rest: string)
    requires s == word + rest
    ensures s == "" + (word + rest) && Visibility("")
  {
    hide AllSpace;
  }

  lemma PubParts(s: string) returns (vis: string, word: string, rest: string)
    requires "pub" <= s && s[3..] != "" && IsSpace(s[3..][0]) && StartsItem(StripLeft(s[3..]))
    ensures s == vis + (word + rest) && Visibility(vis)
    ensures (word == "mod" || word == "fn") && (rest == "" || !IsWordChar(rest[0]))
  {
    hide StripLeft, StartsItem, IsSpace, IsWordChar, AllSpace;
    var t := s[3..];
    word, rest := StartsItemParts(StripLeft(t));
    var ws := StripLeftParts(t);
    SomeSpace(t, ws);
    vis := "pub" + ws;
    assert s == "pub" + t;
    Regroup("pub", ws, word + rest);
  }

  lemma RestrictedPubParts(s: string) returns (vis: string, word: string, rest: string)
    requires "pub" <= s && |s| > 3 && s[3] == '(' && BehindParen(s[4..]).Some?
    requires var t := BehindParen(s[4..]).value; t != "" && IsSpace(t[0]) && StartsItem(StripLeft(t))
    ensures s == vis + (word + rest) && Visibility(vis)
    ensures (word == "mod" || word == "fn") && (rest == "" || !IsWordChar(rest[0]))
  {
    hide StripLeft, StartsItem, IsSpace, IsWordChar, AllSpace, BehindParen, Visibility;
    var t := BehindParen(s[4..]).value;
    word, rest := StartsItemParts(StripLeft(t));
    var ws := StripLeftParts(t);
    SomeSpace(t, ws);
    var inner := BehindParenParts(s[4..]);
    vis := "pub(" + inner + ")" + ws;
    RestrictedIsVisibility(inner, ws);
    PubParen(s);
    Regroup("pub(", inner + ")", t);
    Regroup("pub(", inner, ")");
    Regroup("pub(" + inner + ")", ws, word + rest);
  }

  lemma PubParen(s: string)
    requires |s| > 3 && s[..3] == "pub" && s[3] == '('
    ensures s == "pub(" + s[4..]
  {
    assert s == s[..3] + [s[3]] + s[4..];
  }

  lemma RestrictedIsVisibility(inner: string, ws: string)
    requires AllSpace(ws) && ws != "" && ')' !in inner
    ensures Visibility("pub(" + inner + ")" + ws)
  {
    hide AllSpace;
  }

  lemma SomeSpace(t: string, ws: string)
    requires t != "" && IsSpace(t[0]) && t == ws + StripLeft(t)
    ensures ws != ""
  {
  }

  lemma PartsAreItemStart(line: string, gap: string, vis: string, word: string, rest: string)
    requires IsItemLine(line, gap, vis, word, rest)
    ensures ItemStart(line)
  {
    ItemStartCases(line);
    hide ItemStart, StripLeft, StartsItem, BehindParen, IsSpace, IsWordChar, AllSpace, Visibility;
    var item := word + rest;
    StartsItemOf(word, rest);
    VisibilityBegins(vis);
    var s := vis + item;
    assert s[0] == if vis == "" then item[0] else vis[0];
    StripLeftOf(gap, s);
    if vis == "" {
      assert s == item;
    } else {
      var open, inner, ws := VisibilityParts(vis);
      if open {
        RestrictedPubOf(inner, ws, item);
      } else {
        PubOf(ws, item);
      }
    }
  }

  lemma PubOf(ws: string, item: string)
    requires AllSpace(ws) && ws != "" && item != "" && !IsSpace(item[0])
    ensures var s := "pub" + ws + item;
            |s| > 3 && "pub" <= s && s[3] != '(' && s[3..] == ws + item
    ensures StripLeft(ws + item) == item && IsSpace((ws + item)[0])
  {
    hide IsSpace, AllSpace, StripLeft;
    var s := "pub" + ws + item;
    StripLeftOf(ws, item);
    FirstIsSpace(ws);
    SpaceIsNoParen(ws[0]);
    Regroup("pub", ws, item);
    assert s[..3] == "pub" && s[3..] == ws + item && s[3] == ws[0];
  }

  lemma RestrictedPubOf(inner: string, ws: string, item: string)
    requires AllSpace(ws) && ws != "" && ')' !in inner && item != "" && !IsSpace(item[0])
    ensures var s := "pub(" + inner + ")" + ws + item;
            |s| > 3 && "pub" <= s && s[3] == '(' && BehindParen(s[4..]) == Some(ws + item)
    ensures StripLeft(ws + item) == item && IsSpace((ws + item)[0])
  {
    hide IsSpace, AllSpace, StripLeft, BehindParen;
    StripLeftOf(ws, item);
    FirstIsSpace(ws);
    BehindParenOf(inner, ws + item);
    Regroup("pub(" + inner + ")", ws, item);
    Regroup("pub(" + inner, ")", ws + item);
    Regroup("pub(", inner, ")" + (ws + item));
    AtPubParen(inner + (")" + (ws + item)));
  }

  lemma AtPubParen(tail: string)
    ensures var s := "pub(" + tail; |s| > 3 && "pub" <= s && s[3] == '(' && s[4..] == tail
  {
  }

  lemma FirstIsSpace(ws: string)
    requires AllSpace(ws) && ws != ""
    ensures IsSpace(ws[0])
  {
  }

  lemma SpaceIsNoParen(c: char)
    requires IsSpace(c)
    ensures c != '('
  {
  }

  lemma VisibilityBegins(vis: string)
    requires Visibility(vis)
    ensures vis != "" ==> vis[0] == 'p' && !IsSpace(vis[0])
  {
  }

  lemma VisibilityParts(vis: string) returns (open: bool, inner: string, ws: string)
    requires Visibility(vis) && vis != ""
    ensures AllSpace(ws) && ws != "" && ')' !in inner
    ensures vis == if open then "pub(" + inner + ")" + ws else "pub" + ws
  {
    hide AllSpace;
    if w :| AllSpace(w) && w != "" && vis == "pub" + w {
      open, inner, ws := false, "", w;
    } else {
      open := true;
      inner, ws :| AllSpace(ws) && ws != "" && ')' !in inner && vis == "pub(" + inner + ")" + ws;
    }
  }

  /** An item line: white space, at most one pub with its restriction, then mod or fn as a whole word. */
  lemma ItemStartIff(line: string)
    ensures ItemStart(line) <==> exists gap, vis, word, rest :: IsItemLine(line, gap, vis, word, rest)
  {
    hide ItemStart, IsItemLine;
    if ItemStart(line) {
      var gap, vis, word, rest := ItemStartParts(line);
    }
    if gap, vis, word, rest :| IsItemLine(line, gap, vis, word, rest) {
      PartsAreItemStart(line, gap, vis, word, rest);
    }
  }

  // The word stands at position i, and no word character directly before it.
  predicate ReadsWordAt(line: string, word: string, i: int) {
    ReadsAt(line, word, i) && (i == 0 || !IsWordChar(line[i - 1]))
  }

  lemma OccursAtBoundaryIff(line: string, word: string)
    ensures OccursAtBoundary(line, word) <==> exists i :: ReadsWordAt(line, word, i)
  {
    hide IsWordChar;
    if i :| 0 <= i <= |line| && OccursAt(line, word, i) && (i == 0 || !IsWordChar(line[i - 1])) {
      assert forall k :: i <= k < i + |word| ==> line[k] == line[i..i + |word|][k - i];
      assert ReadsWordAt(line, word, i);
    }
    if i :| ReadsWordAt(line, word, i) {
      assert line[i..i + |word|] == word;
      assert OccursAt(line, word, i);
    }
  }

  /** A panic use: one of two calls anywhere in the line, or one of three macros not inside a longer word. */
  lemma PanicUseIff(line: string)
    ensures PanicUse(line) <==>
            || (exists i :: ReadsAt(line, ".unwrap(", i)) || (exists i :: ReadsAt(line, ".expect(", i))
            || (exists i :: ReadsWordAt(line, "panic!", i)) || (exists i :: ReadsWordAt(line, "todo!", i))
            || exists i :: ReadsWordAt(line, "unimplemented!", i)
  {
    hide Occurs, OccursAtBoundary, ReadsAt, ReadsWordAt;
    OccursIff(line, ".unwrap(");
    OccursIff(line, ".expect(");
    OccursAtBoundaryIff(line, "panic!");
    OccursAtBoundaryIff(line, "todo!");
    OccursAtBoundaryIff(line, "unimplemented!");
  }

  // ---------- reading the lines below ----------

  const GUARD := "#[cfg(test)]"

  lemma EatStep(word: string, rest: string, words: seq<string>)
    requires word != "" && !IsSpace(word[0])
    ensures EatWords(word + rest, [word] + words) == EatWords(rest, words)
  {
    var s := word + rest;
    assert StripLeft(s) == s && s[|word|..] == rest && ([word] + words)[1..] == words;
  }

  // Whatever stands behind it on its line, the attribute is a guard.
  lemma GuardMatches(rest: string)
    ensures CfgTest(GUARD + rest)
  {
    hide EatWords;
    var line := GUARD + rest;
    EatStep("#", "[" + ("cfg" + ("(" + ("test" + (")" + ("]" + rest))))), ["[", "cfg", "(", "test", ")"]);
    EatStep("[", "cfg" + ("(" + ("test" + (")" + ("]" + rest)))), ["cfg", "(", "test", ")"]);
    EatStep("cfg", "(" + ("test" + (")" + ("]" + rest))), ["(", "test", ")"]);
    EatStep("(", "test" + (")" + ("]" + rest)), ["test", ")"]);
    EatStep("test", ")" + ("]" + rest), [")"]);
    EatStep(")", "]" + rest, []);
    EatNothing("]" + rest);
    assert line == "#" + ("[" + ("cfg" + ("(" + ("test" + (")" + ("]" + rest))))));
    assert ["#"] + ["[", "cfg", "(", "test", ")"] == ["#", "[", "cfg", "(", "test", ")"];
    assert ["["] + ["cfg", "(", "test", ")"] == ["[", "cfg", "(", "test", ")"];
    assert ["cfg"] + ["(", "test", ")"] == ["cfg", "(", "test", ")"];
    assert ["("] + ["test", ")"] == ["(", "test", ")"] && ["test"] + [")"] == ["test", ")"] && [")"] + [] == [")"];
  }

  lemma GuardIsGuard()
    ensures CfgTest(GUARD)
  {
    hide CfgTest;
    GuardMatches("");
    assert GUARD + "" == GUARD;
  }

  lemma EatNothing(s: string)
    ensures EatWords(s, []) == Some(s)
  {
  }

  lemma EatOther(word: string, s: string, words: seq<string>)
    requires word != "" && s != "" && !IsSpace(s[0]) && word[0] != s[0]
    ensures EatWords(s, [word] + words) == None
  {
    assert StripLeft(s) == s && ([word] + words)[0] == word;
  }

  // A line that begins with neither white space nor '#' is no guard.
  lemma NoHashNoGuard(line: string)
    requires line == "" || (!IsSpace(line[0]) && line[0] != '#')
    ensures !CfgTest(line)
  {
    assert StripLeft(line) == line;
    assert Eat(line, "#") == None;
  }

  lemma BeginsItem(line: string, word: string)
    requires word == "mod" || word == "fn"
    requires |line| > |word| && line[..|word|] == word && line[|word|] == ' '
    ensures ItemStart(line) && !CfgTest(line)
  {
    hide CfgTest, StripLeft, StartsWithWord;
    assert line[0] == line[..|word|][0] == word[0];
    NothingToStrip(line);
    NoHashNoGuard(line);
    WordStarts(line, word);
    assert "pub"[0] != line[0];
  }

  lemma NothingToStrip(line: string)
    requires line != "" && !IsSpace(line[0])
    ensures StripLeft(line) == line
  {
  }

  lemma WordStarts(s: string, word: string)
    requires |s| > |word| && s[..|word|] == word && s[|word|] == ' '
    ensures StartsWithWord(s, word)
  {
  }

  lemma OtherItem(line: string)
    requires line != "" && line[0] == 'i' && !IsSpace(line[|line| - 1])
    ensures !ItemStart(line) && !CfgTest(line) && EndsWait(line)
  {
    NoHashNoGuard(line);
    assert StripLeft(line) == line && StripRight(line) == line;
    assert "pub"[0] != 'i' && "mod"[0] != 'i' && "fn"[0] != 'i';
  }

  // RUST is made of the matchers above.
  lemma RustLines()
    ensures forall line :: RUST.cfgTest(line) == CfgTest(line) && RUST.itemStart(line) == ItemStart(line)
    ensures After(RUST, START, []) == START && Output(RUST, START, []) == []
  {
    hide CfgTest, ItemStart;
  }

  // ---------- guarded items that are counted ----------

  predicate NoGuards(lines: seq<string>) {
    forall i :: 0 <= i < |lines| ==> !CfgTest(lines[i])
  }

  lemma OtherItemAtStart(cfg: string, item: string, body: seq<string>)
    requires CfgTest(cfg) && !ItemStart(item) && !CfgTest(item) && EndsWait(item) && NoGuards(body)
    ensures Output(RUST, START, [cfg, item] + body) == [item] + body
  {
    hide CfgTest, ItemStart, Output, EndsWait, After, PanicUse;
    RustLines();
    assert [cfg, item] + body == [] + [cfg] + [] + [item] + body;
    GuardBeforeOtherItem(RUST, [], cfg, [], item, body);
    CountedWholeIffNoGuard(RUST, body);
    assert [] + [] + [item] + body == [item] + body;
  }

  // What is kept of a guarded mod or fn at the start of a file.
  lemma GuardedAtStart(item: string, body: seq<string>)
    requires ItemStart(item) && NoGuards(body)
    ensures Output(RUST, START, [GUARD, item] + body) == Behind(BraceDelta(item), body)
  {
    hide CfgTest, ItemStart, Output, BraceDelta, After, PanicUse;
    RustLines();
    GuardIsGuard();
    var behind := Behind(BraceDelta(item), body);
    assert [GUARD, item] + body == [] + [GUARD] + [] + [item] + body;
    GuardedItemHides(RUST, [], GUARD, [], item, body);
    assert forall i :: 0 <= i < |behind| ==> behind[i] in body;
    CountedWholeIffNoGuard(RUST, behind);
    assert [] + [] + behind == behind;
  }

  // A blank line or an attribute, which may stand between a guard and its item.
  predicate IsAttribute(line: string) {
    !EndsWait(line) && !ItemStart(line) && !CfgTest(line)
  }

  lemma AttributesAreBetween(mid: seq<string>)
    ensures forall i :: 0 <= i < |mid| ==> (Between(RUST, mid[i]) <==> IsAttribute(mid[i]))
  {
    hide CfgTest, ItemStart, EndsWait, PanicUse;
    RustLines();
  }

  // The item is the first line behind the guard that is neither blank nor an attribute, and no guard stands behind.
  predicate GuardedItem(cfg: string, mid: seq<string>, item: string, body: seq<string>) {
    && CfgTest(cfg) && (forall i :: 0 <= i < |mid| ==> IsAttribute(mid[i]))
    && (EndsWait(item) || ItemStart(item)) && !CfgTest(item) && NoGuards(body)
  }

  /**
   With the script's own patterns: splicing a guarded item in leaves out all its lines and no other exactly when the
   guard is directly followed by the first line of a mod or fn whose braces first close on its last line.
   */
  lemma GuardedRustItemIsFreeIff(pre: seq<string>, cfg: string, mid: seq<string>, item: string, body: seq<string>)
    requires After(RUST, START, pre) == START && GuardedItem(cfg, mid, item, body)
    ensures IsFree(RUST, pre, [cfg] + mid + [item] + body) <==>
            mid == [] && ItemStart(item) && ClosesOnLastLine(item, body)
  {
    hide CfgTest, ItemStart, IsAttribute, Between, After, IsFree, ClosesOnLastLine, PanicUse;
    RustLines();
    ModOpensOne();
    AttributesAreBetween(mid);
    GuardedItemIsFreeIff(RUST, pre, cfg, mid, item, body, "mod t {");
  }

  /**
   With the script's own patterns: splicing a guarded item in leaves every file's panic count alone exactly when its
   attributes have no panic use, a mod or fn closes and has none behind its first close, and any other item has none
   at all. Each way to fail has an input below.
   */
  lemma GuardedRustItemIsCountFreeIff(pre: seq<string>, cfg: string, mid: seq<string>, item: string,
                                      body: seq<string>)
    requires After(RUST, START, pre) == START && GuardedItem(cfg, mid, item, body)
    ensures IsCountFree(RUST, pre, [cfg] + mid + [item] + body) <==>
            && PanicCount(RUST, mid) == 0
            && if ItemStart(item) then Closes(item, body) && PanicCount(RUST, Behind(BraceDelta(item), body)) == 0
               else PanicCount(RUST, [item] + body) == 0
  {
    hide CfgTest, ItemStart, IsAttribute, EndsWait, PanicUse;
    hide After, IsCountFree, Closes, PanicCount, Behind, BraceDelta;
    RustLines();
    CountingProbe();
    AttributesAreBetween(mid);
    GuardedItemIsCountFreeIff(RUST, pre, cfg, mid, item, body, PROBE);
  }

  const PROBE := "fn f() { h().unwrap(); }"

  lemma CountingProbe()
    ensures ItemStart(PROBE) && !CfgTest(PROBE) && RUST.panicUse(PROBE)
  {
    hide ItemStart, CfgTest;
    assert PROBE[..2] == "fn";
    BeginsItem(PROBE, "fn");
    assert OccursAt(PROBE, ".unwrap(", 12);
  }

  /**
   A guarded impl, here that of crates/mona-acp/src/server.rs:1608-1609, is counted although its brace opens at once,
   with all panic uses of its body.
   */
  lemma GuardedImplIsCounted(body: seq<string>)
    requires NoGuards(body)
    ensures Output(RUST, START, [GUARD, "impl Permission for AlwaysAllow {"] + body) ==
            ["impl Permission for AlwaysAllow {"] + body
    ensures PanicCount(RUST, ["impl Permission for AlwaysAllow {"] + body) == PanicCount(RUST, body)
  {
    hide *;
    ImplLine();
    NoPanicUse("impl Permission for AlwaysAllow {");
    CountFirst("impl Permission for AlwaysAllow {", body);
    GuardIsGuard();
    OtherItemAtStart(GUARD, "impl Permission for AlwaysAllow {", body);
  }

  lemma ImplLine()
    ensures var impl := "impl Permission for AlwaysAllow {"; !ItemStart(impl) && !CfgTest(impl) && EndsWait(impl)
  {
    hide CfgTest, ItemStart, EndsWait;
    OtherItem("impl Permission for AlwaysAllow {");
  }

  /**
   A guarded fn with its brace on a later line, as at crates/mona-app-core/src/tool/communicate.rs:1667-1668, is
   counted from its second line on.
   */
  lemma BraceOnLaterLineIsCounted(body: seq<string>)
    requires NoGuards(body)
    ensures Output(RUST, START, [GUARD, "fn format_awaited_members("] + body) == body
  {
    hide *;
    FnWithoutBrace();
    GuardedAtStart("fn format_awaited_members(", body);
    BehindClosed(0, body);
  }

  lemma NoBracesNoDelta(line: string)
    requires '{' !in line && '}' !in line
    ensures BraceDelta(line) == 0
  {
    CountsNone(line, '{');
    CountsNone(line, '}');
  }

  lemma {:induction false} CountsNone(line: string, c: char)
    requires c !in line
    ensures Count(line, c) == 0
    decreases |line|
  {
    if line != "" {
      CountsNone(line[1..], c);
    }
  }

  lemma FnWithoutBrace()
    ensures ItemStart("fn format_awaited_members(") && BraceDelta("fn format_awaited_members(") == 0
  {
    hide ItemStart, CfgTest;
    hide BraceDelta;
    var line := "fn format_awaited_members(";
    NoBracesNoDelta(line);
    assert line[..2] == "fn";
    BeginsItem(line, "fn");
  }

  /** A closing brace in a string ends the hidden part early: the rest of the guarded fn is counted, with its unwrap. */
  lemma EarlyCloseIsCounted()
    ensures Output(RUST, START, [GUARD, "fn f() {"] + ["g(\"}\");", "h().unwrap();", "}"]) == ["h().unwrap();", "}"]
    ensures PanicCount(RUST, ["h().unwrap();", "}"]) == 1
  {
    hide Output, CfgTest, ItemStart, Count, BraceDelta, PanicUse, PanicCount, NoGuards, Behind, FirstClose;
    FnOpensOne();
    PlainLines("g(\"}\");", "h().unwrap();", "}");
    GuardedAtStart("fn f() {", ["g(\"}\");", "h().unwrap();", "}"]);
    ClosesAtFirst(["g(\"}\");", "h().unwrap();", "}"]);
    UnwrapIsOnePanicUse();
  }

  lemma PlainLines(a: string, b: string, c: string)
    requires a != "" && !IsSpace(a[0]) && a[0] != '#'
    requires b != "" && !IsSpace(b[0]) && b[0] != '#'
    requires c != "" && !IsSpace(c[0]) && c[0] != '#'
    ensures NoGuards([a, b, c])
  {
    hide CfgTest;
    NoHashNoGuard(a);
    NoHashNoGuard(b);
    NoHashNoGuard(c);
  }

  lemma ClosesAtFirst(body: seq<string>)
    requires body == ["g(\"}\");", "h().unwrap();", "}"]
    ensures Behind(1, body) == ["h().unwrap();", "}"]
  {
    ClosingLine();
    hide BraceDelta;
    assert FirstClose(1, body) == Some(0);
  }

  lemma FnOpensOne()
    ensures ItemStart("fn f() {") && BraceDelta("fn f() {") == 1
  {
    hide ItemStart, CfgTest;
    assert "fn f() {"[..2] == "fn";
    BeginsItem("fn f() {", "fn");
  }

  lemma ClosingLine()
    ensures BraceDelta("g(\"}\");") == -1
  {
  }

  lemma UnwrapIsOnePanicUse()
    ensures PanicCount(RUST, ["h().unwrap();", "}"]) == 1
  {
    assert OccursAt("h().unwrap();", ".unwrap(", 3);
    assert PanicUse("h().unwrap();");
    ShortLineIsNoPanicUse("}");
    assert ["h().unwrap();", "}"][1..] == ["}"];
    assert PanicCount(RUST, ["}"]) == 0;
  }

  lemma CountFirst(line: string, lines: seq<string>)
    ensures PanicCount(RUST, [line] + lines) == (if PanicUse(line) then 1 else 0) + PanicCount(RUST, lines)
  {
    hide PanicUse;
    assert ([line] + lines)[1..] == lines;
  }

  // Without '!', and with no '.' before a 'u' or an 'e', there is nothing to find.
  lemma NoPanicUse(line: string)
    requires '!' !in line
    requires forall i :: 0 <= i < |line| - 1 && line[i] == '.' ==> line[i + 1] != 'u' && line[i + 1] != 'e'
    ensures !PanicUse(line)
  {
    forall i | 0 <= i <= |line|
      ensures !OccursAt(line, ".unwrap(", i) && !OccursAt(line, ".expect(", i)
    {
      if i + 8 <= |line| {
        assert line[i..i + 8][0] == line[i] && line[i..i + 8][1] == line[i + 1];
      }
    }
    BangNeeded(line, "panic!");
    BangNeeded(line, "todo!");
    BangNeeded(line, "unimplemented!");
  }

  lemma BangNeeded(line: string, word: string)
    requires '!' !in line && word != "" && word[|word| - 1] == '!'
    ensures !OccursAtBoundary(line, word)
  {
    forall i | 0 <= i <= |line|
      ensures !OccursAt(line, word, i)
    {
      if i + |word| <= |line| {
        assert line[i..i + |word|][|word| - 1] == line[i + |word| - 1];
      }
    }
  }

  lemma ShortLineIsNoPanicUse(line: string)
    requires |line| < 5
    ensures !PanicUse(line)
  {
  }

  /** An opening brace in a string keeps the block open: the production fn behind it is not counted, nor its unwrap. */
  lemma UnclosedBlockSwallowsTheRest()
    ensures Output(RUST, START, [GUARD, "mod t {"] + ["g(\"{\");", "}"] + ["fn f() {", "h().unwrap();", "}"]) == []
    ensures PanicCount(RUST, ["fn f() {", "h().unwrap();", "}"]) == 1
  {
    var body := ["g(\"{\");", "}", "fn f() {", "h().unwrap();", "}"];
    ModOpensOne();
    hide Output, CfgTest, ItemStart, BraceDelta, FirstClose, PanicUse, PanicCount;
    NoHashNoGuard(body[0]);
    NoHashNoGuard(body[1]);
    NoHashNoGuard(body[2]);
    NoHashNoGuard(body[3]);
    NoHashNoGuard(body[4]);
    GuardedAtStart("mod t {", body);
    FnOpensOne();
    OpeningLine();
    NoBracesNoDelta("h().unwrap();");
    NeverCloses("g(\"{\");", "}", "fn f() {", "h().unwrap();");
    assert [GUARD, "mod t {"] + ["g(\"{\");", "}"] + ["fn f() {", "h().unwrap();", "}"] == [GUARD, "mod t {"] + body;
    UnwrapIsOnePanicUse();
    NoPanicUse("fn f() {");
    CountFirst("fn f() {", ["h().unwrap();", "}"]);
    assert ["fn f() {"] + ["h().unwrap();", "}"] == ["fn f() {", "h().unwrap();", "}"];
  }

  lemma ModOpensOne()
    ensures ItemStart("mod t {") && BraceDelta("mod t {") == 1 && !CfgTest("mod t {")
  {
    hide ItemStart, CfgTest;
    assert "mod t {"[..3] == "mod";
    BeginsItem("mod t {", "mod");
  }

  lemma StaysOpen(d: int, line: string, rest: seq<string>)
    requires d + BraceDelta(line) > 0 && FirstClose(d + BraceDelta(line), rest) == None
    ensures FirstClose(d, [line] + rest) == None
  {
    hide BraceDelta;
    assert ([line] + rest)[1..] == rest;
  }

  lemma NeverCloses(a: string, b: string, c: string, d: string)
    requires BraceDelta(a) == 1 && BraceDelta(b) == -1 && BraceDelta(c) == 1 && BraceDelta(d) == 0
    ensures FirstClose(1, [a, b, c, d, b]) == None
  {
    hide BraceDelta;
    StaysOpen(2, b, []);
    hide FirstClose;
    StaysOpen(2, d, [b] + []);
    StaysOpen(1, c, [d] + ([b] + []));
    StaysOpen(2, b, [c] + ([d] + ([b] + [])));
    StaysOpen(1, a, [b] + ([c] + ([d] + ([b] + []))));
    assert [a, b, c, d, b] == [a] + ([b] + ([c] + ([d] + ([b] + []))));
  }

  lemma OpeningLine()
    ensures BraceDelta("g(\"{\");") == 1 && BraceDelta("}") == -1
  {
  }

  /** An item on the guard's own line is not seen: from the second line on it is counted, here with its unwrap. */
  lemma ItemOnGuardLineIsCounted()
    ensures Output(RUST, START, [GUARD + " fn f() {"] + ["h().unwrap();", "}"]) == ["h().unwrap();", "}"]
    ensures PanicCount(RUST, ["h().unwrap();", "}"]) == 1
  {
    hide *;
    GuardMatches(" fn f() {");
    PlainStatement();
    LastBrace();
    OtherItemAtStart(GUARD + " fn f() {", "h().unwrap();", ["}"]);
    assert [GUARD + " fn f() {", "h().unwrap();"] + ["}"] == [GUARD + " fn f() {"] + ["h().unwrap();", "}"];
    assert ["h().unwrap();"] + ["}"] == ["h().unwrap();", "}"];
    UnwrapIsOnePanicUse();
  }

  lemma LastBrace()
    ensures NoGuards(["}"])
  {
    hide CfgTest;
    NoHashNoGuard("}");
  }

  lemma PlainStatement()
    ensures !ItemStart("h().unwrap();") && !CfgTest("h().unwrap();") && EndsWait("h().unwrap();")
  {
    var line := "h().unwrap();";
    NoHashNoGuard(line);
    assert StripLeft(line) == line && StripRight(line) == line;
    assert "pub"[0] != 'h' && "mod"[0] != 'h' && "fn"[0] != 'h';
  }

  // An attribute other than cfg.
  lemma AttributeLine(line: string)
    requires |line| > 2 && line[..2] == "#[" && line[2] != 'c' && !IsSpace(line[2]) && !IsSpace(line[|line| - 1])
    ensures IsAttribute(line)
  {
    assert line[0] == line[..2][0] && line[1] == line[..2][1];
    assert StripLeft(line) == line && StripRight(line) == line;
    assert "pub"[0] != '#' && "mod"[0] != '#' && "fn"[0] != '#';
    AttributeIsNoGuard(line);
  }

  lemma AttributeIsNoGuard(line: string)
    requires |line| > 2 && line[..2] == "#[" && line[2] != 'c' && !IsSpace(line[2])
    ensures !CfgTest(line)
  {
    hide EatWords;
    forall words
      ensures EatWords(line, ["#"] + (["["] + (["cfg"] + words))) == None
    {
      EatOther("cfg", line[2..], words);
      EatStep("[", line[2..], ["cfg"] + words);
      EatStep("#", "[" + line[2..], ["["] + (["cfg"] + words));
      assert line[..2] + line[2..] == line && "#" + ("[" + line[2..]) == "#[" + line[2..];
    }
    assert ["#", "[", "cfg", "(", "test", ","] == ["#"] + (["["] + (["cfg"] + ["(", "test", ","]));
    assert ["#", "[", "cfg", "(", "test", ")"] == ["#"] + (["["] + (["cfg"] + ["(", "test", ")"]));
    assert ["#", "[", "cfg", "(", "all", "(", "test", ","] ==
           ["#"] + (["["] + (["cfg"] + ["(", "all", "(", "test", ","]));
    assert ["#", "[", "cfg", "(", "all", "(", "test", ")"] ==
           ["#"] + (["["] + (["cfg"] + ["(", "all", "(", "test", ")"]));
  }

  lemma ModOfFile()
    ensures ItemStart("mod tests;") && !CfgTest("mod tests;") && BraceDelta("mod tests;") == 0
  {
    hide ItemStart, CfgTest, BraceDelta;
    assert "mod tests;"[..3] == "mod";
    BeginsItem("mod tests;", "mod");
    NoBracesNoDelta("mod tests;");
  }

  lemma NothingLeft(item: string)
    requires BraceDelta(item) <= 0
    ensures Closes(item, []) && Behind(BraceDelta(item), []) == [] && PanicCount(RUST, []) == 0
  {
  }

  lemma AttributedAtStart(attribute: string, item: string)
    requires IsAttribute(attribute) && ItemStart(item) && BraceDelta(item) <= 0
    ensures Output(RUST, START, [GUARD, attribute, item]) == [attribute]
  {
    hide *;
    GuardIsGuard();
    RustLines();
    AttributesAreBetween([attribute]);
    GuardedItemHides(RUST, [], GUARD, [attribute], item, []);
    NothingLeft(item);
    assert [GUARD, attribute, item] == [] + [GUARD] + [attribute] + [item] + [];
    assert [] + [attribute] + [] == [attribute];
  }

  lemma CountOne(line: string)
    ensures PanicCount(RUST, [line]) == if PanicUse(line) then 1 else 0
  {
    hide PanicUse;
    CountFirst(line, []);
    assert [line] + [] == [line];
  }

  lemma PanicAt(line: string, i: nat)
    requires 0 < i && i + 6 <= |line| && line[i..i + 6] == "panic!" && !IsWordChar(line[i - 1])
    ensures PanicUse(line)
  {
    assert OccursAt(line, "panic!", i);
  }

  lemma DocAttribute()
    ensures IsAttribute("#[doc = \"panic!\"]") && PanicUse("#[doc = \"panic!\"]")
  {
    var doc := "#[doc = \"panic!\"]";
    hide IsAttribute, PanicUse;
    assert doc[9..15] == "panic!" && doc[8] == '"' && doc[..2] == "#[";
    PanicAt(doc, 9);
    AttributeLine(doc);
  }

  /** An attribute between guard and item is counted, here with a panic use in its text. */
  lemma AttributeIsCounted()
    ensures Output(RUST, START, [GUARD, "#[doc = \"panic!\"]", "mod tests;"]) == ["#[doc = \"panic!\"]"]
    ensures PanicCount(RUST, ["#[doc = \"panic!\"]"]) == 1
  {
    hide *;
    DocAttribute();
    ModOfFile();
    AttributedAtStart("#[doc = \"panic!\"]", "mod tests;");
    CountOne("#[doc = \"panic!\"]");
  }

  /**
   A guarded mod of its own file behind an attribute without a panic use: the attribute line is kept, so the lines
   change, but no count does.
   */
  lemma AttributedModIsCountFree(pre: seq<string>, attribute: string, item: string)
    requires After(RUST, START, pre) == START
    requires IsAttribute(attribute) && !PanicUse(attribute)
    requires ItemStart(item) && !CfgTest(item) && BraceDelta(item) <= 0
    ensures !IsFree(RUST, pre, [GUARD, attribute, item])
    ensures IsCountFree(RUST, pre, [GUARD, attribute, item])
  {
    hide *;
    AttributedIsGuarded(attribute, item);
    assert [GUARD, attribute, item] == [GUARD] + [attribute] + [item] + [];
    GuardedRustItemIsFreeIff(pre, GUARD, [attribute], item, []);
    GuardedRustItemIsCountFreeIff(pre, GUARD, [attribute], item, []);
    NothingLeft(item);
    CountOne(attribute);
  }

  lemma AttributedIsGuarded(attribute: string, item: string)
    requires IsAttribute(attribute) && ItemStart(item) && !CfgTest(item)
    ensures GuardedItem(GUARD, [attribute], item, [])
  {
    hide IsAttribute, CfgTest, ItemStart, EndsWait;
    GuardIsGuard();
  }

  /** One such item is that of crates/mona-provider-copilot-runtime/src/lib.rs:1193-1195. */
  lemma PathAttributeIsKept(pre: seq<string>)
    requires After(RUST, START, pre) == START
    ensures !IsFree(RUST, pre, [GUARD, "#[path = \"copilot_tests.rs\"]", "mod tests;"])
    ensures IsCountFree(RUST, pre, [GUARD, "#[path = \"copilot_tests.rs\"]", "mod tests;"])
  {
    hide *;
    PathAttribute();
    ModOfFile();
    AttributedModIsCountFree(pre, "#[path = \"copilot_tests.rs\"]", "mod tests;");
  }

  lemma PathAttribute()
    ensures IsAttribute("#[path = \"copilot_tests.rs\"]") && !PanicUse("#[path = \"copilot_tests.rs\"]")
  {
    hide IsAttribute, PanicUse;
    var path := "#[path = \"copilot_tests.rs\"]";
    assert path[..2] == "#[";
    AttributeLine(path);
    NoPanicUse(path);
  }
}
