/** The few text operations the scripts use, on ASCII letters and white space. */
module Text {
  datatype Option<+T> = None | Some(value: T)

  predicate IsAscii(s: string) {
    forall i :: 0 <= i < |s| ==> s[i] < 128 as char
  }

  predicate IsSpace(c: char) {
    c == ' ' || '\t' <= c <= '\r' || 28 as char <= c <= 31 as char
  }

  function LowerChar(c: char): char {
    if 'A' <= c <= 'Z' then (c as int + 32) as char else c
  }

  function Lower(s: string): (r: string)
    ensures |r| == |s| && forall i :: 0 <= i < |s| ==> r[i] == LowerChar(s[i])
  {
    if s == [] then [] else [LowerChar(s[0])] + Lower(s[1..])
  }

  // The same ASCII letter in either case, or the same character.
  predicate SameLetter(a: char, b: char) {
    || a == b
    || ('A' <= a <= 'Z' && b as int == a as int + 32)
    || ('A' <= b <= 'Z' && a as int == b as int + 32)
  }

  predicate EqualUpToCase(a: string, b: string) {
    |a| == |b| && forall i :: 0 <= i < |a| ==> SameLetter(a[i], b[i])
  }

  /** Lower changes the case of letters only, and leaves no capital. */
  lemma LowerIsLowerCase(s: string)
    ensures EqualUpToCase(Lower(s), s)
    ensures forall i :: 0 <= i < |Lower(s)| ==> !('A' <= Lower(s)[i] <= 'Z')
  {
  }

  lemma LowerKeeps(s: string)
    requires forall i :: 0 <= i < |s| ==> !('A' <= s[i] <= 'Z')
    ensures Lower(s) == s
  {
  }

  lemma SameLetterIff(a: char, b: char)
    ensures LowerChar(a) == LowerChar(b) <==> SameLetter(a, b)
  {
  }

  /** Two texts have the same lower case exactly when they differ in the case of letters only. */
  lemma LowerEqualIff(a: string, b: string)
    ensures Lower(a) == Lower(b) <==> EqualUpToCase(a, b)
  {
    hide SameLetter, LowerChar, Lower;
    if |a| == |b| {
      forall i | 0 <= i < |a|
        ensures Lower(a)[i] == Lower(b)[i] <==> SameLetter(a[i], b[i])
      {
        SameLetterIff(a[i], b[i]);
      }
    }
  }

  // Tab to carriage return, the four separators, and the blank.
  lemma SpaceCodes(c: char)
    ensures IsSpace(c) <==> c as int in {9, 10, 11, 12, 13, 28, 29, 30, 31, 32}
  {
  }

  predicate AllSpace(s: string) {
    forall i :: 0 <= i < |s| ==> IsSpace(s[i])
  }

  function StripLeft(s: string): (r: string)
    ensures |r| <= |s| && s[|s| - |r|..] == r
    ensures r == [] || !IsSpace(r[0])
  {
    if s != [] && IsSpace(s[0]) then StripLeft(s[1..]) else s
  }

  function StripRight(s: string): (r: string)
    ensures |r| <= |s| && s[..|r|] == r
    ensures r == [] || !IsSpace(r[|r| - 1])
  {
    if s != [] && IsSpace(s[|s| - 1]) then StripRight(s[..|s| - 1]) else s
  }

  function Strip(s: string): string {
    StripRight(StripLeft(s))
  }

  lemma {:induction false} StripLeftKeeps(s: string, c: char)
    requires !IsSpace(c)
    ensures c in StripLeft(s) <==> c in s
    decreases |s|
  {
    hide IsSpace;
    if s != [] && IsSpace(s[0]) {
      StripLeftKeeps(s[1..], c);
      assert StripLeft(s) == StripLeft(s[1..]);
      assert c in s <==> c == s[0] || c in s[1..];
    } else {
      assert StripLeft(s) == s;
    }
  }

  lemma {:induction false} StripRightKeeps(s: string, c: char)
    requires !IsSpace(c)
    ensures c in StripRight(s) <==> c in s
    decreases |s|
  {
    hide IsSpace;
    if s != [] && IsSpace(s[|s| - 1]) {
      StripRightKeeps(s[..|s| - 1], c);
      assert StripRight(s) == StripRight(s[..|s| - 1]);
      assert s == s[..|s| - 1] + [s[|s| - 1]];
    } else {
      assert StripRight(s) == s;
    }
  }

  lemma {:induction false} StripLeftCuts(s: string)
    ensures forall i :: 0 <= i < |s| - |StripLeft(s)| ==> IsSpace(s[i])
    decreases |s|
  {
    hide IsSpace;
    if s != "" && IsSpace(s[0]) {
      StripLeftCuts(s[1..]);
      assert forall i :: 0 < i < |s| ==> s[i] == s[1..][i - 1];
    }
  }

  lemma {:induction false} StripRightCuts(s: string)
    ensures forall i :: |StripRight(s)| <= i < |s| ==> IsSpace(s[i])
    decreases |s|
  {
    hide IsSpace;
    if s != "" && IsSpace(s[|s| - 1]) {
      StripRightCuts(s[..|s| - 1]);
      assert forall i :: 0 <= i < |s| - 1 ==> s[i] == s[..|s| - 1][i];
    }
  }

  /** What is left of a text behind white space. */
  lemma {:induction false} StripLeftOf(front: string, s: string)
    requires AllSpace(front) && s != "" && !IsSpace(s[0])
    ensures StripLeft(front + s) == s
    decreases |front|
  {
    hide IsSpace;
    if front == "" {
      assert front + s == s;
    } else {
      assert (front + s)[0] == front[0] && (front + s)[1..] == front[1..] + s;
      StripLeftOf(front[1..], s);
    }
  }

  lemma StripRightFirst(s: string)
    ensures StripRight(s) != "" ==> s != "" && StripRight(s)[0] == s[0]
  {
    hide IsSpace;
    assert StripRight(s) != "" ==> s[..|StripRight(s)|][0] == s[0];
  }

  lemma TakeDrop(s: string, i: nat)
    requires i <= |s|
    ensures s == s[..i] + s[i..]
  {
  }

  lemma Regroup(a: string, b: string, c: string)
    ensures a + (b + c) == a + b + c
  {
  }

  lemma PartsAreSpace(s: string, i: nat, j: nat)
    requires i <= j <= |s| && forall k :: i <= k < j ==> IsSpace(s[k])
    ensures AllSpace(s[i..j])
    ensures i == 0 ==> AllSpace(s[..j])
    ensures j == |s| ==> AllSpace(s[i..])
  {
  }

  lemma StripIs(s: string)
    ensures Strip(s) == StripRight(StripLeft(s))
  {
  }

  /** Strip cuts white space off both ends, and all of it. */
  lemma StripCuts(s: string) returns (front: string, back: string)
    ensures s == front + Strip(s) + back && AllSpace(front) && AllSpace(back)
    ensures Strip(s) != "" ==> !IsSpace(Strip(s)[0]) && !IsSpace(Strip(s)[|Strip(s)| - 1])
  {
    hide *;
    var t := StripLeft(s);
    var u := StripRight(t);
    StripLeftCuts(s);
    StripRightCuts(t);
    StripRightFirst(t);
    StripIs(s);
    front, back := s[..|s| - |t|], t[|u|..];
    PartsAreSpace(s, 0, |s| - |t|);
    PartsAreSpace(t, |u|, |t|);
    TakeDrop(s, |s| - |t|);
    TakeDrop(t, |u|);
    Regroup(front, u, back);
  }

  /** Stripping removes white space only. */
  lemma StripKeeps(s: string, c: char)
    requires !IsSpace(c)
    ensures c in Strip(s) <==> c in s
  {
    StripLeftKeeps(s, c);
    StripRightKeeps(StripLeft(s), c);
  }

  lemma StripOnlyShortens(s: string)
    ensures |Strip(s)| <= |s| && (|Strip(s)| == |s| ==> Strip(s) == s)
  {
    hide StripLeft, StripRight;
    var t := StripLeft(s);
    assert |t| == |s| ==> t == s;
    assert |StripRight(t)| == |t| ==> StripRight(t) == t;
  }

  predicate OccursAt<T(==)>(s: seq<T>, q: seq<T>, i: nat) {
    i + |q| <= |s| && s[i..i + |q|] == q
  }

  /** q occurs in s as a contiguous part: Python's "q in s". */
  predicate Occurs<T(==)>(s: seq<T>, q: seq<T>) {
    exists i :: 0 <= i <= |s| && OccursAt(s, q, i)
  }

  // word stands at position i of the text, letter for letter.
  predicate ReadsAt(text: string, word: string, i: int) {
    0 <= i && i + |word| <= |text| && forall k :: i <= k < i + |word| ==> text[k] == word[k - i]
  }

  lemma OccursIff(text: string, word: string)
    ensures Occurs(text, word) <==> exists i :: ReadsAt(text, word, i)
  {
    if i :| 0 <= i <= |text| && OccursAt(text, word, i) {
      assert forall k :: i <= k < i + |word| ==> text[k] == text[i..i + |word|][k - i];
      assert ReadsAt(text, word, i);
    }
    if i :| ReadsAt(text, word, i) {
      assert text[i..i + |word|] == word;
      assert OccursAt(text, word, i);
    }
  }
}
