/**
 The local web fixture of scripts/benchmark_browser_handoff.py: one trial's state
 under any sequence of requests, and the verdict read off the recorded requests.
 */
module BrowserFixture {

  datatype Task = Navigation | Search | Form

  type Fields = map<string, seq<string>>

  datatype HttpRequest = HttpRequest(post: bool, step: string, fields: Fields)

  // What the search form and the sample form must send: these fields, no others, each exactly once.
  function ExpectedSearch(values: seq<string>): Fields
    requires |values| >= 2
  {
    map["q" := [values[0]], "category" := [values[1]]]
  }

  function ExpectedForm(values: seq<string>): Fields
    requires |values| >= 3
  {
    map["name" := [values[0]], "email" := [values[1]], "notes" := [values[2]],
        "delivery" := ["pickup"], "confirm" := ["yes"]]
  }

  predicate FitsTask(task: Task, values: seq<string>) {
    |values| >= if task == Form then 3 else 2
  }

  const PAGES := {"start", "guides", "browser", "navigation"}

  // ---------- what the recorded requests say ----------

  // A request that the server takes as the submission of the trial's form.
  predicate IsSubmission(task: Task, r: HttpRequest) {
    match task
    case Navigation => false
    case Search => !r.post && r.step == "results"
    case Form => r.post && r.step == "submit"
  }

  predicate IsCorrect(task: Task, values: seq<string>, r: HttpRequest)
    requires FitsTask(task, values)
  {
    match task
    case Navigation => false
    case Search => r.fields == ExpectedSearch(values)
    case Form => r.fields == ExpectedForm(values)
  }

  /** The last submission among the requests, if there is one, had exactly the expected fields. */
  predicate LastSubmissionCorrect(task: Task, values: seq<string>, h: seq<HttpRequest>)
    requires FitsTask(task, values)
  {
    h != [] &&
    var last := h[|h| - 1];
    if IsSubmission(task, last) then IsCorrect(task, values, last)
    else LastSubmissionCorrect(task, values, h[..|h| - 1])
  }

  predicate MayServeReceipt(task: Task, values: seq<string>, h: seq<HttpRequest>)
    requires FitsTask(task, values)
  {
    task == Navigation || LastSubmissionCorrect(task, values, h)
  }

  predicate AsksForReceipt(r: HttpRequest) {
    !r.post && r.step == "receipt"
  }

  predicate ReceiptServed(task: Task, values: seq<string>, h: seq<HttpRequest>)
    requires FitsTask(task, values)
  {
    h != [] &&
    (ReceiptServed(task, values, h[..|h| - 1])
     || (AsksForReceipt(h[|h| - 1]) && MayServeReceipt(task, values, h[..|h| - 1])))
  }

  /** Which requests get a page, given the requests before; every other one is a 404, though recorded too. */
  predicate IsAnswered(task: Task, values: seq<string>, h: seq<HttpRequest>, r: HttpRequest)
    requires FitsTask(task, values)
  {
    if r.post then
      r.step == "left" || r.step == "visible" || (task == Form && r.step == "submit")
    else
      || r.step in PAGES
      || (task == Search && r.step == "results")
      || (task == Search && r.step == "item" && LastSubmissionCorrect(task, values, h))
      || (task == Form && r.step == "request")
      || (AsksForReceipt(r) && MayServeReceipt(task, values, h))
  }

  // ---------- the handler ----------

  /** One entry of Fixture.trials; requests are handled one at a time, under the fixture's lock. */
  class Trial {
    const task: Task
    const values: seq<string>
    var requests: seq<HttpRequest>
    var searchValid: bool
    var formValid: bool
    var receiptPageServed: bool
    var confirmationDomObserved: bool

    /** The flags are what the recorded requests say they are. */
    ghost predicate Valid()
      reads this
    {
      && FitsTask(task, values)
      && (searchValid <==> task == Search && LastSubmissionCorrect(task, values, requests))
      && (formValid <==> task == Form && LastSubmissionCorrect(task, values, requests))
      && (receiptPageServed <==> ReceiptServed(task, values, requests))
    }

    constructor (task: Task, values: seq<string>)
      requires FitsTask(task, values)
      ensures Valid() && this.task == task && this.values == values && requests == []
    {
      this.task, this.values, requests := task, values, [];
      searchValid, formValid, receiptPageServed, confirmationDomObserved := false, false, false, false;
    }

    /** handle_request: records the request, then takes the first branch that fits; found is false for a 404. */
    method Handle(r: HttpRequest) returns (found: bool)
      requires Valid()
      modifies this
      ensures Valid() && requests == old(requests) + [r]
      ensures found <==> IsAnswered(task, values, old(requests), r)
      ensures confirmationDomObserved ==
              if r.post && r.step == "visible" then true
              else if r.post && r.step == "left" then false
              else old(confirmationDomObserved)
    {
      requests := requests + [r];
      assert requests[..|requests| - 1] == old(requests);
      found := true;
      if !r.post && task == Search && r.step == "start" {
      } else if !r.post && r.step == "results" && task == Search {
        searchValid := r.fields == ExpectedSearch(values);
      } else if !r.post && r.step == "item" && task == Search && searchValid {
      } else if !r.post && task == Form && r.step == "start" {
      } else if !r.post && task == Form && r.step == "request" {
      } else if r.post && r.step == "submit" && task == Form {
        formValid := r.fields == ExpectedForm(values);
      } else if !r.post && r.step in PAGES {
      } else if !r.post && r.step == "receipt" && (task == Navigation || searchValid || formValid) {
        receiptPageServed := true;
      } else if r.post && r.step == "left" {
        confirmationDomObserved := false;
      } else if r.post && r.step == "visible" {
        confirmationDomObserved := true;
      } else {
        found := false;
      }
    }

    /** server_outcome. */
    method ServerOutcome() returns (success: bool)
      requires Valid()
      ensures success <==> Outcome(task, values, requests)
    {
      var expected := RouteOf(task);
      var cursor := 0;
      for n := 0 to |requests|
        invariant cursor <= |expected| && cursor == Greedy(expected, StepsOf(requests[..n]))
      {
        assert StepsOf(requests[..n + 1]) == StepsOf(requests[..n]) + [requests[n].step] by {
          StepsAppend(requests[..n], requests[n]);
          assert requests[..n + 1] == requests[..n] + [requests[n]];
        }
        GreedyAppend(expected, StepsOf(requests[..n]), requests[n].step);
        if cursor < |expected| && requests[n].step == expected[cursor] {
          cursor := cursor + 1;
        }
      }
      assert requests[..|requests|] == requests;
      GreedyMatchesIff(expected, StepsOf(requests));
      var validFields := task == Navigation || (task == Search && searchValid) || (task == Form && formValid);
      success := cursor == |expected| && receiptPageServed && validFields;
    }
  }

  // ---------- the verdict ----------

  function RouteOf(task: Task): seq<string> {
    match task
    case Navigation => ["start", "guides", "browser", "navigation", "receipt"]
    case Search => ["start", "results", "item", "navigation", "receipt"]
    case Form => ["start", "request", "submit", "receipt"]
  }

  function StepsOf(h: seq<HttpRequest>): seq<string> {
    seq(|h|, i requires 0 <= i < |h| => h[i].step)
  }

  lemma StepsAppend(h: seq<HttpRequest>, r: HttpRequest)
    ensures StepsOf(h + [r]) == StepsOf(h) + [r.step]
  {
  }

  /** Strictly increasing positions at which steps reads route. */
  ghost predicate Embeds(route: seq<string>, steps: seq<string>, at: seq<nat>) {
    && |at| == |route|
    && (forall k :: 0 <= k < |at| ==> at[k] < |steps| && steps[at[k]] == route[k])
    && (forall k, l :: 0 <= k < l < |at| ==> at[k] < at[l])
  }

  ghost predicate IsSubsequence(route: seq<string>, steps: seq<string>) {
    exists at :: Embeds(route, steps, at)
  }

  /** Success: the route was walked in order, the receipt page was served, and the last submission was right. */
  ghost predicate Outcome(task: Task, values: seq<string>, h: seq<HttpRequest>)
    requires FitsTask(task, values)
  {
    && IsSubsequence(RouteOf(task), StepsOf(h))
    && ReceiptServed(task, values, h)
    && MayServeReceipt(task, values, h)
  }

  // The cursor after all steps.
  function Greedy(route: seq<string>, steps: seq<string>): (c: nat)
    ensures c <= |route|
  {
    if steps == [] then 0
    else
      var c := Greedy(route, steps[..|steps| - 1]);
      if c < |route| && steps[|steps| - 1] == route[c] then c + 1 else c
  }

  lemma GreedyAppend(route: seq<string>, steps: seq<string>, s: string)
    ensures Greedy(route, steps + [s]) ==
            var c := Greedy(route, steps); if c < |route| && s == route[c] then c + 1 else c
  {
    assert (steps + [s])[..|steps|] == steps;
  }

  // What the cursor has passed is a subsequence.
  lemma {:induction false} GreedyEmbeds(route: seq<string>, steps: seq<string>) returns (at: seq<nat>)
    ensures Embeds(route[..Greedy(route, steps)], steps, at)
    decreases |steps|
  {
    if steps == [] {
      at := [];
    } else {
      var front := steps[..|steps| - 1];
      at := GreedyEmbeds(route, front);
      if Greedy(route, steps) > Greedy(route, front) {
        at := at + [|steps| - 1];
      }
    }
  }

  // No subsequence gets further than the cursor.
  lemma {:induction false} GreedyIsFurthest(route: seq<string>, steps: seq<string>, m: nat, at: seq<nat>)
    requires m <= |route| && Embeds(route[..m], steps, at)
    ensures m <= Greedy(route, steps)
    decreases |steps|
  {
    if m > 0 {
      assert at[m - 1] < |steps|;
      var front := steps[..|steps| - 1];
      if at[m - 1] == |steps| - 1 {
        assert Embeds(route[..m - 1], front, at[..m - 1]);
        GreedyIsFurthest(route, front, m - 1, at[..m - 1]);
        assert steps[|steps| - 1] == route[..m][m - 1];
      } else {
        assert Embeds(route[..m], front, at);
        GreedyIsFurthest(route, front, m, at);
      }
    }
  }

  /** A single greedy cursor reaches the end of the route exactly when the route is a subsequence of the steps. */
  lemma GreedyMatchesIff(route: seq<string>, steps: seq<string>)
    ensures Greedy(route, steps) == |route| <==> IsSubsequence(route, steps)
  {
    assert route[..|route|] == route;
    if Greedy(route, steps) == |route| {
      var at := GreedyEmbeds(route, steps);
    }
    if IsSubsequence(route, steps) {
      var at :| Embeds(route, steps, at);
      GreedyIsFurthest(route, steps, |route|, at);
    }
  }

  // ---------- the three routes ----------

  predicate ReadAt4(steps: seq<string>, a: string, b: string, c: string, d: string,
                    i: int, j: int, k: int, l: int)
  {
    0 <= i < j < k < l < |steps| && steps[i] == a && steps[j] == b && steps[k] == c && steps[l] == d
  }

  // The steps occur in this order, with any others in between.
  ghost predicate InOrder4(steps: seq<string>, a: string, b: string, c: string, d: string) {
    exists i, j, k, l :: ReadAt4(steps, a, b, c, d, i, j, k, l)
  }

  lemma FourStepsAt(steps: seq<string>, a: string, b: string, c: string, d: string, at: seq<nat>)
    requires Embeds([a, b, c, d], steps, at)
    ensures InOrder4(steps, a, b, c, d)
  {
    assert ReadAt4(steps, a, b, c, d, at[0], at[1], at[2], at[3]);
  }

  lemma EmbedsAt4(steps: seq<string>, a: string, b: string, c: string, d: string,
                  i: int, j: int, k: int, l: int)
    requires ReadAt4(steps, a, b, c, d, i, j, k, l)
    ensures IsSubsequence([a, b, c, d], steps)
  {
    assert Embeds([a, b, c, d], steps, [i, j, k, l]);
  }

  lemma FourSteps(steps: seq<string>, a: string, b: string, c: string, d: string)
    ensures IsSubsequence([a, b, c, d], steps) <==> InOrder4(steps, a, b, c, d)
  {
    hide Embeds, ReadAt4;
    if IsSubsequence([a, b, c, d], steps) {
      var at :| Embeds([a, b, c, d], steps, at);
      FourStepsAt(steps, a, b, c, d, at);
    }
    if InOrder4(steps, a, b, c, d) {
      var i, j, k, l :| ReadAt4(steps, a, b, c, d, i, j, k, l);
      EmbedsAt4(steps, a, b, c, d, i, j, k, l);
    }
  }

  predicate ReadAt5(steps: seq<string>, a: string, b: string, c: string, d: string, e: string,
                    i: int, j: int, k: int, l: int, m: int)
  {
    0 <= i < j < k < l < m < |steps| && steps[i] == a && steps[j] == b && steps[k] == c && steps[l] == d
      && steps[m] == e
  }

  // The steps occur in this order, with any others in between.
  ghost predicate InOrder5(steps: seq<string>, a: string, b: string, c: string, d: string, e: string) {
    exists i, j, k, l, m :: ReadAt5(steps, a, b, c, d, e, i, j, k, l, m)
  }

  lemma FiveStepsAt(steps: seq<string>, a: string, b: string, c: string, d: string, e: string, at: seq<nat>)
    requires Embeds([a, b, c, d, e], steps, at)
    ensures InOrder5(steps, a, b, c, d, e)
  {
    assert ReadAt5(steps, a, b, c, d, e, at[0], at[1], at[2], at[3], at[4]);
  }

  lemma EmbedsAt5(steps: seq<string>, a: string, b: string, c: string, d: string, e: string,
                  i: int, j: int, k: int, l: int, m: int)
    requires ReadAt5(steps, a, b, c, d, e, i, j, k, l, m)
    ensures IsSubsequence([a, b, c, d, e], steps)
  {
    assert Embeds([a, b, c, d, e], steps, [i, j, k, l, m]);
  }

  lemma FiveSteps(steps: seq<string>, a: string, b: string, c: string, d: string, e: string)
    ensures IsSubsequence([a, b, c, d, e], steps) <==> InOrder5(steps, a, b, c, d, e)
  {
    hide Embeds, ReadAt5;
    if IsSubsequence([a, b, c, d, e], steps) {
      var at :| Embeds([a, b, c, d, e], steps, at);
      FiveStepsAt(steps, a, b, c, d, e, at);
    }
    if InOrder5(steps, a, b, c, d, e) {
      var i, j, k, l, m :| ReadAt5(steps, a, b, c, d, e, i, j, k, l, m);
      EmbedsAt5(steps, a, b, c, d, e, i, j, k, l, m);
    }
  }

  /** The steps a trial must show in this order. */
  lemma RoutesAre(steps: seq<string>)
    ensures IsSubsequence(RouteOf(Navigation), steps) <==>
            InOrder5(steps, "start", "guides", "browser", "navigation", "receipt")
    ensures IsSubsequence(RouteOf(Search), steps) <==>
            InOrder5(steps, "start", "results", "item", "navigation", "receipt")
    ensures IsSubsequence(RouteOf(Form), steps) <==> InOrder4(steps, "start", "request", "submit", "receipt")
  {
    hide IsSubsequence, InOrder4, InOrder5;
    FiveSteps(steps, "start", "guides", "browser", "navigation", "receipt");
    FiveSteps(steps, "start", "results", "item", "navigation", "receipt");
    FourSteps(steps, "start", "request", "submit", "receipt");
  }

  // ---------- what a served receipt proves ----------

  // The j-th request is a correct submission and no later one before the k-th request replaces it.
  ghost predicate StandsUntil(task: Task, values: seq<string>, h: seq<HttpRequest>, j: int, k: int)
    requires FitsTask(task, values)
  {
    && 0 <= j < k <= |h|
    && IsSubmission(task, h[j]) && IsCorrect(task, values, h[j])
    && forall l :: j < l < k ==> !IsSubmission(task, h[l])
  }

  lemma {:induction false} LastSubmissionIff(task: Task, values: seq<string>, h: seq<HttpRequest>, k: nat)
    requires FitsTask(task, values) && k <= |h|
    ensures LastSubmissionCorrect(task, values, h[..k]) <==> exists j :: StandsUntil(task, values, h, j, k)
    decreases k
  {
    if k > 0 {
      assert h[..k][..k - 1] == h[..k - 1];
      if IsSubmission(task, h[k - 1]) {
        assert IsCorrect(task, values, h[k - 1]) ==> StandsUntil(task, values, h, k - 1, k);
      } else {
        var before := k - 1;
        LastSubmissionIff(task, values, h, before);
        if j :| StandsUntil(task, values, h, j, k) {
          assert StandsUntil(task, values, h, j, before);
        }
        if j :| StandsUntil(task, values, h, j, before) {
          assert StandsUntil(task, values, h, j, k);
        }
      }
    }
  }

  ghost predicate ServedAt(task: Task, values: seq<string>, h: seq<HttpRequest>, i: int)
    requires FitsTask(task, values)
  {
    && 0 <= i < |h| && AsksForReceipt(h[i])
    && (task == Navigation || exists j :: StandsUntil(task, values, h, j, i))
  }

  /**
   In every reachable state the receipt page was served exactly when some request asked for it at a moment when
   the trial was a navigation, or the submission standing at that moment had exactly the expected fields.
   */
  lemma {:induction false} ReceiptServedIff(task: Task, values: seq<string>, h: seq<HttpRequest>, n: nat)
    requires FitsTask(task, values) && n <= |h|
    ensures ReceiptServed(task, values, h[..n]) <==> exists i :: i < n && ServedAt(task, values, h, i)
    decreases n
  {
    hide LastSubmissionCorrect, StandsUntil;
    if n > 0 {
      var k := n - 1;
      assert h[..n][..k] == h[..k] && h[..n][k] == h[k];
      ReceiptServedIff(task, values, h, k);
      LastSubmissionIff(task, values, h, k);
      assert ServedAt(task, values, h, k) <==> AsksForReceipt(h[k]) && MayServeReceipt(task, values, h[..k]);
    }
  }

  /** A successful search or form trial walked its route, and got its receipt for a submission that was correct. */
  lemma SuccessMeansCorrectSubmission(task: Task, values: seq<string>, h: seq<HttpRequest>)
    requires FitsTask(task, values) && task != Navigation
    ensures Outcome(task, values, h) <==>
            && IsSubsequence(RouteOf(task), StepsOf(h))
            && (exists i :: i < |h| && ServedAt(task, values, h, i))
            && (exists j :: StandsUntil(task, values, h, j, |h|))
  {
    hide LastSubmissionCorrect, StandsUntil, IsSubsequence, ServedAt, ReceiptServed;
    assert h[..|h|] == h;
    ReceiptServedIff(task, values, h, |h|);
    LastSubmissionIff(task, values, h, |h|);
  }

  // ---------- which steps of the route were answered ----------

  // The steps that get a page only while a correct submission stands.
  predicate NeedsSubmission(task: Task, step: string) {
    task != Navigation && (step == "receipt" || (task == Search && step == "item"))
  }

  predicate RightMethod(task: Task, r: HttpRequest) {
    r.post <==> task == Form && r.step == "submit"
  }

  lemma RouteStepAnsweredIff(task: Task, values: seq<string>, h: seq<HttpRequest>, i: nat)
    requires FitsTask(task, values) && i < |h| && h[i].step in RouteOf(task)
    ensures IsAnswered(task, values, h[..i], h[i]) <==>
            && RightMethod(task, h[i])
            && (NeedsSubmission(task, h[i].step) ==> exists j :: StandsUntil(task, values, h, j, i))
  {
    hide LastSubmissionCorrect, StandsUntil;
    LastSubmissionIff(task, values, h, i);
  }

  ghost predicate WalkAnswered(task: Task, values: seq<string>, h: seq<HttpRequest>, at: seq<nat>)
    requires FitsTask(task, values) && Embeds(RouteOf(task), StepsOf(h), at)
  {
    forall k :: 0 <= k < |at| ==> IsAnswered(task, values, h[..at[k]], h[at[k]])
  }

  /**
   Every step of a walk got its page exactly when each was asked for with the method of its route, and a correct
   submission stood at the item page and at the receipt. The verdict asks for neither: it reads step names only.
   */
  lemma WalkAnsweredIff(task: Task, values: seq<string>, h: seq<HttpRequest>, at: seq<nat>)
    requires FitsTask(task, values) && Embeds(RouteOf(task), StepsOf(h), at)
    ensures WalkAnswered(task, values, h, at) <==>
            forall k :: 0 <= k < |at| ==>
              && RightMethod(task, h[at[k]])
              && (NeedsSubmission(task, RouteOf(task)[k]) ==> exists j :: StandsUntil(task, values, h, j, at[k]))
  {
    hide LastSubmissionCorrect, StandsUntil, IsAnswered, RightMethod, NeedsSubmission, RouteOf;
    forall k | 0 <= k < |at|
      ensures h[at[k]].step == RouteOf(task)[k]
      ensures IsAnswered(task, values, h[..at[k]], h[at[k]]) <==>
              && RightMethod(task, h[at[k]])
              && (NeedsSubmission(task, RouteOf(task)[k]) ==> exists j :: StandsUntil(task, values, h, j, at[k]))
    {
      assert StepsOf(h)[at[k]] == h[at[k]].step;
      RouteStepAnsweredIff(task, values, h, at[k]);
    }
  }

  // The steps of the requests that got a page, in order.
  function AnsweredSteps(task: Task, values: seq<string>, h: seq<HttpRequest>): seq<string>
    requires FitsTask(task, values)
  {
    if h == [] then []
    else
      var front, last := h[..|h| - 1], h[|h| - 1];
      AnsweredSteps(task, values, front) + if IsAnswered(task, values, front, last) then [last.step] else []
  }

  // Increasing positions at which answered requests read the route.
  ghost predicate AnsweredAlong(route: seq<string>, task: Task, values: seq<string>, h: seq<HttpRequest>, at: seq<nat>)
    requires FitsTask(task, values)
  {
    && Embeds(route, StepsOf(h), at)
    && forall k :: 0 <= k < |at| ==> at[k] < |h| && IsAnswered(task, values, h[..at[k]], h[at[k]])
  }

  // A walk along the front of a history is one along the whole of it, and the other way round if it ends in the front.
  lemma AlongFront(route: seq<string>, task: Task, values: seq<string>, h: seq<HttpRequest>, at: seq<nat>)
    requires FitsTask(task, values) && h != [] && (forall k :: 0 <= k < |at| ==> at[k] < |h| - 1)
    ensures AnsweredAlong(route, task, values, h[..|h| - 1], at) <==> AnsweredAlong(route, task, values, h, at)
  {
    hide IsAnswered;
    var front := h[..|h| - 1];
    forall k | 0 <= k < |at|
      ensures front[..at[k]] == h[..at[k]] && front[at[k]] == h[at[k]]
      ensures StepsOf(front)[at[k]] == StepsOf(h)[at[k]]
    {
    }
  }

  lemma AlongOneMore(route: seq<string>, task: Task, values: seq<string>, h: seq<HttpRequest>, at: seq<nat>, m: nat)
    requires FitsTask(task, values) && h != [] && 0 < m <= |route| && |at| == m
    requires at[m - 1] == |h| - 1 && forall k :: 0 <= k < m - 1 ==> at[k] < |h| - 1
    ensures AnsweredAlong(route[..m], task, values, h, at) <==>
            && AnsweredAlong(route[..m - 1], task, values, h[..|h| - 1], at[..m - 1])
            && h[|h| - 1].step == route[m - 1]
            && IsAnswered(task, values, h[..|h| - 1], h[|h| - 1])
  {
    hide IsAnswered;
    AlongFront(route[..m - 1], task, values, h, at[..m - 1]);
    assert forall k :: 0 <= k < m - 1 ==> at[..m - 1][k] == at[k] && route[..m - 1][k] == route[..m][k];
    assert route[..m][m - 1] == route[m - 1] && StepsOf(h)[|h| - 1] == h[|h| - 1].step;
  }

  lemma AnsweredStepsOf(route: seq<string>, task: Task, values: seq<string>, h: seq<HttpRequest>)
    requires FitsTask(task, values) && h != []
    ensures var front, last := h[..|h| - 1], h[|h| - 1];
            var c := Greedy(route, AnsweredSteps(task, values, front));
            Greedy(route, AnsweredSteps(task, values, h)) ==
              if IsAnswered(task, values, front, last) && c < |route| && last.step == route[c] then c + 1 else c
  {
    hide IsAnswered;
    var front := AnsweredSteps(task, values, h[..|h| - 1]);
    GreedyAppend(route, front, h[|h| - 1].step);
    assert front + [] == front;
  }

  // What the cursor over the answered steps has passed was walked.
  lemma {:induction false} AnsweredGreedyWalks(route: seq<string>, task: Task, values: seq<string>, h: seq<HttpRequest>)
    returns (at: seq<nat>)
    requires FitsTask(task, values)
    ensures AnsweredAlong(route[..Greedy(route, AnsweredSteps(task, values, h))], task, values, h, at)
    decreases |h|
  {
    hide IsAnswered, Greedy, AnsweredAlong;
    if h == [] {
      at := [];
      NoStepsWalked(route, task, values);
    } else {
      var front := h[..|h| - 1];
      var c := Greedy(route, AnsweredSteps(task, values, front));
      at := AnsweredGreedyWalks(route, task, values, front);
      AlongBounds(route[..c], task, values, front, at);
      AnsweredStepsOf(route, task, values, h);
      if Greedy(route, AnsweredSteps(task, values, h)) > c {
        assert (at + [|h| - 1])[..c] == at;
        AlongOneMore(route, task, values, h, at + [|h| - 1], c + 1);
        at := at + [|h| - 1];
      } else {
        AlongFront(route[..c], task, values, h, at);
      }
    }
  }

  lemma NoStepsWalked(route: seq<string>, task: Task, values: seq<string>)
    requires FitsTask(task, values)
    ensures Greedy(route, AnsweredSteps(task, values, [])) == 0 && AnsweredAlong(route[..0], task, values, [], [])
  {
  }

  lemma AlongBounds(route: seq<string>, task: Task, values: seq<string>, h: seq<HttpRequest>, at: seq<nat>)
    requires FitsTask(task, values) && AnsweredAlong(route, task, values, h, at)
    ensures |at| == |route| && (forall k :: 0 <= k < |at| ==> at[k] < |h|)
    ensures forall k, l :: 0 <= k < l < |at| ==> at[k] < at[l]
  {
  }

  // No answered walk gets further than that cursor.
  lemma {:induction false} AnsweredGreedyIsFurthest(route: seq<string>, task: Task, values: seq<string>,
                                                   h: seq<HttpRequest>, m: nat, at: seq<nat>)
    requires FitsTask(task, values) && m <= |route| && AnsweredAlong(route[..m], task, values, h, at)
    ensures m <= Greedy(route, AnsweredSteps(task, values, h))
    decreases |h|
  {
    hide IsAnswered, Greedy, AnsweredAlong;
    AlongBounds(route[..m], task, values, h, at);
    if m > 0 {
      assert at[m - 1] < |h|;
      var front := h[..|h| - 1];
      AnsweredStepsOf(route, task, values, h);
      if at[m - 1] == |h| - 1 {
        AlongOneMore(route, task, values, h, at, m);
        AnsweredGreedyIsFurthest(route, task, values, front, m - 1, at[..m - 1]);
      } else {
        AlongFront(route[..m], task, values, h, at);
        AnsweredGreedyIsFurthest(route, task, values, front, m, at);
      }
    }
  }

  ghost predicate SomeWalkAnswered(task: Task, values: seq<string>, h: seq<HttpRequest>)
    requires FitsTask(task, values)
  {
    exists at :: Embeds(RouteOf(task), StepsOf(h), at) && WalkAnswered(task, values, h, at)
  }

  /**
   For a whole history: some walk of the route was answered at every step exactly when the verdict's own cursor, run
   over the answered requests only, reaches the end.
   */
  lemma SomeWalkAnsweredIff(task: Task, values: seq<string>, h: seq<HttpRequest>)
    requires FitsTask(task, values)
    ensures SomeWalkAnswered(task, values, h) <==>
            Greedy(RouteOf(task), AnsweredSteps(task, values, h)) == |RouteOf(task)|
  {
    hide IsAnswered, Greedy, AnsweredSteps, RouteOf, Embeds;
    var route := RouteOf(task);
    assert route[..|route|] == route;
    if SomeWalkAnswered(task, values, h) {
      var at :| Embeds(route, StepsOf(h), at) && WalkAnswered(task, values, h, at);
      WalkIsAlong(task, values, h, at);
      AnsweredGreedyIsFurthest(route, task, values, h, |route|, at);
    }
    if Greedy(route, AnsweredSteps(task, values, h)) == |route| {
      var at := AnsweredGreedyWalks(route, task, values, h);
      assert WalkAnswered(task, values, h, at);
    }
  }

  lemma WalkIsAlong(task: Task, values: seq<string>, h: seq<HttpRequest>, at: seq<nat>)
    requires FitsTask(task, values) && Embeds(RouteOf(task), StepsOf(h), at) && WalkAnswered(task, values, h, at)
    ensures AnsweredAlong(RouteOf(task), task, values, h, at)
  {
    hide IsAnswered, RouteOf;
  }

  /** The verdict refuses no trial that walked its route on answered requests and has its submission still standing. */
  lemma AnsweredWalkSucceeds(task: Task, values: seq<string>, h: seq<HttpRequest>)
    requires FitsTask(task, values) && SomeWalkAnswered(task, values, h) && MayServeReceipt(task, values, h)
    ensures Outcome(task, values, h)
  {
    hide LastSubmissionCorrect, StandsUntil, ReceiptServed, Embeds;
    var at :| Embeds(RouteOf(task), StepsOf(h), at) && WalkAnswered(task, values, h, at);
    LastOfWalk(task, values, h, at);
    var i := at[|at| - 1];
    ReceiptAnswered(task, values, h, i);
    assert ServedAt(task, values, h, i);
    ReceiptServedIff(task, values, h, |h|);
    assert h[..|h|] == h;
  }

  lemma LastOfWalk(task: Task, values: seq<string>, h: seq<HttpRequest>, at: seq<nat>)
    requires FitsTask(task, values) && Embeds(RouteOf(task), StepsOf(h), at) && WalkAnswered(task, values, h, at)
    ensures at != [] && at[|at| - 1] < |h| && h[at[|at| - 1]].step == "receipt"
    ensures IsAnswered(task, values, h[..at[|at| - 1]], h[at[|at| - 1]])
  {
    hide IsAnswered;
    assert RouteOf(task)[|RouteOf(task)| - 1] == "receipt";
    assert StepsOf(h)[at[|at| - 1]] == h[at[|at| - 1]].step;
  }

  lemma ReceiptAnswered(task: Task, values: seq<string>, h: seq<HttpRequest>, i: nat)
    requires FitsTask(task, values) && i < |h| && h[i].step == "receipt"
    requires IsAnswered(task, values, h[..i], h[i])
    ensures ServedAt(task, values, h, i)
  {
    hide StandsUntil, LastSubmissionCorrect;
    assert "receipt" in RouteOf(task);
    RouteStepAnsweredIff(task, values, h, i);
  }

  // A search trial that asks for the item before it has sent the right fields, and never again.
  function LateSearch(values: seq<string>): seq<HttpRequest>
    requires |values| >= 2
  {
    var get := (step: string) => HttpRequest(false, step, map[]);
    [get("start"), get("results"), get("item"), get("navigation"), get("receipt"),
     HttpRequest(false, "results", ExpectedSearch(values)), get("receipt")]
  }

  /** Such a run is a success, though no item page was ever served and so no walk of its route was answered. */
  lemma SuccessWithoutItemPage(values: seq<string>)
    requires |values| >= 2
    ensures Outcome(Search, values, LateSearch(values))
    ensures forall at :: Embeds(RouteOf(Search), StepsOf(LateSearch(values)), at) ==>
                         !WalkAnswered(Search, values, LateSearch(values), at)
  {
    hide LastSubmissionCorrect, ReceiptServed, IsAnswered, WalkAnswered, Outcome;
    var h := LateSearch(values);
    assert Embeds(RouteOf(Search), StepsOf(h), [0, 1, 2, 3, 6]);
    assert StandsUntil(Search, values, h, 5, 6) && StandsUntil(Search, values, h, 5, 7);
    assert ServedAt(Search, values, h, 6);
    SuccessMeansCorrectSubmission(Search, values, h);
    forall at | Embeds(RouteOf(Search), StepsOf(h), at)
      ensures !WalkAnswered(Search, values, h, at)
    {
      OnlyItemRequest(values, at[2]);
      NoItemPage(values);
      WalkNeedsStep(Search, values, h, at, 2);
    }
  }

  lemma OnlyItemRequest(values: seq<string>, i: nat)
    requires |values| >= 2 && i < |LateSearch(values)| && LateSearch(values)[i].step == "item"
    ensures i == 2
  {
    assert "item"[0] == 'i';
  }

  lemma NoItemPage(values: seq<string>)
    requires |values| >= 2
    ensures !IsAnswered(Search, values, LateSearch(values)[..2], LateSearch(values)[2])
  {
    hide LastSubmissionCorrect, IsAnswered;
    var h := LateSearch(values);
    assert "q" in ExpectedSearch(values) && "q" !in h[1].fields;
    assert h[2].step == "item" && "item" in RouteOf(Search);
    RouteStepAnsweredIff(Search, values, h, 2);
  }

  lemma WalkNeedsStep(task: Task, values: seq<string>, h: seq<HttpRequest>, at: seq<nat>, k: nat)
    requires FitsTask(task, values) && Embeds(RouteOf(task), StepsOf(h), at) && k < |at|
    requires !IsAnswered(task, values, h[..at[k]], h[at[k]])
    ensures !WalkAnswered(task, values, h, at)
  {
    hide IsAnswered;
  }

  /** The receipt page's two signals are always taken, by POST only; no other POST is, but the form's own. */
  lemma PostsAnsweredIff(task: Task, values: seq<string>, h: seq<HttpRequest>, step: string, fields: Fields)
    requires FitsTask(task, values)
    ensures IsAnswered(task, values, h, HttpRequest(true, step, fields)) <==>
            step in {"left", "visible"} || (task == Form && step == "submit")
    ensures step in {"left", "visible"} ==> !IsAnswered(task, values, h, HttpRequest(false, step, fields))
  {
    hide LastSubmissionCorrect;
    assert "left"[0] == 'l' && "visible"[0] == 'v' && "start"[0] == 's' && "guides"[0] == 'g' && "browser"[0] == 'b';
    assert "navigation"[0] == 'n' && "results"[0] == 'r' && "item"[0] == 'i' && "request"[0] == 'r';
    assert "receipt"[0] == 'r';
  }

  // ---------- the ordinary trials ----------

  function Get(step: string, fields: Fields): HttpRequest {
    HttpRequest(false, step, fields)
  }

  lemma WalkSucceeds(task: Task, values: seq<string>, h: seq<HttpRequest>, j: int)
    requires FitsTask(task, values) && StepsOf(h) == RouteOf(task)
    requires forall k :: 0 <= k < |h| ==> RightMethod(task, h[k])
    requires task != Navigation ==> StandsUntil(task, values, h, j, |h|)
    requires task != Navigation ==> forall k :: 0 <= k < |h| && NeedsSubmission(task, h[k].step) ==> j < k
    ensures Outcome(task, values, h) && SomeWalkAnswered(task, values, h)
  {
    hide LastSubmissionCorrect, RouteOf, Outcome, IsSubmission, IsCorrect, RightMethod, NeedsSubmission;
    var at := seq(|h|, i requires 0 <= i < |h| => i);
    assert Embeds(RouteOf(task), StepsOf(h), at);
    forall k | 0 <= k < |at| && NeedsSubmission(task, RouteOf(task)[k])
      ensures exists j :: StandsUntil(task, values, h, j, at[k])
    {
      assert RouteOf(task)[k] == h[k].step;
      if task == Navigation {
        NavigationNeedsNone(h[k].step);
      } else {
        assert StandsUntil(task, values, h, j, at[k]);
      }
    }
    WalkAnsweredIff(task, values, h, at);
    if task != Navigation {
      LastSubmissionIff(task, values, h, |h|);
    }
    assert h[..|h|] == h;
    AnsweredWalkSucceeds(task, values, h);
  }

  lemma NavigationNeedsNone(step: string)
    ensures !NeedsSubmission(Navigation, step)
  {
  }

  /** The navigation trial as it is meant: every page in turn. */
  lemma OrdinaryNavigation(values: seq<string>)
    requires |values| >= 2
    ensures var h := [Get("start", map[]), Get("guides", map[]), Get("browser", map[]), Get("navigation", map[]),
                      Get("receipt", map[])];
            Outcome(Navigation, values, h) && SomeWalkAnswered(Navigation, values, h)
  {
    hide Outcome, SomeWalkAnswered;
    var h := [Get("start", map[]), Get("guides", map[]), Get("browser", map[]), Get("navigation", map[]),
              Get("receipt", map[])];
    assert StepsOf(h) == RouteOf(Navigation);
    WalkSucceeds(Navigation, values, h, 0);
  }

  /** The search trial as it is meant: search, item, its specifications, receipt. */
  lemma OrdinarySearch(values: seq<string>)
    requires |values| >= 2
    ensures var sent: Fields := map["q" := [values[0]], "category" := [values[1]]];
            var h := [Get("start", map[]), Get("results", sent), Get("item", map[]), Get("navigation", map[]),
                      Get("receipt", map[])];
            Outcome(Search, values, h) && SomeWalkAnswered(Search, values, h)
  {
    hide Outcome, SomeWalkAnswered;
    var sent: Fields := map["q" := [values[0]], "category" := [values[1]]];
    var h := [Get("start", map[]), Get("results", sent), Get("item", map[]), Get("navigation", map[]),
              Get("receipt", map[])];
    assert StepsOf(h) == RouteOf(Search);
    assert StandsUntil(Search, values, h, 1, 5);
    WalkSucceeds(Search, values, h, 1);
  }

  /** The form trial as it is meant: the form, filled in as asked and sent, receipt. */
  lemma OrdinaryForm(values: seq<string>)
    requires |values| >= 3
    ensures var sent: Fields := map["name" := [values[0]], "email" := [values[1]], "notes" := [values[2]],
                                    "delivery" := ["pickup"], "confirm" := ["yes"]];
            var h := [Get("start", map[]), Get("request", map[]), HttpRequest(true, "submit", sent),
                      Get("receipt", map[])];
            Outcome(Form, values, h) && SomeWalkAnswered(Form, values, h)
  {
    hide Outcome, SomeWalkAnswered;
    var sent: Fields := map["name" := [values[0]], "email" := [values[1]], "notes" := [values[2]],
                            "delivery" := ["pickup"], "confirm" := ["yes"]];
    var h := [Get("start", map[]), Get("request", map[]), HttpRequest(true, "submit", sent), Get("receipt", map[])];
    assert StepsOf(h) == RouteOf(Form);
    assert StandsUntil(Form, values, h, 2, 4);
    WalkSucceeds(Form, values, h, 2);
  }

  // A navigation trial whose pages are asked for with the wrong method, up to the receipt.
  const POSTED_NAVIGATION := [
    HttpRequest(true, "start", map[]), HttpRequest(true, "guides", map[]), HttpRequest(true, "browser", map[]),
    HttpRequest(true, "navigation", map[]), HttpRequest(false, "receipt", map[])]

  /** Such a run is a success as well: it is the receipt page alone that was served. */
  lemma PostedNavigationSucceeds(values: seq<string>)
    requires |values| >= 2
    ensures Outcome(Navigation, values, POSTED_NAVIGATION)
    ensures !SomeWalkAnswered(Navigation, values, POSTED_NAVIGATION)
  {
    hide ReceiptServed, LastSubmissionCorrect, WalkAnswered, IsAnswered, ServedAt;
    var h := POSTED_NAVIGATION;
    assert h[..|h|] == h;
    assert Embeds(RouteOf(Navigation), StepsOf(h), [0, 1, 2, 3, 4]);
    assert ServedAt(Navigation, values, h, 4) by {
      GetReceiptIsServed(values, h, 4);
    }
    ReceiptServedIff(Navigation, values, h, |h|);
    forall at | Embeds(RouteOf(Navigation), StepsOf(h), at)
      ensures !WalkAnswered(Navigation, values, h, at)
    {
      OnlyStartRequest(at[0]);
      NoStartPage(values);
      WalkNeedsStep(Navigation, values, h, at, 0);
    }
  }

  lemma GetReceiptIsServed(values: seq<string>, h: seq<HttpRequest>, i: nat)
    requires |values| >= 2 && i < |h| && AsksForReceipt(h[i])
    ensures ServedAt(Navigation, values, h, i)
  {
  }

  lemma OnlyStartRequest(i: nat)
    requires i < |POSTED_NAVIGATION| && POSTED_NAVIGATION[i].step == "start"
    ensures i == 0
  {
    assert "start"[0] == 's';
  }

  lemma NoStartPage(values: seq<string>)
    requires |values| >= 2
    ensures !IsAnswered(Navigation, values, POSTED_NAVIGATION[..0], POSTED_NAVIGATION[0])
  {
    hide LastSubmissionCorrect, IsAnswered;
    assert POSTED_NAVIGATION[0].step == RouteOf(Navigation)[0];
    RouteStepAnsweredIff(Navigation, values, POSTED_NAVIGATION, 0);
  }
}
