// The game's state rules (src/App.tsx): the pure list transforms of the
// simulation tick and of answer submission, and the class Game whose fields are
// the component's state and refs and whose methods are its handlers. Timers
// (requestAnimationFrame, setInterval, setTimeout) are not modelled: a tick of
// either timer is a method call.
module App {
  import opened Types
  import opened JsText
  import opened GameUtils

  const INITIAL_LIVES: int := 5
  /** A problem whose y reaches this distance from the top has hit the floor. */
  const GAME_AREA_HEIGHT: real := 600.0
  /** Calls of generateProblem per generation tick, at most. */
  const MAX_ATTEMPTS: nat := 5
  const DEFAULT_SETTINGS: GameSettings := GameSettings(1, [Add], 0.7, 0.03)

  /** The notifications the handlers raise (fire-and-forget toasts). */
  datatype Toast =
    | PleaseEnterNumber
    | Correct
    | TryAgain
    | PleaseSetPlayerName
    | PleaseSelectOperation
    | GameStarted(player: string)
    | GameEnded(finalScore: int)
    | GameOverFinalScore(finalScore: int)

  /** Math.max of two integers. */
  function Max(a: int, b: int): (r: int)
    ensures r >= a && r >= b && (r == a || r == b)
  {
    if a >= b then a else b
  }

  predicate NoDuplicates<T(==)>(s: seq<T>) {
    forall i, j :: 0 <= i < j < |s| ==> s[i] != s[j]
  }

  /** Problem ids strictly increase along the list. */
  predicate IdsIncreasing(ps: seq<Problem>) {
    forall i, j :: 0 <= i < j < |ps| ==> ps[i].id < ps[j].id
  }

  // ---------------------------------------------------------------------------
  // The simulation tick's list transform (the map and filter in gameLoop)

  /** Every problem falls by `speed`; nothing else about it changes. */
  function Advance(ps: seq<Problem>, speed: real): (r: seq<Problem>)
    ensures |r| == |ps|
    ensures forall i :: 0 <= i < |ps| ==> r[i] == ps[i].(y := ps[i].y + speed)
  {
    if ps == [] then [] else [ps[0].(y := ps[0].y + speed)] + Advance(ps[1..], speed)
  }

  /** The problems still above the floor, and whether any reached it (the
      source's lifeLostThisFrame flag). */
  function KeepOnScreen(ps: seq<Problem>): (r: (seq<Problem>, bool))
    ensures |r.0| <= |ps| && (r.1 <==> |r.0| < |ps|)
  {
    if ps == [] then ([], false)
    else
      var rest := KeepOnScreen(ps[1..]);
      if ps[0].y < GAME_AREA_HEIGHT then ([ps[0]] + rest.0, rest.1)
      else (rest.0, true)
  }

  /** The kept problems are exactly those above the floor. */
  lemma {:induction false} KeepOnScreenMembers(ps: seq<Problem>)
    ensures forall p :: p in KeepOnScreen(ps).0 <==> p in ps && p.y < GAME_AREA_HEIGHT
  {
    if ps != [] {
      KeepOnScreenMembers(ps[1..]);
      assert forall p :: p in ps <==> p == ps[0] || p in ps[1..];
    }
  }

  /** A life is lost exactly when some problem reached the floor. */
  lemma {:induction false} KeepOnScreenLosesLife(ps: seq<Problem>)
    ensures KeepOnScreen(ps).1 <==> exists i :: 0 <= i < |ps| && ps[i].y >= GAME_AREA_HEIGHT
  {
    if ps != [] {
      KeepOnScreenLosesLife(ps[1..]);
      if exists i :: 0 <= i < |ps[1..]| && ps[1..][i].y >= GAME_AREA_HEIGHT {
        var i :| 0 <= i < |ps[1..]| && ps[1..][i].y >= GAME_AREA_HEIGHT;
        assert ps[i + 1].y >= GAME_AREA_HEIGHT;
      }
      if exists i :: 0 <= i < |ps| && ps[i].y >= GAME_AREA_HEIGHT {
        var i :| 0 <= i < |ps| && ps[i].y >= GAME_AREA_HEIGHT;
        if i > 0 {
          assert ps[1..][i - 1].y >= GAME_AREA_HEIGHT;
        }
      }
    }
  }

  /** The kept problems stay in their original order: filtering a list is
      filtering its parts. */
  lemma {:induction false} KeepOnScreenAppend(a: seq<Problem>, b: seq<Problem>)
    ensures KeepOnScreen(a + b).0 == KeepOnScreen(a).0 + KeepOnScreen(b).0
  {
    if a == [] {
      assert a + b == b;
    } else {
      assert (a + b)[1..] == a[1..] + b;
      KeepOnScreenAppend(a[1..], b);
    }
  }

  lemma {:induction false} KeepOnScreenKeepsIdOrder(ps: seq<Problem>)
    requires IdsIncreasing(ps)
    ensures IdsIncreasing(KeepOnScreen(ps).0)
  {
    if ps != [] {
      KeepOnScreenKeepsIdOrder(ps[1..]);
      KeepOnScreenMembers(ps[1..]);
      var rest := KeepOnScreen(ps[1..]).0;
      forall p | p in rest ensures ps[0].id < p.id {
        assert p in ps[1..];
      }
    }
  }

  // ---------------------------------------------------------------------------
  // Answer submission's list transform (the first-match filter)

  /** k is the position of the first problem whose answer is `value`. */
  predicate IsFirstMatch(ps: seq<Problem>, value: int, k: int) {
    && 0 <= k < |ps|
    && ps[k].answer == value
    && forall j :: 0 <= j < k ==> ps[j].answer != value
  }

  /** The problems without the first one whose answer is `value`, and whether
      there was one. */
  function RemoveFirstMatch(ps: seq<Problem>, value: int): (r: (seq<Problem>, bool))
    ensures r.1 <==> exists i :: 0 <= i < |ps| && ps[i].answer == value
    ensures r.1 ==> |r.0| == |ps| - 1
    ensures !r.1 ==> r.0 == ps
    ensures forall p :: p in r.0 ==> p in ps
  {
    if ps == [] then ([], false)
    else if ps[0].answer == value then (ps[1..], true)
    else
      var rest := RemoveFirstMatch(ps[1..], value);
      ([ps[0]] + rest.0, rest.1)
  }

  /** Exactly the first match is removed: everything before it and everything
      after it, later problems with the same answer included, stays in order. */
  lemma {:induction false} RemoveFirstMatchRemovesFirst(ps: seq<Problem>, value: int, k: int)
    requires IsFirstMatch(ps, value, k)
    ensures RemoveFirstMatch(ps, value).0 == ps[..k] + ps[k + 1..]
  {
    if k > 0 {
      RemoveFirstMatchRemovesFirst(ps[1..], value, k - 1);
      assert ps[1..][..k - 1] == ps[1..k];
      assert ps[1..][k..] == ps[k + 1..];
      assert [ps[0]] + ps[1..k] == ps[..k];
    }
  }

  lemma {:induction false} RemoveFirstMatchKeepsIdOrder(ps: seq<Problem>, value: int)
    requires IdsIncreasing(ps)
    ensures IdsIncreasing(RemoveFirstMatch(ps, value).0)
  {
    if ps != [] && ps[0].answer != value {
      RemoveFirstMatchKeepsIdOrder(ps[1..], value);
      var rest := RemoveFirstMatch(ps[1..], value).0;
      forall p | p in rest ensures ps[0].id < p.id {
        assert p in ps[1..];
      }
    }
  }

  // ---------------------------------------------------------------------------
  // The generation tick's retry loop, as functions

  /** The outcome each call of generateProblem would have, with ids firstId,
      firstId + 1, ... and the successive draws (AttemptAt states element k). */
  function Attempts(settings: GameSettings, firstId: int, draws: seq<Draws>): (outs: seq<Option<Problem>>)
    requires settings.digits >= 1
    requires forall k :: 0 <= k < |draws| ==> DrawsInRange(draws[k])
    ensures |outs| == |draws|
    decreases |draws|
  {
    if draws == [] then []
    else [GenerateProblem(settings, firstId, draws[0])] + Attempts(settings, firstId + 1, draws[1..])
  }

  /** Try the outcomes in order until one is a problem: the number of calls
      made and the problem made, if any. */
  function FirstSuccess(outs: seq<Option<Problem>>): (r: (nat, Option<Problem>))
    ensures r.0 <= |outs|
    ensures r.1.None? ==> r.0 == |outs| && forall k :: 0 <= k < |outs| ==> outs[k].None?
    ensures r.1.Some? ==> 1 <= r.0 && r.1 == outs[r.0 - 1]
    ensures r.1.Some? ==> forall k :: 0 <= k < r.0 - 1 ==> outs[k].None?
  {
    if outs == [] then (0, None)
    else if outs[0].Some? then (1, outs[0])
    else
      var rest := FirstSuccess(outs[1..]);
      assert forall k :: 1 <= k < |outs| ==> outs[k] == outs[1..][k - 1];
      (rest.0 + 1, rest.1)
  }

  /** The retry loop of a generation tick. */
  function GenerateWithRetry(settings: GameSettings, firstId: int, draws: seq<Draws>): (r: (nat, Option<Problem>))
    requires settings.digits >= 1
    requires forall k :: 0 <= k < |draws| ==> DrawsInRange(draws[k])
  {
    FirstSuccess(Attempts(settings, firstId, draws))
  }

  /** The retry loop calls generateProblem with ids firstId, firstId + 1, ...
      and the successive draws, and stops at the first success: with none it
      makes every call, and otherwise the last call it made is the success. */
  lemma GenerateWithRetryStops(settings: GameSettings, firstId: int, draws: seq<Draws>)
    requires settings.digits >= 1
    requires forall k :: 0 <= k < |draws| ==> DrawsInRange(draws[k])
    ensures var r := GenerateWithRetry(settings, firstId, draws);
      && r.0 <= |draws|
      && (r.1.None? ==> r.0 == |draws|)
      && (r.1.Some? ==> 1 <= r.0 && r.1 == GenerateProblem(settings, firstId + (r.0 - 1), draws[r.0 - 1]))
  {
    var r := GenerateWithRetry(settings, firstId, draws);
    if r.1.Some? {
      AttemptAt(settings, firstId, draws, r.0 - 1, firstId + (r.0 - 1));
    }
  }

  /** Every call the retry loop made before its last one failed, and with no
      success every call failed. */
  lemma GenerateWithRetryFailures(settings: GameSettings, firstId: int, draws: seq<Draws>, k: int)
    requires settings.digits >= 1
    requires forall j :: 0 <= j < |draws| ==> DrawsInRange(draws[j])
    requires 0 <= k < |draws|
    requires var r := GenerateWithRetry(settings, firstId, draws); r.1.None? || k < r.0 - 1
    ensures GenerateProblem(settings, firstId + k, draws[k]).None?
  {
    AttemptAt(settings, firstId, draws, k, firstId + k);
  }

  /** One pass of the retry loop: a success ends it, a failure leaves the rest
      to the remaining outcomes. */
  lemma FirstSuccessStep(outs: seq<Option<Problem>>, done: nat)
    requires done < |outs|
    ensures outs[done].Some? ==> FirstSuccess(outs[done..]) == (1, outs[done])
    ensures outs[done].None? ==>
      var rest := FirstSuccess(outs[done + 1..]);
      FirstSuccess(outs[done..]) == (rest.0 + 1, rest.1)
  {
    assert outs[done..][1..] == outs[done + 1..];
  }

  /** Outcome k is the call made with id firstId + k and the k-th draws. */
  lemma {:induction false} AttemptAt(settings: GameSettings, firstId: int, draws: seq<Draws>, k: int, id: int)
    requires settings.digits >= 1
    requires forall j :: 0 <= j < |draws| ==> DrawsInRange(draws[j])
    requires 0 <= k < |draws| && id == firstId + k
    ensures Attempts(settings, firstId, draws)[k] == GenerateProblem(settings, id, draws[k])
    decreases k
  {
    if k > 0 {
      AttemptAt(settings, firstId + 1, draws[1..], k - 1, id);
    }
  }

  // ---------------------------------------------------------------------------
  // Editing the enabled operations

  /** Array.from(new Set(ops)): every operation once, in order of first occurrence. */
  function Deduplicate(ops: seq<Operation>): (r: seq<Operation>)
    ensures NoDuplicates(r)
    ensures forall o :: o in r <==> o in ops
  {
    if ops == [] then []
    else
      var r := Deduplicate(ops[..|ops| - 1]);
      var last := ops[|ops| - 1];
      if last in r then r else r + [last]
  }

  lemma {:induction false} DeduplicateKeepsDistinct(ops: seq<Operation>)
    requires NoDuplicates(ops)
    ensures Deduplicate(ops) == ops
  {
    if ops != [] {
      DeduplicateKeepsDistinct(ops[..|ops| - 1]);
      assert ops[..|ops| - 1] + [ops[|ops| - 1]] == ops;
    }
  }

  /** Set.prototype.delete on an insertion-ordered set. */
  function Without(ops: seq<Operation>, op: Operation): (r: seq<Operation>)
    ensures forall o :: o in r <==> o in ops && o != op
  {
    if ops == [] then []
    else if ops[0] == op then Without(ops[1..], op)
    else [ops[0]] + Without(ops[1..], op)
  }

  lemma {:induction false} WithoutKeepsDistinct(ops: seq<Operation>, op: Operation)
    requires NoDuplicates(ops)
    ensures NoDuplicates(Without(ops, op))
  {
    if ops != [] {
      WithoutKeepsDistinct(ops[1..], op);
      assert ops[0] !in ops[1..];
    }
  }

  lemma {:induction false} WithoutAbsent(ops: seq<Operation>, op: Operation)
    requires op !in ops
    ensures Without(ops, op) == ops
  {
    if ops != [] {
      WithoutAbsent(ops[1..], op);
    }
  }

  lemma {:induction false} WithoutAt(ops: seq<Operation>, op: Operation, i: int)
    requires NoDuplicates(ops) && 0 <= i < |ops| && ops[i] == op
    ensures Without(ops, op) == ops[..i] + ops[i + 1..]
  {
    if i == 0 {
      WithoutAbsent(ops[1..], op);
    } else {
      WithoutAt(ops[1..], op, i - 1);
      assert [ops[0]] + ops[1..][..i - 1] == ops[..i];
      assert ops[1..][i..] == ops[i + 1..];
    }
  }

  /** handleSingleOperationChange's update: rebuild the list as a set, then add
      the operation when it is checked and delete it when it is not. */
  function ToggleOperation(ops: seq<Operation>, op: Operation, isChecked: bool): (r: seq<Operation>)
    ensures NoDuplicates(r)
    ensures op in r <==> isChecked
    ensures forall o :: o != op ==> (o in r <==> o in ops)
  {
    var distinct := Deduplicate(ops);
    if isChecked then (if op in distinct then distinct else distinct + [op])
    else WithoutKeepsDistinct(distinct, op); Without(distinct, op)
  }

  /** On a duplicate-free list, adding keeps the order and appends a new
      operation at the end; deleting takes out just that operation. */
  lemma ToggleOperationKeepsOrder(ops: seq<Operation>, op: Operation, isChecked: bool)
    requires NoDuplicates(ops)
    ensures isChecked && op in ops ==> ToggleOperation(ops, op, isChecked) == ops
    ensures isChecked && op !in ops ==> ToggleOperation(ops, op, isChecked) == ops + [op]
    ensures !isChecked && op !in ops ==> ToggleOperation(ops, op, isChecked) == ops
    ensures forall i :: 0 <= i < |ops| && ops[i] == op && !isChecked ==>
      ToggleOperation(ops, op, isChecked) == ops[..i] + ops[i + 1..]
  {
    DeduplicateKeepsDistinct(ops);
    if !isChecked {
      if op in ops {
        forall i | 0 <= i < |ops| && ops[i] == op
          ensures ToggleOperation(ops, op, isChecked) == ops[..i] + ops[i + 1..]
        {
          WithoutAt(ops, op, i);
        }
      } else {
        WithoutAbsent(ops, op);
      }
    }
  }

  // ---------------------------------------------------------------------------
  // Problems in play

  /** A problem in play: issued under the id counter, above the floor, and
      showing a non-negative answer its own text evaluates to. */
  predicate InPlay(p: Problem, idBound: int) {
    && 0 <= p.id < idBound
    && p.y < GAME_AREA_HEIGHT
    && ShowsItsAnswer(p)
    && p.answer >= 0
  }

  /** The list of problems in play, oldest first. */
  predicate AllInPlay(ps: seq<Problem>, idBound: int) {
    IdsIncreasing(ps) && forall p :: p in ps ==> InPlay(p, idBound)
  }

  /** A simulation tick keeps the list a list of problems in play. */
  lemma AllInPlayAfterFall(ps: seq<Problem>, speed: real, idBound: int)
    requires AllInPlay(ps, idBound)
    ensures AllInPlay(KeepOnScreen(Advance(ps, speed)).0, idBound)
  {
    var fallen := Advance(ps, speed);
    var kept := KeepOnScreen(fallen).0;
    KeepOnScreenKeepsIdOrder(fallen);
    KeepOnScreenMembers(fallen);
    forall p | p in kept ensures InPlay(p, idBound) {
      var i :| 0 <= i < |fallen| && fallen[i] == p;
      assert InPlay(ps[i], idBound);
    }
  }

  /** Removing an answered problem keeps the list a list of problems in play. */
  lemma AllInPlayAfterRemoval(ps: seq<Problem>, value: int, idBound: int)
    requires AllInPlay(ps, idBound)
    ensures AllInPlay(RemoveFirstMatch(ps, value).0, idBound)
  {
    var rest := RemoveFirstMatch(ps, value).0;
    RemoveFirstMatchKeepsIdOrder(ps, value);
  }

  /** A newly generated problem, with an id at or above every id in play, joins
      the list at its end once the counter has passed it. */
  lemma AllInPlayAfterAppend(ps: seq<Problem>, p: Problem, oldBound: int, newBound: int)
    requires AllInPlay(ps, oldBound)
    requires oldBound <= p.id < newBound && InPlay(p, newBound)
    ensures AllInPlay(ps + [p], newBound)
  {
    var qs := ps + [p];
    forall k | 0 <= k < |ps| ensures qs[k].id < p.id {
      assert qs[k] == ps[k] && ps[k] in ps;
    }
  }

  /** A problem generateProblem makes is in play once the counter has passed
      its id. */
  lemma GeneratedInPlay(settings: GameSettings, id: int, draws: Draws)
    requires settings.digits >= 1 && DrawsInRange(draws) && id >= 0
    requires GenerateProblem(settings, id, draws).Some?
    ensures InPlay(GenerateProblem(settings, id, draws).value, id + 1)
  {
    GeneratedProblemShowsItsAnswer(settings, id, draws);
  }

  lemma AllInPlayWiderBound(ps: seq<Problem>, oldBound: int, newBound: int)
    requires AllInPlay(ps, oldBound) && oldBound <= newBound
    ensures AllInPlay(ps, newBound)
  {
  }

  // ---------------------------------------------------------------------------
  // The game component

  class Game {
    var playerName: string
    var score: int
    var lives: int
    var problems: seq<Problem>
    var currentInput: string
    var status: GameStatus
    var settings: GameSettings
    var problemIdCounter: int
    var currentSpeed: real

    /** What holds between handlers. */
    ghost predicate Valid()
      reads this
    {
      && 0 <= lives <= INITIAL_LIVES
      && score >= 0
      && settings.digits >= 1
      && NoDuplicates(settings.operations)
      && 0.0 < settings.initialSpeed <= currentSpeed
      && settings.speedIncrement >= 0.0
      && (status != Idle ==> playerName != [] && |settings.operations| > 0)
      && problemIdCounter >= 0
      && AllInPlay(problems, problemIdCounter)
    }

    /** The component's first render; `storedName` is the player name kept in
        local storage, or "" when there is none. */
    constructor (storedName: string)
      ensures playerName == storedName && score == 0 && lives == INITIAL_LIVES
      ensures problems == [] && currentInput == [] && status == Idle
      ensures settings == DEFAULT_SETTINGS && problemIdCounter == 0
      ensures currentSpeed == DEFAULT_SETTINGS.initialSpeed
      ensures Valid()
    {
      playerName := storedName;
      score := 0;
      lives := INITIAL_LIVES;
      problems := [];
      currentInput := [];
      status := Idle;
      settings := DEFAULT_SETTINGS;
      problemIdCounter := 0;
      currentSpeed := DEFAULT_SETTINGS.initialSpeed;
    }

    /** One frame of gameLoop: every problem falls by the current speed, those
        that reach the floor are removed, and if any did, one life is lost. */
    method Tick()
      requires Valid() && status == Playing
      modifies this`problems, this`lives
      ensures problems == KeepOnScreen(Advance(old(problems), old(currentSpeed))).0
      ensures lives == if KeepOnScreen(Advance(old(problems), old(currentSpeed))).1
        then Max(0, old(lives) - 1) else old(lives)
      ensures Valid()
    {
      var next := KeepOnScreen(Advance(problems, currentSpeed));
      AllInPlayAfterFall(problems, currentSpeed, problemIdCounter);
      problems := next.0;
      if next.1 {
        lives := Max(0, lives - 1);
      }
    }

    /** One tick of the generation interval: generate a problem, retrying up
        to MAX_ATTEMPTS times, and append the problem made, if any. `draws`
        holds the values Math.random() returns during each call of
        generateProblem. */
    method GenerationTick(draws: seq<Draws>)
      requires Valid() && status == Playing
      requires |draws| == MAX_ATTEMPTS && forall k :: 0 <= k < |draws| ==> DrawsInRange(draws[k])
      modifies this`problemIdCounter, this`problems
      ensures var outcome := GenerateWithRetry(settings, old(problemIdCounter), draws);
        && problemIdCounter == old(problemIdCounter) + outcome.0
        && problems == old(problems) + (if outcome.1.Some? then [outcome.1.value] else [])
      ensures Valid()
    {
      ghost var firstId := problemIdCounter;
      var newProblem := GenerateRetrying(draws);
      AllInPlayWiderBound(problems, firstId, problemIdCounter);
      if newProblem.Some? {
        AllInPlayAfterAppend(problems, newProblem.value, firstId, problemIdCounter);
        problems := problems + [newProblem.value];
      }
    }

    /** The retry loop of a generation tick: call generateProblem with the
        post-incremented id counter until it succeeds, at most MAX_ATTEMPTS
        times. A problem made is in play under the new counter. */
    method GenerateRetrying(draws: seq<Draws>) returns (newProblem: Option<Problem>)
      requires settings.digits >= 1 && problemIdCounter >= 0
      requires |draws| == MAX_ATTEMPTS && forall k :: 0 <= k < |draws| ==> DrawsInRange(draws[k])
      modifies this`problemIdCounter
      ensures var outcome := GenerateWithRetry(settings, old(problemIdCounter), draws);
        problemIdCounter == old(problemIdCounter) + outcome.0 && newProblem == outcome.1
      ensures newProblem.Some? ==>
        old(problemIdCounter) <= newProblem.value.id && InPlay(newProblem.value, problemIdCounter)
    {
      ghost var firstId := problemIdCounter;
      ghost var outs := Attempts(settings, firstId, draws);
      ghost var outcome := FirstSuccess(outs);
      newProblem := None;
      var attempts := 0;
      while newProblem.None? && attempts < MAX_ATTEMPTS
        invariant 0 <= attempts <= MAX_ATTEMPTS
        invariant problemIdCounter == firstId + attempts
        invariant newProblem.None? ==>
          var rest := FirstSuccess(outs[attempts..]);
          outcome == (attempts + rest.0, rest.1)
        invariant newProblem.Some? ==> outcome == (attempts, newProblem)
        invariant newProblem.Some? ==>
          firstId <= newProblem.value.id && InPlay(newProblem.value, problemIdCounter)
      {
        var id := problemIdCounter;
        problemIdCounter := problemIdCounter + 1;
        FirstSuccessStep(outs, attempts);
        AttemptAt(settings, firstId, draws, attempts, id);
        newProblem := GenerateProblem(settings, id, draws[attempts]);
        if newProblem.Some? {
          GeneratedInPlay(settings, id, draws[attempts]);
        }
        attempts := attempts + 1;
      }
    }

    /** The game-over effect: a game in play with no lives left is over, and
        the final score is announced. */
    method CheckGameOver() returns (toast: Option<Toast>)
      requires Valid()
      modifies this`status
      ensures old(status) == Playing && lives <= 0 ==> status == GameOver && toast == Some(GameOverFinalScore(score))
      ensures !(old(status) == Playing && lives <= 0) ==> status == old(status) && toast == None
      ensures Valid()
    {
      toast := None;
      if status == Playing && lives <= 0 {
        status := GameOver;
        toast := Some(GameOverFinalScore(score));
      }
    }

    /** The End Game button, shown only while playing. */
    method EndGame() returns (toast: Option<Toast>)
      requires Valid() && status == Playing
      modifies this`status
      ensures status == GameOver && toast == Some(GameEnded(score))
      ensures Valid()
    {
      status := GameOver;
      toast := Some(GameEnded(score));
    }

    /** resetGame, behind the button shown only once the game is over: back to
        idle, with score, lives and problems left as they were. */
    method ResetGame()
      requires Valid() && status == GameOver
      modifies this`status
      ensures status == Idle
      ensures Valid()
    {
      status := Idle;
    }

    /** startGame, behind the button shown only while idle: refused without a
        player name or an operation; otherwise every session value is reset
        and the game is in play. */
    method StartGame() returns (toast: Option<Toast>)
      requires Valid() && status == Idle
      modifies this`score, this`lives, this`problems, this`currentInput
      modifies this`problemIdCounter, this`currentSpeed, this`status
      ensures playerName == [] ==> unchanged(this) && toast == Some(PleaseSetPlayerName)
      ensures playerName != [] && |settings.operations| == 0 ==>
        unchanged(this) && toast == Some(PleaseSelectOperation)
      ensures playerName != [] && |settings.operations| > 0 ==>
        && score == 0 && lives == INITIAL_LIVES && problems == [] && currentInput == []
        && problemIdCounter == 0 && currentSpeed == settings.initialSpeed
        && status == Playing && toast == Some(GameStarted(playerName))
      ensures Valid()
    {
      if playerName == [] {
        return Some(PleaseSetPlayerName);
      }
      if |settings.operations| == 0 {
        return Some(PleaseSelectOperation);
      }
      score, lives, problems, currentInput := 0, INITIAL_LIVES, [], [];
      problemIdCounter := 0;
      currentSpeed := settings.initialSpeed;
      status := Playing;
      toast := Some(GameStarted(playerName));
    }

    /** handleInputChange: the answer box's text. */
    method SetInput(text: string)
      requires Valid()
      modifies this`currentInput
      ensures Valid() && currentInput == text
    {
      currentInput := text;
    }

    /** handleSubmitAnswer. Outside play, or with blank input, nothing happens.
        Input parseInt cannot read raises a warning and changes nothing.
        Otherwise the first problem with the typed answer is removed; on a
        match the score and the speed go up and the input is cleared, and
        without one everything stays as it was. */
    method SubmitAnswer() returns (toast: Option<Toast>)
      requires Valid()
      modifies this`problems, this`score, this`currentSpeed, this`currentInput
      ensures score >= old(score)
      ensures status != Playing || Trim(old(currentInput)) == [] ==>
        unchanged(this) && toast == None
      ensures status == Playing && Trim(old(currentInput)) != [] && ParseInt(Trim(old(currentInput))).None? ==>
        unchanged(this) && toast == Some(PleaseEnterNumber)
      ensures status == Playing && Trim(old(currentInput)) != [] && ParseInt(Trim(old(currentInput))).Some? ==>
        var removal := RemoveFirstMatch(old(problems), ParseInt(Trim(old(currentInput))).value);
        && problems == removal.0
        && (removal.1 ==>
              && score == old(score) + 1
              && currentSpeed == old(currentSpeed) + settings.speedIncrement
              && currentInput == []
              && toast == Some(Correct))
        && (!removal.1 ==>
              && score == old(score)
              && currentSpeed == old(currentSpeed)
              && currentInput == old(currentInput)
              && toast == Some(TryAgain))
      ensures Valid()
    {
      var input := Trim(currentInput);
      if status != Playing || input == [] {
        return None;
      }
      var answerValue := ParseInt(input);
      if answerValue.None? {
        return Some(PleaseEnterNumber);
      }
      var matched := RemoveAnswered(answerValue.value);
      toast := if matched then Some(Correct) else Some(TryAgain);
    }

    /** The problem-list update of handleSubmitAnswer: remove the first problem
        whose answer is `answerValue`; if there was one, score it, speed the
        fall up and clear the input. */
    method RemoveAnswered(answerValue: int) returns (matched: bool)
      requires Valid()
      modifies this`problems, this`score, this`currentSpeed, this`currentInput
      ensures problems == RemoveFirstMatch(old(problems), answerValue).0
      ensures matched == RemoveFirstMatch(old(problems), answerValue).1
      ensures matched ==>
        && score == old(score) + 1
        && currentSpeed == old(currentSpeed) + settings.speedIncrement
        && currentInput == []
      ensures !matched ==>
        && score == old(score)
        && currentSpeed == old(currentSpeed)
        && currentInput == old(currentInput)
      ensures Valid()
    {
      var removal := RemoveFirstMatch(problems, answerValue);
      AllInPlayAfterRemoval(problems, answerValue, problemIdCounter);
      problems := removal.0;
      matched := removal.1;
      if matched {
        score := score + 1;
        currentSpeed := currentSpeed + settings.speedIncrement;
        currentInput := [];
      }
    }

    /** handleDigitsChange, from the digits box shown only while idle: the
        typed number, at least 1, and 1 when the box holds no number. */
    method SetDigits(valueAsNumber: Option<int>)
      requires Valid() && status == Idle
      modifies this`settings
      ensures valueAsNumber.None? ==> settings.digits == 1
      ensures valueAsNumber.Some? ==> settings.digits == Max(1, valueAsNumber.value)
      ensures settings == old(settings).(digits := settings.digits)
      ensures Valid()
    {
      var newDigits := if valueAsNumber.None? then 1 else Max(1, valueAsNumber.value);
      settings := settings.(digits := newDigits);
    }

    /** handleSingleOperationChange, from the check boxes shown only while idle. */
    method SetOperation(op: Operation, isChecked: bool)
      requires Valid() && status == Idle
      modifies this`settings
      ensures settings == old(settings).(operations := ToggleOperation(old(settings).operations, op, isChecked))
      ensures Valid()
    {
      settings := settings.(operations := ToggleOperation(settings.operations, op, isChecked));
    }
  }

  // ---------------------------------------------------------------------------
  // Scenarios, checked against the contracts above

  /** A finished game, reset and started again with the same player and
      settings, starts over from scratch. */
  method ScenarioRestart(g: Game)
    requires g.Valid() && g.status == GameOver
    modifies g
  {
    g.ResetGame();
    var t := g.StartGame();
    assert t == Some(GameStarted(g.playerName));
    assert g.status == Playing && g.score == 0 && g.lives == INITIAL_LIVES;
    assert g.problems == [] && g.problemIdCounter == 0 && g.currentSpeed == g.settings.initialSpeed;
  }

  /** Typing the answer of the oldest problem in play scores it and removes it. */
  method ScenarioTypedAnswer(g: Game)
    requires g.Valid() && g.status == Playing && g.problems != []
    modifies g
  {
    var p := g.problems[0];
    assert InPlay(p, g.problemIdCounter);
    g.SetInput(Decimal(p.answer));
    assert Trim(g.currentInput) != [] && ParseInt(Trim(g.currentInput)) == Some(p.answer) by {
      TypedNumberIsRead(p.answer);
    }
    var t := g.SubmitAnswer();
    assert t == Some(Correct) && g.problems == old(g.problems)[1..] && g.score == old(g.score) + 1;
  }

  /** A submission while idle changes nothing. */
  method ScenarioIdleSubmission(text: string) {
    var g := new Game("Ada");
    g.SetInput(text);
    var t := g.SubmitAnswer();
    assert t == None && g.problems == [] && g.score == 0;
  }
}
