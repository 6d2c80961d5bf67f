/** How the scoresheet numbers the outs of one half-inning (frontend/reducer.js): plays, runner advances, runner batches
    and strikeouts. Bases, outcomes and the pitch log are left out; an event is its out number, zero when there is none. */
module Outs {
  datatype Side = Away | Home

  /** `col-<inning>-<sub>`. */
  datatype ColId = ColId(inning: int, sub: nat)

  /** A cell of the scoresheet: team, batting row, column. */
  datatype Key = Key(team: Side, row: nat, col: ColId)

  /** One team's cells in the columns of one inning. */
  datatype Half = Half(team: Side, cols: set<ColId>)

  type Numbers = map<Key, nat>

  predicate In(half: Half, key: Key) {
    key.team == half.team && key.col in half.cols
  }

  function Num(numbers: Numbers, key: Key): nat {
    if key in numbers then numbers[key] else 0
  }

  function Min3(n: nat): nat {
    if n < 3 then n else 3
  }

  /** `m` is the highest out number in the half-inning, leaving the cells of `except` out. */
  ghost predicate IsLatest(numbers: Numbers, half: Half, except: set<Key>, m: nat) {
    && (forall key :: In(half, key) && key !in except ==> Num(numbers, key) <= m)
    && (m == 0 || exists key :: In(half, key) && key !in except && Num(numbers, key) == m)
  }

  ghost function MaxOf(numbers: Numbers, keys: set<Key>): (m: nat)
    ensures forall key :: key in keys ==> Num(numbers, key) <= m
    ensures m == 0 || exists key :: key in keys && Num(numbers, key) == m
  {
    if keys == {} then 0
    else
      var key :| key in keys;
      var rest := MaxOf(numbers, keys - {key});
      if Num(numbers, key) < rest then rest else Num(numbers, key)
  }

  ghost function Latest(numbers: Numbers, half: Half, except: set<Key>): (m: nat)
    ensures IsLatest(numbers, half, except, m)
  {
    MaxOf(numbers, set key | key in numbers && In(half, key) && key !in except)
  }

  lemma LatestIs(numbers: Numbers, half: Half, except: set<Key>, m: nat)
    requires IsLatest(numbers, half, except, m)
    ensures Latest(numbers, half, except) == m
  {
  }

  method CalculateInningOutsExclude(numbers: Numbers, half: Half, except: Key) returns (outs: nat)
    ensures outs == Latest(numbers, half, {except})
  {
    outs := 0;
    var keys := numbers.Keys;
    while keys != {}
      invariant keys <= numbers.Keys
      invariant forall key :: key in numbers && key !in keys && In(half, key) && key != except ==> numbers[key] <= outs
      invariant outs == 0 || exists key :: In(half, key) && key !in {except} && Num(numbers, key) == outs
      decreases keys
    {
      var key :| key in keys;
      if In(half, key) && key != except && outs < numbers[key] {
        outs := numbers[key];
      }
      keys := keys - {key};
    }
    LatestIs(numbers, half, {except}, outs);
  }

  /** A runner on base and whether the play retires him. */
  datatype Runner = Runner(key: Key, isOut: bool)

  function Retired(runners: seq<Runner>): (keys: seq<Key>)
    decreases |runners|
  {
    if runners == [] then [] else (if runners[0].isOut then [runners[0].key] else []) + Retired(runners[1..])
  }

  /** Exactly the runners marked out are retired. */
  lemma {:induction false} RetiredIff(runners: seq<Runner>, key: Key)
    ensures key in Retired(runners) <==> exists i :: 0 <= i < |runners| && runners[i].key == key && runners[i].isOut
    decreases |runners|
  {
    if runners != [] {
      RetiredIff(runners[1..], key);
      assert forall i :: 0 <= i < |runners[1..]| ==> runners[1..][i] == runners[i + 1];
      if i :| 0 <= i < |runners| && runners[i].key == key && runners[i].isOut {
        assert i > 0 ==> runners[1..][i - 1] == runners[i];
      }
    }
  }

  /** The runners in the order given: numbered upwards from `start`, or each one past the latest out when there is no
      start. A runner without an event is passed over. */
  ghost function AfterRunners(numbers: Numbers, half: Half, runners: seq<Runner>, start: int): Numbers
    decreases |runners|
  {
    if runners == [] then numbers
    else if !runners[0].isOut || runners[0].key !in numbers then AfterRunners(numbers, half, runners[1..], start)
    else if start > 0 then AfterRunners(numbers[runners[0].key := start], half, runners[1..], start + 1)
    else AfterRunners(numbers[runners[0].key := Min3(Latest(numbers, half, {runners[0].key}) + 1)], half, runners[1..], start)
  }

  method NumberRunners(numbers: Numbers, half: Half, runners: seq<Runner>, start: int) returns (after: Numbers)
    ensures after == AfterRunners(numbers, half, runners, start)
  {
    after := numbers;
    var next := start;
    for i := 0 to |runners|
      invariant AfterRunners(after, half, runners[i..], next) == AfterRunners(numbers, half, runners, start)
    {
      assert runners[i..][1..] == runners[i + 1..];
      var r := runners[i];
      if r.isOut && r.key in after {
        if next > 0 {
          after := after[r.key := next];
          next := next + 1;
        } else {
          var outs := CalculateInningOutsExclude(after, half, r.key);
          after := after[r.key := Min3(outs + 1)];
        }
      }
    }
  }

  datatype Result = Safe | Fly | Line | InfieldFly | Out | OtherResult

  predicate AirOut(result: Result, sacrificeFly: bool) {
    result.Fly? || result.Line? || result.InfieldFly? || (result.Out? && sacrificeFly)
  }

  ghost function AfterPlay(numbers: Numbers, half: Half, batter: Key, result: Result, sacrificeFly: bool, runners: seq<Runner>): Numbers {
    var outs := |Retired(runners)|;
    var before := Latest(numbers, half, {batter});
    var air := AirOut(result, sacrificeFly);
    var own := if result.Safe? then 0 else if air then Min3(before + 1) else Min3(before + 1 + outs);
    AfterRunners(numbers[batter := own], half, runners, if !air && own > 0 && outs > 0 then own - outs else 0)
  }

  method CountRetired(runners: seq<Runner>) returns (n: nat)
    ensures n == |Retired(runners)|
  {
    n := 0;
    for i := |runners| downto 0
      invariant n == |Retired(runners[i..])|
    {
      assert runners[i..][1..] == runners[i + 1..];
      if runners[i].isOut {
        n := n + 1;
      }
    }
    assert runners[0..] == runners;
  }

  method ApplyPlayResult(numbers: Numbers, half: Half, batter: Key, result: Result, sacrificeFly: bool, runners: seq<Runner>)
    returns (after: Numbers)
    ensures after == AfterPlay(numbers, half, batter, result, sacrificeFly, runners)
  {
    var runnerOuts := CountRetired(runners);
    var air := AirOut(result, sacrificeFly);
    var own := 0;
    if !result.Safe? {
      var inningOuts := CalculateInningOutsExclude(numbers, half, batter);
      own := if air then Min3(inningOuts + 1) else Min3(inningOuts + 1 + runnerOuts);
    }
    var start := if !air && own > 0 && runnerOuts > 0 then own - runnerOuts else 0;
    after := NumberRunners(numbers[batter := own], half, runners, start);
  }

  /** The cells of `order`, none of which had a number, got the numbers k+1, k+2, ... in that order; nothing else changed. */
  ghost predicate Numbered(before: Numbers, after: Numbers, k: nat, order: seq<Key>) {
    && (forall i :: 0 <= i < |order| ==> Num(before, order[i]) == 0 && Num(after, order[i]) == k + 1 + i)
    && (forall key :: key !in order ==> Num(after, key) == Num(before, key))
  }

  /** The retired runners are different cells of this half-inning, have events, and were not out before. */
  ghost predicate FreshOuts(numbers: Numbers, half: Half, runners: seq<Runner>)
    decreases |runners|
  {
    runners == [] || (FreshOuts(numbers, half, runners[1..]) && (runners[0].isOut ==> FreshOut(numbers, half, runners)))
  }

  ghost predicate FreshOut(numbers: Numbers, half: Half, runners: seq<Runner>)
    requires runners != []
  {
    var key := runners[0].key;
    In(half, key) && key in numbers && numbers[key] == 0 && key !in Retired(runners[1..])
  }

  lemma {:induction false} StillFresh(numbers: Numbers, half: Half, runners: seq<Runner>, key: Key, n: nat)
    requires FreshOuts(numbers, half, runners) && key !in Retired(runners)
    ensures FreshOuts(numbers[key := n], half, runners)
    decreases |runners|
  {
    if runners != [] {
      StillFresh(numbers, half, runners[1..], key, n);
      if runners[0].isOut {
        assert Retired(runners)[0] == runners[0].key;
      }
    }
  }

  lemma NextLatest(numbers: Numbers, half: Half, key: Key, k: nat)
    requires IsLatest(numbers, half, {}, k) && In(half, key) && Num(numbers, key) == 0
    ensures Latest(numbers, half, {key}) == k
    ensures IsLatest(numbers[key := k + 1], half, {}, k + 1)
  {
    if k > 0 {
      var top :| In(half, top) && top !in {} && Num(numbers, top) == k;
      assert top !in {key};
    }
    LatestIs(numbers, half, {key}, k);
    assert key !in {} && Num(numbers[key := k + 1], key) == k + 1;
  }

  lemma {:induction false} RunnersFromStart(numbers: Numbers, half: Half, runners: seq<Runner>, k: nat)
    requires FreshOuts(numbers, half, runners)
    ensures Numbered(numbers, AfterRunners(numbers, half, runners, k + 1), k, Retired(runners))
    decreases |runners|
  {
    if runners != [] {
      var key := runners[0].key;
      if runners[0].isOut {
        var next := numbers[key := k + 1];
        StillFresh(numbers, half, runners[1..], key, k + 1);
        RunnersFromStart(next, half, runners[1..], k + 1);
        Prepend(numbers, next, AfterRunners(numbers, half, runners, k + 1), k, key, Retired(runners[1..]));
      } else {
        RunnersFromStart(numbers, half, runners[1..], k);
      }
    }
  }

  lemma Prepend(before: Numbers, next: Numbers, after: Numbers, k: nat, key: Key, rest: seq<Key>)
    requires next == before[key := k + 1] && Num(before, key) == 0 && key !in rest
    requires Numbered(next, after, k + 1, rest)
    ensures Numbered(before, after, k, [key] + rest)
  {
    var order := [key] + rest;
    forall i | 0 <= i < |order|
      ensures Num(before, order[i]) == 0 && Num(after, order[i]) == k + 1 + i
    {
      if i > 0 {
        assert order[i] == rest[i - 1];
      }
    }
    forall other | other !in order
      ensures Num(after, other) == Num(before, other)
    {
      assert order[0] == key;
    }
  }

  lemma {:induction false} RunnersInTurn(numbers: Numbers, half: Half, runners: seq<Runner>, start: int, k: nat)
    requires FreshOuts(numbers, half, runners) && IsLatest(numbers, half, {}, k) && start <= 0
    requires k + |Retired(runners)| <= 3
    ensures Numbered(numbers, AfterRunners(numbers, half, runners, start), k, Retired(runners))
    decreases |runners|
  {
    hide IsLatest, Numbered;
    if runners == [] {
      NoneNumbered(numbers, k);
    } else {
      var key := runners[0].key;
      if runners[0].isOut {
        var next := numbers[key := k + 1];
        StillFresh(numbers, half, runners[1..], key, k + 1);
        NextLatest(numbers, half, key, k);
        RunnersInTurn(next, half, runners[1..], start, k + 1);
        Prepend(numbers, next, AfterRunners(numbers, half, runners, start), k, key, Retired(runners[1..]));
      } else {
        assert Retired(runners) == Retired(runners[1..]);
        RunnersInTurn(numbers, half, runners[1..], start, k);
      }
    }
  }

  lemma {:induction false} OthersUntouched(numbers: Numbers, half: Half, runners: seq<Runner>, start: int, key: Key)
    requires key !in Retired(runners)
    ensures Num(AfterRunners(numbers, half, runners, start), key) == Num(numbers, key)
    decreases |runners|
  {
    if runners != [] {
      var first := runners[0].key;
      if !runners[0].isOut || first !in numbers {
        OthersUntouched(numbers, half, runners[1..], start, key);
      } else {
        assert Retired(runners)[0] == first;
        var n := if start > 0 then start else Min3(Latest(numbers, half, {first}) + 1);
        OthersUntouched(numbers[first := n], half, runners[1..], if start > 0 then start + 1 else start, key);
      }
    }
  }

  /** No runner gets a number past three, whatever the map holds. */
  lemma {:induction false} RunnersAreCapped(numbers: Numbers, half: Half, runners: seq<Runner>, start: int, key: Key)
    requires FreshOuts(numbers, half, runners) && key in Retired(runners)
    requires start > 0 ==> start + |Retired(runners)| <= 4
    ensures Num(AfterRunners(numbers, half, runners, start), key) <= 3
    decreases |runners|
  {
    var first := runners[0].key;
    if !runners[0].isOut {
      RunnersAreCapped(numbers, half, runners[1..], start, key);
    } else {
      var n := if start > 0 then start else Min3(Latest(numbers, half, {first}) + 1);
      var next := if start > 0 then start + 1 else start;
      if key == first {
        OthersUntouched(numbers[first := n], half, runners[1..], next, key);
      } else {
        StillFresh(numbers, half, runners[1..], first, n);
        RunnersAreCapped(numbers[first := n], half, runners[1..], next, key);
      }
    }
  }

  /** Who a play retires, in the order of the numbers: the batter first on an air out, last otherwise. */
  function PlayOrder(batter: Key, result: Result, sacrificeFly: bool, runners: seq<Runner>): seq<Key> {
    match result
    case Safe => Retired(runners)
    case Fly => [batter] + Retired(runners)
    case Line => [batter] + Retired(runners)
    case InfieldFly => [batter] + Retired(runners)
    case Out => if sacrificeFly then [batter] + Retired(runners) else Retired(runners) + [batter]
    case OtherResult => Retired(runners) + [batter]
  }

  lemma {:induction false} FreshNotIn(numbers: Numbers, half: Half, runners: seq<Runner>, key: Key)
    requires FreshOuts(numbers, half, runners) && Num(numbers, key) != 0
    ensures key !in Retired(runners)
    decreases |runners|
  {
    if runners != [] {
      FreshNotIn(numbers, half, runners[1..], key);
    }
  }

  lemma Append(before: Numbers, after: Numbers, k: nat, order: seq<Key>, key: Key)
    requires Numbered(before[key := k + 1 + |order|], after, k, order) && Num(before, key) == 0 && key !in order
    ensures Numbered(before, after, k, order + [key])
  {
    var all := order + [key];
    assert forall i :: 0 <= i < |order| ==> all[i] == order[i];
    forall other | other !in all
      ensures Num(after, other) == Num(before, other)
    {
      assert all[|order|] == key;
      assert other !in order;
    }
  }

  /** A play numbers the outs it makes k+1, k+2, ... without gap or repeat, the batter first on an air out and the
      runners first otherwise, whatever else the sheet holds: exactly when the inning does not run past three. */
  lemma PlayNumbersOutsIff(numbers: Numbers, half: Half, batter: Key, result: Result, sacrificeFly: bool, runners: seq<Runner>)
    requires In(half, batter) && batter !in Retired(runners) && FreshOuts(numbers, half, runners)
    ensures var k, order := Latest(numbers, half, {batter}), PlayOrder(batter, result, sacrificeFly, runners);
      var after := AfterPlay(numbers, half, batter, result, sacrificeFly, runners);
      Numbered(numbers[batter := 0], after, k, order) <==> order == [] || k + |order| <= 3
  {
    var k, order := Latest(numbers, half, {batter}), PlayOrder(batter, result, sacrificeFly, runners);
    if order == [] {
    } else if k + |order| <= 3 {
      PlayNumbersOuts(numbers, half, batter, result, sacrificeFly, runners);
    } else {
      PlayIsCapped(numbers, half, batter, result, sacrificeFly, runners);
    }
  }

  lemma SafePlay(numbers: Numbers, half: Half, batter: Key, runners: seq<Runner>)
    requires In(half, batter) && batter !in Retired(runners) && FreshOuts(numbers, half, runners)
    requires Latest(numbers, half, {batter}) + |Retired(runners)| <= 3
    ensures Numbered(numbers[batter := 0], AfterRunners(numbers[batter := 0], half, runners, 0),
                     Latest(numbers, half, {batter}), Retired(runners))
  {
    StillFresh(numbers, half, runners, batter, 0);
    ClearedLatest(numbers, half, batter);
    RunnersInTurn(numbers[batter := 0], half, runners, 0, Latest(numbers, half, {batter}));
  }

  lemma AirPlay(numbers: Numbers, half: Half, batter: Key, runners: seq<Runner>)
    requires In(half, batter) && batter !in Retired(runners) && FreshOuts(numbers, half, runners)
    requires Latest(numbers, half, {batter}) + 1 + |Retired(runners)| <= 3
    ensures var k := Latest(numbers, half, {batter});
      Numbered(numbers[batter := 0], AfterRunners(numbers[batter := k + 1], half, runners, 0), k, [batter] + Retired(runners))
  {
    hide IsLatest;
    var k, cleared := Latest(numbers, half, {batter}), numbers[batter := 0];
    StillFresh(numbers, half, runners, batter, k + 1);
    ClearedLatest(numbers, half, batter);
    NextLatest(cleared, half, batter, k);
    assert cleared[batter := k + 1] == numbers[batter := k + 1];
    RunnersInTurn(numbers[batter := k + 1], half, runners, 0, k + 1);
    Prepend(cleared, numbers[batter := k + 1], AfterRunners(numbers[batter := k + 1], half, runners, 0), k, batter, Retired(runners));
  }

  lemma GroundPlay(numbers: Numbers, half: Half, batter: Key, runners: seq<Runner>, k: nat)
    requires batter !in Retired(runners) && FreshOuts(numbers, half, runners)
    ensures var n := k + 1 + |Retired(runners)|;
      Numbered(numbers[batter := 0], AfterRunners(numbers[batter := n], half, runners, if Retired(runners) == [] then 0 else k + 1),
               k, Retired(runners) + [batter])
  {
    hide FreshOuts, AfterRunners, Numbered;
    var n, cleared := k + 1 + |Retired(runners)|, numbers[batter := 0];
    StillFresh(numbers, half, runners, batter, n);
    assert cleared[batter := n] == numbers[batter := n];
    if Retired(runners) == [] {
      NobodyRetired(numbers[batter := n], half, runners, 0, k);
      Append(cleared, AfterRunners(numbers[batter := n], half, runners, 0), k, Retired(runners), batter);
    } else {
      RunnersFromStart(numbers[batter := n], half, runners, k);
      Append(cleared, AfterRunners(numbers[batter := n], half, runners, k + 1), k, Retired(runners), batter);
    }
  }

  lemma PlayNumbersOuts(numbers: Numbers, half: Half, batter: Key, result: Result, sacrificeFly: bool, runners: seq<Runner>)
    requires In(half, batter) && batter !in Retired(runners) && FreshOuts(numbers, half, runners)
    requires Latest(numbers, half, {batter}) + |PlayOrder(batter, result, sacrificeFly, runners)| <= 3
    ensures Numbered(numbers[batter := 0], AfterPlay(numbers, half, batter, result, sacrificeFly, runners),
                     Latest(numbers, half, {batter}), PlayOrder(batter, result, sacrificeFly, runners))
  {
    hide IsLatest, FreshOuts, Numbered, AfterRunners, Retired;
    if result.Safe? {
      SafePlay(numbers, half, batter, runners);
    } else if AirOut(result, sacrificeFly) {
      AirPlay(numbers, half, batter, runners);
    } else {
      GroundPlay(numbers, half, batter, runners, Latest(numbers, half, {batter}));
    }
  }

  lemma ClearedLatest(numbers: Numbers, half: Half, batter: Key)
    ensures IsLatest(numbers[batter := 0], half, {}, Latest(numbers, half, {batter}))
  {
    var k := Latest(numbers, half, {batter});
    if k > 0 {
      var top :| In(half, top) && top !in {batter} && Num(numbers, top) == k;
      assert top !in {} && Num(numbers[batter := 0], top) == k;
    }
  }

  lemma {:induction false} NobodyRetired(numbers: Numbers, half: Half, runners: seq<Runner>, start: int, k: nat)
    requires Retired(runners) == []
    ensures AfterRunners(numbers, half, runners, start) == numbers
    ensures Numbered(numbers, numbers, k, [])
    decreases |runners|
  {
    if runners != [] {
      NobodyRetired(numbers, half, runners[1..], start, k);
    }
  }

  lemma PlayIsCapped(numbers: Numbers, half: Half, batter: Key, result: Result, sacrificeFly: bool, runners: seq<Runner>)
    requires In(half, batter) && batter !in Retired(runners) && FreshOuts(numbers, half, runners)
    requires PlayOrder(batter, result, sacrificeFly, runners) != []
    ensures var order := PlayOrder(batter, result, sacrificeFly, runners);
      Num(AfterPlay(numbers, half, batter, result, sacrificeFly, runners), order[|order| - 1]) <= 3
  {
    var order, retired := PlayOrder(batter, result, sacrificeFly, runners), Retired(runners);
    var before, air := Latest(numbers, half, {batter}), AirOut(result, sacrificeFly);
    var own := if result.Safe? then 0 else if air then Min3(before + 1) else Min3(before + 1 + |retired|);
    var start := if !air && own > 0 && |retired| > 0 then own - |retired| else 0;
    var last := order[|order| - 1];
    if last == batter {
      OthersUntouched(numbers[batter := own], half, runners, start, batter);
    } else {
      assert last == retired[|retired| - 1];
      StillFresh(numbers, half, runners, batter, own);
      RunnersAreCapped(numbers[batter := own], half, runners, start, last);
    }
  }

  /** A runner advance by itself. Runners retired first push a batter who was already out behind them. */
  ghost function AfterAdvance(numbers: Numbers, half: Half, batter: Key, runnersFirst: bool, runners: seq<Runner>): Numbers {
    var outs := |Retired(runners)|;
    if runnersFirst && Num(numbers, batter) > 0 && outs > 0 then
      AfterRunners(numbers[batter := Min3(numbers[batter] + outs)], half, runners, numbers[batter])
    else
      AfterRunners(numbers, half, runners, 0)
  }

  /** Without an active context no number is given. */
  method ApplyRunnerAdvance(numbers: Numbers, active: bool, half: Half, batter: Key, runnersFirst: bool, runners: seq<Runner>)
    returns (after: Numbers)
    ensures after == if active then AfterAdvance(numbers, half, batter, runnersFirst, runners) else numbers
  {
    if !active {
      return numbers;
    }
    var outs := CountRetired(runners);
    if runnersFirst && batter in numbers && numbers[batter] > 0 && outs > 0 {
      after := NumberRunners(numbers[batter := Min3(numbers[batter] + outs)], half, runners, numbers[batter]);
    } else {
      after := NumberRunners(numbers, half, runners, 0);
    }
  }

  /** A baserunning update: a cell, the base the runner left, and whether the action is an out. */
  datatype Update = Update(key: Key, base: nat, isOut: bool)

  predicate Retires(u: Update) {
    u.isOut && u.base + 1 <= 3
  }

  function RetiredBy(updates: seq<Update>): seq<Key>
    decreases |updates|
  {
    if updates == [] then [] else (if Retires(updates[0]) then [updates[0].key] else []) + RetiredBy(updates[1..])
  }

  /** Exactly the updates that are outs short of home retire someone. */
  lemma {:induction false} RetiredByIff(updates: seq<Update>, key: Key)
    ensures key in RetiredBy(updates)
       <==> exists i :: 0 <= i < |updates| && updates[i].key == key && updates[i].isOut && updates[i].base <= 2
    decreases |updates|
  {
    if updates != [] {
      RetiredByIff(updates[1..], key);
      assert forall i :: 0 <= i < |updates[1..]| ==> updates[1..][i] == updates[i + 1];
      if i :| 0 <= i < |updates| && updates[i].key == key && updates[i].isOut && updates[i].base <= 2 {
        assert i > 0 ==> updates[1..][i - 1] == updates[i];
      }
    }
  }

  function AfterUpdates(numbers: Numbers, updates: seq<Update>, running: nat): Numbers
    decreases |updates|
  {
    if updates == [] then numbers
    else
      var u := updates[0];
      var present := if u.key in numbers then numbers else numbers[u.key := 0];
      if Retires(u) then AfterUpdates(present[u.key := Min3(running + 1)], updates[1..], running + 1)
      else AfterUpdates(present, updates[1..], running)
  }

  function UpdatedKeys(updates: seq<Update>): set<Key> {
    set i | 0 <= i < |updates| :: updates[i].key
  }

  ghost function AfterBatch(numbers: Numbers, half: Half, updates: seq<Update>): Numbers {
    AfterUpdates(numbers, updates, Latest(numbers, half, UpdatedKeys(updates)))
  }

  method ApplyRunnerBatchUpdate(numbers: Numbers, half: Half, updates: seq<Update>) returns (after: Numbers)
    ensures after == AfterBatch(numbers, half, updates)
  {
    var running := 0;
    var except := UpdatedKeys(updates);
    var keys := numbers.Keys;
    while keys != {}
      invariant keys <= numbers.Keys
      invariant forall key :: key in numbers && key !in keys && In(half, key) && key !in except ==> numbers[key] <= running
      invariant running == 0 || exists key :: In(half, key) && key !in except && Num(numbers, key) == running
      decreases keys
    {
      var key :| key in keys;
      if In(half, key) && key !in except && running < numbers[key] {
        running := numbers[key];
      }
      keys := keys - {key};
    }
    LatestIs(numbers, half, except, running);
    after := numbers;
    for i := 0 to |updates|
      invariant AfterUpdates(after, updates[i..], running) == AfterBatch(numbers, half, updates)
    {
      assert updates[i..][1..] == updates[i + 1..];
      var u := updates[i];
      if u.key !in after {
        after := after[u.key := 0];
      }
      if Retires(u) {
        running := running + 1;
        after := after[u.key := Min3(running)];
      }
    }
  }

  /** The retired cells are different ones of this half-inning, and were not out before. */
  ghost predicate FreshUpdates(numbers: Numbers, half: Half, updates: seq<Update>)
    decreases |updates|
  {
    updates == [] || (
      && FreshUpdates(numbers, half, updates[1..])
      && (Retires(updates[0]) ==>
            In(half, updates[0].key) && Num(numbers, updates[0].key) == 0 && updates[0].key !in RetiredBy(updates[1..])))
  }

  lemma {:induction false} UpdatesStillFresh(numbers: Numbers, half: Half, updates: seq<Update>, key: Key, n: nat)
    requires FreshUpdates(numbers, half, updates) && (key in RetiredBy(updates) ==> n == 0)
    ensures FreshUpdates(numbers[key := n], half, updates)
    decreases |updates|
  {
    if updates != [] {
      assert Retires(updates[0]) ==> RetiredBy(updates)[0] == updates[0].key;
      assert forall other :: other in RetiredBy(updates[1..]) ==> other in RetiredBy(updates);
      UpdatesStillFresh(numbers, half, updates[1..], key, n);
    }
  }

  /** An event without a number counts as none. */
  lemma EventNumbersNothing(numbers: Numbers, key: Key, after: Numbers, k: nat, order: seq<Key>)
    requires Numbered(if key in numbers then numbers else numbers[key := 0], after, k, order)
    ensures Numbered(numbers, after, k, order)
  {
  }

  /** What the first update does, and what it leaves to the others. */
  lemma FirstUpdate(numbers: Numbers, half: Half, updates: seq<Update>, k: nat)
    requires FreshUpdates(numbers, half, updates) && k + |RetiredBy(updates)| <= 3
    ensures updates == [] ==> AfterUpdates(numbers, updates, k) == numbers && RetiredBy(updates) == []
    ensures updates != [] ==> FreshUpdates(numbers, half, updates[1..])
    ensures updates != [] && Retires(updates[0]) ==>
              var key, rest := updates[0].key, updates[1..];
              && In(half, key) && Num(numbers, key) == 0 && key !in RetiredBy(rest)
              && RetiredBy(updates) == [key] + RetiredBy(rest)
              && AfterUpdates(numbers, updates, k) == AfterUpdates(numbers[key := k + 1], rest, k + 1)
    ensures updates != [] && !Retires(updates[0]) ==>
              var key, rest := updates[0].key, updates[1..];
              && RetiredBy(updates) == RetiredBy(rest)
              && AfterUpdates(numbers, updates, k)
              == AfterUpdates(if key in numbers then numbers else numbers[key := 0], rest, k)
  {
    hide In;
    if updates != [] && Retires(updates[0]) {
      var key := updates[0].key;
      assert (if key in numbers then numbers else numbers[key := 0])[key := k + 1] == numbers[key := k + 1];
      assert RetiredBy(updates) == [key] + RetiredBy(updates[1..]);
    }
  }

  lemma NoneNumbered(numbers: Numbers, k: nat)
    ensures Numbered(numbers, numbers, k, [])
  {
  }

  lemma {:induction false} UpdatesNumberOuts(numbers: Numbers, half: Half, updates: seq<Update>, k: nat)
    requires FreshUpdates(numbers, half, updates) && k + |RetiredBy(updates)| <= 3
    ensures Numbered(numbers, AfterUpdates(numbers, updates, k), k, RetiredBy(updates))
    decreases |updates|
  {
    hide Numbered, FreshUpdates, AfterUpdates, RetiredBy, Num;
    FirstUpdate(numbers, half, updates, k);
    if updates == [] {
      NoneNumbered(numbers, k);
    } else {
      var u, rest := updates[0], updates[1..];
      if Retires(u) {
        UpdatesStillFresh(numbers, half, rest, u.key, k + 1);
        UpdatesNumberOuts(numbers[u.key := k + 1], half, rest, k + 1);
        Prepend(numbers, numbers[u.key := k + 1], AfterUpdates(numbers, updates, k), k, u.key, RetiredBy(rest));
      } else {
        var present := if u.key in numbers then numbers else numbers[u.key := 0];
        if u.key !in numbers {
          UpdatesStillFresh(numbers, half, rest, u.key, 0);
        }
        UpdatesNumberOuts(present, half, rest, k);
        EventNumbersNothing(numbers, u.key, AfterUpdates(present, rest, k), k, RetiredBy(rest));
      }
    }
  }

  /** A third strike that was not dropped. */
  ghost function AfterStrikeout(numbers: Numbers, half: Half, batter: Key): Numbers {
    numbers[batter := Min3(Latest(numbers, half, {batter}) + 1)]
  }

  method ApplyStrikeout(numbers: Numbers, half: Half, batter: Key) returns (after: Numbers)
    ensures after == AfterStrikeout(numbers, half, batter)
  {
    var outs := CalculateInningOutsExclude(numbers, half, batter);
    after := numbers[batter := Min3(outs + 1)];
  }

  ghost predicate Carried(numbers: Numbers, half: Half, n: nat) {
    exists key :: In(half, key) && Num(numbers, key) == n
  }

  /** The outs of a half-inning are numbered 1 to k, each number once. */
  ghost predicate Ladder(numbers: Numbers, half: Half, k: nat) {
    && (forall key :: In(half, key) ==> Num(numbers, key) <= k)
    && (forall n :: 1 <= n <= k ==> Carried(numbers, half, n))
    && (forall a, b :: In(half, a) && In(half, b) && Num(numbers, a) == Num(numbers, b) != 0 ==> a == b)
  }

  lemma LadderGrows(before: Numbers, after: Numbers, half: Half, k: nat, order: seq<Key>)
    requires Ladder(before, half, k) && Numbered(before, after, k, order)
    requires forall key :: key in order ==> In(half, key)
    ensures Ladder(after, half, k + |order|)
  {
    forall n | 1 <= n <= k + |order|
      ensures Carried(after, half, n)
    {
      if n <= k {
        assert Carried(before, half, n);
        var key :| In(half, key) && Num(before, key) == n;
        assert Num(after, key) == n;
      } else {
        assert Num(after, order[n - k - 1]) == n && order[n - k - 1] in order;
      }
    }
    forall key | In(half, key)
      ensures Num(after, key) <= k + |order| && (key in order ==> Num(after, key) > k && order[Num(after, key) - k - 1] == key)
    {
      if key in order {
        var i :| 0 <= i < |order| && order[i] == key;
      }
    }
  }

  lemma LadderTop(numbers: Numbers, half: Half, except: set<Key>, k: nat)
    requires Ladder(numbers, half, k) && forall key :: key in except ==> Num(numbers, key) == 0
    ensures Latest(numbers, half, except) == k
  {
    if k > 0 {
      assert Carried(numbers, half, k);
      var top :| In(half, top) && Num(numbers, top) == k;
    }
    LatestIs(numbers, half, except, k);
  }

  datatype Event =
    | Play(batter: Key, result: Result, sacrificeFly: bool, runners: seq<Runner>)
    | Advance(batter: Key, runnersFirst: bool, runners: seq<Runner>)
    | Batch(updates: seq<Update>)
    | Strikeout(batter: Key)

  ghost function Apply(numbers: Numbers, half: Half, e: Event): Numbers {
    match e
    case Play(batter, result, sacrificeFly, runners) => AfterPlay(numbers, half, batter, result, sacrificeFly, runners)
    case Advance(batter, runnersFirst, runners) => AfterAdvance(numbers, half, batter, runnersFirst, runners)
    case Batch(updates) => AfterBatch(numbers, half, updates)
    case Strikeout(batter) => AfterStrikeout(numbers, half, batter)
  }

  /** How many players an event retires. */
  function OutsOf(e: Event): nat {
    match e
    case Play(batter, result, sacrificeFly, runners) => |PlayOrder(batter, result, sacrificeFly, runners)|
    case Advance(_, _, runners) => |Retired(runners)|
    case Batch(updates) => |RetiredBy(updates)|
    case Strikeout(_) => 1
  }

  /** The players it retires are different ones of this half-inning that were not out before. A batter whom an advance
      with runners first pushes back must be the latest out. */
  ghost predicate Fits(numbers: Numbers, half: Half, k: nat, e: Event) {
    && k + OutsOf(e) <= 3
    && match e
       case Play(batter, _, _, runners) =>
         In(half, batter) && Num(numbers, batter) == 0 && batter !in Retired(runners) && FreshOuts(numbers, half, runners)
       case Advance(batter, runnersFirst, runners) =>
         && In(half, batter) && batter !in Retired(runners) && FreshOuts(numbers, half, runners)
         && (runnersFirst && Num(numbers, batter) > 0 && Retired(runners) != [] ==> Num(numbers, batter) == k)
       case Batch(updates) =>
         FreshUpdates(numbers, half, updates) && forall key :: key in UpdatedKeys(updates) ==> Num(numbers, key) == 0
       case Strikeout(batter) => In(half, batter) && Num(numbers, batter) == 0
  }

  lemma {:induction false} RetiredAreIn(numbers: Numbers, half: Half, runners: seq<Runner>)
    requires FreshOuts(numbers, half, runners)
    ensures forall key :: key in Retired(runners) ==> In(half, key)
    decreases |runners|
  {
    if runners != [] {
      RetiredAreIn(numbers, half, runners[1..]);
    }
  }

  lemma {:induction false} RetiredByAreIn(numbers: Numbers, half: Half, updates: seq<Update>)
    requires FreshUpdates(numbers, half, updates)
    ensures forall key :: key in RetiredBy(updates) ==> In(half, key)
    decreases |updates|
  {
    if updates != [] {
      RetiredByAreIn(numbers, half, updates[1..]);
    }
  }

  lemma PlayKeepsLadder(numbers: Numbers, half: Half, k: nat, e: Event)
    requires e.Play? && Ladder(numbers, half, k) && Fits(numbers, half, k, e)
    ensures Ladder(Apply(numbers, half, e), half, k + OutsOf(e))
  {
    hide FreshOuts, IsLatest, AfterRunners, Retired;
    LadderTop(numbers, half, {e.batter}, k);
    PlayNumbersOuts(numbers, half, e.batter, e.result, e.sacrificeFly, e.runners);
    RetiredAreIn(numbers, half, e.runners);
    var order := PlayOrder(e.batter, e.result, e.sacrificeFly, e.runners);
    assert forall key :: Num(numbers[e.batter := 0], key) == Num(numbers, key);
    LadderGrows(numbers, Apply(numbers, half, e), half, k, order);
  }

  /** Runners first after a batter's out: the numbers stay a ladder exactly when that batter was the latest out. */
  lemma AdvanceBehindBatterIff(numbers: Numbers, half: Half, k: nat, batter: Key, runners: seq<Runner>)
    requires Ladder(numbers, half, k) && In(half, batter) && Num(numbers, batter) > 0
    requires batter !in Retired(runners) && FreshOuts(numbers, half, runners) && Retired(runners) != []
    requires k + |Retired(runners)| <= 3
    ensures Ladder(AfterAdvance(numbers, half, batter, true, runners), half, k + |Retired(runners)|)
       <==> Num(numbers, batter) == k
  {
    hide FreshOuts, IsLatest, AfterRunners, Retired;
    var b, r := Num(numbers, batter), |Retired(runners)|;
    var after := AfterAdvance(numbers, half, batter, true, runners);
    GroundPlay(numbers, half, batter, runners, b - 1);
    assert Numbered(numbers[batter := 0], after, b - 1, Retired(runners) + [batter]);
    RetiredAreIn(numbers, half, runners);
    if b == k {
      WithoutTop(numbers, half, k, batter);
      LadderGrows(numbers[batter := 0], after, half, k - 1, Retired(runners) + [batter]);
    } else {
      assert Carried(numbers, half, b + 1);
      var held :| In(half, held) && Num(numbers, held) == b + 1;
      var order := Retired(runners) + [batter];
      assert Num(after, order[1]) == b + 1 && Num(numbers[batter := 0], order[1]) == 0;
      assert held !in order && Num(after, held) == b + 1;
      assert In(half, order[1]) by {
        assert order[1] in order;
      }
    }
  }

  lemma WithoutTop(numbers: Numbers, half: Half, k: nat, batter: Key)
    requires Ladder(numbers, half, k) && In(half, batter) && Num(numbers, batter) == k > 0
    ensures Ladder(numbers[batter := 0], half, k - 1)
  {
    var cleared := numbers[batter := 0];
    forall n | 1 <= n <= k - 1
      ensures Carried(cleared, half, n)
    {
      assert Carried(numbers, half, n);
      var key :| In(half, key) && Num(numbers, key) == n;
      assert Num(cleared, key) == n;
    }
  }

  lemma AdvanceKeepsLadder(numbers: Numbers, half: Half, k: nat, e: Event)
    requires e.Advance? && Ladder(numbers, half, k) && Fits(numbers, half, k, e)
    ensures Ladder(Apply(numbers, half, e), half, k + OutsOf(e))
  {
    if e.runnersFirst && Num(numbers, e.batter) > 0 && Retired(e.runners) != [] {
      AdvanceBehindBatterIff(numbers, half, k, e.batter, e.runners);
    } else {
      LadderTop(numbers, half, {}, k);
      RunnersInTurn(numbers, half, e.runners, 0, k);
      RetiredAreIn(numbers, half, e.runners);
      LadderGrows(numbers, Apply(numbers, half, e), half, k, Retired(e.runners));
    }
  }

  lemma EventKeepsLadder(numbers: Numbers, half: Half, k: nat, e: Event)
    requires Ladder(numbers, half, k) && Fits(numbers, half, k, e)
    ensures Ladder(Apply(numbers, half, e), half, k + OutsOf(e))
  {
    match e {
      case Play(_, _, _, _) => PlayKeepsLadder(numbers, half, k, e);
      case Advance(_, _, _) => AdvanceKeepsLadder(numbers, half, k, e);
      case Batch(updates) =>
        LadderTop(numbers, half, UpdatedKeys(updates), k);
        UpdatesNumberOuts(numbers, half, updates, k);
        RetiredByAreIn(numbers, half, updates);
        LadderGrows(numbers, Apply(numbers, half, e), half, k, RetiredBy(updates));
      case Strikeout(batter) =>
        LadderTop(numbers, half, {batter}, k);
        assert Numbered(numbers, Apply(numbers, half, e), k, [batter]);
        LadderGrows(numbers, Apply(numbers, half, e), half, k, [batter]);
    }
  }

  // ---- No out beyond the third ----

  predicate Capped(numbers: Numbers) {
    forall key :: key in numbers ==> numbers[key] <= 3
  }

  /** The retired runners that have an event. */
  function PresentOuts(numbers: Numbers, runners: seq<Runner>): (n: nat)
    ensures n <= |Retired(runners)|
    decreases |runners|
  {
    if runners == [] then 0
    else PresentOuts(numbers, runners[1..]) + if runners[0].isOut && runners[0].key in numbers then 1 else 0
  }

  lemma {:induction false} PresentOutsStay(numbers: Numbers, key: Key, n: nat, runners: seq<Runner>)
    requires key in numbers
    ensures PresentOuts(numbers[key := n], runners) == PresentOuts(numbers, runners)
    decreases |runners|
  {
    if runners != [] {
      PresentOutsStay(numbers, key, n, runners[1..]);
    }
  }

  ghost predicate HasNumber(numbers: Numbers, n: int) {
    exists key :: key in numbers && numbers[key] == n
  }

  /** With a start, the last of the retired runners ends up with the last number. */
  lemma {:induction false} LastNumberStays(numbers: Numbers, half: Half, runners: seq<Runner>, start: int)
    requires start > 0 && PresentOuts(numbers, runners) > 0
    ensures HasNumber(AfterRunners(numbers, half, runners, start), start + PresentOuts(numbers, runners) - 1)
    decreases |runners|
  {
    var key, rest := runners[0].key, runners[1..];
    if !runners[0].isOut || key !in numbers {
      LastNumberStays(numbers, half, rest, start);
      assert AfterRunners(numbers, half, runners, start) == AfterRunners(numbers, half, rest, start);
      assert PresentOuts(numbers, runners) == PresentOuts(numbers, rest);
    } else {
      var next := numbers[key := start];
      PresentOutsStay(numbers, key, start, rest);
      assert AfterRunners(numbers, half, runners, start) == AfterRunners(next, half, rest, start + 1);
      if PresentOuts(next, rest) > 0 {
        LastNumberStays(next, half, rest, start + 1);
      } else {
        NoneToNumber(next, half, rest, start + 1);
        assert key in next && next[key] == start;
      }
    }
  }

  lemma {:induction false} NoneToNumber(numbers: Numbers, half: Half, runners: seq<Runner>, start: int)
    requires PresentOuts(numbers, runners) == 0
    ensures AfterRunners(numbers, half, runners, start) == numbers
    decreases |runners|
  {
    if runners != [] {
      NoneToNumber(numbers, half, runners[1..], start);
    }
  }

  lemma {:induction false} RunnersCappedIff(numbers: Numbers, half: Half, runners: seq<Runner>, start: int)
    requires Capped(numbers)
    ensures Capped(AfterRunners(numbers, half, runners, start))
       <==> start <= 0 || PresentOuts(numbers, runners) == 0 || start + PresentOuts(numbers, runners) <= 4
    decreases |runners|
  {
    if runners != [] {
      var key, rest := runners[0].key, runners[1..];
      if !runners[0].isOut || key !in numbers {
        RunnersCappedIff(numbers, half, rest, start);
      } else if start <= 0 {
        RunnersCappedIff(numbers[key := Min3(Latest(numbers, half, {key}) + 1)], half, rest, start);
      } else if start <= 3 {
        PresentOutsStay(numbers, key, start, rest);
        RunnersCappedIff(numbers[key := start], half, rest, start + 1);
      } else {
        LastNumberStays(numbers, half, runners, start);
      }
    }
  }

  lemma {:induction false} UpdatesAreCapped(numbers: Numbers, updates: seq<Update>, running: nat)
    requires Capped(numbers)
    ensures Capped(AfterUpdates(numbers, updates, running))
    decreases |updates|
  {
    if updates != [] {
      var u := updates[0];
      var present := if u.key in numbers then numbers else numbers[u.key := 0];
      UpdatesAreCapped(if Retires(u) then present[u.key := Min3(running + 1)] else present, updates[1..],
                       if Retires(u) then running + 1 else running);
    }
  }

  /** No event makes an out beyond the third, with one exception: runners first behind a batter already out are numbered
      upwards from the batter's out without a cap, so they pass three exactly if there are too many of them. */
  lemma EventIsCappedIff(numbers: Numbers, half: Half, e: Event)
    requires Capped(numbers)
    ensures Capped(Apply(numbers, half, e))
       <==> !(e.Advance? && e.runnersFirst && Num(numbers, e.batter) > 0 && PresentOuts(numbers, e.runners) > 0
              && Num(numbers, e.batter) + PresentOuts(numbers, e.runners) > 4)
  {
    hide AfterRunners, IsLatest, PresentOuts, Retired, AfterUpdates;
    match e {
      case Play(batter, result, sacrificeFly, runners) =>
        var outs, before, air := |Retired(runners)|, Latest(numbers, half, {batter}), AirOut(result, sacrificeFly);
        var own := if result.Safe? then 0 else if air then Min3(before + 1) else Min3(before + 1 + outs);
        RunnersCappedIff(numbers[batter := own], half, runners, if !air && own > 0 && outs > 0 then own - outs else 0);
      case Advance(batter, runnersFirst, runners) =>
        var outs := |Retired(runners)|;
        if runnersFirst && Num(numbers, batter) > 0 && outs > 0 {
          PresentOutsStay(numbers, batter, Min3(numbers[batter] + outs), runners);
          RunnersCappedIff(numbers[batter := Min3(numbers[batter] + outs)], half, runners, numbers[batter]);
        } else {
          RunnersCappedIff(numbers, half, runners, 0);
        }
      case Batch(updates) =>
        UpdatesAreCapped(numbers, updates, Latest(numbers, half, UpdatedKeys(updates)));
      case Strikeout(_) =>
    }
  }

  ghost function Inning(numbers: Numbers, half: Half, events: seq<Event>): Numbers
    decreases |events|
  {
    if events == [] then numbers else Inning(Apply(numbers, half, events[0]), half, events[1..])
  }

  ghost predicate AllFit(numbers: Numbers, half: Half, k: nat, events: seq<Event>)
    decreases |events|
  {
    events == [] || (Fits(numbers, half, k, events[0]) && AllFit(Apply(numbers, half, events[0]), half, k + OutsOf(events[0]), events[1..]))
  }

  function TotalOuts(events: seq<Event>): nat
    decreases |events|
  {
    if events == [] then 0 else OutsOf(events[0]) + TotalOuts(events[1..])
  }

  /** Over a whole half-inning the outs are numbered 1 to the number of players retired, each number once. */
  lemma {:induction false} InningIsALadder(numbers: Numbers, half: Half, k: nat, events: seq<Event>)
    requires Ladder(numbers, half, k) && AllFit(numbers, half, k, events)
    ensures Ladder(Inning(numbers, half, events), half, k + TotalOuts(events))
    decreases |events|
  {
    if events != [] {
      EventKeepsLadder(numbers, half, k, events[0]);
      InningIsALadder(Apply(numbers, half, events[0]), half, k + OutsOf(events[0]), events[1..]);
    }
  }
}
