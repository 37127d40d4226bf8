/** The alternating coin game of dynamic_programming/alternating_coin_game.cpp:
    two players take turns taking the leftmost or rightmost coin of a row, both
    playing for the first player's total, the first maximising it and the second
    minimising it. Two mutually recursive memoised functions score a range with
    either player to move, and a backtrack replays the best moves. */
module CoinGame {
  import SeqFacts

  function Max(a: int, b: int): int {
    if a >= b then a else b
  }

  function Min(a: int, b: int): int {
    if a <= b then a else b
  }

  /** The range `i..j` is a non-empty range of the row. */
  predicate InRow(coins: seq<int>, i: int, j: int) {
    0 <= i <= j < |coins|
  }

  /** player_1: the first player's total from coins `i..j` with the first player
      to move; 0 for an empty or out-of-range interval. */
  function P1(coins: seq<int>, i: int, j: int): int
    decreases if i <= j then j - i + 1 else 0
  {
    if !InRow(coins, i, j) then 0
    else if i == j then coins[i]
    else Max(P2(coins, i + 1, j) + coins[i], P2(coins, i, j - 1) + coins[j])
  }

  /** player_2: the first player's total from coins `i..j` with the second player
      to move. */
  function P2(coins: seq<int>, i: int, j: int): int
    decreases if i <= j then j - i + 1 else 0
  {
    if !InRow(coins, i, j) then 0
    else if i == j then 0
    else Min(P1(coins, i + 1, j), P1(coins, i, j - 1))
  }

  /** The sum of the coins of `i..j` at positions of parity `e`. */
  function ParitySum(coins: seq<int>, i: int, j: int, e: int): int
    requires 0 <= i && j < |coins|
    decreases j - i
  {
    if i > j then 0 else (if j % 2 == e then coins[j] else 0) + ParitySum(coins, i, j - 1, e)
  }

  /** ParitySum peeled from the left. */
  lemma {:induction false} ParitySumLeft(coins: seq<int>, i: int, j: int, e: int)
    requires 0 <= i <= j < |coins|
    ensures ParitySum(coins, i, j, e) == (if i % 2 == e then coins[i] else 0) + ParitySum(coins, i + 1, j, e)
    decreases j - i
  {
    if i < j {
      ParitySumLeft(coins, i, j - 1, e);
    }
  }

  /** On a row of even length the first player can take every coin on the
      positions of the parity of either end, so it scores at least the larger of
      the two parity sums. */
  lemma {:induction false} EvenRowGuarantee(coins: seq<int>, i: int, j: int)
    requires 0 <= i && j < |coins| && i <= j + 1 && (j - i + 1) % 2 == 0
    ensures P1(coins, i, j) >= ParitySum(coins, i, j, i % 2)
    ensures P1(coins, i, j) >= ParitySum(coins, i, j, j % 2)
    decreases j - i
  {
    if i < j {
      EvenRowGuarantee(coins, i + 2, j);
      EvenRowGuarantee(coins, i + 1, j - 1);
      EvenRowGuarantee(coins, i, j - 2);
      TakeLeftPlan(coins, i, j);
      TakeRightPlan(coins, i, j);
    }
  }

  /** Taking the left coin first: both rows the second player can leave hold the
      rest of the coins of the left end's parity. */
  lemma TakeLeftPlan(coins: seq<int>, i: int, j: int)
    requires 0 <= i < j < |coins| && (j - i + 1) % 2 == 0
    requires P1(coins, i + 2, j) >= ParitySum(coins, i + 2, j, (i + 2) % 2)
    requires P1(coins, i + 1, j - 1) >= ParitySum(coins, i + 1, j - 1, (j - 1) % 2)
    ensures P1(coins, i, j) >= ParitySum(coins, i, j, i % 2)
  {
    var e := i % 2;
    assert j % 2 != e && (j - 1) % 2 == e && (i + 2) % 2 == e;
    ParitySumLeft(coins, i, j, e);
    ParitySumLeft(coins, i + 1, j, e);
    assert ParitySum(coins, i + 1, j, e) == ParitySum(coins, i + 1, j - 1, e);
    assert P1(coins, i, j) >= P2(coins, i + 1, j) + coins[i];
  }

  /** Taking the right coin first: both rows the second player can leave hold the
      rest of the coins of the right end's parity. */
  lemma TakeRightPlan(coins: seq<int>, i: int, j: int)
    requires 0 <= i < j < |coins| && (j - i + 1) % 2 == 0
    requires P1(coins, i + 1, j - 1) >= ParitySum(coins, i + 1, j - 1, (i + 1) % 2)
    requires P1(coins, i, j - 2) >= ParitySum(coins, i, j - 2, (j - 2) % 2)
    ensures P1(coins, i, j) >= ParitySum(coins, i, j, j % 2)
  {
    var f := j % 2;
    assert i % 2 != f && (i + 1) % 2 == f && (j - 2) % 2 == f;
    ParitySumLeft(coins, i, j - 1, f);
    assert ParitySum(coins, i, j - 1, f) == ParitySum(coins, i, j - 2, f);
    assert P1(coins, i, j) >= P2(coins, i, j - 1) + coins[j];
  }

  /** It is the first player's move at `x..y` in a game that started at `i..j`
      with the first player to move when `p` is 0, the second when `p` is 1. */
  function FirstToMove(i: int, j: int, x: int, y: int, p: int): bool {
    ((x - i) + (j - y) + p) % 2 == 0
  }

  /** Every interval `x..y` of `i..j` reachable in the game holds the right value
      in the memo half its mover reads: player_1's for the first player's moves,
      player_2's for the second's. */
  ghost predicate Solved(memo: array2<(int, int)>, coins: seq<int>, i: int, j: int, p: int)
    reads memo
  {
    forall x, y {:trigger memo[x, y]} ::
      0 <= i <= x <= y <= j < memo.Length0 && y < memo.Length1 ==>
        (FirstToMove(i, j, x, y, p) ==> memo[x, y].0 == P1(coins, x, y)) &&
        (!FirstToMove(i, j, x, y, p) ==> memo[x, y].1 == P2(coins, x, y))
  }

  /** The memo is `n` by `n`, and every entry other than -1 was stored by a call
      that solved its whole interval. */
  ghost predicate Good(memo: array2<(int, int)>, coins: seq<int>)
    reads memo
  {
    memo.Length0 == |coins| == memo.Length1 &&
    forall a, b {:trigger memo[a, b]} :: 0 <= a < memo.Length0 && 0 <= b < memo.Length1 ==>
      (memo[a, b].0 != -1 ==> Solved(memo, coins, a, b, 0)) &&
      (memo[a, b].1 != -1 ==> Solved(memo, coins, a, b, 1))
  }

  /** An entry holding its right value still holds it. */
  twostate predicate Kept(memo: array2<(int, int)>, coins: seq<int>)
    reads memo
  {
    forall x, y {:trigger memo[x, y]} :: 0 <= x < memo.Length0 && 0 <= y < memo.Length1 ==>
      (old(memo[x, y].0) == P1(coins, x, y) ==> memo[x, y].0 == P1(coins, x, y)) &&
      (old(memo[x, y].1) == P2(coins, x, y) ==> memo[x, y].1 == P2(coins, x, y))
  }

  /** player_1 with its memo: the value is P1, and the whole interval is solved
      for a game the first player starts. */
  method Player1(coins: seq<int>, memo: array2<(int, int)>, i: int, j: int) returns (r: int)
    modifies memo
    requires Good(memo, coins)
    ensures r == P1(coins, i, j) && Good(memo, coins) && Kept(memo, coins)
    ensures InRow(coins, i, j) ==> Solved(memo, coins, i, j, 0)
    ensures forall a, b, q {:trigger Solved(memo, coins, a, b, q)} ::
              old(Solved(memo, coins, a, b, q)) ==> Solved(memo, coins, a, b, q)
    ensures forall x, y {:trigger memo[x, y]} :: 0 <= x < memo.Length0 && 0 <= y < memo.Length1 && (x < i || j < y) ==>
              memo[x, y] == old(memo[x, y])
    decreases if i <= j then j - i + 1 else 0
  {
    if i < 0 || j >= |coins| || i > j {
      return 0;
    }
    if memo[i, j].0 == -1 {
      if i == j {
        var only := coins[i];
        Store1(coins, memo, i, j, only);
      } else {
        var takeLeft := Player2(coins, memo, i + 1, j);
        var takeRight := Player2(coins, memo, i, j - 1);
        Store1(coins, memo, i, j, Max(takeLeft + coins[i], takeRight + coins[j]));
      }
    }
    r := memo[i, j].0;
  }

  /** player_2 with its memo: the value is P2, and the whole interval is solved
      for a game the second player starts. */
  method Player2(coins: seq<int>, memo: array2<(int, int)>, i: int, j: int) returns (r: int)
    modifies memo
    requires Good(memo, coins)
    ensures r == P2(coins, i, j) && Good(memo, coins) && Kept(memo, coins)
    ensures InRow(coins, i, j) ==> Solved(memo, coins, i, j, 1)
    ensures forall a, b, q {:trigger Solved(memo, coins, a, b, q)} ::
              old(Solved(memo, coins, a, b, q)) ==> Solved(memo, coins, a, b, q)
    ensures forall x, y {:trigger memo[x, y]} :: 0 <= x < memo.Length0 && 0 <= y < memo.Length1 && (x < i || j < y) ==>
              memo[x, y] == old(memo[x, y])
    decreases if i <= j then j - i + 1 else 0
  {
    if i < 0 || j >= |coins| || i > j {
      return 0;
    }
    if memo[i, j].1 == -1 {
      if i == j {
        Store2(coins, memo, i, j, 0);
      } else {
        var takeLeft := Player1(coins, memo, i + 1, j);
        var takeRight := Player1(coins, memo, i, j - 1);
        Store2(coins, memo, i, j, Min(takeLeft, takeRight));
      }
    }
    r := memo[i, j].1;
  }

  /** Storing player_1's value of `i..j` once both shorter intervals are solved for
      the second player. */
  method Store1(coins: seq<int>, memo: array2<(int, int)>, i: int, j: int, v: int)
    modifies memo
    requires Good(memo, coins) && InRow(coins, i, j) && memo[i, j].0 == -1 && v == P1(coins, i, j)
    requires i < j ==> Solved(memo, coins, i + 1, j, 1) && Solved(memo, coins, i, j - 1, 1)
    ensures Good(memo, coins) && Kept(memo, coins) && Solved(memo, coins, i, j, 0)
    ensures memo[i, j].0 == v
    ensures forall x, y {:trigger memo[x, y]} :: 0 <= x < memo.Length0 && 0 <= y < memo.Length1 && (x, y) != (i, j) ==>
              memo[x, y] == old(memo[x, y])
  {
    memo[i, j] := (v, memo[i, j].1);
    assert Kept(memo, coins);
    assert Solved(memo, coins, i, j, 0) by {
      forall x, y | 0 <= i <= x <= y <= j < memo.Length0 && y < memo.Length1
        ensures (FirstToMove(i, j, x, y, 0) ==> memo[x, y].0 == P1(coins, x, y)) &&
                (!FirstToMove(i, j, x, y, 0) ==> memo[x, y].1 == P2(coins, x, y))
      {
        if x > i {
          assert FirstToMove(i, j, x, y, 0) == FirstToMove(i + 1, j, x, y, 1);
          assert (x, y) != (i, j);
        } else if y < j {
          assert FirstToMove(i, j, x, y, 0) == FirstToMove(i, j - 1, x, y, 1);
        }
      }
    }
    forall a, b, q | old(Solved(memo, coins, a, b, q)) ensures Solved(memo, coins, a, b, q) {
      forall x, y | 0 <= a <= x <= y <= b < memo.Length0 && y < memo.Length1
        ensures (FirstToMove(a, b, x, y, q) ==> memo[x, y].0 == P1(coins, x, y)) &&
                (!FirstToMove(a, b, x, y, q) ==> memo[x, y].1 == P2(coins, x, y))
      {
      }
    }
    forall a, b | 0 <= a < memo.Length0 && 0 <= b < memo.Length1
      ensures (memo[a, b].0 != -1 ==> Solved(memo, coins, a, b, 0)) &&
              (memo[a, b].1 != -1 ==> Solved(memo, coins, a, b, 1))
    {
      if memo[a, b].0 != -1 && !((a, b) == (i, j) && 0 == 0) {
        assert old(memo[a, b].0) != -1;
        assert old(Solved(memo, coins, a, b, 0));
      }
      if memo[a, b].1 != -1 && !((a, b) == (i, j) && 0 == 1) {
        assert old(memo[a, b].1) != -1;
        assert old(Solved(memo, coins, a, b, 1));
      }
    }
  }

  /** Storing player_2's value of `i..j` once both shorter intervals are solved for
      the first player. */
  method Store2(coins: seq<int>, memo: array2<(int, int)>, i: int, j: int, v: int)
    modifies memo
    requires Good(memo, coins) && InRow(coins, i, j) && memo[i, j].1 == -1 && v == P2(coins, i, j)
    requires i < j ==> Solved(memo, coins, i + 1, j, 0) && Solved(memo, coins, i, j - 1, 0)
    ensures Good(memo, coins) && Kept(memo, coins) && Solved(memo, coins, i, j, 1)
    ensures memo[i, j].1 == v
    ensures forall x, y {:trigger memo[x, y]} :: 0 <= x < memo.Length0 && 0 <= y < memo.Length1 && (x, y) != (i, j) ==>
              memo[x, y] == old(memo[x, y])
  {
    memo[i, j] := (memo[i, j].0, v);
    assert Kept(memo, coins);
    assert Solved(memo, coins, i, j, 1) by {
      forall x, y | 0 <= i <= x <= y <= j < memo.Length0 && y < memo.Length1
        ensures (FirstToMove(i, j, x, y, 1) ==> memo[x, y].0 == P1(coins, x, y)) &&
                (!FirstToMove(i, j, x, y, 1) ==> memo[x, y].1 == P2(coins, x, y))
      {
        if x > i {
          assert FirstToMove(i, j, x, y, 1) == FirstToMove(i + 1, j, x, y, 0);
        } else if y < j {
          assert FirstToMove(i, j, x, y, 1) == FirstToMove(i, j - 1, x, y, 0);
        }
      }
    }
    forall a, b, q | old(Solved(memo, coins, a, b, q)) ensures Solved(memo, coins, a, b, q) {
      forall x, y | 0 <= a <= x <= y <= b < memo.Length0 && y < memo.Length1
        ensures (FirstToMove(a, b, x, y, q) ==> memo[x, y].0 == P1(coins, x, y)) &&
                (!FirstToMove(a, b, x, y, q) ==> memo[x, y].1 == P2(coins, x, y))
      {
      }
    }
    forall a, b | 0 <= a < memo.Length0 && 0 <= b < memo.Length1
      ensures (memo[a, b].0 != -1 ==> Solved(memo, coins, a, b, 0)) &&
              (memo[a, b].1 != -1 ==> Solved(memo, coins, a, b, 1))
    {
      if memo[a, b].0 != -1 && !((a, b) == (i, j) && 1 == 0) {
        assert old(memo[a, b].0) != -1;
        assert old(Solved(memo, coins, a, b, 0));
      }
      if memo[a, b].1 != -1 && !((a, b) == (i, j) && 1 == 1) {
        assert old(memo[a, b].1) != -1;
        assert old(Solved(memo, coins, a, b, 1));
      }
    }
  }

  /** The game as main plays it: a memo of `n` by `n` entries (-1, -1), player_1
      over the whole row, then the backtrack of its moves. */
  method PlayGame(coins: seq<int>) returns (score: int, moves: seq<(int, int)>, ghost ends: seq<bool>)
    ensures score == P1(coins, 0, |coins| - 1) == FirstTotal(moves)
    ensures |moves| == |coins| == |ends| && Taken(coins, 0, |coins| - 1, ends) == Coins(moves)
    ensures forall k :: 0 <= k < |moves| ==> moves[k].0 == (if k % 2 == 0 then 1 else 2)
  {
    var memo := new (int, int)[|coins|, |coins|]((_, _) => (-1, -1));
    score := Player1(coins, memo, 0, |coins| - 1);
    moves, ends := Backtrack(coins, memo);
  }

  /** The coins a sequence of moves takes from `i..j`: `true` takes the leftmost
      coin, `false` the rightmost. */
  function Taken(coins: seq<int>, i: int, j: int, ends: seq<bool>): seq<int>
    requires 0 <= i && j < |coins| && |ends| <= j - i + 1
    decreases |ends|
  {
    if ends == [] then []
    else if ends[0] then [coins[i]] + Taken(coins, i + 1, j, ends[1..])
    else [coins[j]] + Taken(coins, i, j - 1, ends[1..])
  }

  /** The total of the coins taken by the first player (the moves at even
      positions). */
  function FirstTotal(moves: seq<(int, int)>): int {
    if moves == [] then 0
    else FirstTotal(moves[..|moves| - 1]) + (if moves[|moves| - 1].0 == 1 then moves[|moves| - 1].1 else 0)
  }

  /** The number of left moves among `ends`. */
  function Lefts(ends: seq<bool>): (r: nat)
    ensures r <= |ends|
  {
    if ends == [] then 0 else (if ends[0] then 1 else 0) + Lefts(ends[1..])
  }

  /** The coin of each move. */
  function Coins(moves: seq<(int, int)>): (r: seq<int>)
    ensures |r| == |moves| && forall k :: 0 <= k < |moves| ==> r[k] == moves[k].1
  {
    seq(|moves|, k requires 0 <= k < |moves| => moves[k].1)
  }

  /** One more move takes the leftmost or rightmost of the coins the earlier
      moves left. */
  lemma {:induction false} LeftsSnoc(ends: seq<bool>, b: bool)
    ensures Lefts(ends + [b]) == Lefts(ends) + (if b then 1 else 0)
    decreases |ends|
  {
    if ends == [] {
      assert ends + [b] == [b];
    } else {
      assert (ends + [b])[1..] == ends[1..] + [b];
      LeftsSnoc(ends[1..], b);
    }
  }

  lemma {:induction false} TakenSnoc(coins: seq<int>, i: int, j: int, ends: seq<bool>, b: bool)
    requires 0 <= i && j < |coins| && |ends| + 1 <= j - i + 1
    ensures Lefts(ends + [b]) == Lefts(ends) + (if b then 1 else 0)
    ensures Taken(coins, i, j, ends + [b]) ==
            Taken(coins, i, j, ends) + [if b then coins[i + Lefts(ends)] else coins[j - (|ends| - Lefts(ends))]]
    decreases |ends|
  {
    LeftsSnoc(ends, b);
    var y := if b then coins[i + Lefts(ends)] else coins[j - (|ends| - Lefts(ends))];
    if ends == [] {
      assert ends + [b] == [b];
      assert Taken(coins, i, j, [b]) == [y] + [];
      SeqFacts.Unit([y]);
      assert Taken(coins, i, j, ends + [b]) == Taken(coins, i, j, ends) + [y];
    } else {
      var e, tail := ends + [b], ends[1..];
      assert e[0] == ends[0] && e[1..] == tail + [b];
      if ends[0] {
        TakenSnoc(coins, i + 1, j, tail, b);
        assert Lefts(ends) == 1 + Lefts(tail);
        assert y == (if b then coins[i + 1 + Lefts(tail)] else coins[j - (|tail| - Lefts(tail))]);
        assert Taken(coins, i, j, e) == [coins[i]] + Taken(coins, i + 1, j, tail + [b]);
        assert Taken(coins, i, j, ends) == [coins[i]] + Taken(coins, i + 1, j, tail);
        SeqFacts.Regroup([coins[i]], Taken(coins, i + 1, j, tail), [y]);
        assert Taken(coins, i, j, e) == Taken(coins, i, j, ends) + [y];
      } else {
        TakenSnoc(coins, i, j - 1, tail, b);
        assert Lefts(ends) == Lefts(tail);
        assert y == (if b then coins[i + Lefts(tail)] else coins[j - 1 - (|tail| - Lefts(tail))]);
        assert Taken(coins, i, j, e) == [coins[j]] + Taken(coins, i, j - 1, tail + [b]);
        assert Taken(coins, i, j, ends) == [coins[j]] + Taken(coins, i, j - 1, tail);
        SeqFacts.Regroup([coins[j]], Taken(coins, i, j - 1, tail), [y]);
        assert Taken(coins, i, j, e) == Taken(coins, i, j, ends) + [y];
      }
    }
  }

  /** backtrack: replays the game from the whole row, the first player moving on
      odd move counts. Each move takes the left coin when its mover's memo entry
      says that was the best move, else the right one. It makes one move per
      coin, taking an end coin each time, the players alternate starting with the
      first, and the first player's coins total player_1 of the row. */
  method Backtrack(coins: seq<int>, memo: array2<(int, int)>) returns (result: seq<(int, int)>, ghost ends: seq<bool>)
    requires memo.Length0 == |coins| == memo.Length1
    requires |coins| > 0 ==> Solved(memo, coins, 0, |coins| - 1, 0)
    ensures |result| == |coins| == |ends|
    ensures forall k :: 0 <= k < |result| ==> result[k].0 == (if k % 2 == 0 then 1 else 2)
    ensures Taken(coins, 0, |coins| - 1, ends) == Coins(result)
    ensures FirstTotal(result) == P1(coins, 0, |coins| - 1)
  {
    result, ends := [], [];
    var i, j, moveCounter := 0, |coins| - 1, 0;
    while i <= j
      invariant Replayed(coins, i, j, moveCounter, ends, result)
      decreases j - i + 1
    {
      ghost var k := moveCounter;
      moveCounter := moveCounter + 1;
      TurnOf(|coins|, i, j, k);
      assert |coins| > 0 && InRow(coins, i, j);
      var m, left := Move(coins, memo, i, j, moveCounter % 2 == 1);
      ReplayStep(coins, i, j, k, ends, result, m, left);
      result, ends := result + [m], ends + [left];
      if left {
        i := i + 1;
      } else {
        j := j - 1;
      }
    }
    ReplayEnd(coins, i, j, moveCounter, ends, result);
  }

  /** The state of backtrack after `k` moves: the coins outside `i..j` were taken
      from the ends in the order `ends`, by moves whose players alternate, and the
      first player's total so far plus the value of what is left, with the next
      mover to move, is the value of the row. */
  ghost predicate Replayed(coins: seq<int>, i: int, j: int, k: int, ends: seq<bool>, moves: seq<(int, int)>) {
    0 <= i <= j + 1 <= |coins| && k == |moves| == |ends| == i + (|coins| - 1 - j) &&
    i == Lefts(ends) &&
    (forall q :: 0 <= q < |moves| ==> moves[q].0 == (if q % 2 == 0 then 1 else 2)) &&
    Taken(coins, 0, |coins| - 1, ends) == Coins(moves) &&
    FirstTotal(moves) + (if k % 2 == 0 then P1(coins, i, j) else P2(coins, i, j)) == P1(coins, 0, |coins| - 1)
  }

  /** Move `k + 1` is odd exactly when the first player is to move at `i..j`. */
  lemma TurnOf(n: int, i: int, j: int, k: int)
    requires k == i + (n - 1 - j)
    ensures FirstToMove(0, n - 1, i, j, 0) == ((k + 1) % 2 == 1) == (k % 2 == 0)
  {
  }

  lemma ReplayStep(coins: seq<int>, i: int, j: int, k: int, ends: seq<bool>, moves: seq<(int, int)>,
                   m: (int, int), left: bool)
    requires i <= j && Replayed(coins, i, j, k, ends, moves)
    requires m.0 == (if k % 2 == 0 then 1 else 2) && m.1 == (if left then coins[i] else coins[j])
    requires k % 2 == 0 ==> P1(coins, i, j) == m.1 + P2(coins, if left then i + 1 else i, if left then j else j - 1)
    requires k % 2 == 1 ==> P2(coins, i, j) == P1(coins, if left then i + 1 else i, if left then j else j - 1)
    ensures Replayed(coins, if left then i + 1 else i, if left then j else j - 1, k + 1, ends + [left], moves + [m])
  {
    var i', j' := if left then i + 1 else i, if left then j else j - 1;
    var ends', moves' := ends + [left], moves + [m];
    TakenSnoc(coins, 0, |coins| - 1, ends, left);
    MovesSnoc(moves, m);
    assert Taken(coins, 0, |coins| - 1, ends') == Coins(moves');
    assert forall q :: 0 <= q < |moves'| ==> moves'[q].0 == (if q % 2 == 0 then 1 else 2) by {
      forall q | 0 <= q < |moves'| ensures moves'[q].0 == (if q % 2 == 0 then 1 else 2) {
        if q < |moves| {
          assert moves'[q] == moves[q];
        }
      }
    }
    ValueStep(coins, i, j, k, FirstTotal(moves), m, left);
  }

  /** The first player's total plus the value of what is left stays the same over
      a move that follows the mover's best choice. */
  lemma ValueStep(coins: seq<int>, i: int, j: int, k: int, total: int, m: (int, int), left: bool)
    requires InRow(coins, i, j)
    requires total + (if k % 2 == 0 then P1(coins, i, j) else P2(coins, i, j)) == P1(coins, 0, |coins| - 1)
    requires m.0 == (if k % 2 == 0 then 1 else 2) && m.1 == (if left then coins[i] else coins[j])
    requires k % 2 == 0 ==> P1(coins, i, j) == m.1 + P2(coins, if left then i + 1 else i, if left then j else j - 1)
    requires k % 2 == 1 ==> P2(coins, i, j) == P1(coins, if left then i + 1 else i, if left then j else j - 1)
    ensures total + (if m.0 == 1 then m.1 else 0) +
            (if (k + 1) % 2 == 0 then P1(coins, if left then i + 1 else i, if left then j else j - 1)
             else P2(coins, if left then i + 1 else i, if left then j else j - 1))
            == P1(coins, 0, |coins| - 1)
  {
  }

  /** One more move adds its coin to the coins taken, and to the first player's
      total when it is the first player's. */
  lemma MovesSnoc(moves: seq<(int, int)>, m: (int, int))
    ensures Coins(moves + [m]) == Coins(moves) + [m.1]
    ensures FirstTotal(moves + [m]) == FirstTotal(moves) + (if m.0 == 1 then m.1 else 0)
  {
    assert (moves + [m])[..|moves|] == moves;
  }

  /** At the end every coin was taken. */
  lemma ReplayEnd(coins: seq<int>, i: int, j: int, k: int, ends: seq<bool>, moves: seq<(int, int)>)
    requires i == j + 1 && Replayed(coins, i, j, k, ends, moves)
    ensures |moves| == |coins| == |ends|
    ensures forall q :: 0 <= q < |moves| ==> moves[q].0 == (if q % 2 == 0 then 1 else 2)
    ensures Taken(coins, 0, |coins| - 1, ends) == Coins(moves)
    ensures FirstTotal(moves) == P1(coins, 0, |coins| - 1)
  {
  }

  /** One move of backtrack at `i..j`: the first player's when `first`. The left
      coin is taken when the mover's memo entry equals taking it, else the right
      one; the mover's value is the coin (for the first player) plus the other
      player's value of what is left. */
  method Move(coins: seq<int>, memo: array2<(int, int)>, i: int, j: int, first: bool)
    returns (m: (int, int), left: bool)
    requires memo.Length0 == |coins| == memo.Length1 && InRow(coins, i, j)
    requires Solved(memo, coins, 0, |coins| - 1, 0) && FirstToMove(0, |coins| - 1, i, j, 0) == first
    ensures m.0 == (if first then 1 else 2) && m.1 == (if left then coins[i] else coins[j])
    ensures first ==> P1(coins, i, j) == m.1 + P2(coins, if left then i + 1 else i, if left then j else j - 1)
    ensures !first ==> P2(coins, i, j) == P1(coins, if left then i + 1 else i, if left then j else j - 1)
  {
    if i < j {
      assert FirstToMove(0, |coins| - 1, i + 1, j, 0) == !first;
    }
    if first {
      if i == j || memo[i, j].0 == coins[i] + memo[i + 1, j].1 {
        m, left := (1, coins[i]), true;
      } else {
        m, left := (1, coins[j]), false;
      }
    } else {
      if i == j || memo[i, j].1 == memo[i + 1, j].0 {
        m, left := (2, coins[i]), true;
      } else {
        m, left := (2, coins[j]), false;
      }
    }
  }
}
