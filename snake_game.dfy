/** SnakeBoardGame.java: the move rules of the ladders-only race on nodes 1..64. An even roll
    moves forward, an odd one backward, one ladder at most is climbed, and reaching node 64 wins. */
module SnakeBoard {
  import opened Common
  import opened Ladders

  const TOTAL_NODES := 64

  class Player {
    const name: string
    var position: int
    var steps: seq<int>

    constructor (name: string)
      ensures this.name == name && position == 1 && steps == []
    {
      this.name := name;
      position := 1;
      steps := [];
    }

    /** Records one roll in the player's history. */
    method AddStep(step: int)
      modifies this`steps
      ensures steps == old(steps) + [step]
    {
      steps := steps + [step];
    }
  }

  /** Where a roll of `roll` from `pos` moves to, before any ladder: forward on an even roll,
      backward on an odd one, clamped to 1..64. */
  function Move(pos: int, roll: int): (t: int)
    ensures 1 <= pos <= TOTAL_NODES && roll >= 0 ==> 1 <= t <= TOTAL_NODES
    ensures roll % 2 == 0 ==> t == pos + roll || (t == TOTAL_NODES && pos + roll > t)
    ensures roll % 2 != 0 ==> t == pos - roll || (t == 1 && pos - roll < 1)
  {
    if roll % 2 == 0 then (if TOTAL_NODES < pos + roll then TOTAL_NODES else pos + roll)
    else (if 1 > pos - roll then 1 else pos - roll)
  }

  /** The node a player on `pos` finishes a roll on, ladder included. */
  function Landing(ladders: seq<Ladder>, pos: int, roll: int): int
  {
    Climb(ladders, Move(pos, roll))
  }

  /** A roll keeps the player on nodes 1..64, so the "back to node 0" sound is never played, and
      with ladders ending below node 64 only the move itself reaches the last node. */
  lemma LandingBounds(ladders: seq<Ladder>, pos: int, roll: int)
    requires Upward(ladders, 1, TOTAL_NODES - 3) && 1 <= pos <= TOTAL_NODES && 1 <= roll <= 6
    ensures 1 <= Landing(ladders, pos, roll) <= TOTAL_NODES && Landing(ladders, pos, roll) != 0
    ensures roll % 2 == 0 ==> pos <= Landing(ladders, pos, roll)
    ensures Landing(ladders, pos, roll) == TOTAL_NODES <==> Move(pos, roll) == TOTAL_NODES
  {
    ClimbBounds(ladders, 1, TOTAL_NODES - 3, Move(pos, roll));
  }

  lemma LaddersFit()
    ensures Upward(LADDERS, 1, TOTAL_NODES - 3)
  {
    TableShape();
  }

  class Game {
    var players: seq<Player>
    var playerQueue: seq<Player>
    const ladders: seq<Ladder>
    var lastDiceRoll: int
    var lastDiceGreen: bool
    /** Whether the roll button is enabled: a roll disables it. */
    var rollEnabled: bool
    /** Whether the one-second timer that calls `nextTurnAction` is pending. */
    var turnPending: bool

    /** Every queued player is on nodes 1..64; only the head of the queue can stand on node 64,
        and then the game is over: the button stays disabled and no turn is pending. */
    ghost predicate Valid()
      reads this, playerQueue
    {
      && Upward(ladders, 1, TOTAL_NODES - 3)
      && !(rollEnabled && turnPending)
      && forall p :: p in playerQueue ==>
           1 <= p.position < TOTAL_NODES || (p == playerQueue[0] && !rollEnabled && !turnPending)
    }

    constructor ()
      ensures Valid() && ladders == LADDERS && players == [] && playerQueue == []
      ensures lastDiceRoll == 0 && lastDiceGreen && !turnPending
    {
      players := [];
      playerQueue := [];
      ladders := LADDERS;
      LaddersFit();
      lastDiceRoll := 0;
      lastDiceGreen := true;
      rollEnabled := false;
      turnPending := false;
    }

    /** Creates one player per name, on node 1, queues them in that order and enables the
        button. */
    method StartGameWithPlayers(names: seq<string>)
      requires Valid() && players == [] && playerQueue == [] && !turnPending && |names| <= MAX_PLAYERS
      modifies this`players, this`playerQueue, this`rollEnabled
      ensures Valid() && rollEnabled && players == playerQueue && |players| == |names|
      ensures forall i :: 0 <= i < |names| ==>
        fresh(players[i]) && players[i].name == names[i] && players[i].position == 1 && players[i].steps == []
    {
      var i := 0;
      rollEnabled := true;
      while i < |names|
        invariant 0 <= i <= |names| && Valid() && rollEnabled && players == playerQueue && |players| == i
        invariant forall j :: 0 <= j < i ==>
          fresh(players[j]) && players[j].name == names[j] && players[j].position == 1 && players[j].steps == []
      {
        var player := new Player(names[i]);
        players := players + [player];
        playerQueue := playerQueue + [player];
        i := i + 1;
      }
    }

    /** Climbs the first ladder whose bottom is the player's node, if any. */
    method CheckLadder(player: Player)
      modifies player`position
      ensures player.position == Climb(ladders, old(player.position))
    {
      var i := 0;
      while i < |ladders|
        invariant 0 <= i <= |ladders| && player.position == old(player.position)
        invariant forall j :: 0 <= j < i ==> ladders[j].bottom != player.position
      {
        if player.position == ladders[i].bottom {
          player.position := ladders[i].top;
          return;
        }
        i := i + 1;
      }
    }

    /** One press of the (enabled) die button: `die` is the draw behind `nextInt(6)`. With no
        player queued nothing happens. Otherwise the button is disabled; a roll that does not
        win leaves the next turn pending, a winning roll leaves the button disabled for good. */
    method RollDiceAction(die: nat)
      requires Valid() && rollEnabled
      modifies this`lastDiceRoll, this`lastDiceGreen, this`rollEnabled, this`turnPending, playerQueue
      ensures Valid() && playerQueue == old(playerQueue)
      ensures old(playerQueue) == [] ==> unchanged(this)
      ensures old(playerQueue) != [] ==>
        var p, roll := playerQueue[0], die % 6 + 1;
        && !rollEnabled && lastDiceRoll == roll && (lastDiceGreen <==> roll % 2 == 0)
        && p.steps == old(p.steps) + [roll]
        && p.position == Landing(ladders, old(p.position), roll)
        && (turnPending <==> p.position < TOTAL_NODES)
        && forall q :: q in playerQueue && q != p ==> unchanged(q)
    {
      if playerQueue == [] {
        return;
      }
      var current := playerQueue[0];
      var roll := die % 6 + 1;
      lastDiceRoll := roll;
      lastDiceGreen := roll % 2 == 0;
      current.AddStep(roll);
      LandingBounds(ladders, current.position, roll);
      var newPos := Move(current.position, roll);
      current.position := newPos;
      CheckLadder(current);
      rollEnabled := false;
      if current.position >= TOTAL_NODES {
        return;
      }
      turnPending := true;
    }

    /** The pending timer fires: the head of the queue moves to its tail and the button is
        enabled again. */
    method NextTurnAction()
      requires Valid() && turnPending
      modifies this`playerQueue, this`rollEnabled, this`turnPending
      ensures Valid() && rollEnabled && !turnPending
      ensures playerQueue == if old(playerQueue) == [] then [] else old(playerQueue[1..]) + [old(playerQueue[0])]
    {
      turnPending := false;
      if playerQueue != [] {
        var p := playerQueue[0];
        playerQueue := playerQueue[1..] + [p];
      }
      rollEnabled := true;
    }
  }

  /** `GamePanel.getNodePosition`: node `n` (counted from 1) is drawn on square `Square(n - 1)`. */
  function NodePosition(nodeNum: int): (p: Pos)
    ensures 1 <= nodeNum <= TOTAL_NODES ==> 60 <= p.x < 60 + BOARD_COLS * NODE_SIZE && 60 <= p.y < 60 + BOARD_ROWS * NODE_SIZE
  {
    SquareOnBoard(if 1 <= nodeNum <= TOTAL_NODES then nodeNum - 1 else 0);
    Centre(Square(nodeNum - 1))
  }
}
