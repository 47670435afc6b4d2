/** LadderAdventureGame.java: the move rules of the ladder race on nodes 0..63. A green die
    moves forward, a red one backward, a five counts double, one ladder at most is climbed, and
    the first player to reach node 63 ends the game. */
module LadderAdventure {
  import opened Common
  import opened Ladders

  const TOTAL_NODES := 64

  class Player {
    const name: string
    var position: int
    var steps: seq<int>

    constructor (name: string)
      ensures this.name == name && position == 0 && steps == []
    {
      this.name := name;
      position := 0;
      steps := [];
    }

    /** Records one roll in the player's history. */
    method AddStep(step: int)
      modifies this`steps
      ensures steps == old(steps) + [step]
    {
      steps := steps + [step];
    }
  }

  /** The squares a roll of `roll` moves: a five counts double. */
  function ActualMove(roll: int): int
  {
    if roll == 5 then roll * 2 else roll
  }

  /** The node a move of `move` squares from `pos` aims at, clamped to the board. */
  function Target(pos: int, move: int, green: bool): (t: int)
    ensures 0 <= pos < TOTAL_NODES && move >= 0 ==> 0 <= t < TOTAL_NODES
    ensures green ==> t == pos + move || (t == TOTAL_NODES - 1 && pos + move > t)
    ensures !green ==> t == pos - move || (t == 0 && pos - move < 0)
  {
    if green then (if TOTAL_NODES - 1 < pos + move then TOTAL_NODES - 1 else pos + move)
    else (if 0 > pos - move then 0 else pos - move)
  }

  /** A die shows 1..6 and moves 1..10 squares, never exactly five. */
  lemma MoveRange(die: nat)
    ensures var m := ActualMove(die % 6 + 1); 1 <= m <= 10 && m != 5
    ensures die % 6 + 1 == 5 <==> ActualMove(die % 6 + 1) == 10
  {
  }

  /** The node a player on `pos` finishes a roll on, ladder included. */
  function Landing(ladders: seq<Ladder>, pos: int, roll: int, green: bool): int
  {
    Climb(ladders, Target(pos, ActualMove(roll), green))
  }

  /** With ladders that end below the last node, a roll keeps the player on the board, a green
      one never moves the player down, and only the move itself can reach the last node. */
  lemma LandingBounds(ladders: seq<Ladder>, pos: int, roll: int, green: bool)
    requires Upward(ladders, 0, TOTAL_NODES - 3) && 0 <= pos < TOTAL_NODES && 1 <= roll <= 6
    ensures 0 <= Landing(ladders, pos, roll, green) < TOTAL_NODES
    ensures green ==> pos <= Landing(ladders, pos, roll, green)
    ensures Landing(ladders, pos, roll, green) == TOTAL_NODES - 1 <==>
            Target(pos, ActualMove(roll), green) == TOTAL_NODES - 1
  {
    ClimbBounds(ladders, 0, TOTAL_NODES - 3, Target(pos, ActualMove(roll), green));
  }

  class Game {
    var players: seq<Player>
    var playerQueue: seq<Player>
    const ladders: seq<Ladder>
    var lastDiceRoll: int
    var lastDiceGreen: bool
    var isAnimating: bool
    var gameEnded: bool

    /** Every queued player is on the board; the game has ended exactly when the player at the
        head of the queue stands on the last node, and nobody else ever does. */
    ghost predicate Valid()
      reads this, playerQueue
    {
      && Upward(ladders, 0, TOTAL_NODES - 3)
      && (gameEnded ==> playerQueue != [] && playerQueue[0].position == TOTAL_NODES - 1)
      && forall p :: p in playerQueue ==>
           0 <= p.position < TOTAL_NODES - 1 || (gameEnded && p == playerQueue[0])
    }

    constructor ()
      ensures Valid() && ladders == LADDERS && players == [] && playerQueue == []
      ensures lastDiceRoll == 0 && lastDiceGreen && !isAnimating && !gameEnded
    {
      players := [];
      playerQueue := [];
      ladders := LADDERS;
      TableShape();
      lastDiceRoll := 0;
      lastDiceGreen := true;
      isAnimating := false;
      gameEnded := false;
    }

    /** Creates one player per name, at node 0, and queues them in that order. */
    method StartGameWithPlayers(names: seq<string>)
      requires Valid() && players == [] && playerQueue == [] && |names| <= MAX_PLAYERS
      modifies this`players, this`playerQueue
      ensures Valid() && players == playerQueue && |players| == |names|
      ensures forall i :: 0 <= i < |names| ==>
        fresh(players[i]) && players[i].name == names[i] && players[i].position == 0 && players[i].steps == []
    {
      var i := 0;
      while i < |names|
        invariant 0 <= i <= |names| && Valid() && players == playerQueue && |players| == i
        invariant forall j :: 0 <= j < i ==>
          fresh(players[j]) && players[j].name == names[j] && players[j].position == 0 && players[j].steps == []
      {
        var player := new Player(names[i]);
        players := players + [player];
        playerQueue := playerQueue + [player];
        i := i + 1;
      }
    }

    /** Climbs the first ladder whose bottom is the player's node, if any. */
    method CheckLadder(player: Player)
      modifies player`position
      ensures player.position == Climb(ladders, old(player.position))
    {
      var i := 0;
      while i < |ladders|
        invariant 0 <= i <= |ladders| && player.position == old(player.position)
        invariant forall j :: 0 <= j < i ==> ladders[j].bottom != player.position
      {
        if player.position == ladders[i].bottom {
          player.position := ladders[i].top;
          return;
        }
        i := i + 1;
      }
    }

    /** Moves the head of the queue to its tail. */
    method NextPlayer()
      modifies this`playerQueue
      ensures playerQueue == if old(playerQueue) == [] then [] else old(playerQueue[1..]) + [old(playerQueue[0])]
    {
      if playerQueue != [] {
        var p := playerQueue[0];
        playerQueue := playerQueue[1..] + [p];
      }
    }

    /** One press of the die button, with the animation played to its end: `die` is the draw
        behind `nextInt(6)` and `green` the outcome of the `nextDouble() < 0.7` test. */
    method RollDiceAction(die: nat, green: bool)
      requires Valid()
      modifies this`lastDiceRoll, this`lastDiceGreen, this`isAnimating, this`gameEnded, this`playerQueue
      modifies playerQueue
      ensures Valid()
      ensures old(isAnimating || gameEnded || playerQueue == []) ==>
        && unchanged(this) && forall p :: p in playerQueue ==> unchanged(p)
      ensures !old(isAnimating || gameEnded || playerQueue == []) ==>
        var p, roll := old(playerQueue[0]), die % 6 + 1;
        && lastDiceRoll == roll && lastDiceGreen == green && !isAnimating
        && p.steps == old(p.steps) + [roll]
        && p.position == Landing(ladders, old(p.position), roll, green)
        && (gameEnded <==> p.position == TOTAL_NODES - 1)
        && playerQueue == (if gameEnded then old(playerQueue) else old(playerQueue[1..]) + [p])
        && forall q :: q in old(playerQueue) && q != p ==> unchanged(q)
    {
      if isAnimating || gameEnded || playerQueue == [] {
        return;
      }
      var current := playerQueue[0];
      isAnimating := true;
      var roll := die % 6 + 1;
      lastDiceRoll := roll;
      lastDiceGreen := green;
      current.AddStep(roll);
      var actualMove := ActualMove(roll);
      var startPos := current.position;
      var targetPos := Target(startPos, actualMove, green);
      AnimatePlayerMovement(current, startPos, targetPos);
    }

    /** The end state of the move animation: the player stands on `targetPos`, climbs a ladder
        from there, and either wins or hands the turn to the next player. */
    method AnimatePlayerMovement(player: Player, startPos: int, targetPos: int)
      requires Valid() && !gameEnded && playerQueue != [] && player == playerQueue[0]
      requires 0 <= targetPos < TOTAL_NODES
      modifies this`isAnimating, this`gameEnded, this`playerQueue, player`position
      ensures Valid() && !isAnimating
      ensures player.position == Climb(ladders, targetPos)
      ensures gameEnded <==> player.position == TOTAL_NODES - 1
      ensures playerQueue == if gameEnded then old(playerQueue) else old(playerQueue[1..]) + [player]
    {
      ClimbBounds(ladders, 0, TOTAL_NODES - 3, targetPos);
      player.position := targetPos;
      CheckLadder(player);
      if player.position >= TOTAL_NODES - 1 {
        gameEnded := true;
        isAnimating := false;
        return;
      }
      NextPlayer();
      isAnimating := false;
    }
  }

  /** `GamePanel.getNodePosition`: node `n` is drawn on square `Square(n)` of the board. */
  function NodePosition(nodeNum: int): (p: Pos)
    ensures 0 <= nodeNum < TOTAL_NODES ==> 60 <= p.x < 60 + BOARD_COLS * NODE_SIZE && 60 <= p.y < 60 + BOARD_ROWS * NODE_SIZE
  {
    SquareOnBoard(if 0 <= nodeNum < TOTAL_NODES then nodeNum else 0);
    Centre(Square(nodeNum))
  }
}
