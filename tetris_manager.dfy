// The score table and the score accumulator (Assets/Scripts/TetrisManager.cs).

module Manager {

  class TetrisManager {
    var score: int
    /** The game-over flag that Board.cs reads and sets through `SetGameOver`. */
    var gameOver: bool
    /** How many times `OnScoreChanged` has been invoked. */
    ghost var notifications: nat

    constructor ()
      ensures score == 0 && !gameOver && notifications == 0
    {
      score := 0;
      gameOver := false;
      notifications := 0;
    }

    /** `Start`: the score is reset to zero and listeners are notified. */
    method Start()
      modifies this
      ensures score == 0 && gameOver == old(gameOver)
      ensures notifications == old(notifications) + 1
    {
      score := 0;
      ChangeScore(0);
    }

    /** The points for clearing `linesCleared` rows with one lock. */
    static function CalculateScore(linesCleared: int): (r: int)
      ensures 0 <= r <= 800
      ensures r > 0 <==> 1 <= linesCleared <= 4
    {
      if linesCleared == 0 then 0
      else if linesCleared == 1 then 100
      else if linesCleared == 2 then 300
      else if linesCleared == 3 then 500
      else if linesCleared == 4 then 800
      else 0
    }

    /** `ChangeScore`: adds `amount` to the score and notifies listeners. */
    method ChangeScore(amount: int)
      modifies this
      ensures score == old(score) + amount && gameOver == old(gameOver)
      ensures notifications == old(notifications) + 1
    {
      score := score + amount;
      notifications := notifications + 1;
    }

    method SetGameOver(value: bool)
      modifies this
      ensures gameOver == value && score == old(score) && notifications == old(notifications)
    {
      gameOver := value;
    }
  }

  /** The table: no line scores 0, then 100, 300, 500 and 800 for one to four lines. */
  lemma ScoreTable()
    ensures TetrisManager.CalculateScore(0) == 0
    ensures TetrisManager.CalculateScore(1) == 100
    ensures TetrisManager.CalculateScore(2) == 300
    ensures TetrisManager.CalculateScore(3) == 500
    ensures TetrisManager.CalculateScore(4) == 800
  {
  }

  /** Any other count, negative ones included, scores nothing. */
  lemma ScoreOutsideTable(linesCleared: int)
    requires linesCleared < 0 || linesCleared > 4
    ensures TetrisManager.CalculateScore(linesCleared) == 0
  {
  }

  /** Clearing more lines at once (up to four) always scores strictly more. */
  lemma ScoreIncreasing(fewer: int, more: int)
    requires 0 <= fewer < more <= 4
    ensures TetrisManager.CalculateScore(fewer) < TetrisManager.CalculateScore(more)
  {
  }
}
