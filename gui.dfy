/** The numeric bookkeeping of the on-screen text: status, score, best score and countdown. */
module Guis {
  import opened Utils

  function MaxInt(a: int, b: int): int { if a >= b then a else b }

  class Gui {
    var status: Status
    var index: int
    var score: int
    var bestScore: int
    var timeout: int

    /** Builds the texts only; the numeric fields are set by Init. */
    constructor ()
    {
    }

    /**
     * Resets the bookkeeping and loads the font; `fontLoads` stands for the
     * outcome of the font load, and a failed load makes Init return false.
     */
    method Init(fontLoads: bool) returns (ok: bool)
      modifies this
      ensures status == Menu && index == 0 && score == 0 && bestScore == 0 && timeout == 0
      ensures ok == fontLoads
    {
      status := Menu;
      index := 0;
      score := 0;
      bestScore := 0;
      timeout := 0;
      if !fontLoads {
        return false;
      }
      return true;
    }

    /** Stores a new score; the score text is rebuilt only when the value changes. */
    method SetScore(score: int)
      modifies this
      ensures this.score == score
      ensures status == old(status) && index == old(index)
      ensures bestScore == old(bestScore) && timeout == old(timeout)
    {
      if this.score != score {
        this.score := score;
      }
    }

    /** Stores a new countdown value; the countdown text is rebuilt only when the value changes. */
    method SetTimeout(timeout: int)
      modifies this
      ensures this.timeout == timeout
      ensures status == old(status) && index == old(index)
      ensures score == old(score) && bestScore == old(bestScore)
    {
      if timeout != this.timeout {
        this.timeout := timeout;
      }
    }

    /**
     * Enters a status: PLAYING clears the score, READY shows a countdown of 3,
     * GAME_OVER records the best score.
     */
    method SetStatus(status: Status)
      modifies this
      ensures this.status == status && index == 0
      ensures score == if status == Playing then 0 else old(score)
      ensures timeout == if status == Ready then 3 else old(timeout)
      ensures bestScore == if status == GameOver then MaxInt(old(score), old(bestScore)) else old(bestScore)
      ensures bestScore >= old(bestScore)
      ensures status == GameOver ==> bestScore >= score
    {
      index := 0;
      this.status := status;
      if status == Playing {
        SetScore(0);
      }
      if status == Ready {
        SetTimeout(3);
      }
      if status == GameOver {
        bestScore := MaxInt(score, bestScore);
      }
    }
  }
}
