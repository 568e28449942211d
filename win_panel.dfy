/**
 * The end-of-stage panel (`UIWinPanel`): on `StageComplete` it shows one
 * star per score threshold the final score beats, then shows the panel.
 *
 * The score arrives as the event's message, cast to `int`; the thresholds
 * are those of the current stage. `SetActive(true)` on a GameObject is
 * modelled by setting a boolean field.
 */
module WinPanel {
  /** The score thresholds of a stage (`StageData`). */
  datatype StageData = StageData(star1Score: int, star2Score: int, star3Score: int)

  /** Which of the three stars a score earns. */
  datatype Stars = Stars(first: bool, second: bool, third: bool)

  /**
   * Each star is decided on its own by a strict comparison with its
   * threshold. When the thresholds do not decrease, the earned stars are a
   * prefix: a later star is only earned with the earlier ones.
   */
  function EarnedStars(score: int, stage: StageData): (r: Stars)
    ensures stage.star1Score <= stage.star2Score ==> (r.second ==> r.first)
    ensures stage.star2Score <= stage.star3Score ==> (r.third ==> r.second)
  {
    Stars(score > stage.star1Score, score > stage.star2Score, score > stage.star3Score)
  }

  /** The number of stars shown. */
  function StarCount(s: Stars): (n: nat)
    ensures n <= 3
    ensures n == 0 <==> !s.first && !s.second && !s.third
    ensures n == 3 <==> s.first && s.second && s.third
  {
    (if s.first then 1 else 0) + (if s.second then 1 else 0) + (if s.third then 1 else 0)
  }

  /** With non-decreasing thresholds the count alone says which stars are earned. */
  lemma PrefixFromCount(score: int, stage: StageData)
    requires stage.star1Score <= stage.star2Score <= stage.star3Score
    ensures var s := EarnedStars(score, stage); var n := StarCount(s);
      s == Stars(n >= 1, n >= 2, n >= 3)
  {
  }

  /** A higher score never loses a star. */
  lemma EarnedMonotone(score: int, better: int, stage: StageData)
    requires score <= better
    ensures EarnedStars(score, stage).first ==> EarnedStars(better, stage).first
    ensures EarnedStars(score, stage).second ==> EarnedStars(better, stage).second
    ensures EarnedStars(score, stage).third ==> EarnedStars(better, stage).third
    ensures StarCount(EarnedStars(score, stage)) <= StarCount(EarnedStars(better, stage))
  {
  }

  /** The comparison is strict: reaching a threshold exactly earns nothing, one more earns the star. */
  lemma ThresholdIsExclusive(stage: StageData)
    ensures !EarnedStars(stage.star1Score, stage).first && EarnedStars(stage.star1Score + 1, stage).first
    ensures !EarnedStars(stage.star2Score, stage).second && EarnedStars(stage.star2Score + 1, stage).second
    ensures !EarnedStars(stage.star3Score, stage).third && EarnedStars(stage.star3Score + 1, stage).third
  {
  }

  /**
   * Nothing ties the thresholds together: with decreasing thresholds a score
   * can earn the third star without the first.
   */
  lemma StarsAreIndependent()
    ensures EarnedStars(15, StageData(20, 10, 5)) == Stars(false, true, true)
  {
  }

  class UIWinPanel {
    var winnerPanel: bool
    var star1: bool
    var star2: bool
    var star3: bool

    /** The four GameObjects with the activation the scene gives them. */
    constructor (winnerPanel: bool, star1: bool, star2: bool, star3: bool)
      ensures this.winnerPanel == winnerPanel && this.star1 == star1
      ensures this.star2 == star2 && this.star3 == star3
    {
      this.winnerPanel, this.star1, this.star2, this.star3 := winnerPanel, star1, star2, star3;
    }

    /**
     * The `StageComplete` listener: activates each earned star and the
     * panel. Nothing is deactivated, so a star already shown stays shown.
     */
    method OnStageComplete(score: int, stage: StageData)
      modifies this
      ensures winnerPanel
      ensures star1 == (old(star1) || EarnedStars(score, stage).first)
      ensures star2 == (old(star2) || EarnedStars(score, stage).second)
      ensures star3 == (old(star3) || EarnedStars(score, stage).third)
    {
      if score > stage.star1Score {
        star1 := true;
      }
      if score > stage.star2Score {
        star2 := true;
      }
      if score > stage.star3Score {
        star3 := true;
      }
      winnerPanel := true;
    }
  }

  /**
   * On a panel whose stars the scene leaves inactive, one stage completion
   * shows exactly the earned stars.
   */
  method FirstCompletion(score: int, stage: StageData, panelActive: bool) returns (panel: UIWinPanel)
    ensures panel.winnerPanel
    ensures Stars(panel.star1, panel.star2, panel.star3) == EarnedStars(score, stage)
  {
    panel := new UIWinPanel(panelActive, false, false, false);
    panel.OnStageComplete(score, stage);
  }
}
