/**
 `main`: ten trials of the grid fill over the same image, each trial's rows
 handed out in its own run-time order, then the image is saved as PGM.
 The image is declared without an initialiser, so it arrives here holding
 whatever it holds; the timing of the trials and the messages printed
 about it are not modelled.
 */
module Program {
  import opened Grid
  import opened Pgm

  /** N, the number of trials. */
  const Trials: int := 10

  /**
   The body of `main`: schedules[k] is the order in which trial k's rows
   are claimed. Whatever the orders, and whatever the image held before,
   the text saved is that of the rendered image.
   */
  method Run(image: array2<int>, schedules: seq<seq<int>>) returns (text: string)
    requires image.Length0 == Height && image.Length1 == Width
    requires |schedules| == Trials
    requires forall k :: 0 <= k < |schedules| ==> CoversRows(schedules[k])
    modifies image
    ensures GridOf(image) == Rendered()
    ensures text == PgmText(Rendered())
  {
    for k := 0 to Trials
      invariant k > 0 ==> GridOf(image) == Rendered()
    {
      FillGridScheduled(image, schedules[k]);
    }
    text := SavePgm(image);
  }
}
