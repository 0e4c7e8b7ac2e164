/**
 * The JPEG quality search of `compress_image` (main.py, main_backup.py and
 * main_test.py): the image is saved at quality 70, then at 5 less each time,
 * until the encoding fits the byte budget or a quality below 30 has been tried.
 * The encoder is a parameter: `size(q)` is the byte count of the image saved
 * at quality `q`.
 */
module Quality {
  const StartQuality: int := 70
  const QualityStep: int := 5
  /** The search stops after the first attempt below this quality. */
  const Floor: int := 30
  /** The default `max_size` of one mebibyte. */
  const MaxBytes: nat := 1024 * 1024

  /** The qualities the search tries from `q` on when no encoding fits. */
  function Ladder(q: int): (l: seq<int>)
    ensures |l| >= 1 && l[0] == q
    decreases q
  {
    if q < Floor then [q] else [q] + Ladder(q - QualityStep)
  }

  /** The quality the search settles on from `q`: the first that fits, or the last rung. */
  function FirstFit(size: int -> nat, maxSize: int, q: int): int
    decreases q
  {
    if size(q) <= maxSize || q < Floor then q else FirstFit(size, maxSize, q - QualityStep)
  }

  /**
   * The loop of `compress_image`, from any starting quality: `quality` is the
   * last quality saved, `bytes` its size, and `rejected` the number of earlier
   * saves that came out too large.
   */
  method Search(size: int -> nat, maxSize: int, start: int) returns (quality: int, bytes: nat, rejected: nat)
    ensures quality == FirstFit(size, maxSize, start)
    ensures bytes == size(quality)
    ensures bytes <= maxSize || quality < Floor
    ensures quality + 5 * rejected == start
    ensures forall k :: 0 <= k < rejected ==> size(start - 5 * k) > maxSize && start - 5 * k >= Floor
  {
    quality := start;
    rejected := 0;
    bytes := size(quality);
    while true
      invariant quality + 5 * rejected == start
      invariant forall k :: 0 <= k < rejected ==> size(start - 5 * k) > maxSize && start - 5 * k >= Floor
      invariant FirstFit(size, maxSize, quality) == FirstFit(size, maxSize, start)
      decreases quality
    {
      bytes := size(quality);
      if bytes <= maxSize || quality < Floor {
        break;
      }
      rejected := rejected + 1;
      quality := quality - QualityStep;
    }
  }

  /**
   * `compress_image` starts the search at quality 70: it saves at most ten
   * times, each time at the next rung of the ladder 70, 65, ..., 25.
   */
  method Compress(size: int -> nat, maxSize: int) returns (quality: int, bytes: nat, rejected: nat)
    ensures quality == FirstFit(size, maxSize, StartQuality)
    ensures bytes == size(quality)
    ensures bytes <= maxSize || quality < Floor
    ensures rejected < |Ladder(StartQuality)| && quality == Ladder(StartQuality)[rejected]
    ensures forall k :: 0 <= k < rejected ==> size(Ladder(StartQuality)[k]) > maxSize
  {
    quality, bytes, rejected := Search(size, maxSize, StartQuality);
    LadderFromStart();
  }

  /** The search tries at most ten qualities: 70, 65, ..., 30 and finally 25. */
  lemma LadderFromStart()
    ensures Ladder(StartQuality) == [70, 65, 60, 55, 50, 45, 40, 35, 30, 25]
  {
  }

  /** `i` indexes `l`, and every quality before index `i` gave an encoding over the budget. */
  predicate TooLargeBefore(size: int -> nat, maxSize: int, l: seq<int>, i: int) {
    0 <= i < |l| && forall k :: 0 <= k < i ==> size(l[k]) > maxSize
  }

  /** The quality settled on is a rung of the ladder, and every rung before it was too large. */
  lemma {:induction false} FirstFitOnLadder(size: int -> nat, maxSize: int, q: int)
    ensures exists i :: TooLargeBefore(size, maxSize, Ladder(q), i) && Ladder(q)[i] == FirstFit(size, maxSize, q)
    decreases q
  {
    if !(size(q) <= maxSize || q < Floor) {
      FirstFitOnLadder(size, maxSize, q - QualityStep);
      var rest := Ladder(q - QualityStep);
      var i :| TooLargeBefore(size, maxSize, rest, i) && rest[i] == FirstFit(size, maxSize, q - QualityStep);
      assert Ladder(q) == [q] + rest;
      assert Ladder(q)[i + 1] == rest[i];
      forall k | 0 <= k < i + 1
        ensures size(Ladder(q)[k]) > maxSize
      {
        if k > 0 {
          assert Ladder(q)[k] == rest[k - 1];
        }
      }
    } else {
      assert Ladder(q)[0] == q;
    }
  }

  /**
   * The oversize warning after the loop is reached only when every quality on
   * the ladder, down to 25, gave an encoding over the budget.
   */
  lemma OversizeMeansAllTried(size: int -> nat, maxSize: int)
    requires size(FirstFit(size, maxSize, StartQuality)) > maxSize
    ensures FirstFit(size, maxSize, StartQuality) == 25
    ensures forall k :: 0 <= k < |Ladder(StartQuality)| ==> size(Ladder(StartQuality)[k]) > maxSize
  {
    LadderFromStart();
    FirstFitOnLadder(size, maxSize, StartQuality);
    var l := Ladder(StartQuality);
    var i :| TooLargeBefore(size, maxSize, l, i) && l[i] == FirstFit(size, maxSize, StartQuality);
    FirstFitStops(size, maxSize, StartQuality);
  }

  /** Where the search stops: an encoding that fits, or a quality below the floor. */
  lemma {:induction false} FirstFitStops(size: int -> nat, maxSize: int, q: int)
    ensures var f := FirstFit(size, maxSize, q); size(f) <= maxSize || f < Floor
    ensures FirstFit(size, maxSize, q) <= q
    decreases q
  {
    if !(size(q) <= maxSize || q < Floor) {
      FirstFitStops(size, maxSize, q - QualityStep);
    }
  }
}
