/** The column update of the easter egg's character rain in script.js. Each
    canvas column has a drop counter, in rows of `FontSize` pixels; every
    frame moves each drop one row down, and a drop already past the bottom
    edge restarts at the top when its column's coin comes up. The coin is
    `Math.random() > 0.975`, supplied here as one boolean per column. */
module MatrixRain {

  /** Glyph height in pixels (`fontSize`). */
  const FontSize: nat := 14

  /** `Array(Math.floor(canvas.width / fontSize)).fill(1)`. */
  function InitialDrops(width: nat): (drops: seq<int>)
    ensures |drops| == width / FontSize
    ensures forall i :: 0 <= i < |drops| ==> drops[i] == 1
  {
    seq(width / FontSize, _ => 1)
  }

  /** Whether a drop has gone past the bottom edge of the canvas. */
  predicate PastBottom(drop: int, height: int)
  {
    drop * FontSize > height
  }

  /** One column's update in one frame: reset to 0 and then incremented. */
  function NextDrop(drop: int, height: int, coin: bool): int
  {
    if PastBottom(drop, height) && coin then 1 else drop + 1
  }

  /** A whole frame, column by column. */
  function Frame(drops: seq<int>, height: int, coins: seq<bool>): (next: seq<int>)
    requires |coins| == |drops|
    ensures |next| == |drops|
  {
    seq(|drops|, i requires 0 <= i < |drops| => NextDrop(drops[i], height, coins[i]))
  }

  /** The loop of `drawMatrix`, updating the drops in place. */
  method UpdateDrops(drops: seq<int>, height: int, coins: seq<bool>) returns (next: seq<int>)
    requires |coins| == |drops|
    ensures |next| == |drops|
    ensures forall i :: 0 <= i < |drops| && PastBottom(drops[i], height) && coins[i] ==> next[i] == 1
    ensures forall i :: 0 <= i < |drops| && !(PastBottom(drops[i], height) && coins[i]) ==>
      next[i] == drops[i] + 1
    ensures next == Frame(drops, height, coins)
  {
    var a := new int[|drops|];
    var i := 0;
    while i < |drops|
      invariant 0 <= i <= |drops|
      invariant forall k :: 0 <= k < i ==> a[k] == NextDrop(drops[k], height, coins[k])
    {
      a[i] := drops[i];
      if a[i] * FontSize > height && coins[i] {
        a[i] := 0;
      }
      a[i] := a[i] + 1;
      i := i + 1;
    }
    next := a[..];
  }

  /** The drops after a number of frames, one coin vector per frame. */
  function Animate(drops: seq<int>, height: int, frames: seq<seq<bool>>): (r: seq<int>)
    requires forall t :: 0 <= t < |frames| ==> |frames[t]| == |drops|
    ensures |r| == |drops|
    decreases |frames|
  {
    if |frames| == 0 then drops
    else
      var before := Animate(drops, height, frames[..|frames| - 1]);
      Frame(before, height, frames[|frames| - 1])
  }

  /** A drop is reset only past the bottom edge, and only to the top row;
      every other drop moves down one row. */
  lemma ResetOnlyPastBottom(drops: seq<int>, height: int, coins: seq<bool>, i: nat)
    requires |coins| == |drops| && i < |drops|
    requires drops[i] >= 1
    ensures Frame(drops, height, coins)[i] == 1 <==> PastBottom(drops[i], height) && coins[i]
    ensures Frame(drops, height, coins)[i] != 1 ==> Frame(drops, height, coins)[i] == drops[i] + 1
  {
  }

  /** Starting from the initial drops, every drop stays at row 1 or below and
      at most one row per frame from the top. */
  lemma {:induction false} DropsStayInRange(width: nat, height: int, frames: seq<seq<bool>>)
    requires forall t :: 0 <= t < |frames| ==> |frames[t]| == width / FontSize
    ensures forall i :: 0 <= i < width / FontSize ==>
      1 <= Animate(InitialDrops(width), height, frames)[i] <= |frames| + 1
    decreases |frames|
  {
    if |frames| > 0 {
      var last := frames[|frames| - 1];
      var before := Animate(InitialDrops(width), height, frames[..|frames| - 1]);
      DropsStayInRange(width, height, frames[..|frames| - 1]);
      assert |frames[..|frames| - 1]| == |frames| - 1;
      assert forall i :: 0 <= i < |before| ==> 1 <= before[i] <= |frames|;
      var r := Frame(before, height, last);
      assert r == Animate(InitialDrops(width), height, frames);
      forall i | 0 <= i < |r|
        ensures 1 <= r[i] <= |frames| + 1
      {
        assert r[i] == NextDrop(before[i], height, last[i]);
      }
    }
  }

  /** While no column has yet passed the bottom edge the coins play no part:
      after `k` frames every drop is at row `k + 1`. */
  lemma {:induction false} LockstepBeforeBottom(width: nat, height: int, frames: seq<seq<bool>>)
    requires forall t :: 0 <= t < |frames| ==> |frames[t]| == width / FontSize
    requires |frames| * FontSize <= height
    ensures forall i :: 0 <= i < width / FontSize ==>
      Animate(InitialDrops(width), height, frames)[i] == |frames| + 1
    decreases |frames|
  {
    if |frames| > 0 {
      var last := frames[|frames| - 1];
      var before := Animate(InitialDrops(width), height, frames[..|frames| - 1]);
      LockstepBeforeBottom(width, height, frames[..|frames| - 1]);
      assert |frames[..|frames| - 1]| == |frames| - 1;
      assert forall i :: 0 <= i < |before| ==> before[i] == |frames|;
      var r := Frame(before, height, last);
      assert r == Animate(InitialDrops(width), height, frames);
      forall i | 0 <= i < |r|
        ensures r[i] == |frames| + 1
      {
        assert before[i] == |frames|;
        assert !PastBottom(before[i], height);
        assert r[i] == NextDrop(before[i], height, last[i]);
      }
    }
  }
}
