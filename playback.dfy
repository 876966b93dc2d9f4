/** The playback component of UniGifImage.cs: a state machine over
    None, Loading, Ready, Playing and Pause that shows the decoded frames
    one after another, each for its delay, and counts completed loops.

    Time is an integer clock in hundredths of a second, passed to the
    methods that read `Time.time`; the frame shown on the target image is
    the `shown` field. */
module Playback {
  import C = Common
  import D = Decoder
  import B = BitReader

  datatype State = None | Loading | Ready | Playing | Pause

  /** The outcome of one frame change: the next frame index and loop
      counter, or the end of playback with the final loop counter. */
  datatype Advanced = Next(index: int, loops: int) | Stopped(loops: int)

  /** The frame change of `Update` over `count` frames: the index moves
      on and wraps to 0 at `count`; on a wrap with a positive loop count
      the counter goes up, and playback stops once it reaches the loop
      count. */
  function Advance(index: int, loops: int, count: nat, loopCount: int): (r: Advanced)
    requires 0 <= index < count
    ensures r.Next? ==> 0 <= r.index < count
    ensures r.Next? && r.index > 0 ==> r.index == index + 1 && r.loops == loops
    ensures r.Stopped? ==> loopCount > 0 && index == count - 1 && r.loops == loops + 1 >= loopCount
    ensures loopCount <= 0 ==> r == Next(if index + 1 == count then 0 else index + 1, loops)
  {
    var i := index + 1;
    if i >= count then
      if loopCount > 0 then
        if loops + 1 >= loopCount then Stopped(loops + 1) else Next(0, loops + 1)
      else Next(0, loops)
    else Next(i, loops)
  }

  /** Where playback stands after t frame changes since `Play`. */
  function Run(count: nat, loopCount: int, t: nat): (r: Advanced)
    requires count > 0
  {
    if t == 0 then Next(0, 0)
    else match Run(count, loopCount, t - 1)
      case Stopped(l) => Stopped(l)
      case Next(i, l) =>
        if 0 <= i < count then Advance(i, l, count, loopCount) else Stopped(l)
  }

  /** With loop count 0 playback never stops and frame t mod count is
      shown after t changes; with loop count n > 0 it shows frame
      t mod count after completing t / count loops, and stops exactly at
      the change n * count, having shown every frame n times. */
  lemma {:induction false} RunLoops(count: nat, loopCount: int, t: nat)
    requires count > 0 && loopCount >= 0
    ensures loopCount == 0 ==> Run(count, loopCount, t) == Next(t % count, 0)
    ensures loopCount > 0 && t < loopCount * count ==> Run(count, loopCount, t) == Next(t % count, t / count)
    ensures loopCount > 0 && t >= loopCount * count ==> Run(count, loopCount, t) == Stopped(loopCount)
  {
    LoopsBelow(count, loopCount, t);
    if t == 0 {
      B.DivModUnique(0, count, 0, 0);
    } else {
      RunLoops(count, loopCount, t - 1);
      LoopsBelow(count, loopCount, t - 1);
      WrapStep(count, t);
      var prev := Run(count, loopCount, t - 1);
      if prev.Next? {
        assert Run(count, loopCount, t) == Advance(prev.index, prev.loops, count, loopCount);
      }
    }
  }

  /** One more frame change moves t mod count on by one, or wraps it to
      0 and completes a loop. */
  lemma WrapStep(count: nat, t: nat)
    requires count > 0 && t > 0
    ensures (t - 1) % count + 1 < count ==> t % count == (t - 1) % count + 1 && t / count == (t - 1) / count
    ensures (t - 1) % count + 1 == count ==> t % count == 0 && t / count == (t - 1) / count + 1
  {
    var q, r := (t - 1) / count, (t - 1) % count;
    if r + 1 < count {
      B.DivModUnique(t, count, q, r + 1);
    } else {
      B.DivModUnique(t, count, q + 1, 0);
    }
  }

  /** Fewer than n * count changes means fewer than n completed loops. */
  lemma LoopsBelow(count: nat, loopCount: int, t: nat)
    requires count > 0 && loopCount >= 0
    ensures t < loopCount * count <==> t / count < loopCount
  {
    var q, r := t / count, t % count;
    assert t == count * q + r;
    if q < loopCount {
      assert count * (q + 1) <= count * loopCount;
    } else {
      assert count * q >= count * loopCount;
    }
  }

  /** The component, with the fields its methods update. */
  class UniGifImage {
    var nowState: State
    var gifTextureList: C.Option<seq<D.GifTexture>>
    var delayTime: int        // clock time at which the next frame is due
    var gifTextureIndex: int
    var nowLoopCount: int
    var loopCount: int        // 0 plays forever
    var width: int
    var height: int
    var hasRawImage: bool     // whether the target image is set
    var shown: C.Option<seq<D.Color32>>   // the target image's texture

    /** While playing or paused there is a target image and a frame list,
        the index is one of its frames, and fewer loops than the loop
        count are complete. */
    ghost predicate Valid()
      reads this
    {
      && loopCount >= 0
      && (nowState == Playing || nowState == State.Pause ==>
            && hasRawImage
            && gifTextureList.Some?
            && 0 <= gifTextureIndex < |gifTextureList.value|
            && 0 <= nowLoopCount
            && (loopCount > 0 ==> nowLoopCount < loopCount))
    }

    constructor (hasRawImage: bool)
      ensures Valid() && nowState == None && gifTextureList.None? && shown.None?
      ensures this.hasRawImage == hasRawImage
    {
      nowState := None;
      gifTextureList := C.None;
      delayTime, gifTextureIndex, nowLoopCount := 0, 0, 0;
      loopCount, width, height := 0, 0, 0;
      this.hasRawImage := hasRawImage;
      shown := C.None;
    }

    /** The `Playing` branch of `Update`: once the current frame's delay
        has run out, show the next frame, or stop after the last loop. */
    method Update(now: int)
      requires Valid()
      modifies this
      ensures Valid()
      ensures old(nowState) != Playing || old(delayTime) > now ==> unchanged(this)
      ensures unchanged(this`gifTextureList, this`loopCount, this`width, this`height, this`hasRawImage)
      ensures old(nowState) == Playing && old(delayTime) <= now ==>
        && gifTextureList.Some? && 0 <= old(gifTextureIndex) < |gifTextureList.value|
        && var list := gifTextureList.value;
        match Advance(old(gifTextureIndex), old(nowLoopCount), |list|, loopCount)
        case Stopped(l) =>
          && nowState == Ready && gifTextureIndex == 0 && nowLoopCount == l
          && delayTime == old(delayTime) && shown == old(shown)
        case Next(i, l) =>
          && nowState == Playing && gifTextureIndex == i && nowLoopCount == l
          && shown == C.Some(list[i].pixels) && delayTime == now + list[i].delay
    {
      if nowState != Playing {
        return;
      }
      if !hasRawImage || gifTextureList.None? || |gifTextureList.value| <= 0 {
        return;
      }
      if delayTime > now {
        return;
      }
      // Change texture
      gifTextureIndex := gifTextureIndex + 1;
      if gifTextureIndex >= |gifTextureList.value| {
        gifTextureIndex := 0;
        if loopCount > 0 {
          nowLoopCount := nowLoopCount + 1;
          if nowLoopCount >= loopCount {
            Stop();
            return;
          }
        }
      }
      shown := C.Some(gifTextureList.value[gifTextureIndex].pixels);
      delayTime := now + gifTextureList.value[gifTextureIndex].delay;
    }

    /** The state changes of `SetGifFromUrlCoroutine` before the download:
        an empty URL or a load already in progress is refused. */
    method BeginLoad(url: string) returns (started: bool)
      requires Valid()
      modifies this
      ensures Valid()
      ensures started <==> |url| > 0 && old(nowState) != Loading
      ensures started ==> nowState == Loading
      ensures started ==> unchanged(this`gifTextureList, this`delayTime, this`gifTextureIndex, this`nowLoopCount, this`shown)
      ensures started ==> unchanged(this`loopCount, this`width, this`height, this`hasRawImage)
      ensures !started ==> unchanged(this)
    {
      if |url| == 0 {
        return false;
      }
      if nowState == Loading {
        return false;
      }
      nowState := Loading;
      return true;
    }

    /** A failed download: back to None. */
    method LoadFailed()
      requires Valid()
      modifies this
      ensures Valid()
      ensures nowState == None
      ensures unchanged(this`gifTextureList, this`delayTime, this`gifTextureIndex, this`nowLoopCount, this`shown)
      ensures unchanged(this`loopCount, this`width, this`height, this`hasRawImage)
    {
      nowState := None;
    }

    /** A finished download: clear, decode (its result is given), then
        Ready with the new frames (and playing when asked), or None when
        decoding failed. */
    method Loaded(gifTexList: C.Option<seq<D.GifTexture>>, loopCount: int, width: int, height: int,
                  autoPlay: bool, now: int)
      requires Valid()
      requires gifTexList.Some? ==> 0 <= loopCount
      modifies this
      ensures Valid()
      ensures hasRawImage == old(hasRawImage)
      ensures gifTexList.None? ==>
        && nowState == None && gifTextureList.None?
        && unchanged(this`loopCount, this`width, this`height)
      ensures gifTexList.Some? ==>
        && gifTextureList == gifTexList && this.loopCount == loopCount
        && this.width == width && this.height == height
      ensures gifTexList.Some? && !autoPlay ==> nowState == Ready
      ensures gifTexList.Some? && autoPlay ==>
        (nowState == Playing <==> hasRawImage && |gifTexList.value| > 0)
      ensures nowState == Playing ==>
        && gifTexList.Some? && autoPlay && |gifTexList.value| > 0
        && gifTextureIndex == 0 && nowLoopCount == 0
        && shown == C.Some(gifTexList.value[0].pixels) && delayTime == now + gifTexList.value[0].delay
      ensures nowState != Playing ==>
        && unchanged(this`gifTextureIndex, this`nowLoopCount, this`delayTime)
        && shown == if hasRawImage then C.None else old(shown)
    {
      Clear();
      nowState := Loading;
      if gifTexList.Some? {
        gifTextureList := gifTexList;
        this.loopCount := loopCount;
        this.width := width;
        this.height := height;
        nowState := Ready;
        if autoPlay {
          Play(now);
        }
      } else {
        nowState := None;
      }
    }

    /** `Clear`: drop the frames and the shown texture; state None. */
    method Clear()
      requires Valid()
      modifies this
      ensures Valid()
      ensures nowState == None && gifTextureList.None?
      ensures shown == if hasRawImage then C.None else old(shown)
      ensures unchanged(this`gifTextureIndex, this`nowLoopCount, this`delayTime)
      ensures unchanged(this`loopCount, this`width, this`height, this`hasRawImage)
    {
      if hasRawImage {
        shown := C.None;
      }
      gifTextureList := C.None;
      nowState := None;
    }

    /** `Play`: from Ready, with a target image and at least one frame,
        show frame 0 and start playing from loop 0; otherwise nothing. */
    method Play(now: int)
      requires Valid()
      modifies this
      ensures Valid()
      ensures old(nowState) == Ready && hasRawImage && gifTextureList.Some? && |gifTextureList.value| > 0 ==>
        && nowState == Playing && gifTextureIndex == 0 && nowLoopCount == 0
        && shown == C.Some(gifTextureList.value[0].pixels) && delayTime == now + gifTextureList.value[0].delay
      ensures !(old(nowState) == Ready && hasRawImage && gifTextureList.Some? && |gifTextureList.value| > 0) ==>
        unchanged(this)
      ensures unchanged(this`gifTextureList, this`loopCount, this`width, this`height, this`hasRawImage)
    {
      if nowState != Ready {
        return;
      }
      if !hasRawImage || gifTextureList.None? || |gifTextureList.value| <= 0 {
        return;
      }
      nowState := Playing;
      shown := C.Some(gifTextureList.value[0].pixels);
      delayTime := now + gifTextureList.value[0].delay;
      gifTextureIndex := 0;
      nowLoopCount := 0;
    }

    /** `Stop`: Playing or Pause to Ready; otherwise nothing. */
    method Stop()
      requires loopCount >= 0
      modifies this
      ensures old(Valid()) ==> Valid()
      ensures old(nowState) == Playing || old(nowState) == State.Pause ==>
        && nowState == Ready
        && unchanged(this`gifTextureList, this`gifTextureIndex, this`nowLoopCount, this`delayTime, this`shown)
        && unchanged(this`loopCount, this`width, this`height, this`hasRawImage)
      ensures !(old(nowState) == Playing || old(nowState) == State.Pause) ==> unchanged(this)
    {
      if nowState != Playing && nowState != State.Pause {
        return;
      }
      nowState := Ready;
    }

    /** `Pause`: Playing to Pause; otherwise nothing. */
    method Pause()
      requires Valid()
      modifies this
      ensures Valid()
      ensures old(nowState) == Playing ==> 
        && nowState == State.Pause
        && unchanged(this`gifTextureList, this`gifTextureIndex, this`nowLoopCount, this`delayTime, this`shown)
        && unchanged(this`loopCount, this`width, this`height, this`hasRawImage)
      ensures old(nowState) != Playing ==> unchanged(this)
    {
      if nowState != Playing {
        return;
      }
      nowState := State.Pause;
    }

    /** `Resume`: Pause to Playing; otherwise nothing. */
    method Resume()
      requires Valid()
      modifies this
      ensures Valid()
      ensures old(nowState) == State.Pause ==> 
        && nowState == Playing
        && unchanged(this`gifTextureList, this`gifTextureIndex, this`nowLoopCount, this`delayTime, this`shown)
        && unchanged(this`loopCount, this`width, this`height, this`hasRawImage)
      ensures old(nowState) != State.Pause ==> unchanged(this)
    {
      if nowState != State.Pause {
        return;
      }
      nowState := Playing;
    }
  }
}
