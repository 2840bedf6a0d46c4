/**
 * The single-threaded two-stage queue of queue/queue.go.
 *
 * The queued elements are `head[headPos..]` followed by `tail`: pops advance
 * `headPos` through the first stage, pushes append to the second, and when the
 * first stage is used up a pop promotes the second stage to be the first.
 * Elements are Go `interface{}` values and may be nil: `None` stands for nil,
 * which a pop or a peek on an empty queue also returns.
 */
module TwoStageQueue {
  import opened Wrappers

  /**
   * The length of the longest prefix of `s` without nil: every element before
   * it is non-nil, and it is the end of `s` or a nil element.
   */
  function NonNilPrefix<T>(s: seq<Option<T>>): (k: nat)
    ensures k <= |s|
    ensures forall i :: 0 <= i < k ==> s[i].Some?
    ensures k == |s| || s[k].None?
  {
    if s == [] || s[0].None? then 0 else 1 + NonNilPrefix(s[1..])
  }

  class Queue<T> {
    var head: seq<Option<T>>
    var headPos: int
    var tail: seq<Option<T>>

    /**
     * The object invariant: `headPos` lies within the first stage, and every
     * slot before it, already consumed, has been cleared to nil.
     */
    ghost predicate Valid()
      reads this
    {
      0 <= headPos <= |head| &&
      forall i :: 0 <= i < headPos ==> head[i].None?
    }

    /** The abstraction function: the queued elements, front first. */
    ghost function Contents(): seq<Option<T>>
      reads this
      requires Valid()
    {
      head[headPos..] + tail
    }

    /** Go's zero-value `Queue{}`: both stages empty. */
    constructor ()
      ensures Valid() && Contents() == []
      ensures head == [] && headPos == 0 && tail == []
    {
      head, headPos, tail := [], 0, [];
    }

    /** The number of queued elements. */
    function Len(): (n: int)
      reads this
      requires Valid()
      ensures n == |Contents()|
    {
      |head| - headPos + |tail|
    }

    function Empty(): (e: bool)
      reads this
      requires Valid()
      ensures e <==> Contents() == []
    {
      Len() == 0
    }

    /** Appends `w` to the back of the queue. */
    method PushBack(w: Option<T>)
      requires Valid()
      modifies this
      ensures Valid()
      ensures Contents() == old(Contents()) + [w]
      ensures head == old(head) && headPos == old(headPos) && tail == old(tail) + [w]
    {
      tail := tail + [w];
    }

    /**
     * The front element without removing it, or nil on an empty queue. A
     * queued nil is returned as nil too, indistinguishable from "empty".
     */
    function PeekFront(): (w: Option<T>)
      reads this
      requires Valid()
      ensures w == if Contents() == [] then None else Contents()[0]
    {
      if headPos < |head| then head[headPos]
      else if |tail| > 0 then tail[0]
      else None
    }

    /**
     * Removes and returns the front element; on an empty queue returns nil
     * and changes nothing. When the first stage is used up, the second stage
     * becomes the first before the pop. The vacated slot is cleared to nil.
     */
    method PopFront() returns (w: Option<T>)
      requires Valid()
      modifies this
      ensures Valid()
      ensures w == old(PeekFront())
      ensures old(Contents()) == [] ==> unchanged(this)
      ensures old(Contents()) != [] ==> Contents() == old(Contents())[1..]
      ensures old(headPos) >= |old(head)| && old(tail) != [] ==>
        head == old(tail)[0 := None] && headPos == 1 && tail == []
      ensures old(headPos) < |old(head)| ==>
        head == old(head)[old(headPos) := None] && headPos == old(headPos) + 1 && tail == old(tail)
    {
      if headPos >= |head| {
        if |tail| == 0 {
          return None;
        }
        head, headPos, tail := tail, 0, [];
      }
      w := head[headPos];
      head := head[headPos := None];
      headPos := headPos + 1;
    }

    /**
     * Pops front elements for as long as the front is non-nil, reporting
     * whether any was popped. Exactly the longest non-nil prefix goes.
     */
    method CleanFront() returns (cleaned: bool)
      requires Valid()
      modifies this
      ensures Valid()
      ensures Contents() == old(Contents())[NonNilPrefix(old(Contents()))..]
      ensures Contents() == [] || Contents()[0].None?
      ensures cleaned <==> NonNilPrefix(old(Contents())) > 0
    {
      ghost var original := Contents();
      ghost var k := NonNilPrefix(original);
      ghost var removed := 0;
      cleaned := false;
      while true
        invariant Valid()
        invariant 0 <= removed <= k && Contents() == original[removed..]
        invariant cleaned <==> removed > 0
        decreases Len()
      {
        var w := PeekFront();
        if w.None? {
          return;
        }
        var _ := PopFront();
        removed := removed + 1;
        cleaned := true;
      }
    }
  }
}
