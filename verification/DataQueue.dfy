/** The queue between the router's thread and the threads that use it. */
module DataQueue {
  type Item = nat

  class DataQueue {
    var queue: seq<Item>

    constructor ()
      ensures queue == []
    {
      queue := [];
    }

    method RawPush(data: Item)
      modifies this
      ensures queue == old(queue) + [data]
    {
      queue := queue + [data];
    }

    method RawPop() returns (data: seq<Item>)
      modifies this
      ensures old(queue) == [] ==> data == [] && queue == []
      ensures old(queue) != [] ==> data == old(queue)[..1] && queue == old(queue)[1..]
    {
      if |queue| == 0 {
        return [];
      }
      data := [queue[0]];
      queue := queue[1..];
    }

    /** An item is in both queues between its push and its pop. */
    method AppendFrom(other: DataQueue)
      requires other != this
      modifies this, other
      ensures queue == old(queue) + old(other.queue) && other.queue == []
    {
      while |other.queue| > 0
        invariant queue + other.queue == old(queue) + old(other.queue)
        decreases |other.queue|
      {
        RawPush(other.queue[0]);
        var _ := other.RawPop();
      }
    }
  }
}
