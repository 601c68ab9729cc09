/** An unbounded single-writer, single-reader channel of work items
    (`Channel.CreateUnbounded` with `SingleReader` and `SingleWriter`):
    a FIFO sequence with a flag that records that the writer completed. */
module Channels {
  import opened Wrappers

  class Channel<T> {
    /** Items written and not yet read, oldest first. */
    var items: seq<T>
    /** Set by `Writer.TryComplete`: no further item will be accepted. */
    var completed: bool

    constructor ()
      ensures items == [] && !completed
    {
      items := [];
      completed := false;
    }

    /** `Writer.TryWrite`: an unbounded channel accepts every item until it is completed,
        and afterwards rejects it by returning false. */
    method TryWrite(item: T) returns (accepted: bool)
      modifies this
      ensures accepted == !old(completed)
      ensures completed == old(completed)
      ensures items == if accepted then old(items) + [item] else old(items)
    {
      accepted := !completed;
      if accepted {
        items := items + [item];
      }
    }

    /** `Writer.TryComplete`: marks the channel completed; false if it already was. */
    method TryComplete() returns (ok: bool)
      modifies this
      ensures ok == !old(completed)
      ensures completed && items == old(items)
    {
      ok := !completed;
      completed := true;
    }

    /** `Reader.WaitToReadAsync` as seen by a reader on the only thread: true when an item
        is available, false once the channel is completed and empty. On an empty channel
        that is not completed it would wait for a writer that can never run. */
    method WaitToRead() returns (more: bool)
      requires completed || items != []
      ensures more <==> items != []
    {
      more := items != [];
    }

    /** `Reader.TryRead`: removes and returns the oldest item, if there is one. */
    method TryRead() returns (r: Option<T>)
      modifies this
      ensures completed == old(completed)
      ensures old(items) == [] ==> r == None && items == []
      ensures old(items) != [] ==> r == Some(old(items)[0]) && items == old(items)[1..]
    {
      if items == [] {
        r := None;
      } else {
        r := Some(items[0]);
        items := items[1..];
      }
    }
  }
}
