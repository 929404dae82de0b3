/**
 One registered file descriptor: its interest bits, the bits epoll reported, and its callbacks.
 A bit field is the set of its bits: | is union and & ~ is difference.
 */
module Events {
  import opened Common

  datatype Bit = EPOLLIN | EPOLLPRI | EPOLLOUT | EPOLLERR | EPOLLHUP | EPOLLRDNORM | EPOLLWRNORM

  const READ_INTEREST: set<Bit> := {EPOLLIN, EPOLLPRI}
  const READ_REPORT: set<Bit> := {EPOLLIN, EPOLLPRI, EPOLLRDNORM}

  /** What an event can be bound to on a connection. */
  datatype Callback = ReadMessage | WritePending

  datatype Dispatch = Nothing | OnError | OnRead | OnWrite | OnClose

  class Event {
    var events: set<Bit>
    var revents: set<Bit>
    var registered: bool  // known to its epoller
    var readCallback: Option<Callback>
    var writeCallback: Option<Callback>
    var errorCallback: Option<Callback>
    var closeCallback: Option<Callback>

    /** Event::make: nothing armed, already added to the epoller. */
    constructor ()
      ensures events == {} && revents == {} && registered
      ensures readCallback.None? && writeCallback.None? && errorCallback.None? && closeCallback.None?
    {
      events, revents, registered := {}, {}, true;
      readCallback, writeCallback, errorCallback, closeCallback := None, None, None, None;
    }

    predicate IsReadable() reads this { READ_INTEREST <= events }

    predicate IsWritable() reads this { EPOLLOUT in events }

    method SetReadable(on: bool)
      modifies this`events
      ensures events == if on then old(events) + {EPOLLIN, EPOLLPRI} else old(events) - {EPOLLIN, EPOLLPRI}
      ensures IsReadable() == on
      ensures IsWritable() == old(IsWritable())
    {
      var onFlag := READ_INTEREST;
      events := if on then events + onFlag else events - onFlag;
      assert !on ==> EPOLLIN !in events;
    }

    method SetWritable(on: bool)
      modifies this`events
      ensures events == if on then old(events) + {EPOLLOUT} else old(events) - {EPOLLOUT}
      ensures IsWritable() == on
      ensures IsReadable() == old(IsReadable())
    {
      var onFlag := {EPOLLOUT};
      events := if on then events + onFlag else events - onFlag;
    }

    /** Which callback a poll result runs: at most one; an error first, then reading, writing, hang-up. */
    method Handle() returns (d: Dispatch)
      // an error comes first, then reading, writing and hang-up, each only if it is bound; what is left is ignored
      ensures var error := EPOLLERR in revents && errorCallback.Some?;
              var read := (EPOLLIN in revents || EPOLLPRI in revents || EPOLLRDNORM in revents) && readCallback.Some?;
              var write := (EPOLLOUT in revents || EPOLLWRNORM in revents) && writeCallback.Some?;
              var hangUp := EPOLLHUP in revents && closeCallback.Some?;
              && (d.OnError? <==> error) && (d.OnRead? <==> read && !error) && (d.OnWrite? <==> write && !read && !error)
              && (d.OnClose? <==> hangUp && !write && !read && !error)
      // on a connection (no error callback) waiting output is served unless input is, and never dropped
      ensures errorCallback.None? && readCallback.Some? && writeCallback.Some? && EPOLLOUT in revents ==>
                d == if revents * READ_REPORT == {} then OnWrite else OnRead
    {
      if EPOLLERR in revents && errorCallback.Some? {
        return OnError;
      }
      assert revents * READ_REPORT != {} <==> EPOLLIN in revents || EPOLLPRI in revents || EPOLLRDNORM in revents by {
        assert forall b :: b in revents * READ_REPORT <==> b in revents && b in READ_REPORT;
      }
      if (EPOLLIN in revents || EPOLLPRI in revents || EPOLLRDNORM in revents) && readCallback.Some? {
        return OnRead;
      }
      if (EPOLLOUT in revents || EPOLLWRNORM in revents) && writeCallback.Some? {
        return OnWrite;
      }
      if EPOLLHUP in revents && closeCallback.Some? {
        return OnClose;
      }
      d := Nothing;
    }
  }
}
