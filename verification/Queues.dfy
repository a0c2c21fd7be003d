/** The two queues between an event and a websocket client, as machines that take one step
    at a time.  Shutting down is not modelled. */
module Queues {
  import opened Options

  /** Passes messages on in order, straight through while the reader keeps up. */
  class QueueHandler<Msg(==)> {
    var q: seq<Msg>
    /** Whether the output channel is offered the head of the queue. */
    var dequeue: bool
    /** Whether a message may go straight to the output channel. */
    var skipQueue: bool
    var next: Option<Msg>
    ghost var accepted: seq<Msg>
    ghost var delivered: seq<Msg>

    /** What was accepted is what was delivered and then what is held, in that order; and
        exactly one of the two ways out is open. */
    ghost predicate Valid()
      reads this
    {
      && delivered + q == accepted
      && (dequeue <==> q != []) && (skipQueue <==> q == [])
      && (q != [] ==> next == Some(q[0]))
    }

    constructor ()
      ensures Valid() && accepted == [] && delivered == []
    {
      q, dequeue, skipQueue, next := [], false, true, None;
      accepted, delivered := [], [];
    }

    /** A message comes in; the reader may or may not be ready at that moment. */
    method Accept(n: Msg, readerReady: bool)
      requires Valid()
      modifies this
      ensures Valid() && accepted == old(accepted) + [n]
      ensures delivered == if old(q) == [] && readerReady then old(delivered) + [n] else old(delivered)
    {
      accepted := accepted + [n];
      if skipQueue && readerReady {
        delivered := delivered + [n];
      } else {
        q := q + [n];
        dequeue := true;
        skipQueue := false;
        next := Some(q[0]);
      }
    }

    /** The reader takes the offered message. */
    method Deliver() returns (n: Msg)
      requires Valid() && dequeue
      modifies this
      ensures Valid() && accepted == old(accepted) && delivered == old(delivered) + [n]
      ensures n == old(accepted)[|old(delivered)|]
    {
      n := next.value;
      delivered := delivered + [n];
      q := q[1..];
      if |q| == 0 {
        dequeue := false;
        skipQueue := true;
      } else {
        next := Some(q[0]);
      }
    }
  }

  /** A message on its way to the socket; a notification asks to be told when it is sent. */
  datatype Response<Msg> = Response(msg: Msg, isNotification: bool)

  /** The notifications among some responses. */
  ghost function Notifications<Msg>(s: seq<Response<Msg>>): (r: seq<Msg>)
    ensures |r| <= |s|
  {
    if s == [] then []
    else Notifications(s[..|s| - 1]) + if s[|s| - 1].isNotification then [s[|s| - 1].msg] else []
  }

  lemma {:induction false} NotificationsFirst<Msg>(s: seq<Response<Msg>>)
    requires s != []
    ensures Notifications(s) == (if s[0].isNotification then [s[0].msg] else []) + Notifications(s[1..])
  {
    if |s| > 1 {
      NotificationsFirst(s[..|s| - 1]);
      assert s[..|s| - 1][1..] == s[1..][..|s| - 2];
    }
  }

  /** The client's notification queue and its output goroutine, joined by the send channel
      and by the one-slot channel on which sent notifications are reported. */
  class ClientQueue<Msg(==)> {
    var pending: seq<Msg>
    var waiting: bool
    var sendChan: seq<Response<Msg>>
    var writing: Option<Response<Msg>>
    var sentChan: nat
    ghost var accepted: seq<Msg>
    ghost var delivered: seq<Msg>

    /** The notification being written, if any. */
    ghost function Written(): seq<Msg>
      reads this
    {
      if writing.Some? && writing.value.isNotification then [writing.value.msg] else []
    }

    /** Nothing is lost or reordered, and the queue waits exactly while one notification is
        under way, from the moment it is handed over until its report is read. */
    ghost predicate Valid()
      reads this
    {
      && delivered + Written() + Notifications(sendChan) + pending == accepted
      && |Written()| + |Notifications(sendChan)| + sentChan == (if waiting then 1 else 0)
      && (pending != [] ==> waiting)
    }

    constructor ()
      ensures Valid() && accepted == [] && delivered == []
    {
      pending, waiting, sendChan, writing, sentChan := [], false, [], None, 0;
      accepted, delivered := [], [];
    }

    method SendMessage(msg: Msg, isNotification: bool)
      modifies `sendChan
      ensures sendChan == old(sendChan) + [Response(msg, isNotification)]
    {
      sendChan := sendChan + [Response(msg, isNotification)];
    }

    /** A notification comes in. */
    method Queue(msg: Msg)
      requires Valid()
      modifies this
      ensures Valid() && accepted == old(accepted) + [msg] && delivered == old(delivered)
    {
      accepted := accepted + [msg];
      if !waiting {
        SendMessage(msg, true);
        assert sendChan[..|sendChan| - 1] == old(sendChan);
      } else {
        pending := pending + [msg];
      }
      waiting := true;
    }

    /** A reply to a command goes out on the same channel. */
    method Reply(msg: Msg)
      requires Valid()
      modifies this
      ensures Valid() && accepted == old(accepted) && delivered == old(delivered)
      ensures sendChan == old(sendChan) + [Response(msg, false)]
    {
      SendMessage(msg, false);
      assert sendChan[..|sendChan| - 1] == old(sendChan);
    }

    /** The output goroutine takes the next response. */
    method Take()
      requires Valid() && writing.None? && sendChan != []
      modifies this
      ensures Valid() && accepted == old(accepted) && delivered == old(delivered)
      ensures writing == Some(old(sendChan)[0]) && sendChan == old(sendChan)[1..]
    {
      NotificationsFirst(sendChan);
      writing := Some(sendChan[0]);
      sendChan := sendChan[1..];
    }

    /** The response is written.  The report of a notification never has to wait: the slot
        for it is empty. */
    method Write()
      requires Valid() && writing.Some?
      modifies this
      ensures Valid() && accepted == old(accepted) && writing == None
      ensures old(writing).value.isNotification ==>
        old(sentChan) == 0 && sentChan == 1 && delivered == old(delivered) + [old(writing).value.msg]
      ensures !old(writing).value.isNotification ==> sentChan == old(sentChan) && delivered == old(delivered)
    {
      var r := writing.value;
      writing := None;
      if r.isNotification {
        sentChan := sentChan + 1;
        delivered := delivered + [r.msg];
      }
    }

    /** The report of a sent notification is read, and the next one handed over. */
    method Report()
      requires Valid() && sentChan > 0
      modifies this
      ensures Valid() && accepted == old(accepted) && delivered == old(delivered) && sentChan == 0
      ensures waiting <==> old(pending) != []
    {
      sentChan := sentChan - 1;
      if |pending| == 0 {
        waiting := false;
      } else {
        var msg := pending[0];
        pending := pending[1..];
        SendMessage(msg, true);
        assert sendChan[..|sendChan| - 1] == old(sendChan);
      }
    }
  }

  /** Delivered notifications are always a prefix of the accepted ones, and once the queue
      is idle they are all of them. */
  lemma IdleMeansDelivered<Msg>(c: ClientQueue<Msg>)
    requires c.Valid()
    ensures c.delivered <= c.accepted
    ensures !c.waiting ==> c.delivered == c.accepted
    ensures c.sentChan <= 1
  {
  }
}
