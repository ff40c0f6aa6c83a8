/**
 * `deliver!` (lib/mail.rb:80-94): rebuild the message from the stored row,
 * splitting the address columns back into lists, and hand it to the
 * transport. Whatever the transport does is reduced to a `Reply`; an
 * exception anywhere is a `false` result.
 */
module Delivery {
  import opened Wrappers
  import opened Addresses
  import opened Records
  import opened Enqueue

  /** The message handed to the transport; an unset `cc` or `bcc` header is `None`. */
  datatype Envelope = Envelope(
    subject: string,
    body: string,
    from: seq<string>,
    to: seq<string>,
    cc: Option<seq<string>>,
    bcc: Option<seq<string>>,
    charset: string,
    contentType: string)

  /** What the transport call came back with: a value (truthy or not) or an exception. */
  datatype Reply = Returned(truthy: bool) | Raised

  /** The transport as seen by one run: the reply to the `attempt`-th delivery of the batch. */
  type Transport = (nat, Envelope) -> Reply

  /** `cc.split(",") unless cc.blank?`. */
  function Header(column: string): Option<seq<string>> {
    if Blank(column) then None else Some(Split(column))
  }

  /** The message `deliver!` builds from a row. */
  function Compose(m: Mail): Envelope {
    var c := m.content;
    Envelope(c.subject, c.body, Split(c.from), Split(c.to), Header(c.cc), Header(c.bcc), c.charset, c.contentType)
  }

  /** `deliver!`'s result: true only when the transport returned a truthy value; a raised exception is false. */
  predicate Delivered(reply: Reply) {
    reply.Returned? && reply.truthy
  }

  /** `mail.deliver!` as the `attempt`-th delivery of a run. */
  predicate Deliver(m: Mail, attempt: nat, transport: Transport) {
    Delivered(transport(attempt, Compose(m)))
  }

  /** An exception raised by the transport makes `deliver!` answer false, and so does a falsy return. */
  lemma FaultIsFailure(m: Mail, attempt: nat, transport: Transport)
    requires transport(attempt, Compose(m)) in {Raised, Returned(false)}
    ensures !Deliver(m, attempt, transport)
  {
  }

  /**
   * `queue` followed by `deliver!`: the message the transport receives has
   * the sender and recipients the caller queued, and a `cc` or `bcc` header
   * exactly when the caller gave a non-empty list for it.
   */
  lemma QueueThenCompose(msg: Message, opts: QueueOptions, id: nat, now: int)
    requires Build(msg, opts, id, now).Success?
    requires forall a :: a in msg.from.value ==> WellFormed(a)
    requires forall a :: a in msg.to.value ==> WellFormed(a)
    requires forall a :: a in msg.cc.GetOr([]) ==> WellFormed(a)
    requires forall a :: a in msg.bcc.GetOr([]) ==> WellFormed(a)
    ensures Compose(Build(msg, opts, id, now).value) == Envelope(
      msg.subject, msg.body, msg.from.value, msg.to.value,
      if msg.cc.GetOr([]) == [] then None else Some(msg.cc.value),
      if msg.bcc.GetOr([]) == [] then None else Some(msg.bcc.value),
      msg.charset.GetOr(DefaultCharset), msg.contentType)
  {
    Restored(msg.from.value);
    Restored(msg.to.value);
    Restored(msg.cc.GetOr([]));
    Restored(msg.bcc.GetOr([]));
  }

  /** A list of well-formed addresses survives being stored and read back. */
  lemma Restored(xs: seq<string>)
    requires forall a :: a in xs ==> WellFormed(a)
    ensures Split(Join(xs)) == xs
    ensures Header(Join(xs)) == if xs == [] then None else Some(xs)
  {
    forall a | a in xs ensures a != "" && ',' !in a {
      assert WellFormed(a);
    }
    SplitJoin(xs);
    JoinBlank(xs);
  }
}
